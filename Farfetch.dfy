/** The farfetch routine over the kernel state it touches: the target's
    resident pages, their dirty marks, and the references, allocations, locks
    and pins it takes and gives back. The kernel services it calls are methods
    whose effect on that state is stated and whose answers are inputs. */
module Farfetch {
  import opened PageMath
  import opened Memory
  import opened Outcome

  /** copy_to_user of `src` into the caller's buffer at `at`. A copy of no
      bytes always succeeds; otherwise it faults when the page is marked as
      faulting or the buffer does not reach the end of the copy. A faulting
      copy leaves the buffer as it was. */
  method CopyToUser(buf: array<bv8>, at: nat, src: seq<bv8>, fault: bool) returns (left: nat)
    modifies buf
    ensures left == 0 <==> !(|src| > 0 && (fault || at + |src| > buf.Length))
    ensures left == 0 && |src| > 0 ==>
      buf[..] == old(buf[..at]) + src + old(buf[at + |src|..])
    ensures left != 0 || |src| == 0 ==> buf[..] == old(buf[..])
  {
    if |src| > 0 && (fault || at + |src| > buf.Length) {
      left := |src|;
    } else {
      left := 0;
      forall j | at <= j < at + |src| {
        buf[j] := src[j - at];
      }
      assert |src| > 0 ==> buf[..] == old(buf[..at]) + src + old(buf[at + |src|..]);
    }
  }

  /** What a call that moved the first m bytes and stopped at page `stop`
      did, taking target pages f0, dirty marks d0 and buffer contents b0 to
      f, d and b: a read fills the front of the buffer with the target's
      bytes and changes nothing else; a write stores the front of the buffer
      into the target and marks the written pages dirty; an unknown command
      changes nothing. No page appears or disappears. */
  ghost predicate Moved(cmd: Command, addr: nat, m: nat, stop: nat,
                        f0: Frames, d0: set<nat>, b0: seq<bv8>, f: Frames, d: set<nat>, b: seq<bv8>)
  {
    m <= |b| == |b0| && WellFormed(f) && f.Keys == f0.Keys &&
    (cmd.FarRead? ==>
      f == f0 && d == d0 && b[..m] == ReadRange(f0, addr, m) && b[m..] == b0[m..]) &&
    (cmd.FarWrite? ==>
      b == b0 && f == WriteRange(f0, addr, b0[..m]) && d == d0 + PageRange(PageOf(addr), stop)) &&
    (cmd.Unknown? ==> f == f0 && d == d0 && b == b0)
  }

  /** Nothing moved yet. */
  lemma NothingMoved(cmd: Command, addr: nat, f: Frames, d: set<nat>, b: seq<bv8>)
    requires WellFormed(f)
    ensures Moved(cmd, addr, 0, 0, f, d, b, f, d, b)
  {
    WriteNothing(f, addr);
    assert b[..0] == [] && b[0..] == b;
  }

  /** Writing chunk `stop` of n bytes, which lies in page vpn at offset po,
      extends a write of the first m bytes of the buffer by that chunk and
      marks page vpn dirty. */
  lemma WriteMovesChunk(addr: nat, m: nat, n: nat, stop: nat, f0: Frames, d0: set<nat>, b0: seq<bv8>,
                        f: Frames, d: set<nat>, vpn: nat, po: nat)
    requires Moved(FarWrite, addr, m, stop, f0, d0, b0, f, d, b0)
    requires vpn == PageOf(addr) + stop && vpn in f && m + n <= |b0|
    requires n > 0 ==> addr + m == vpn * PAGE_SIZE + po && po + n <= PAGE_SIZE
    ensures Moved(FarWrite, addr, m + n, stop + 1, f0, d0, b0,
                  if n > 0 then f[vpn := f[vpn][..po] + b0[m..m + n] + f[vpn][po + n..]] else f,
                  d + {vpn}, b0)
  {
    if n > 0 {
      WriteStep(f0, addr, b0[..m], b0[m..m + n], vpn, po);
      assert b0[..m] + b0[m..m + n] == b0[..m + n];
    } else {
      assert b0[..m + n] == b0[..m];
    }
    PageRangeSnoc(PageOf(addr), stop);
  }

  /** The bytes of the range the copy loop works on all lie in the pages
      pinned for it. */
  lemma PinnedMapped(addr: Word, len: Word, env: Env, f: Frames)
    requires env.pin.Fits(Normalize(addr, len).nrPages)
    requires forall v :: PageOf(addr) <= v < PageOf(addr) + env.pin.Pinned() ==> v in f
    ensures Mapped(f, addr, PinnedSpan(addr, len, env).len)
  {
    var s := PinnedSpan(addr, len, env);
    forall a | addr <= a < addr + s.len
      ensures PageOf(a) in f
    {
      assert addr == PageOf(addr) * PAGE_SIZE + s.pageOff;
      assert a < (PageOf(addr) + s.nrPages) * PAGE_SIZE;
    }
  }

  class Kernel {
    /** The target's resident pages, by virtual page number. */
    var frames: Frames
    /** Pages marked dirty by set_page_dirty_lock. */
    var dirty: set<nat>
    /** References on the target mm. */
    var mmRefs: nat
    /** Live kmalloc allocations. */
    var scratch: nat
    /** Holders of the target's mmap read lock. */
    var readers: nat
    /** Pins outstanding on the target's pages. Which pages they are on is
        recorded in `events`. */
    var pins: nat
    /** The acquisitions and releases so far. */
    ghost var events: seq<Event>

    ghost predicate Valid()
      reads this
    {
      WellFormed(frames)
    }

    constructor (frames: Frames)
      requires WellFormed(frames)
      ensures Valid() && this.frames == frames && dirty == {}
      ensures mmRefs == 0 && scratch == 0 && readers == 0 && pins == 0 && events == []
    {
      this.frames := frames;
      dirty := {};
      mmRefs, scratch, readers, pins := 0, 0, 0, 0;
      events := [];
    }

    /** find_get_pid, get_pid_task, get_task_mm and the release of the
        transient pid and task references: on success one reference on the
        mm is held. */
    method GetTaskMm(lookup: Lookup) returns (found: bool)
      modifies this`mmRefs, this`events
      ensures found == lookup.Found?
      ensures mmRefs == old(mmRefs) + (if found then 1 else 0)
      ensures events == old(events) + (if found then [GetMm] else [])
    {
      found := lookup.Found?;
      if found {
        mmRefs := mmRefs + 1;
        events := events + [GetMm];
      }
    }

    method Mmput()
      requires mmRefs > 0
      modifies this`mmRefs, this`events
      ensures mmRefs == old(mmRefs) - 1
      ensures events == old(events) + [Event.Mmput]
    {
      mmRefs := mmRefs - 1;
      events := events + [Event.Mmput];
    }

    /** kmalloc_array of n page pointers; null when allocation fails. */
    method KmallocArray(n: nat, ok: bool) returns (pages: array?<nat>)
      modifies this`scratch, this`events
      ensures ok ==> pages != null && fresh(pages) && pages.Length == n
      ensures !ok ==> pages == null
      ensures scratch == old(scratch) + (if ok then 1 else 0)
      ensures events == old(events) + (if ok then [Alloc(n)] else [])
    {
      if ok {
        pages := new nat[n];
        scratch := scratch + 1;
        events := events + [Alloc(n)];
      } else {
        pages := null;
      }
    }

    method Kfree(pages: array<nat>)
      requires scratch > 0
      modifies this`scratch, this`events
      ensures scratch == old(scratch) - 1
      ensures events == old(events) + [Free]
    {
      scratch := scratch - 1;
      events := events + [Free];
    }

    /** mmap_read_lock_killable: fails, holding nothing, when interrupted. */
    method MmapReadLockKillable(interrupted: bool) returns (failed: bool)
      modifies this`readers, this`events
      ensures failed == interrupted
      ensures readers == old(readers) + (if failed then 0 else 1)
      ensures events == old(events) + (if failed then [] else [Lock])
    {
      failed := interrupted;
      if !failed {
        readers := readers + 1;
        events := events + [Lock];
      }
    }

    method MmapReadUnlock()
      requires readers > 0
      modifies this`readers, this`events
      ensures readers == old(readers) - 1
      ensures events == old(events) + [Unlock]
    {
      readers := readers - 1;
      events := events + [Unlock];
    }

    /** get_user_pages_remote of n pages from `start`, under the read lock.
        It answers an error or a count of pinned pages, fills the page list
        with those pages in address order, and reports in `locked` whether
        it still holds the lock. */
    method GetUserPagesRemote(start: Word, n: nat, write: bool, pages: array<nat>, answer: PinResult)
      returns (ret: int, locked: bool)
      requires readers > 0 && pages.Length == n && answer.Fits(n)
      modifies pages, this`pins, this`readers, this`events
      ensures locked == answer.lockKept
      ensures readers == old(readers) - (if locked then 0 else 1)
      ensures ret == if answer.PinOk? then answer.count else answer.errno
      ensures pins == old(pins) + answer.Pinned()
      ensures forall k :: 0 <= k < answer.Pinned() ==> pages[k] == PageOf(start) + k
      ensures events == old(events) + [Pin(PageOf(start), n, write, answer.Pinned(), locked)]
    {
      forall k | 0 <= k < answer.Pinned() {
        pages[k] := PageOf(start) + k;
      }
      pins := pins + answer.Pinned();
      locked := answer.lockKept;
      if !locked {
        readers := readers - 1;
      }
      ret := if answer.PinOk? then answer.count else answer.errno;
      events := events + [Pin(PageOf(start), n, write, answer.Pinned(), locked)];
    }

    method PutPage(vpn: nat)
      requires pins > 0
      modifies this`pins, this`events
      ensures pins == old(pins) - 1
      ensures events == old(events) + [Event.PutPage(vpn)]
    {
      pins := pins - 1;
      events := events + [Event.PutPage(vpn)];
    }

    method SetPageDirtyLock(vpn: nat)
      modifies this`dirty
      ensures dirty == old(dirty) + {vpn}
    {
      dirty := dirty + {vpn};
    }

    /** copy_from_user of n bytes of the caller's buffer at `at` into page
        vpn at offset po, with the same fault rule as CopyToUser. */
    method CopyFromUser(vpn: nat, po: nat, buf: array<bv8>, at: nat, n: nat, fault: bool)
      returns (left: nat)
      requires Valid() && vpn in frames && po + n <= PAGE_SIZE
      modifies this`frames
      ensures Valid()
      ensures left == 0 <==> !(n > 0 && (fault || at + n > buf.Length))
      ensures left == 0 && n > 0 ==>
        frames == old(frames)[vpn := old(frames[vpn])[..po] + buf[at..at + n] + old(frames[vpn])[po + n..]]
      ensures left != 0 || n == 0 ==> frames == old(frames)
    {
      if n > 0 && (fault || at + n > buf.Length) {
        left := n;
      } else {
        left := 0;
        if n > 0 {
          frames := frames[vpn := frames[vpn][..po] + buf[at..at + n] + frames[vpn][po + n..]];
        }
      }
    }

    /** The FAR_READ case of the copy loop (lines 99-103) for page i: copy
        its chunk to the buffer, extending what has been read so far. A
        fault leaves everything as it was. */
    method ReadChunk(buf: array<bv8>, addr: Word, s: Span, i: nat, vpn: nat,
                     iter: nat, pageOff: nat, toCopy: nat, fault: bool,
                     ghost f0: Frames, ghost d0: set<nat>, ghost b0: seq<bv8>)
      returns (ret: int)
      requires s.Covers() && s.pageOff == addr % PAGE_SIZE && i < s.nrPages
      requires vpn == PageOf(addr) + i && vpn in frames
      requires iter == ChunkStart(s.pageOff, s.len, i) && pageOff == ChunkOffset(s.pageOff, i)
      requires toCopy == ChunkLen(s.pageOff, s.len, i)
      requires Moved(FarRead, addr, iter, i, f0, d0, b0, frames, dirty, buf[..])
      modifies buf
      ensures ret == (if toCopy > 0 && (fault || iter + toCopy > buf.Length) then -EFAULT else 0)
      ensures ret == 0 ==> Moved(FarRead, addr, iter + toCopy, i + 1, f0, d0, b0, frames, dirty, buf[..])
      ensures ret != 0 ==> Moved(FarRead, addr, iter, i, f0, d0, b0, frames, dirty, buf[..])
    {
      var left := CopyToUser(buf, iter, frames[vpn][pageOff..pageOff + toCopy], fault);
      ret := if left != 0 then -EFAULT else 0;
      if left == 0 && toCopy > 0 {
        ChunkAddress(addr, s.len, i);
        ReadStep(frames, addr, iter, toCopy, vpn, pageOff);
        assert old(buf[..])[..iter] == ReadRange(frames, addr, iter);
        assert old(buf[..])[iter + toCopy..] == b0[iter + toCopy..];
        assert buf[..iter + toCopy] == ReadRange(f0, addr, iter + toCopy);
        assert buf[iter + toCopy..] == b0[iter + toCopy..];
      }
    }

    /** The FAR_WRITE case of the copy loop (lines 104-110) for page i: copy
        its chunk from the buffer into the page and mark the page dirty. A
        fault leaves everything as it was. */
    method WriteChunk(buf: array<bv8>, addr: Word, s: Span, i: nat, vpn: nat,
                      iter: nat, pageOff: nat, toCopy: nat, fault: bool,
                      ghost f0: Frames, ghost d0: set<nat>, ghost b0: seq<bv8>)
      returns (ret: int)
      requires WellFormed(f0) && s.Covers() && s.pageOff == addr % PAGE_SIZE && i < s.nrPages
      requires vpn == PageOf(addr) + i && vpn in f0
      requires iter == ChunkStart(s.pageOff, s.len, i) && pageOff == ChunkOffset(s.pageOff, i)
      requires toCopy == ChunkLen(s.pageOff, s.len, i)
      requires Moved(FarWrite, addr, iter, i, f0, d0, b0, frames, dirty, buf[..])
      modifies this`frames, this`dirty
      ensures ret == (if toCopy > 0 && (fault || iter + toCopy > buf.Length) then -EFAULT else 0)
      ensures ret == 0 ==> Moved(FarWrite, addr, iter + toCopy, i + 1, f0, d0, b0, frames, dirty, buf[..])
      ensures ret != 0 ==> Moved(FarWrite, addr, iter, i, f0, d0, b0, frames, dirty, buf[..])
    {
      var left := CopyFromUser(vpn, pageOff, buf, iter, toCopy, fault);
      ret := if left != 0 then -EFAULT else 0;
      if left == 0 {
        if toCopy > 0 {
          ChunkAddress(addr, s.len, i);
        }
        WriteMovesChunk(addr, iter, toCopy, i, f0, d0, b0, old(frames), old(dirty), vpn, pageOff);
        SetPageDirtyLock(vpn);
      }
    }

    /** One pass of the copy loop (lines 89-118) for page i, whose pinned
        page is vpn: copy its chunk as the command says. It fails with
        -EINVAL for an unknown command and -EFAULT when the chunk faults,
        leaving everything as it was; otherwise it has moved one chunk more. */
    method CopyChunk(cmd: Command, buf: array<bv8>, addr: Word, s: Span, i: nat, vpn: nat,
                     iter: nat, pageOff: nat, faults: set<nat>,
                     ghost f0: Frames, ghost d0: set<nat>, ghost b0: seq<bv8>)
      returns (ret: int, toCopy: nat)
      requires WellFormed(f0) && s.Covers() && s.pageOff == addr % PAGE_SIZE && i < s.nrPages
      requires vpn == PageOf(addr) + i && vpn in f0
      requires iter == ChunkStart(s.pageOff, s.len, i) && pageOff == ChunkOffset(s.pageOff, i)
      requires Moved(cmd, addr, iter, i, f0, d0, b0, frames, dirty, buf[..])
      modifies this`frames, this`dirty, buf
      ensures toCopy == ChunkLen(s.pageOff, s.len, i)
      ensures ret == if cmd.Unknown? then -EINVAL
                     else if ChunkFaults(s, buf.Length, faults, i) then -EFAULT else 0
      ensures ret == 0 ==> Moved(cmd, addr, iter + toCopy, i + 1, f0, d0, b0, frames, dirty, buf[..])
      ensures ret != 0 ==> Moved(cmd, addr, iter, i, f0, d0, b0, frames, dirty, buf[..])
    {
      toCopy := Min(s.len - iter, PAGE_SIZE - pageOff);
      match cmd {
        case FarRead =>
          ret := ReadChunk(buf, addr, s, i, vpn, iter, pageOff, toCopy, i in faults, f0, d0, b0);
        case FarWrite =>
          ret := WriteChunk(buf, addr, s, i, vpn, iter, pageOff, toCopy, i in faults, f0, d0, b0);
        case Unknown(_) =>
          ret := -EINVAL;
      }
    }

    /** Lines 88-120: copy the span page by page between the pinned pages and
        the caller's buffer, marking a written page dirty when its copy
        succeeds, and stop at the first fault or unknown command. */
    method CopyPages(cmd: Command, buf: array<bv8>, addr: Word, s: Span,
                     pages: array<nat>, faults: set<nat>)
      returns (ret: int)
      requires Valid() && s.Covers() && s.pageOff == addr % PAGE_SIZE
      requires s.nrPages <= pages.Length && pages as object != buf as object
      requires forall k :: 0 <= k < s.nrPages ==> pages[k] == PageOf(addr) + k && pages[k] in frames
      modifies this`frames, this`dirty, buf
      ensures ret == if StopAt(cmd, s, buf.Length, faults) < s.nrPages then
                       (if cmd.Unknown? then -EINVAL else -EFAULT) else 0
      ensures Moved(cmd, addr, ChunkStart(s.pageOff, s.len, StopAt(cmd, s, buf.Length, faults)),
                    StopAt(cmd, s, buf.Length, faults),
                    old(frames), old(dirty), old(buf[..]), frames, dirty, buf[..])
    {
      ghost var f0, d0, b0 := frames, dirty, buf[..];
      ghost var stop := StopAt(cmd, s, buf.Length, faults);
      ret := 0;
      var iter: nat := 0;
      var pageOff := s.pageOff;
      var i := 0;
      NothingMoved(cmd, addr, frames, dirty, buf[..]);
      while i < s.nrPages
        invariant i <= stop
        invariant iter == ChunkStart(s.pageOff, s.len, i) && pageOff == ChunkOffset(s.pageOff, i)
        invariant Moved(cmd, addr, iter, i, f0, d0, b0, frames, dirty, buf[..])
      {
        var toCopy;
        ret, toCopy := CopyChunk(cmd, buf, addr, s, i, pages[i], iter, pageOff, faults, f0, d0, b0);
        if ret != 0 {
          break;
        }
        pageOff := 0;
        iter := iter + toCopy;
        i := i + 1;
      }
      assert i == stop by {
        if ret != 0 && !cmd.Unknown? {
          assert ChunkFaults(s, buf.Length, faults, i);
        }
      }
      if ret == 0 {
        ChunksCoverSpan(s);
        assert iter == s.len;  // the check at line 120 never fires
      }
    }

    /** Lines 122-123: put_page on each of the n pinned pages in list order. */
    method PutPages(pages: array<nat>, n: nat, ghost vpn0: nat)
      requires n <= pages.Length && forall k :: 0 <= k < n ==> pages[k] == vpn0 + k
      requires pins >= n
      modifies this`pins, this`events
      ensures pins == old(pins) - n
      ensures events == old(events) + Puts(vpn0, n)
    {
      var i := 0;
      while i < n
        invariant i <= n && pins == old(pins) - i
        invariant events == old(events) + Puts(vpn0, i)
      {
        PutPage(pages[i]);
        PutsSnoc(vpn0, i);
        i := i + 1;
      }
    }

    /** Lines 82-126, once the pages are pinned and the mm dropped: shrink
        the range `sp` to the `pinned` pages, run the copy loop, put the
        pages, free the page list and return the error or the length. */
    method CopyAndRelease(cmd: Command, buf: array<bv8>, addr: Word, sp: Span,
                          pages: array<nat>, pinned: nat, faults: set<nat>)
      returns (r: int)
      requires Valid() && sp.Covers() && sp.pageOff == addr % PAGE_SIZE && pinned <= sp.nrPages
      requires pages.Length == sp.nrPages && pages as object != buf as object
      requires forall k :: 0 <= k < pinned ==> pages[k] == PageOf(addr) + k
      requires forall v :: PageOf(addr) <= v < PageOf(addr) + pinned ==> v in frames
      requires pins >= pinned && scratch > 0
      modifies this`frames, this`dirty, this`pins, this`scratch, this`events, buf
      ensures r == LoopResult(cmd, Shrink(sp, pinned), buf.Length, faults)
      ensures pins == old(pins) - pinned && scratch == old(scratch) - 1
      ensures events == old(events) + Puts(PageOf(addr), pinned) + [Free]
      ensures var s := Shrink(sp, pinned);
        var stop := StopAt(cmd, s, buf.Length, faults);
        Moved(cmd, addr, ChunkStart(s.pageOff, s.len, stop), stop,
              old(frames), old(dirty), old(buf[..]), frames, dirty, buf[..])
    {
      var nr, ln := sp.nrPages, sp.len;
      if pinned < nr {
        nr := pinned;
        ln := if pinned == 0 then 0 else pinned * PAGE_SIZE - sp.pageOff;
        // The check at line 84, which the code as written fails for pinned == 0
        // when page_off > 0.
        assert ln <= sp.len;
      }
      var s := Span(sp.pageOff, ln, nr);
      assert s == Shrink(sp, pinned);

      var ret := CopyPages(cmd, buf, addr, s, pages, faults);
      PutPages(pages, nr, PageOf(addr));
      Kfree(pages);

      r := if ret != 0 then ret else ln;
    }

    /** Lines 71-126, with the mm referenced, the page list allocated and the
        mmap read lock held: pin the pages of the range `sp` as `pin` answers,
        drop the lock and the mm, then copy and release. */
    method PinAndCopy(cmd: Command, buf: array<bv8>, addr: Word, sp: Span,
                      pages: array<nat>, pin: PinResult, faults: set<nat>)
      returns (r: int)
      requires Valid() && sp.Covers() && sp.pageOff == addr % PAGE_SIZE && pin.Fits(sp.nrPages)
      requires mmRefs > 0 && readers > 0 && scratch > 0
      requires pages.Length == sp.nrPages && pages as object != buf as object
      requires forall v :: PageOf(addr) <= v < PageOf(addr) + pin.Pinned() ==> v in frames
      modifies pages, this`frames, this`dirty, this`mmRefs, this`scratch, this`readers, this`pins,
               this`events, buf
      ensures events
           == old(events) + PinTrace(PageOf(addr), sp.nrPages, cmd.FarWrite?, pin.Pinned(), pin.lockKept)
      ensures mmRefs == old(mmRefs) - 1 && scratch == old(scratch) - 1
      ensures readers == old(readers) - 1
      ensures pins == old(pins)
      ensures pin.PinFailed? ==>
        r == pin.errno && Moved(cmd, addr, 0, 0, old(frames), old(dirty), old(buf[..]), frames, dirty, buf[..])
      ensures pin.PinOk? ==> r == LoopResult(cmd, Shrink(sp, pin.count), buf.Length, faults)
      ensures pin.PinOk? ==>
        var s := Shrink(sp, pin.count);
        var stop := StopAt(cmd, s, buf.Length, faults);
        Moved(cmd, addr, ChunkStart(s.pageOff, s.len, stop), stop,
              old(frames), old(dirty), old(buf[..]), frames, dirty, buf[..])
    {
      ghost var e0 := events;
      NothingMoved(cmd, addr, frames, dirty, buf[..]);
      var ret, locked := GetUserPagesRemote(addr, sp.nrPages, cmd.FarWrite?, pages, pin);
      if locked {
        MmapReadUnlock();
      }
      Mmput();
      PinTraceFrom(e0, events, PageOf(addr), sp.nrPages, cmd.FarWrite?, pin.Pinned(), locked);
      if IsErrValue(ret) {
        Kfree(pages);
        assert Puts(PageOf(addr), 0) == [];
        return ret;
      }
      assert frames == old(frames) && dirty == old(dirty);
      assert buf[..] == old(buf[..]);
      r := CopyAndRelease(cmd, buf, addr, sp, pages, ret, faults);
    }

    /** Lines 54-126, with a reference on the target's mm held: allocate
        the page list for the range `sp` computed at lines 29 and 36-37,
        take the mmap read lock, then pin and copy. */
    method WithMm(cmd: Command, buf: array<bv8>, addr: Word, sp: Span, env: Env)
      returns (r: int)
      requires Valid() && sp.Covers() && sp.pageOff == addr % PAGE_SIZE && env.pin.Fits(sp.nrPages)
      requires env.euid == 0 && env.lookup.Found? && mmRefs > 0
      requires forall v :: PageOf(addr) <= v < PageOf(addr) + env.pin.Pinned() ==> v in frames
      modifies this`frames, this`dirty, this`mmRefs, this`scratch, this`readers, this`pins,
               this`events, buf
      ensures r == SpanResult(cmd, sp, buf.Length, env)
      ensures events == old(events) + MmTrace(cmd, PageOf(addr), sp.nrPages, env)
      ensures mmRefs == old(mmRefs) - 1 && scratch == old(scratch) && readers == old(readers)
      ensures pins == old(pins)
      ensures Moved(cmd, addr, SpanCopied(cmd, sp, buf.Length, env), SpanStop(cmd, sp, buf.Length, env),
                    old(frames), old(dirty), old(buf[..]), frames, dirty, buf[..])
    {
      NothingMoved(cmd, addr, frames, dirty, buf[..]);
      var pages := KmallocArray(sp.nrPages, env.allocOk);
      if pages == null {
        Mmput();
        assert frames == old(frames) && dirty == old(dirty) && buf[..] == old(buf[..]);
        return -ENOMEM;
      }
      var interrupted := MmapReadLockKillable(env.lockInterrupted);
      if interrupted {
        Mmput();
        Kfree(pages);
        assert frames == old(frames) && dirty == old(dirty) && buf[..] == old(buf[..]);
        return -EINTR;
      }
      PinnedTraceFrom(old(events), events, PageOf(addr), sp.nrPages, cmd.FarWrite?,
                      env.pin.Pinned(), env.pin.lockKept);
      assert frames == old(frames) && dirty == old(dirty) && buf[..] == old(buf[..]);
      r := PinAndCopy(cmd, buf, addr, sp, pages, env.pin, env.faults);
    }

    /** farfetch (lines 17-127): move up to `len` bytes between the caller's
        buffer and the target's memory at `targetAddr`, as `cmd` says. The
        kernel's answers come from `env`; the routine's result, its effect on
        the buffer and the target, and the acquisitions and releases it
        performs are those the Outcome functions give, and everything it
        acquires is given back. */
    method Farfetch(cmd: Command, buf: array<bv8>, targetAddr: Word, len: Word, env: Env)
      returns (r: int)
      requires Valid() && env.pin.Fits(Normalize(targetAddr, len).nrPages)
      requires forall v :: PageOf(targetAddr) <= v < PageOf(targetAddr) + env.pin.Pinned() ==>
                             v in frames
      modifies this`frames, this`dirty, this`mmRefs, this`scratch, this`readers, this`pins,
               this`events, buf
      ensures r == Expected(cmd, targetAddr, len, buf.Length, env)
      ensures events == old(events) + Trace(cmd, targetAddr, len, env)
      ensures mmRefs == old(mmRefs) && scratch == old(scratch) && readers == old(readers)
      ensures pins == old(pins)
      ensures Moved(cmd, targetAddr, Copied(cmd, targetAddr, len, buf.Length, env),
                    StopPage(cmd, targetAddr, len, buf.Length, env),
                    old(frames), old(dirty), old(buf[..]), frames, dirty, buf[..])
    {
      var sp := Normalize(targetAddr, len);
      assert sp.nrPages * PAGE_SIZE >= sp.len;  // the check at line 38 never fires
      NothingMoved(cmd, targetAddr, frames, dirty, buf[..]);
      if env.euid != 0 {
        return -EPERM;
      }
      var found := GetTaskMm(env.lookup);
      if !found {
        return -ESRCH;
      }
      TraceFrom(old(events), events, cmd, targetAddr, len, env);
      r := WithMm(cmd, buf, targetAddr, sp, env);
    }
  }

  /** Two calls on the same range under the same kernel answers: a write
      from `wbuf`, then a read into `rbuf`. When both succeed they move the
      same number of bytes, the target holds what was written, and the read
      gives it back. */
  method WriteThenRead(k: Kernel, wbuf: array<bv8>, rbuf: array<bv8>,
                       addr: Word, len: Word, env: Env)
    returns (rw: int, rr: int)
    requires k.Valid() && env.pin.Fits(Normalize(addr, len).nrPages)
    requires forall v :: PageOf(addr) <= v < PageOf(addr) + env.pin.Pinned() ==> v in k.frames
    requires wbuf != rbuf
    modifies k, wbuf, rbuf
    ensures rw >= 0 ==> rw <= wbuf.Length && ReadRange(k.frames, addr, rw) == old(wbuf[..rw])
    ensures rw >= 0 && rr >= 0 ==> rr == rw <= rbuf.Length && rbuf[..rr] == old(wbuf[..rw])
  {
    ghost var f0, w0 := k.frames, wbuf[..];
    rw := k.Farfetch(FarWrite, wbuf, addr, len, env);
    ghost var f1 := k.frames;
    rr := k.Farfetch(FarRead, rbuf, addr, len, env);
    if rw >= 0 {
      ReturnIsCountOrErrno(FarWrite, addr, len, wbuf.Length, env);
      CopiedWithinBuffer(FarWrite, addr, len, wbuf.Length, env);
      PinnedMapped(addr, len, env, f0);
      ReadAfterWrite(f0, addr, w0[..rw]);
      if rr >= 0 {
        ReturnIsCountOrErrno(FarRead, addr, len, rbuf.Length, env);
        CopiedWithinBuffer(FarRead, addr, len, rbuf.Length, env);
      }
    }
  }
}
