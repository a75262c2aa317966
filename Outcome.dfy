/** What one farfetch call does, stated as functions of its inputs and of
    the answers the kernel services give: the value it returns, how far the
    copy loop gets, and the sequence of resource acquisitions and releases. */
module Outcome {
  import opened PageMath

  const EPERM: int := 1
  const ESRCH: int := 3
  const EINTR: int := 4
  const ENOMEM: int := 12
  const EFAULT: int := 14
  const EINVAL: int := 22

  /** IS_ERR_VALUE: a value in the last MAX_ERRNO values of the word. */
  predicate IsErrValue(x: int)
  {
    -(MAX_ERRNO as int) <= x <= -1
  }

  /** The `cmd` argument: FAR_READ, FAR_WRITE or any other value. */
  datatype Command = FarRead | FarWrite | Unknown(code: nat)

  /** The pid lookup: no live task, a task without an mm, or a task and its mm. */
  datatype Lookup = NoTask | NoMm | Found

  /** The answer of get_user_pages_remote: an error value or the number of
      pages pinned, and whether the mmap lock is still held afterwards
      (the `locked` flag it may clear when it dropped the lock itself). */
  datatype PinResult =
    | PinFailed(errno: int, lockKept: bool)
    | PinOk(count: nat, lockKept: bool)
  {
    function Pinned(): nat
    {
      if PinOk? then count else 0
    }

    /** An error is an IS_ERR_VALUE; a count never exceeds the pages asked for. */
    predicate Fits(requested: nat)
    {
      match this
      case PinFailed(e, _) => IsErrValue(e)
      case PinOk(n, _) => n <= requested
    }
  }

  /** The answers of the kernel services during one call. */
  datatype Env = Env(
    euid: nat,               // the caller's effective uid in its own namespace
    lookup: Lookup,          // find_get_pid, get_pid_task and get_task_mm
    allocOk: bool,           // kmalloc_array of the page list succeeds
    lockInterrupted: bool,   // mmap_read_lock_killable is interrupted
    pin: PinResult,          // get_user_pages_remote
    faults: set<nat>)        // pages whose user copy faults even inside the buffer

  /** Acquisitions and releases of the call, in the order they happen. */
  datatype Event =
    | GetMm                  // get_task_mm took a reference on the mm
    | Mmput                  // mmput dropped it
    | Alloc(n: nat)          // kmalloc_array of n page pointers
    | Free                   // kfree of the page list
    | Lock                   // mmap_read_lock_killable acquired the lock
    | Unlock                 // mmap_read_unlock
    | Pin(vpn: nat, requested: nat, write: bool, pinned: nat, lockKept: bool)
    | PutPage(vpn: nat)      // put_page of one pinned page

  /** Resources held: mm references, page lists, read locks, page pins. */
  datatype Held = Held(mm: nat, scratch: nat, locks: nat, pins: multiset<nat>)

  /** Pins on the pages vpn, vpn + 1, ..., vpn + n - 1. */
  function PinSet(vpn: nat, n: nat): (m: multiset<nat>)
    ensures |m| == n
    ensures n > 0 ==> vpn in m
    decreases n
  {
    if n == 0 then multiset{} else multiset{vpn} + PinSet(vpn + 1, n - 1)
  }

  /** The pin set holds one pin on each page of the range and nothing else. */
  lemma {:induction false} PinSetPages(vpn: nat, n: nat, v: nat)
    ensures PinSet(vpn, n)[v] == if vpn <= v < vpn + n then 1 else 0
    decreases n
  {
    if n > 0 {
      PinSetPages(vpn + 1, n - 1, v);
    }
  }

  /** The pages vpn, vpn + 1, ..., vpn + n - 1. */
  function PageRange(vpn: nat, n: nat): (r: set<nat>)
    ensures forall v :: v in r <==> vpn <= v < vpn + n
    decreases n
  {
    if n == 0 then {} else {vpn} + PageRange(vpn + 1, n - 1)
  }

  lemma PageRangeSnoc(vpn: nat, n: nat)
    ensures PageRange(vpn, n + 1) == PageRange(vpn, n) + {vpn + n}
  {
  }

  /** put_page on vpn, vpn + 1, ..., vpn + n - 1, in that order. */
  function Puts(vpn: nat, n: nat): (es: seq<Event>)
    ensures |es| == n
    decreases n
  {
    if n == 0 then [] else [PutPage(vpn)] + Puts(vpn + 1, n - 1)
  }

  /** The k-th put is on page vpn + k. */
  lemma {:induction false} PutsPages(vpn: nat, n: nat, k: nat)
    requires k < n
    ensures Puts(vpn, n)[k] == PutPage(vpn + k)
    decreases n
  {
    if k > 0 {
      PutsPages(vpn + 1, n - 1, k - 1);
    }
  }

  /** One more put extends the sequence at the end. */
  lemma {:induction false} PutsSnoc(vpn: nat, n: nat)
    ensures Puts(vpn, n + 1) == Puts(vpn, n) + [PutPage(vpn + n)]
    decreases n
  {
    if n > 0 {
      PutsSnoc(vpn + 1, n - 1);
    }
  }

  /** One event applied to what is held; None when it releases something
      that is not held or pins without the lock. */
  function Step(h: Held, e: Event): Option<Held>
  {
    match e
    case GetMm => Some(h.(mm := h.mm + 1))
    case Mmput => if h.mm > 0 then Some(h.(mm := h.mm - 1)) else None
    case Alloc(_) => Some(h.(scratch := h.scratch + 1))
    case Free => if h.scratch > 0 then Some(h.(scratch := h.scratch - 1)) else None
    case Lock => Some(h.(locks := h.locks + 1))
    case Unlock => if h.locks > 0 then Some(h.(locks := h.locks - 1)) else None
    case Pin(vpn, _, _, n, kept) =>
      if h.locks > 0 then
        Some(h.(locks := if kept then h.locks else h.locks - 1, pins := h.pins + PinSet(vpn, n)))
      else None
    case PutPage(v) => if v in h.pins then Some(h.(pins := h.pins - multiset{v})) else None
  }

  datatype Option<T> = None | Some(value: T)

  /** The events applied in order; None as soon as one of them is invalid. */
  function Replay(h: Held, es: seq<Event>): Option<Held>
    decreases |es|
  {
    if es == [] then Some(h)
    else
      match Step(h, es[0])
      case None => None
      case Some(h') => Replay(h', es[1..])
  }

  /** An event is refused exactly when it releases something not held or
      pins without the lock; taking a reference, an allocation or the lock
      always succeeds. */
  lemma StepFails(h: Held, e: Event)
    ensures Step(h, e).None? <==>
      (e.Mmput? && h.mm == 0) || (e.Free? && h.scratch == 0) ||
      ((e.Unlock? || e.Pin?) && h.locks == 0) || (e.PutPage? && e.vpn !in h.pins)
  {
  }

  /** A valid sequence of events ends with the mm references it started
      with, plus one for each get_task_mm and minus one for each mmput. */
  lemma {:induction false} ReplayMm(h: Held, es: seq<Event>)
    ensures Replay(h, es).Some? ==>
      Replay(h, es).value.mm + multiset(es)[Mmput] == h.mm + multiset(es)[GetMm]
    decreases |es|
  {
    if es != [] && Step(h, es[0]).Some? {
      assert es == [es[0]] + es[1..];
      ReplayMm(Step(h, es[0]).value, es[1..]);
    }
  }

  /** Does the copy of page i of span s fault? A chunk of no bytes never
      faults; otherwise it faults when the caller's buffer does not reach
      its end or the page is one of the faulting ones. */
  predicate ChunkFaults(s: Span, bufLen: nat, faults: set<nat>, i: nat)
    requires s.pageOff < PAGE_SIZE
  {
    ChunkLen(s.pageOff, s.len, i) > 0 &&
    (i in faults || ChunkStart(s.pageOff, s.len, i + 1) > bufLen)
  }

  /** The first page from i on whose copy faults, or nrPages if none does. */
  function FirstFault(s: Span, bufLen: nat, faults: set<nat>, i: nat): (k: nat)
    requires s.Covers() && i <= s.nrPages
    ensures i <= k <= s.nrPages
    ensures forall j :: i <= j < k ==> !ChunkFaults(s, bufLen, faults, j)
    ensures k < s.nrPages ==> ChunkFaults(s, bufLen, faults, k)
    decreases s.nrPages - i
  {
    if i == s.nrPages then i
    else if ChunkFaults(s, bufLen, faults, i) then i
    else FirstFault(s, bufLen, faults, i + 1)
  }

  /** The page at which the copy loop over span s stops: page 0 for an
      unknown command, otherwise the first faulting page. */
  function StopAt(cmd: Command, s: Span, bufLen: nat, faults: set<nat>): (k: nat)
    requires s.Covers()
    ensures k <= s.nrPages
  {
    if cmd.Unknown? then 0 else FirstFault(s, bufLen, faults, 0)
  }

  /** What the copy loop over span s leaves as the return value: -EINVAL or
      -EFAULT when it stops early, the span's length when it runs to the end. */
  function LoopResult(cmd: Command, s: Span, bufLen: nat, faults: set<nat>): (r: int)
    requires s.Covers()
    ensures r >= 0 <==> StopAt(cmd, s, bufLen, faults) == s.nrPages
    ensures r >= 0 ==> r == s.len
    ensures r == -EINVAL <==> cmd.Unknown? && s.nrPages > 0
    ensures r == -EFAULT ==> ChunkFaults(s, bufLen, faults, StopAt(cmd, s, bufLen, faults))
  {
    if StopAt(cmd, s, bufLen, faults) < s.nrPages then
      (if cmd.Unknown? then -EINVAL else -EFAULT)
    else s.len
  }

  /** The gates before pinning all pass. */
  predicate Admitted(env: Env)
  {
    env.euid == 0 && env.lookup.Found? && env.allocOk && !env.lockInterrupted
  }

  /** The range the copy loop works on: the normalised request, shrunk to
      the pages pinned. */
  function PinnedSpan(addr: Word, len: Word, env: Env): (s: Span)
    requires env.pin.Fits(Normalize(addr, len).nrPages)
    ensures s.Covers() && s.pageOff == addr % PAGE_SIZE
    ensures s.nrPages == env.pin.Pinned() && s.len <= Normalize(addr, len).len
  {
    Shrink(Normalize(addr, len), env.pin.Pinned())
  }

  /** The page at which the copy loop stops: the first faulting page, page 0
      for an unknown command, and 0 when the loop is never reached. */
  function StopPage(cmd: Command, addr: Word, len: Word, bufLen: nat, env: Env): (k: nat)
    requires env.pin.Fits(Normalize(addr, len).nrPages)
    ensures k <= PinnedSpan(addr, len, env).nrPages
  {
    SpanStop(cmd, Normalize(addr, len), bufLen, env)
  }

  /** Bytes moved between the buffer and the target before the loop stopped. */
  function Copied(cmd: Command, addr: Word, len: Word, bufLen: nat, env: Env): (m: nat)
    requires env.pin.Fits(Normalize(addr, len).nrPages)
    ensures m <= PinnedSpan(addr, len, env).len
  {
    SpanCopied(cmd, Normalize(addr, len), bufLen, env)
  }

  /** The value farfetch returns. */
  function Expected(cmd: Command, addr: Word, len: Word, bufLen: nat, env: Env): (r: int)
    requires env.pin.Fits(Normalize(addr, len).nrPages)
    ensures env.euid != 0 ==> r == -EPERM
    ensures r >= 0 ==> r <= len && r <= MAX_RW_COUNT
  {
    SpanResult(cmd, Normalize(addr, len), bufLen, env)
  }

  /** StopPage once the request is normalised to span sp. */
  function SpanStop(cmd: Command, sp: Span, bufLen: nat, env: Env): (k: nat)
    requires sp.Covers() && env.pin.Fits(sp.nrPages)
    ensures k <= env.pin.Pinned()
  {
    if !Admitted(env) || env.pin.PinFailed? then 0
    else StopAt(cmd, Shrink(sp, env.pin.count), bufLen, env.faults)
  }

  /** Copied once the request is normalised to span sp. */
  function SpanCopied(cmd: Command, sp: Span, bufLen: nat, env: Env): (m: nat)
    requires sp.Covers() && env.pin.Fits(sp.nrPages)
    ensures m <= Shrink(sp, env.pin.Pinned()).len
  {
    var s := Shrink(sp, env.pin.Pinned());
    ChunkStart(s.pageOff, s.len, SpanStop(cmd, sp, bufLen, env))
  }

  /** Expected once the request is normalised to span sp: each gate in
      turn, then the copy loop's result. */
  function SpanResult(cmd: Command, sp: Span, bufLen: nat, env: Env): (r: int)
    requires sp.Covers() && env.pin.Fits(sp.nrPages)
    ensures r < 0 ==> IsErrValue(r)
    ensures r >= 0 ==> Admitted(env) && env.pin.PinOk? && r == Shrink(sp, env.pin.count).len
  {
    if env.euid != 0 then -EPERM
    else if !env.lookup.Found? then -ESRCH
    else if !env.allocOk then -ENOMEM
    else if env.lockInterrupted then -EINTR
    else if env.pin.PinFailed? then env.pin.errno
    else LoopResult(cmd, Shrink(sp, env.pin.count), bufLen, env.faults)
  }

  /** The acquisitions and releases farfetch performs, in order. */
  function Trace(cmd: Command, addr: Word, len: Word, env: Env): seq<Event>
    requires env.pin.Fits(Normalize(addr, len).nrPages)
  {
    if env.euid != 0 || !env.lookup.Found? then []
    else [GetMm] + MmTrace(cmd, PageOf(addr), Normalize(addr, len).nrPages, env)
  }

  /** The events after get_task_mm took the mm, for a request of n pages
      from page vpn: the page list is allocated, the lock taken and the
      pages pinned, as far as each succeeds, and everything is given back. */
  function MmTrace(cmd: Command, vpn: nat, n: nat, env: Env): seq<Event>
  {
    if !env.allocOk then [Mmput]
    else if env.lockInterrupted then [Alloc(n), Mmput, Free]
    else PinnedTrace(vpn, n, cmd.FarWrite?, env.pin.Pinned(), env.pin.lockKept)
  }

  /** The events from the allocation of the page list on, for a call that
      reaches get_user_pages_remote: allocate, lock, then PinTrace. */
  function PinnedTrace(vpn: nat, n: nat, write: bool, k: nat, kept: bool): seq<Event>
  {
    [Alloc(n)] + ([Lock] + PinTrace(vpn, n, write, k, kept))
  }

  /** The events from get_user_pages_remote on: pin, unlock unless the pin
      call already did, drop the mm, put every pinned page, free the page
      list. */
  function PinTrace(vpn: nat, n: nat, write: bool, k: nat, kept: bool): seq<Event>
  {
    [Pin(vpn, n, write, k, kept)] +
      ((if kept then [Unlock] else []) + ([Mmput] + (Puts(vpn, k) + [Free])))
  }

  /** The pin trace as the routine accumulates it: once the pin, the unlock
      and the mmput are logged, the releases complete it. */
  lemma PinTraceFrom(e0: seq<Event>, e1: seq<Event>, vpn: nat, n: nat, write: bool, k: nat, kept: bool)
    requires e1 == e0 + [Pin(vpn, n, write, k, kept)] + (if kept then [Unlock] else []) + [Mmput]
    ensures e1 + Puts(vpn, k) + [Free] == e0 + PinTrace(vpn, n, write, k, kept)
  {
  }

  /** Once get_task_mm is logged, the events after it complete the trace. */
  lemma TraceFrom(e0: seq<Event>, e1: seq<Event>, cmd: Command, addr: Word, len: Word, env: Env)
    requires env.pin.Fits(Normalize(addr, len).nrPages) && env.euid == 0 && env.lookup.Found?
    requires e1 == e0 + [GetMm]
    ensures e1 + MmTrace(cmd, PageOf(addr), Normalize(addr, len).nrPages, env) == e0 + Trace(cmd, addr, len, env)
  {
  }

  /** Likewise, once the allocation and the lock are logged, the pin trace
      completes the pinned trace. */
  lemma PinnedTraceFrom(e0: seq<Event>, e1: seq<Event>, vpn: nat, n: nat, write: bool, k: nat, kept: bool)
    requires e1 == e0 + [Alloc(n)] + [Lock]
    ensures e1 + PinTrace(vpn, n, write, k, kept) == e0 + PinnedTrace(vpn, n, write, k, kept)
  {
  }

  /** The release loop issues nothing but put_page. */
  lemma {:induction false} PutsOnlyPut(vpn: nat, n: nat)
    ensures forall e :: e in Puts(vpn, n) ==> e.PutPage?
    decreases n
  {
    if n > 0 {
      PutsOnlyPut(vpn + 1, n - 1);
    }
  }

  /** From the pin on: the pin comes first and the kfree last, the unlock
      is there exactly when the pin call kept the lock, the mm is dropped,
      and one put_page follows per pinned page. */
  lemma PinTraceShape(vpn: nat, n: nat, write: bool, k: nat, kept: bool)
    ensures var t := PinTrace(vpn, n, write, k, kept);
      |t| == k + (if kept then 4 else 3) &&
      t[0] == Pin(vpn, n, write, k, kept) && t[|t| - 1] == Free &&
      (Unlock in t <==> kept) && Mmput in t
  {
    var t := PinTrace(vpn, n, write, k, kept);
    PutsOnlyPut(vpn, k);
    assert t[|t| - 1] == Free;
    assert Mmput in t by {
      assert t[if kept then 2 else 1] == Mmput;
    }
  }

  /** Every call that finds the target's mm starts by taking a reference
      on it and drops that reference on every path; its last event frees
      the page list when one was allocated, and is the mmput otherwise. A
      call that does not find it, or is refused, does nothing. */
  lemma TraceShape(cmd: Command, addr: Word, len: Word, env: Env)
    requires env.pin.Fits(Normalize(addr, len).nrPages)
    ensures var t := Trace(cmd, addr, len, env);
      (t == [] <==> env.euid != 0 || !env.lookup.Found?) &&
      (t != [] ==> t[0] == GetMm && Mmput in t &&
                   t[|t| - 1] == if env.allocOk then Free else Mmput)
  {
    var t := Trace(cmd, addr, len, env);
    if t != [] && env.allocOk && !env.lockInterrupted {
      var vpn, n := PageOf(addr), Normalize(addr, len).nrPages;
      var k, kept := env.pin.Pinned(), env.pin.lockKept;
      PinTraceShape(vpn, n, cmd.FarWrite?, k, kept);
      var p := PinTrace(vpn, n, cmd.FarWrite?, k, kept);
      assert t == [GetMm, Alloc(n), Lock] + p;
      assert t[|t| - 1] == p[|p| - 1];
      assert Mmput in p;
    }
  }

  lemma ReplayCons(h: Held, e: Event, es: seq<Event>)
    requires Step(h, e).Some?
    ensures Replay(h, [e] + es) == Replay(Step(h, e).value, es)
  {
    assert ([e] + es)[0] == e && ([e] + es)[1..] == es;
  }

  lemma {:induction false} ReplayAppend(h: Held, a: seq<Event>, b: seq<Event>)
    requires Replay(h, a).Some?
    ensures Replay(h, a + b) == Replay(Replay(h, a).value, b)
    decreases |a|
  {
    if a != [] {
      assert Step(h, a[0]).Some?;
      var h' := Step(h, a[0]).value;
      assert Replay(h, a) == Replay(h', a[1..]);
      assert (a + b)[0] == a[0] && (a + b)[1..] == a[1..] + b;
      assert Replay(h, a + b) == Replay(h', a[1..] + b);
      ReplayAppend(h', a[1..], b);
    } else {
      assert a + b == b;
    }
  }

  /** Putting the pages vpn .. vpn + n - 1 releases exactly their pins. */
  lemma {:induction false} ReplayPuts(h: Held, vpn: nat, n: nat)
    ensures Replay(h.(pins := h.pins + PinSet(vpn, n)), Puts(vpn, n)) == Some(h)
    decreases n
  {
    if n > 0 {
      var start := h.(pins := h.pins + PinSet(vpn, n));
      var next := h.(pins := h.pins + PinSet(vpn + 1, n - 1));
      assert vpn in start.pins;
      assert start.pins - multiset{vpn} == next.pins;
      assert Step(start, PutPage(vpn)) == Some(next);
      assert Puts(vpn, n) == [PutPage(vpn)] + Puts(vpn + 1, n - 1);
      ReplayCons(start, PutPage(vpn), Puts(vpn + 1, n - 1));
      ReplayPuts(h, vpn + 1, n - 1);
    } else {
      assert h.(pins := h.pins + PinSet(vpn, n)) == h;
    }
  }

  /** Putting the pinned pages and freeing the page list give back the pins
      and the allocation. */
  lemma ReleaseBalanced(h: Held, g: Held, vpn: nat, k: nat)
    requires h.scratch > 0 && g == h.(pins := h.pins + PinSet(vpn, k))
    ensures Replay(g, Puts(vpn, k) + [Free]) == Some(Held(h.mm, h.scratch - 1, h.locks, h.pins))
  {
    ReplayPuts(h, vpn, k);
    ReplayAppend(g, Puts(vpn, k), [Free]);
    assert Step(h, Free) == Some(Held(h.mm, h.scratch - 1, h.locks, h.pins));
    ReplayCons(h, Free, []);
  }

  /** From the pin on, with the page list allocated and the lock held: the
      trace gives back the lock (whoever drops it), the mm reference, every
      pin and the page list. */
  lemma PinTraceBalanced(h: Held, vpn: nat, n: nat, write: bool, k: nat, kept: bool)
    requires h.mm > 0 && h.locks > 0 && h.scratch > 0
    ensures Replay(h, PinTrace(vpn, n, write, k, kept))
         == Some(Held(h.mm - 1, h.scratch - 1, h.locks - 1, h.pins))
  {
    var pin := Pin(vpn, n, write, k, kept);
    var release := Puts(vpn, k) + [Free];
    var tail := (if kept then [Unlock] else []) + ([Mmput] + release);
    var pins := h.pins + PinSet(vpn, k);
    var h4 := Held(h.mm, h.scratch, if kept then h.locks else h.locks - 1, pins);
    var h5 := Held(h.mm, h.scratch, h.locks - 1, pins);
    var h6 := Held(h.mm - 1, h.scratch, h.locks - 1, pins);
    var h0 := Held(h.mm - 1, h.scratch, h.locks - 1, h.pins);
    calc {
      Replay(h, PinTrace(vpn, n, write, k, kept));
      { assert PinTrace(vpn, n, write, k, kept) == [pin] + tail;
        assert Step(h, pin) == Some(h4);
        ReplayCons(h, pin, tail); }
      Replay(h4, tail);
      { if kept {
          assert Step(h4, Unlock) == Some(h5);
          ReplayCons(h4, Unlock, [Mmput] + release);
        } else {
          assert tail == [Mmput] + release && h4 == h5;
        } }
      Replay(h5, [Mmput] + release);
      { assert Step(h5, Mmput) == Some(h6);
        ReplayCons(h5, Mmput, release); }
      Replay(h6, release);
      { assert h6 == h0.(pins := h0.pins + PinSet(vpn, k));
        ReleaseBalanced(h0, h6, vpn, k); }
      Some(Held(h.mm - 1, h.scratch - 1, h.locks - 1, h.pins));
    }
  }

  /** From the allocation on, a call that pins gives back everything it
      takes, and drops the mm reference it came in with. */
  lemma PinnedTraceBalanced(h: Held, vpn: nat, n: nat, write: bool, k: nat, kept: bool)
    requires h.mm > 0
    ensures Replay(h, PinnedTrace(vpn, n, write, k, kept)) == Some(h.(mm := h.mm - 1))
  {
    var h2 := h.(scratch := h.scratch + 1);
    var h3 := h2.(locks := h2.locks + 1);
    assert Step(h, Alloc(n)) == Some(h2);
    assert Step(h2, Lock) == Some(h3);
    ReplayCons(h, Alloc(n), [Lock] + PinTrace(vpn, n, write, k, kept));
    ReplayCons(h2, Lock, PinTrace(vpn, n, write, k, kept));
    PinTraceBalanced(h3, vpn, n, write, k, kept);
    assert Held(h3.mm - 1, h3.scratch - 1, h3.locks - 1, h3.pins) == h.(mm := h.mm - 1);
  }

  /** Every path through farfetch releases exactly what it acquired, never
      releases what it does not hold, and pins only under the lock: replayed
      from any holdings, the trace ends where it started. */
  lemma TraceBalanced(cmd: Command, addr: Word, len: Word, env: Env, h: Held)
    requires env.pin.Fits(Normalize(addr, len).nrPages)
    ensures Replay(h, Trace(cmd, addr, len, env)) == Some(h)
  {
    var n := Normalize(addr, len).nrPages;
    var h1 := h.(mm := h.mm + 1);
    if env.euid != 0 || !env.lookup.Found? {
    } else {
      assert Step(h, GetMm) == Some(h1);
      ReplayCons(h, GetMm, MmTrace(cmd, PageOf(addr), n, env));
      if !env.allocOk {
        ReplayCons(h1, Mmput, []);
      } else if env.lockInterrupted {
        var h2 := h1.(scratch := h1.scratch + 1);
        var h3 := h2.(mm := h.mm);
        assert MmTrace(cmd, PageOf(addr), n, env) == [Alloc(n)] + ([Mmput] + [Free]);
        ReplayCons(h1, Alloc(n), [Mmput] + [Free]);
        ReplayCons(h2, Mmput, [Free]);
        ReplayCons(h3, Free, []);
      } else {
        PinnedTraceBalanced(h1, PageOf(addr), n, cmd.FarWrite?, env.pin.Pinned(), env.pin.lockKept);
        assert h1.(mm := h1.mm - 1) == h;
      }
    }
  }

  /** With no faulting page and a buffer as long as the span, the copy loop
      runs to the end. */
  lemma {:induction false} NoFaultRunsToEnd(s: Span, bufLen: nat, i: nat)
    requires s.Covers() && i <= s.nrPages && bufLen >= s.len
    ensures FirstFault(s, bufLen, {}, i) == s.nrPages
    decreases s.nrPages - i
  {
    if i < s.nrPages {
      assert !ChunkFaults(s, bufLen, {}, i);
      NoFaultRunsToEnd(s, bufLen, i + 1);
    }
  }

  /** The loop never stops past the end of the caller's buffer: every chunk
      before the first fault ends inside it. */
  lemma {:induction false} FirstFaultWithinBuffer(s: Span, bufLen: nat, faults: set<nat>, i: nat)
    requires s.Covers() && i <= s.nrPages && ChunkStart(s.pageOff, s.len, i) <= bufLen
    ensures ChunkStart(s.pageOff, s.len, FirstFault(s, bufLen, faults, i)) <= bufLen
    decreases s.nrPages - i
  {
    if i < s.nrPages && !ChunkFaults(s, bufLen, faults, i) {
      FirstFaultWithinBuffer(s, bufLen, faults, i + 1);
    }
  }

  /** The bytes a call moves all lie inside the caller's buffer. */
  lemma CopiedWithinBuffer(cmd: Command, addr: Word, len: Word, bufLen: nat, env: Env)
    requires env.pin.Fits(Normalize(addr, len).nrPages)
    ensures Copied(cmd, addr, len, bufLen, env) <= bufLen
  {
    if Admitted(env) && env.pin.PinOk? && !cmd.Unknown? {
      FirstFaultWithinBuffer(PinnedSpan(addr, len, env), bufLen, env.faults, 0);
    }
  }

  /** A call that fails before the copy loop moves no byte. */
  lemma EarlyExitMovesNothing(cmd: Command, addr: Word, len: Word, bufLen: nat, env: Env)
    requires env.pin.Fits(Normalize(addr, len).nrPages)
    requires !Admitted(env) || env.pin.PinFailed?
    ensures StopPage(cmd, addr, len, bufLen, env) == 0 && Copied(cmd, addr, len, bufLen, env) == 0
  {
  }

  /** The privilege check comes first: a caller whose effective uid is not
      root gets -EPERM whatever the pid, and nothing is acquired or copied. */
  lemma PermissionFirst(cmd: Command, addr: Word, len: Word, bufLen: nat, env: Env)
    requires env.pin.Fits(Normalize(addr, len).nrPages)
    requires env.euid != 0
    ensures Expected(cmd, addr, len, bufLen, env) == -EPERM
    ensures Trace(cmd, addr, len, env) == [] && Copied(cmd, addr, len, bufLen, env) == 0
  {
  }

  /** The early failures, in the order of the gates, each with exactly the
      resources taken so far acquired and released. */
  lemma EarlyFailures(cmd: Command, addr: Word, len: Word, bufLen: nat, env: Env)
    requires env.pin.Fits(Normalize(addr, len).nrPages)
    requires env.euid == 0
    ensures var r := Expected(cmd, addr, len, bufLen, env);
      var t := Trace(cmd, addr, len, env);
      var n := Normalize(addr, len).nrPages;
      (!env.lookup.Found? ==> r == -ESRCH && t == []) &&
      (env.lookup.Found? && !env.allocOk ==> r == -ENOMEM && t == [GetMm, Mmput]) &&
      (env.lookup.Found? && env.allocOk && env.lockInterrupted ==>
         r == -EINTR && t == [GetMm, Alloc(n), Mmput, Free]) &&
      (Admitted(env) && env.pin.PinFailed? ==>
         r == env.pin.errno &&
         t == [GetMm, Alloc(n), Lock, Pin(PageOf(addr), n, cmd.FarWrite?, 0, env.pin.lockKept)]
              + (if env.pin.lockKept then [Unlock] else []) + [Mmput, Free])
  {
    if Admitted(env) && env.pin.PinFailed? {
      var t := Trace(cmd, addr, len, env);
      assert Puts(PageOf(addr), 0) == [];
    }
  }

  /** A call fails with an error value in [-MAX_ERRNO, -1], or succeeds with
      the whole pinned span copied; a success never exceeds the request or
      MAX_RW_COUNT, so it is never mistaken for an error. */
  lemma ReturnIsCountOrErrno(cmd: Command, addr: Word, len: Word, bufLen: nat, env: Env)
    requires env.pin.Fits(Normalize(addr, len).nrPages)
    ensures var r := Expected(cmd, addr, len, bufLen, env);
      (r < 0 ==> IsErrValue(r)) &&
      (r >= 0 ==> Admitted(env) && env.pin.PinOk? &&
                  r == PinnedSpan(addr, len, env).len == Copied(cmd, addr, len, bufLen, env) &&
                  r <= len && r <= MAX_RW_COUNT)
  {
    var r := Expected(cmd, addr, len, bufLen, env);
    if r >= 0 {
      var s := PinnedSpan(addr, len, env);
      ChunksCoverSpan(s);
    }
  }

  /** When only K >= 1 of the N pages asked for can be pinned and nothing
      faults, the call returns K * PAGE_SIZE - off, less than the normalised
      length, and never N * PAGE_SIZE - off. */
  lemma PartialPinLength(cmd: Command, addr: Word, len: Word, bufLen: nat, env: Env)
    requires env.pin.Fits(Normalize(addr, len).nrPages)
    requires Admitted(env) && env.pin.PinOk? && 1 <= env.pin.count < Normalize(addr, len).nrPages
    requires !cmd.Unknown? && env.faults == {} && bufLen >= len
    ensures Expected(cmd, addr, len, bufLen, env)
         == env.pin.count * PAGE_SIZE - addr % PAGE_SIZE < Normalize(addr, len).len
  {
    NoFaultRunsToEnd(PinnedSpan(addr, len, env), bufLen, 0);
  }

  /** A zero-length request that does not start on a page boundary pins the
      one page holding the address and succeeds with 0, whatever the buffer
      and the faulting pages; an unknown command still fails there. */
  lemma ZeroLengthRequest(cmd: Command, addr: Word, bufLen: nat, env: Env)
    requires addr % PAGE_SIZE != 0
    requires env.pin.Fits(Normalize(addr, 0).nrPages)
    requires Admitted(env) && env.pin.PinOk? && env.pin.count == 1
    ensures Normalize(addr, 0) == Span(addr % PAGE_SIZE, 0, 1)
    ensures Expected(cmd, addr, 0, bufLen, env) == if cmd.Unknown? then -EINVAL else 0
    ensures Trace(cmd, addr, 0, env)
         == [GetMm] + PinnedTrace(PageOf(addr), 1, cmd.FarWrite?, 1, env.pin.lockKept)
  {
    var s := PinnedSpan(addr, 0, env);
    assert !ChunkFaults(s, bufLen, env.faults, 0);
  }

  /** An unknown command is noticed only inside the copy loop, after the
      pages are pinned: it fails with -EINVAL when a page was pinned, returns
      0 when none was, and copies nothing. */
  lemma UnknownCommand(code: nat, addr: Word, len: Word, bufLen: nat, env: Env)
    requires env.pin.Fits(Normalize(addr, len).nrPages)
    requires Admitted(env) && env.pin.PinOk?
    ensures Expected(Unknown(code), addr, len, bufLen, env)
         == if env.pin.count == 0 then 0 else -EINVAL
    ensures Copied(Unknown(code), addr, len, bufLen, env) == 0
  {
  }

  /** A fault at any page stops the transfer there: the call returns
      -EFAULT, reports no byte count, and copied nothing beyond that page. */
  lemma FaultReportsNoBytes(cmd: Command, addr: Word, len: Word, bufLen: nat, env: Env, i: nat)
    requires env.pin.Fits(Normalize(addr, len).nrPages)
    requires Admitted(env) && env.pin.PinOk? && !cmd.Unknown?
    requires i < env.pin.count && ChunkFaults(PinnedSpan(addr, len, env), bufLen, env.faults, i)
    ensures Expected(cmd, addr, len, bufLen, env) == -EFAULT
    ensures var s := PinnedSpan(addr, len, env);
      Copied(cmd, addr, len, bufLen, env) <= ChunkStart(s.pageOff, s.len, i)
  {
    var s := PinnedSpan(addr, len, env);
    var k := FirstFault(s, bufLen, env.faults, 0);
    ChunkStartMonotone(s.pageOff, s.len, k, i);
  }
}
