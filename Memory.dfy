/** The target process's memory as the transfer sees it: pages of
    PAGE_SIZE bytes indexed by virtual page number, with the byte-range read
    and write that the copy loop performs page by page. */
module Memory {
  import opened PageMath

  type Page = seq<bv8>

  /** Resident pages of the target's address space, by virtual page number. */
  type Frames = map<nat, Page>

  ghost predicate WellFormed(f: Frames)
  {
    forall v :: v in f ==> |f[v]| == PAGE_SIZE
  }

  /** Every byte of [addr, addr + n) lies in a resident page. */
  ghost predicate Mapped(f: Frames, addr: nat, n: nat)
  {
    forall a :: addr <= a < addr + n ==> PageOf(a) in f
  }

  /** The byte at a virtual address; 0 where nothing is mapped. */
  function ByteAt(f: Frames, a: nat): bv8
  {
    var v := PageOf(a);
    if v in f && a % PAGE_SIZE < |f[v]| then f[v][a % PAGE_SIZE] else 0
  }

  /** The n bytes starting at addr. */
  function ReadRange(f: Frames, addr: nat, n: nat): (r: seq<bv8>)
    ensures |r| == n
  {
    seq(n, j requires 0 <= j < n => ByteAt(f, addr + j))
  }

  /** Page v with the bytes of `data` laid over it, `data` starting at addr. */
  function PatchPage(p: Page, v: nat, addr: nat, data: seq<bv8>): (q: Page)
    ensures |q| == |p|
  {
    seq(|p|, o requires 0 <= o < |p| =>
      if addr <= v * PAGE_SIZE + o < addr + |data| then data[v * PAGE_SIZE + o - addr] else p[o])
  }

  /** The memory after `data` is stored at addr. Only resident pages change;
      no page appears or disappears. */
  function WriteRange(f: Frames, addr: nat, data: seq<bv8>): (g: Frames)
    ensures g.Keys == f.Keys
    ensures forall v :: v in g ==> |g[v]| == |f[v]|
  {
    map v | v in f :: PatchPage(f[v], v, addr, data)
  }

  lemma AddressSplit(a: nat, v: nat, o: nat)
    requires o < PAGE_SIZE
    ensures (PageOf(a) == v && a % PAGE_SIZE == o) <==> a == v * PAGE_SIZE + o
  {
  }

  /** A write changes exactly the bytes it covers in resident pages. */
  lemma ByteAtWrite(f: Frames, addr: nat, data: seq<bv8>, a: nat)
    requires WellFormed(f)
    ensures ByteAt(WriteRange(f, addr, data), a)
         == if addr <= a < addr + |data| && PageOf(a) in f then data[a - addr] else ByteAt(f, a)
  {
    AddressSplit(a, PageOf(a), a % PAGE_SIZE);
  }

  /** Reading back a range just written returns what was written. */
  lemma ReadAfterWrite(f: Frames, addr: nat, data: seq<bv8>)
    requires WellFormed(f) && Mapped(f, addr, |data|)
    ensures ReadRange(WriteRange(f, addr, data), addr, |data|) == data
  {
    var r := ReadRange(WriteRange(f, addr, data), addr, |data|);
    forall j | 0 <= j < |data|
      ensures r[j] == data[j]
    {
      ByteAtWrite(f, addr, data, addr + j);
    }
  }

  /** A write leaves every range it does not overlap as it was. */
  lemma ReadElsewhere(f: Frames, addr: nat, data: seq<bv8>, b: nat, n: nat)
    requires WellFormed(f)
    requires b + n <= addr || addr + |data| <= b
    ensures ReadRange(WriteRange(f, addr, data), b, n) == ReadRange(f, b, n)
  {
    forall j | 0 <= j < n
      ensures ReadRange(WriteRange(f, addr, data), b, n)[j] == ReadRange(f, b, n)[j]
    {
      ByteAtWrite(f, addr, data, b + j);
    }
  }

  /** Writing nothing changes nothing. */
  lemma WriteNothing(f: Frames, addr: nat)
    requires WellFormed(f)
    ensures WriteRange(f, addr, []) == f
  {
    forall v | v in f
      ensures WriteRange(f, addr, [])[v] == f[v]
    {
    }
  }

  /** Reading one more chunk that lies in page v at offset po extends the
      bytes read so far by that slice of the page. */
  lemma ReadStep(f: Frames, addr: nat, done: nat, n: nat, v: nat, po: nat)
    requires WellFormed(f) && v in f
    requires addr + done == v * PAGE_SIZE + po && po + n <= PAGE_SIZE
    ensures ReadRange(f, addr, done + n) == ReadRange(f, addr, done) + f[v][po..po + n]
  {
    var lhs := ReadRange(f, addr, done + n);
    var rhs := ReadRange(f, addr, done) + f[v][po..po + n];
    forall j | 0 <= j < done + n
      ensures lhs[j] == rhs[j]
    {
      if j >= done {
        AddressSplit(addr + j, v, po + j - done);
        assert rhs[j] == f[v][po + j - done];
      }
    }
  }

  /** Writing one more chunk that lies in page v at offset po patches that
      slice of page v and nothing else. */
  lemma WriteStep(f: Frames, addr: nat, d: seq<bv8>, c: seq<bv8>, v: nat, po: nat)
    requires WellFormed(f) && v in f
    requires addr + |d| == v * PAGE_SIZE + po && po + |c| <= PAGE_SIZE
    ensures var g := WriteRange(f, addr, d);
      WriteRange(f, addr, d + c) == g[v := g[v][..po] + c + g[v][po + |c|..]]
  {
    var g := WriteRange(f, addr, d);
    var h := WriteRange(f, addr, d + c);
    var k := g[v := g[v][..po] + c + g[v][po + |c|..]];
    forall w | w in h
      ensures h[w] == k[w]
    {
      forall o | 0 <= o < PAGE_SIZE
        ensures h[w][o] == k[w][o]
      {
        if w == v {
          if o < po || po + |c| <= o {
          } else {
            assert (d + c)[w * PAGE_SIZE + o - addr] == c[o - po];
          }
        } else if w < v {
          assert w * PAGE_SIZE + o < addr + |d|;
        } else {
          assert w * PAGE_SIZE + o >= addr + |d| + |c|;
        }
      }
    }
  }
}
