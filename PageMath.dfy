/** Page arithmetic of the farfetch transfer: the platform constants, the
    overflow-safe normalisation of a request, the shrinking of a request to
    the pages actually pinned, and the per-page chunks the copy loop moves. */
module PageMath {

  /** x86-64 values: 4 KiB pages, 64-bit size_t and unsigned long. */
  const PAGE_SIZE: nat := 4096
  const SIZE_MAX: nat := 0xFFFF_FFFF_FFFF_FFFF
  const LONG_MAX: nat := 0x7FFF_FFFF_FFFF_FFFF
  const INT_MAX: nat := 0x7FFF_FFFF
  const MAX_ERRNO: nat := 4095

  /** The kernel's cap on one read/write transfer: INT_MAX & PAGE_MASK,
      INT_MAX rounded down to a whole number of pages. */
  const MAX_RW_COUNT: nat := 0x7FFF_F000

  /** A size_t or unsigned long value. */
  type Word = n: nat | n <= SIZE_MAX

  function Min(a: nat, b: nat): (m: nat)
    ensures m <= a && m <= b && (m == a || m == b)
  {
    if a <= b then a else b
  }

  /** The kernel's min3(x, y, z), which is min(min(x, y), z). */
  function Min3(a: nat, b: nat, c: nat): (m: nat)
    ensures m <= a && m <= b && m <= c && (m == a || m == b || m == c)
  {
    Min(Min(a, b), c)
  }

  /** Reinterpretation of a size_t as the routine's `long` return value:
      the one value in the range of a 64-bit long that is congruent to x
      modulo 2^64. */
  function AsLong(x: Word): (r: int)
    ensures -(LONG_MAX as int) - 1 <= r <= LONG_MAX
    ensures (x - r) % (SIZE_MAX + 1) == 0
  {
    if x <= LONG_MAX then x else x - (SIZE_MAX + 1)
  }

  /** page_off: the offset of an address inside its page. The source masks
      with ~PAGE_MASK, which for a power-of-two page size is the remainder. */
  function PageOffset(addr: Word): (off: nat)
    ensures off < PAGE_SIZE
    ensures addr == PageOf(addr) * PAGE_SIZE + off
  {
    addr % PAGE_SIZE
  }

  /** Virtual page number of an address. */
  function PageOf(addr: nat): nat
  {
    addr / PAGE_SIZE
  }

  /** SIZE_MAX - page_off - PAGE_SIZE + 1: the largest length whose page
      count can be computed without wrapping. */
  function OverflowMargin(off: nat): (m: nat)
    requires off < PAGE_SIZE
    ensures off + m + PAGE_SIZE - 1 == SIZE_MAX
  {
    SIZE_MAX - off - PAGE_SIZE + 1
  }

  /** Number of pages touched by `len` bytes starting `off` bytes into the
      first page: the ceiling of (off + len) / PAGE_SIZE. */
  function PageCount(off: nat, len: nat): (n: nat)
    ensures n * PAGE_SIZE >= off + len
    ensures n == 0 || (n - 1) * PAGE_SIZE < off + len
  {
    (off + len + PAGE_SIZE - 1) / PAGE_SIZE
  }

  /** The byte range of one call: the offset inside the first page, the
      length and the number of pages. */
  datatype Span = Span(pageOff: nat, len: nat, nrPages: nat)
  {
    /** The pages are exactly those the bytes touch; no pages means no bytes. */
    predicate Covers()
    {
      pageOff < PAGE_SIZE &&
      (nrPages == 0 ==> len == 0) &&
      (nrPages > 0 ==> pageOff + len <= nrPages * PAGE_SIZE &&
                       (nrPages - 1) * PAGE_SIZE < pageOff + len)
    }
  }

  /** Lines 29 and 36-37: clamp the requested length and count its pages. */
  function Normalize(addr: Word, len: Word): (s: Span)
    ensures s.Covers()
    ensures s.pageOff == addr % PAGE_SIZE
    ensures s.len <= len && s.len <= MAX_RW_COUNT
    ensures s.len == len || s.len == MAX_RW_COUNT || s.len == OverflowMargin(s.pageOff)
    ensures s.pageOff + s.len + PAGE_SIZE - 1 <= SIZE_MAX
    ensures s.nrPages * PAGE_SIZE <= SIZE_MAX
    ensures s.nrPages * PAGE_SIZE >= s.len
  {
    var off := PageOffset(addr);
    var l := Min3(len, MAX_RW_COUNT, OverflowMargin(off));
    Span(off, l, PageCount(off, l))
  }

  /** Lines 82-86 as the routine means them: when only `ret` of the pages
      were pinned, the range shrinks to exactly the pinned bytes. With no
      page pinned the length is 0 (see ShrinkAsWritten for the code). */
  function Shrink(s: Span, ret: nat): (r: Span)
    requires s.Covers() && ret <= s.nrPages
    ensures r.Covers() && r.pageOff == s.pageOff && r.nrPages == ret
    ensures r.len <= s.len
    ensures ret == s.nrPages ==> r == s
    ensures 1 <= ret < s.nrPages ==> r.len == ret * PAGE_SIZE - s.pageOff && r.len < s.len
    ensures ret == 0 ==> r.len == 0
  {
    if ret < s.nrPages then
      Span(s.pageOff, if ret == 0 then 0 else ret * PAGE_SIZE - s.pageOff, ret)
    else s
  }

  /** Lines 82-86 as written: `len = nr_pages * PAGE_SIZE - page_off` in
      size_t arithmetic, which wraps when no page was pinned. */
  function ShrinkAsWritten(s: Span, ret: nat): (r: Span)
    requires s.Covers() && ret <= s.nrPages && s.nrPages * PAGE_SIZE <= SIZE_MAX
    ensures r.pageOff == s.pageOff && r.nrPages == ret
    ensures ret == s.nrPages ==> r == s
    ensures ret < s.nrPages && ret * PAGE_SIZE >= s.pageOff ==> r.len == ret * PAGE_SIZE - s.pageOff
    ensures ret < s.nrPages && ret * PAGE_SIZE < s.pageOff ==> r.len == SIZE_MAX + 1 + ret * PAGE_SIZE - s.pageOff
  {
    if ret < s.nrPages then
      Span(s.pageOff, (ret * PAGE_SIZE - s.pageOff) % (SIZE_MAX + 1), ret)
    else s
  }

  /** The as-written shrink and the corrected one agree whenever at least one
      page was pinned, or the first page starts on a page boundary. */
  lemma ShrinkAgrees(s: Span, ret: nat)
    requires s.Covers() && ret <= s.nrPages && s.nrPages * PAGE_SIZE <= SIZE_MAX
    requires ret >= 1 || s.pageOff == 0
    ensures ShrinkAsWritten(s, ret) == Shrink(s, ret)
  {
  }

  /** Counterexample to line 84-85: a 100-byte request one byte into a page,
      of which no page can be pinned. The recomputed length wraps to SIZE_MAX,
      the check at line 84 fires, and the routine's `long` result is -1, which
      a caller reads as -EPERM. */
  lemma ZeroPinWraps()
    ensures var s := Normalize(4097, 100);
      s.nrPages == 1 &&
      ShrinkAsWritten(s, 0).len == SIZE_MAX &&
      ShrinkAsWritten(s, 0).len > s.len &&
      AsLong(ShrinkAsWritten(s, 0).len) == -1
  {
    var s := Normalize(4097, 100);
    assert s.pageOff == 1 && s.len == 100;
    assert s.nrPages == 1;
  }

  /** Bytes of the buffer before chunk i of the copy loop: the cursor
      `iter - addr` when the loop reaches page i. */
  function ChunkStart(off: nat, len: nat, i: nat): (c: nat)
    requires off < PAGE_SIZE
    ensures c <= len
  {
    if i == 0 then 0 else Min(len, i * PAGE_SIZE - off)
  }

  /** The in-page offset the loop copies page i from: page_off for the first
      page, 0 after line 117 resets it. */
  function ChunkOffset(off: nat, i: nat): nat
  {
    if i == 0 then off else 0
  }

  /** to_copy at line 91 for page i. It is the gap between consecutive cursor
      positions, and it never runs past the end of the page. */
  function ChunkLen(off: nat, len: nat, i: nat): (n: nat)
    requires off < PAGE_SIZE
    ensures ChunkStart(off, len, i) + n == ChunkStart(off, len, i + 1)
    ensures ChunkOffset(off, i) + n <= PAGE_SIZE
  {
    Min(len - ChunkStart(off, len, i), PAGE_SIZE - ChunkOffset(off, i))
  }

  /** Every chunk but the last fills the rest of its page. */
  lemma InnerChunksAreFull(s: Span, i: nat)
    requires s.Covers() && i + 1 < s.nrPages
    ensures ChunkLen(s.pageOff, s.len, i) == PAGE_SIZE - ChunkOffset(s.pageOff, i)
  {
  }

  /** Line 120: after the last page the cursor has advanced by exactly len. */
  lemma ChunksCoverSpan(s: Span)
    requires s.Covers()
    ensures ChunkStart(s.pageOff, s.len, s.nrPages) == s.len
  {
  }

  /** A nonempty chunk i begins at byte ChunkOffset of the i-th page after
      the page holding the start address. */
  lemma ChunkAddress(addr: nat, len: nat, i: nat)
    requires i == 0 || ChunkStart(addr % PAGE_SIZE, len, i) < len
    ensures addr + ChunkStart(addr % PAGE_SIZE, len, i)
         == (PageOf(addr) + i) * PAGE_SIZE + ChunkOffset(addr % PAGE_SIZE, i)
  {
  }

  /** A request spanning three pages from a nonzero offset is copied as
      PAGE_SIZE - off, PAGE_SIZE and the remainder. */
  lemma ThreePageChunks(s: Span)
    requires s.Covers() && s.nrPages == 3 && s.pageOff > 0
    ensures ChunkLen(s.pageOff, s.len, 0) == PAGE_SIZE - s.pageOff
    ensures ChunkLen(s.pageOff, s.len, 1) == PAGE_SIZE
    ensures ChunkLen(s.pageOff, s.len, 2) == s.len - (2 * PAGE_SIZE - s.pageOff) > 0
  {
  }

  /** The cursor never moves backwards. */
  lemma ChunkStartMonotone(off: nat, len: nat, i: nat, j: nat)
    requires off < PAGE_SIZE && i <= j
    ensures ChunkStart(off, len, i) <= ChunkStart(off, len, j)
  {
  }
}
