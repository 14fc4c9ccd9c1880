/** The arithmetic of `heap_pool_create`: where the header, the index array, the
    back-index words and the chunks lie inside the page-rounded mapping. */
module PoolLayout {
  import opened Words

  const WORD_SIZE: nat := 8
  const HEADER_SIZE: nat := 72

  // ----- divisibility -----

  lemma ModTransitive(x: nat, page: nat, e: nat)
    requires page > 0 && e > 0 && x % page == 0 && page % e == 0
    ensures x % e == 0
  {
    DivModSplit(x, page);
    DivModSplit(page, e);
    var a, b := x / page, page / e;
    assert x == (a * b) * e;
    MultipleMod(a * b, e);
  }

  lemma SumMod(x: nat, y: nat, e: nat)
    requires e > 0 && x % e == 0 && y % e == 0
    ensures (x + y) % e == 0
  {
    DivModSplit(x, e);
    DivModSplit(y, e);
    assert x + y == (x / e + y / e) * e;
    MultipleMod(x / e + y / e, e);
  }

  lemma ProductMod(n: nat, x: nat, e: nat)
    requires e > 0 && x % e == 0
    ensures (n * x) % e == 0
  {
    DivModSplit(x, e);
    assert n * x == (n * (x / e)) * e;
    MultipleMod(n * (x / e), e);
  }

  lemma DifferenceMod(x: nat, y: nat, e: nat)
    requires e > 0 && x <= y && x % e == 0 && y % e == 0
    ensures (y - x) % e == 0
  {
    DivModSplit(x, e);
    DivModSplit(y, e);
    Distribute(y / e, x / e, e);
    DivModUnique(y - x, e, y / e - x / e, 0);
  }

  /** The distance from `x` up to the nearest multiple of `e`. */
  function Gap(x: nat, e: nat): nat
    requires e > 0
  {
    (e - x % e) % e
  }

  lemma GapFacts(x: nat, e: nat)
    requires e > 0
    ensures 0 <= Gap(x, e) < e && (x + Gap(x, e)) % e == 0
  {
    DivModSplit(x, e);
    if x % e == 0 {
      DivModUnique(e, e, 1, 0);
    } else {
      DivModUnique(e - x % e, e, 0, e - x % e);
      assert x + Gap(x, e) == (x / e + 1) * e;
      MultipleMod(x / e + 1, e);
    }
  }

  lemma GapUnique(x: nat, e: nat, g: nat)
    requires e > 0 && g < e && (x + g) % e == 0
    ensures Gap(x, e) == g
  {
    GapFacts(x, e);
    MultiplesApart(x + g, x + Gap(x, e), e);
    MultiplesApart(x + Gap(x, e), x + g, e);
  }

  lemma GapFromAligned(b: nat, x: nat, e: nat)
    requires e > 0 && b % e == 0
    ensures Gap(b + x, e) == Gap(x, e)
  {
    GapFacts(x, e);
    SumMod(b, x + Gap(x, e), e);
    GapUnique(b + x, e, Gap(x, e));
  }

  /** From a multiple of `page`, the gap to a multiple of the coarser `e` is at most this much. */
  lemma GapFromPage(b: nat, x: nat, e: nat, page: nat)
    requires 0 < page <= e && e % page == 0 && b % page == 0
    ensures Gap(b + x, e) <= e - page + Gap(x, page)
  {
    hide Gap;
    var coarse, fine := Gap(b + x, e), Gap(x, page);
    GapFacts(b + x, e);
    GapFacts(x, page);
    if fine < coarse {
      ModTransitive(b + x + coarse, e, page);
      SumMod(b, x + fine, page);
      DifferenceMod(b + x + fine, b + x + coarse, page);
      MultipleMod(1, page);
      DifferenceMod(page, e, page);
      MultiplesApart(coarse - fine, e - page, page);
    }
  }

  /** And a multiple of `page` below `e` reaches that bound. */
  lemma GapFromPageReached(x: nat, e: nat, page: nat)
    requires 0 < page <= e && e % page == 0
    ensures var worst := e - page + Gap(x, page);
            var b := Gap(x + worst, e);
            b < e && b % page == 0 && Gap(b + x, e) == worst
  {
    hide Gap;
    var worst := e - page + Gap(x, page);
    var b := Gap(x + worst, e);
    GapFacts(x, page);
    GapFacts(x + worst, e);
    MultipleMod(1, page);
    DifferenceMod(page, e, page);
    SumMod(x + Gap(x, page), e - page, page);
    ModTransitive(x + worst + b, e, page);
    DifferenceMod(x + worst, x + worst + b, page);
    GapUnique(b + x, e, worst);
  }

  // ----- arithmetic of words and alignments -----

  /** `__compute_new_alignment`. */
  function NewAlignment(align: nat): nat
    requires align > 0
  {
    if WORD_SIZE > align then AlignMask(align + (WORD_SIZE - align), align) else align
  }

  /** For every power of two the new alignment is the larger of 8 and the request. */
  lemma NewAlignmentIsMax(align: nat)
    requires IsPow2(align) && align < WORD
    ensures NewAlignment(align) == if align < WORD_SIZE then WORD_SIZE else align
    ensures IsPow2(NewAlignment(align))
  {
    assert Pow2(3) == WORD_SIZE;
    if align < WORD_SIZE {
      AlignMaskIsLeastMultiple(WORD_SIZE, align);
      Pow2Divides(align, WORD_SIZE);
    }
  }

  lemma QuotientFacts(x: nat, y: nat)
    requires y > 0
    ensures x / y >= 0 && (x / y) * y <= x < (x / y) * y + y
  {
    DivModSplit(x, y);
  }

  /** `size_t` division. */
  function Quotient(x: nat, y: nat): nat
    requires y > 0
  {
    QuotientFacts(x, y);
    x / y
  }

  ghost predicate FirstOffsetFits(base: nat, indexEnd: nat, align: nat) {
    IsPow2(align) && base + indexEnd + 2 * align <= WORD
  }

  /** Offset of the aligned pointer one whole alignment past the index array. */
  function FirstOffset(base: nat, indexEnd: nat, align: nat): nat
    requires FirstOffsetFits(base, indexEnd, align)
  {
    AlignMaskIsLeastMultiple(base + indexEnd + align, align);
    AlignMask(base + indexEnd + align, align) - base
  }

  /** Between one and two alignments separate the index array from chunk 0. */
  lemma FirstOffsetFacts(base: nat, indexEnd: nat, align: nat)
    requires FirstOffsetFits(base, indexEnd, align)
    ensures (base + FirstOffset(base, indexEnd, align)) % align == 0
    ensures indexEnd + align <= FirstOffset(base, indexEnd, align) < indexEnd + 2 * align
  {
    AlignMaskIsLeastMultiple(base + indexEnd + align, align);
  }

  lemma SlotsAtLeastOne(nb: nat, slot: nat)
    requires nb >= 1
    ensures nb * slot >= slot
  {
  }

  lemma SlotSplit(space: nat, n: nat, stride: nat)
    requires n * (WORD_SIZE + stride) <= space
    ensures WORD_SIZE * n + n * stride <= space
  {
  }

  lemma SlotsNonNegative(n: nat, stride: nat)
    ensures n * stride >= 0
  {
  }

  // ----- the layout of a request -----

  /** Offset of entry `i` of the index array. */
  function IndexEntry(i: nat): nat {
    HEADER_SIZE + WORD_SIZE * i
  }

  /** What `heap_pool_create` records in the descriptor. */
  datatype Layout = Layout(base: nat, szel: nat, extra: nat, szck: nat, holesize: nat,
                           nrel: nat, allocsize: nat, first: nat) {

    /** Offset of the pointer that the creation loop has reached after `j` steps. */
    function ChunkOff(j: nat): (off: nat)
      ensures off >= first
    {
      if j == 0 then first else ChunkOff(j - 1) + szck
    }

    function ChunkAddr(j: nat): nat {
      base + ChunkOff(j)
    }

    /** The inequalities that keep all parts apart and inside the mapping. The hole that would
        precede a chunk `nrel` need not fit. */
    ghost predicate WellFormed() {
      && holesize >= WORD_SIZE
      && szck == holesize + szel + extra
      && IndexEntry(nrel) + WORD_SIZE <= first < WORD
      && HEADER_SIZE <= allocsize
      && szck <= allocsize
      && (nrel > 0 ==> ChunkOff(nrel) - holesize <= allocsize)
      && base + allocsize < WORD
    }
  }

  /** The arguments of `heap_pool_create`, with the page size, the address the
      mapping got, and `extra` for CHUNK_EXTRA_SIZE (0, or 4 in an overflow-debug build). */
  datatype Request = Request(nb: nat, size: nat, align: nat, extra: nat, pagesize: nat, base: nat) {

    function ChunkSize(): nat {
      size + extra
    }

    /** What the caller and the platform guarantee about the sizes alone. */
    ghost predicate Sized() {
      && nb >= 1
      && extra in {0, 4}
      && IsPow2(pagesize)
      && (align == 0 || IsPow2(align))
      && ChunkSize() + WORD_SIZE + align <= WORD
    }

    function EffectiveAlign(): nat {
      if align == 0 then WORD_SIZE else NewAlignment(align)
    }

    lemma EffectiveAlignFacts()
      requires Sized()
      ensures var e := EffectiveAlign();
              && e == (if align < WORD_SIZE then WORD_SIZE else align)
              && IsPow2(e)
              && e % WORD_SIZE == 0
    {
      assert Pow2(3) == WORD_SIZE;
      if align > 0 {
        NewAlignmentIsMax(align);
      }
      Pow2Divides(WORD_SIZE, EffectiveAlign());
    }

    function HoleSize(): (hole: nat)
      requires Sized()
      ensures hole >= WORD_SIZE
    {
      if align > 1 then
        var next := ChunkSize() + WORD_SIZE;
        AlignMaskIsLeastMultiple(next, align);
        WORD_SIZE + (AlignMask(next, align) - next)
      else
        WORD_SIZE
    }

    function Stride(): nat
      requires Sized()
    {
      HoleSize() + ChunkSize()
    }

    /** Bytes asked for, before rounding to whole pages. */
    function RawSize(): (raw: nat)
      requires Sized()
    {
      SlotsAtLeastOne(nb, WORD_SIZE + Stride());
      HEADER_SIZE + EffectiveAlign() - HoleSize() + nb * (WORD_SIZE + Stride())
    }

    function AllocSize(): nat
      requires Sized()
    {
      AlignMask(RawSize(), pagesize)
    }

    lemma AllocCovers()
      requires Sized() && RawSize() + pagesize <= WORD
      ensures RawSize() <= AllocSize() < RawSize() + pagesize
      ensures AllocSize() % pagesize == 0
      ensures AllocSize() >= HEADER_SIZE + EffectiveAlign() + WORD_SIZE + ChunkSize()
    {
      AlignMaskIsLeastMultiple(RawSize(), pagesize);
      SlotsAtLeastOne(nb, WORD_SIZE + Stride());
    }

    /** No `size_t` or pointer computation overflows, and the mapping is page aligned. */
    ghost predicate Fits() {
      && Sized()
      && RawSize() + pagesize <= WORD
      && base % pagesize == 0
      && base + AllocSize() + EffectiveAlign() <= WORD
    }

    /** What keeps the layout inside its mapping: the alignment does not exceed the page. */
    ghost predicate Accepted() {
      Fits() && EffectiveAlign() <= pagesize
    }

    function ElementCount(): nat
      requires Fits()
    {
      AllocCovers();
      Quotient(AllocSize() - EffectiveAlign() - HEADER_SIZE, WORD_SIZE + Stride())
    }

    function IndexEnd(): nat
      requires Fits()
    {
      HEADER_SIZE + WORD_SIZE * ElementCount()
    }

    /** The division charges a whole slot per element, so all the slots fit beside one alignment. */
    lemma SlotsFit()
      requires Fits()
      ensures var n := ElementCount();
              IndexEnd() + EffectiveAlign() + n * Stride() <= AllocSize()
    {
      hide Request.AllocSize, Request.Stride, Request.EffectiveAlign;
      AllocCovers();
      QuotientFacts(AllocSize() - EffectiveAlign() - HEADER_SIZE, WORD_SIZE + Stride());
      SlotSplit(AllocSize() - EffectiveAlign() - HEADER_SIZE, ElementCount(), Stride());
    }

    lemma IndexFits()
      requires Fits()
      ensures IndexEnd() + EffectiveAlign() <= AllocSize()
      ensures FirstOffsetFits(base, IndexEnd(), EffectiveAlign())
    {
      EffectiveAlignFacts();
      SlotsFit();
      SlotsNonNegative(ElementCount(), Stride());
    }

    function FirstChunk(): nat
      requires Fits()
    {
      IndexFits();
      FirstOffset(base, IndexEnd(), EffectiveAlign())
    }

    /** How far chunk 0 lies beyond one alignment past the index array. */
    function SpareGap(): nat
      requires Fits()
    {
      EffectiveAlignFacts();
      Gap(base + IndexEnd(), EffectiveAlign())
    }

    /** The most that gap can be, wherever the pages of the mapping lie. */
    function WorstGap(): nat
      requires Fits()
    {
      EffectiveAlignFacts();
      if EffectiveAlign() <= pagesize then Gap(IndexEnd(), EffectiveAlign())
      else EffectiveAlign() - pagesize + Gap(IndexEnd(), pagesize)
    }

    /** The bytes that the division for the element count leaves over. */
    function Remainder(): nat
      requires Fits()
    {
      AllocCovers();
      QuotientFacts(AllocSize() - EffectiveAlign() - HEADER_SIZE, WORD_SIZE + Stride());
      (AllocSize() - EffectiveAlign() - HEADER_SIZE) % (WORD_SIZE + Stride())
    }

    /** There is no chunk, or the gap costs at most what the division left over and the one hole
        that no chunk follows. */
    predicate InBounds()
      requires Fits()
    {
      ElementCount() == 0 || SpareGap() <= Remainder() + HoleSize()
    }

    function Plan(): Layout
      requires Fits()
    {
      Layout(base, size, extra, Stride(), HoleSize(), ElementCount(), AllocSize(), FirstChunk())
    }
  }

  /** The pieces of a mapping: the descriptor, the index array entries, the word before each
      chunk that holds the chunk's own index, and the chunks with their debug bytes. */
  datatype Part = Header | Index(i: nat) | Back(i: nat) | Chunk(i: nat) {

    predicate In(l: Layout) {
      Header? || i < l.nrel
    }

    function Lo(l: Layout): int {
      match this
      case Header => 0
      case Index(i) => IndexEntry(i)
      case Back(i) => l.ChunkOff(i) - WORD_SIZE
      case Chunk(i) => l.ChunkOff(i)
    }

    function Hi(l: Layout): int {
      match this
      case Header => HEADER_SIZE
      case Index(i) => IndexEntry(i) + WORD_SIZE
      case Back(i) => l.ChunkOff(i)
      case Chunk(i) => l.ChunkOff(i) + l.szel + l.extra
    }
  }

  /** HEAP_POOL_GET_NTH_CHUNK computes the pointer that the creation loop visited. */
  lemma {:induction false} NthChunkIsVisited(l: Layout, j: nat)
    ensures l.ChunkOff(j) == l.first + j * l.szck
  {
    if j > 0 {
      NthChunkIsVisited(l, j - 1);
    }
  }

  lemma {:induction false} ChunkOrder(l: Layout, j: nat, k: nat)
    requires j < k
    ensures l.ChunkOff(j) + l.szck <= l.ChunkOff(k)
  {
    if j + 1 < k {
      ChunkOrder(l, j, k - 1);
    }
  }

  lemma ChunkInside(l: Layout, p: Part)
    requires l.WellFormed() && p.In(l)
    ensures !p.Header? ==> l.ChunkOff(p.i) + l.szel + l.extra <= l.allocsize
  {
    if !p.Header? {
      ChunkOrder(l, p.i, l.nrel);
    }
  }

  /** Every part lies inside the mapping, and no two parts share a byte. */
  lemma PartsDisjoint(l: Layout, p: Part, q: Part)
    requires l.WellFormed() && p.In(l) && q.In(l)
    ensures 0 <= p.Lo(l) <= p.Hi(l) <= l.allocsize
    ensures p != q ==> p.Hi(l) <= q.Lo(l) || q.Hi(l) <= p.Lo(l)
  {
    hide Layout.ChunkOff;
    ChunkInside(l, p);
    if p != q && !p.Header? && !q.Header? {
      if p.i < q.i {
        ChunkOrder(l, p.i, q.i);
      } else if q.i < p.i {
        ChunkOrder(l, q.i, p.i);
      }
    }
  }

  /** The hole costs less than one alignment, and makes the stride a multiple of it. */
  lemma HoleFacts(r: Request)
    requires r.Sized()
    ensures WORD_SIZE <= r.HoleSize() < WORD_SIZE + r.EffectiveAlign()
    ensures r.align >= 1 ==> r.Stride() % r.align == 0
  {
    hide AlignMask;
    r.EffectiveAlignFacts();
    if r.align > 1 {
      AlignMaskIsLeastMultiple(r.ChunkSize() + WORD_SIZE, r.align);
    }
  }

  /** Both ends of the mapping are multiples of the effective alignment. */
  lemma EndsAligned(r: Request)
    requires r.Accepted()
    ensures IsPow2(r.EffectiveAlign())
    ensures r.base % r.EffectiveAlign() == 0
    ensures (r.base + r.AllocSize()) % r.EffectiveAlign() == 0
  {
    r.EffectiveAlignFacts();
    r.AllocCovers();
    Pow2Divides(r.EffectiveAlign(), r.pagesize);
    ModTransitive(r.base, r.pagesize, r.EffectiveAlign());
    ModTransitive(r.AllocSize(), r.pagesize, r.EffectiveAlign());
    SumMod(r.base, r.AllocSize(), r.EffectiveAlign());
  }

  // ----- the layout fits -----

  /** Between one and two alignments separate the index array from chunk 0. */
  lemma FirstChunkFacts(r: Request)
    requires r.Fits()
    ensures IsPow2(r.EffectiveAlign())
    ensures r.IndexEnd() + r.EffectiveAlign() <= r.FirstChunk() < r.IndexEnd() + 2 * r.EffectiveAlign()
    ensures (r.base + r.FirstChunk()) % r.EffectiveAlign() == 0
  {
    r.IndexFits();
    FirstOffsetFacts(r.base, r.IndexEnd(), r.EffectiveAlign());
  }

  lemma GapOf(x: nat, e: nat, y: nat)
    requires e > 0 && x + e <= y < x + 2 * e && y % e == 0
    ensures Gap(x, e) == y - x - e
  {
    DifferenceMod(e, y, e);
    GapUnique(x, e, y - x - e);
  }

  lemma FirstChunkGap(r: Request)
    requires r.Fits()
    ensures r.FirstChunk() == r.IndexEnd() + r.EffectiveAlign() + r.SpareGap()
  {
    hide Request.FirstChunk, Request.IndexEnd, Request.AllocSize, Request.HoleSize, Request.EffectiveAlign, Gap;
    r.EffectiveAlignFacts();
    FirstChunkFacts(r);
    GapOf(r.base + r.IndexEnd(), r.EffectiveAlign(), r.base + r.FirstChunk());
  }

  lemma SlotsAndRemainder(space: nat, stride: nat)
    ensures var n := space / (WORD_SIZE + stride);
            WORD_SIZE * n + n * stride + space % (WORD_SIZE + stride) == space
  {
    DivModSplit(space, WORD_SIZE + stride);
  }

  /** Where the pointer of the creation loop stops, against the end of the mapping. */
  lemma EndOfSlots(r: Request)
    requires r.Fits()
    ensures r.Plan().ChunkOff(r.ElementCount()) == r.AllocSize() + r.SpareGap() - r.Remainder()
  {
    hide Request.AllocSize, Request.HoleSize, Request.FirstChunk, Request.EffectiveAlign, Request.SpareGap;
    r.AllocCovers();
    FirstChunkGap(r);
    NthChunkIsVisited(r.Plan(), r.ElementCount());
    SlotsAndRemainder(r.AllocSize() - r.EffectiveAlign() - HEADER_SIZE, r.Stride());
  }

  lemma StrideCovered(r: Request)
    requires r.Fits()
    ensures r.Stride() <= r.AllocSize() && r.base + r.AllocSize() < WORD
  {
    hide Request.AllocSize, Request.HoleSize;
    r.EffectiveAlignFacts();
    HoleFacts(r);
    r.AllocCovers();
  }

  /** Whatever the alignment, the layout stays inside the mapping exactly when the gap before
      chunk 0 is paid for. */
  lemma WellFormedExactly(r: Request)
    requires r.Fits()
    ensures r.Plan().WellFormed() <==> r.InBounds()
  {
    hide Request.AllocSize, Request.HoleSize, Request.FirstChunk, Request.ElementCount;
    hide Request.SpareGap, Request.Remainder, Layout.ChunkOff;
    EndOfSlots(r);
    FirstChunkFacts(r);
    r.EffectiveAlignFacts();
    r.IndexFits();
    StrideCovered(r);
  }

  lemma LastChunkOut(r: Request)
    requires r.Fits() && !r.InBounds()
    ensures r.ElementCount() > 0
    ensures var l, p := r.Plan(), Chunk(r.ElementCount() - 1); p.In(l) && p.Hi(l) > r.AllocSize()
  {
    hide Request.AllocSize, Request.HoleSize, Request.FirstChunk, Request.ElementCount;
    hide Request.SpareGap, Request.Remainder;
    EndOfSlots(r);
  }

  /** The same, part by part. */
  lemma PartsInsideExactly(r: Request)
    requires r.Fits()
    ensures (forall p: Part :: p.In(r.Plan()) ==> 0 <= p.Lo(r.Plan()) <= p.Hi(r.Plan()) <= r.AllocSize())
            <==> r.InBounds()
  {
    hide Request.AllocSize, Request.HoleSize, Request.FirstChunk, Request.ElementCount;
    hide Layout.ChunkOff, Layout.WellFormed, Request.InBounds;
    var l := r.Plan();
    WellFormedExactly(r);
    if r.InBounds() {
      forall p: Part | p.In(l)
        ensures 0 <= p.Lo(l) <= p.Hi(l) <= r.AllocSize()
      {
        PartsDisjoint(l, p, p);
      }
    } else {
      LastChunkOut(r);
    }
  }

  lemma StrideAligned(r: Request)
    requires r.Accepted() && r.align >= WORD_SIZE
    ensures r.EffectiveAlign() == r.align && r.Stride() % r.align == 0
  {
    r.EffectiveAlignFacts();
    HoleFacts(r);
  }

  /** Slots that end on a multiple of `e` cannot end less than one `e` beyond another multiple. */
  lemma AlignedEndFits(base: nat, first: nat, slots: nat, size: nat, e: nat)
    requires e > 0
    requires (base + first) % e == 0 && slots % e == 0 && (base + size) % e == 0
    requires first + slots < size + e
    ensures first + slots <= size
  {
    SumMod(base + first, slots, e);
    MultiplesApart(base + first + slots, base + size, e);
  }

  lemma AlignedChunksFit(r: Request)
    requires r.Accepted() && r.align >= WORD_SIZE
    ensures r.FirstChunk() + r.ElementCount() * r.Stride() <= r.AllocSize()
  {
    hide Request.ElementCount, Request.AllocSize, Request.FirstChunk, Request.Stride, Request.EffectiveAlign;
    var e, n := r.EffectiveAlign(), r.ElementCount();
    StrideAligned(r);
    FirstChunkFacts(r);
    r.SlotsFit();
    EndsAligned(r);
    ProductMod(n, r.Stride(), e);
    AlignedEndFits(r.base, r.FirstChunk(), n * r.Stride(), r.AllocSize(), e);
  }

  lemma NextWord(base: nat, n: nat, first: nat)
    requires base % WORD_SIZE == 0 && (base + first) % WORD_SIZE == 0
    requires HEADER_SIZE + WORD_SIZE * n + WORD_SIZE <= first < HEADER_SIZE + WORD_SIZE * n + 2 * WORD_SIZE
    ensures first == HEADER_SIZE + WORD_SIZE * n + WORD_SIZE
  {
  }

  /** With word alignment the gap is exactly one word, since the index array ends on a word. */
  lemma WordAlignedFirstChunk(r: Request)
    requires r.Accepted() && r.align < WORD_SIZE
    ensures r.FirstChunk() == r.IndexEnd() + WORD_SIZE
  {
    FirstChunkFacts(r);
    r.EffectiveAlignFacts();
    EndsAligned(r);
    NextWord(r.base, r.ElementCount(), r.FirstChunk());
  }

  /** Although the gap before chunk 0 can be almost twice the alignment that the
      element count was charged for, up to the page size every chunk with its hole still fits. */
  lemma PlanIsWellFormed(r: Request)
    requires r.Accepted()
    ensures r.InBounds() && r.Plan().WellFormed()
    ensures r.Plan().ChunkOff(r.ElementCount()) <= r.AllocSize()
  {
    hide Request.AllocSize, Request.HoleSize, Request.FirstChunk, Request.ElementCount;
    hide Request.SpareGap, Request.Remainder;
    NthChunkIsVisited(r.Plan(), r.ElementCount());
    FirstChunkFacts(r);
    r.EffectiveAlignFacts();
    if r.align >= WORD_SIZE {
      AlignedChunksFit(r);
    } else {
      WordAlignedFirstChunk(r);
      r.SlotsFit();
    }
    EndOfSlots(r);
    WellFormedExactly(r);
  }

  lemma FirstChunkAligned(r: Request)
    requires r.Fits() && r.align >= 1
    ensures (r.base + r.FirstChunk()) % r.align == 0
  {
    hide Request.FirstChunk, Request.ElementCount, Request.AllocSize, Request.HoleSize;
    r.EffectiveAlignFacts();
    FirstChunkFacts(r);
    Pow2Divides(r.align, r.EffectiveAlign());
    ModTransitive(r.base + r.FirstChunk(), r.EffectiveAlign(), r.align);
  }

  lemma SlotAligned(start: nat, stride: nat, j: nat, align: nat)
    requires align > 0 && start % align == 0 && stride % align == 0
    ensures (start + j * stride) % align == 0
  {
    ProductMod(j, stride, align);
    SumMod(start, j * stride, align);
  }

  /** Every chunk address is a multiple of the requested alignment. */
  lemma ChunksAligned(r: Request, j: nat)
    requires r.Fits() && r.align >= 1
    ensures r.Plan().ChunkAddr(j) % r.align == 0
  {
    hide Request.FirstChunk, Request.ElementCount, Request.AllocSize, Request.HoleSize;
    FirstChunkAligned(r);
    HoleFacts(r);
    NthChunkIsVisited(r.Plan(), j);
    SlotAligned(r.base + r.FirstChunk(), r.Stride(), j, r.align);
  }

  lemma DefaultSlots(r: Request)
    requires r.Fits() && r.align == 0
    ensures (r.base + r.FirstChunk()) % WORD_SIZE == 0
    ensures r.Stride() == WORD_SIZE + r.ChunkSize()
  {
    hide Request.FirstChunk, Request.ElementCount, Request.AllocSize, Request.RawSize;
    FirstChunkFacts(r);
  }

  lemma OneSlotOn(start: nat, chunk: nat)
    requires start % WORD_SIZE == 0
    ensures (start + 1 * (WORD_SIZE + chunk)) % WORD_SIZE == 0 <==> chunk % WORD_SIZE == 0
  {
  }

  lemma DefaultSecondChunk(r: Request)
    requires r.Fits() && r.align == 0
    ensures r.Plan().ChunkAddr(1) % WORD_SIZE == 0 <==> r.ChunkSize() % WORD_SIZE == 0
  {
    hide Request.FirstChunk, Request.ElementCount, Request.AllocSize, Request.RawSize, Request.HoleSize;
    DefaultSlots(r);
    NthChunkIsVisited(r.Plan(), 1);
    OneSlotOn(r.base + r.FirstChunk(), r.ChunkSize());
  }

  lemma DefaultChunk(r: Request, j: nat)
    requires r.Fits() && r.align == 0 && r.ChunkSize() % WORD_SIZE == 0
    ensures r.Plan().ChunkAddr(j) % WORD_SIZE == 0
  {
    hide Request.FirstChunk, Request.ElementCount, Request.AllocSize, Request.RawSize, Request.HoleSize;
    DefaultSlots(r);
    NthChunkIsVisited(r.Plan(), j);
    SlotAligned(r.base + r.FirstChunk(), WORD_SIZE + r.ChunkSize(), j, WORD_SIZE);
  }

  /** With no alignment requested, the default of one word holds for every chunk of a pool of
      two or more exactly when the element size (with its debug bytes) is a whole number of words. */
  lemma DefaultAlignmentExact(r: Request)
    requires r.Fits() && r.align == 0 && r.ElementCount() >= 2
    ensures (forall j: nat :: j < r.ElementCount() ==> r.Plan().ChunkAddr(j) % WORD_SIZE == 0)
            <==> r.ChunkSize() % WORD_SIZE == 0
  {
    hide Request.FirstChunk, Request.ElementCount, Request.AllocSize, Request.Plan, Layout.ChunkAddr;
    DefaultSecondChunk(r);
    if r.ChunkSize() % WORD_SIZE == 0 {
      forall j: nat
        ensures r.Plan().ChunkAddr(j) % WORD_SIZE == 0
      {
        DefaultChunk(r, j);
      }
    }
  }

  lemma AlignMaskOf(x: nat, y: nat, r: nat)
    requires IsPow2(y) && x + y - 1 < WORD && x <= r < x + y && r % y == 0
    ensures AlignMask(x, y) == r
  {
    AlignMaskIsLeastMultiple(x, y);
    MultiplesApart(r, AlignMask(x, y), y);
  }

  /** And such sizes are accepted: 236 chunks of one byte, of which chunk 1 lies one off a word. */
  lemma DefaultAlignmentFails()
    ensures exists r: Request :: r.Accepted() && r.align == 0 && r.ElementCount() >= r.nb >= 2
                                 && r.Plan().ChunkAddr(1) % WORD_SIZE != 0
  {
    hide AlignMask, IsLeastMultiple, Request.FirstChunk, Layout.ChunkOff;
    var r := Request(2, 1, 0, 0, 4096, 0);
    assert Pow2(12) == 4096;
    assert r.Sized() && r.RawSize() == 106;
    AlignMaskOf(106, 4096, 4096);
    assert r.Accepted() && r.ElementCount() == 236;
    DefaultSecondChunk(r);
  }

  // ----- alignments whatever the mapping's address -----

  lemma SameButBase(r: Request, b: nat)
    requires r.Fits() && r.(base := b).Fits()
    ensures var q := r.(base := b);
            && q.ElementCount() == r.ElementCount()
            && q.IndexEnd() == r.IndexEnd()
            && q.EffectiveAlign() == r.EffectiveAlign()
            && q.Remainder() == r.Remainder()
            && q.HoleSize() == r.HoleSize()
  {
    hide AlignMask, Quotient;
  }

  lemma GapBound(r: Request)
    requires r.Fits()
    ensures r.SpareGap() <= r.WorstGap()
  {
    hide Gap, Request.IndexEnd, Request.EffectiveAlign, Request.AllocSize, Request.RawSize;
    r.EffectiveAlignFacts();
    var e := r.EffectiveAlign();
    if e <= r.pagesize {
      Pow2Divides(e, r.pagesize);
      ModTransitive(r.base, r.pagesize, e);
      GapFromAligned(r.base, r.IndexEnd(), e);
    } else {
      Pow2Divides(r.pagesize, e);
      GapFromPage(r.base, r.IndexEnd(), e, r.pagesize);
    }
  }

  lemma SameSizes(r: Request, b: nat)
    requires r.Fits()
    ensures var q := r.(base := b);
            && q.Sized()
            && q.RawSize() == r.RawSize()
            && q.AllocSize() == r.AllocSize()
            && q.EffectiveAlign() == r.EffectiveAlign()
  {
    hide AlignMask;
  }

  lemma WorstBase(r: Request) returns (b: nat)
    requires r.Fits() && r.AllocSize() + 2 * r.EffectiveAlign() <= WORD
    ensures r.(base := b).Fits() && r.(base := b).SpareGap() == r.WorstGap()
  {
    hide Gap, Request.IndexEnd, Request.EffectiveAlign, Request.AllocSize, Request.RawSize;
    r.EffectiveAlignFacts();
    var e, i := r.EffectiveAlign(), r.IndexEnd();
    if e <= r.pagesize {
      b := r.base;
      Pow2Divides(e, r.pagesize);
      ModTransitive(r.base, r.pagesize, e);
      GapFromAligned(r.base, i, e);
      assert r.(base := b) == r;
    } else {
      b := Gap(i + e - r.pagesize + Gap(i, r.pagesize), e);
      Pow2Divides(r.pagesize, e);
      GapFromPageReached(i, e, r.pagesize);
      SameSizes(r, b);
      SameButBase(r, b);
    }
  }

  lemma SameWorst(r: Request, b: nat)
    requires r.Fits() && r.(base := b).Fits()
    ensures r.(base := b).WorstGap() == r.WorstGap()
  {
    hide Gap, Request.IndexEnd, Request.EffectiveAlign;
    SameButBase(r, b);
  }

  /** A caller who does not know where the mapping will lie is safe exactly when the worst gap
      over all page-aligned addresses is paid for. */
  lemma AnyBaseExactly(r: Request)
    requires r.Fits() && r.AllocSize() + 2 * r.EffectiveAlign() <= WORD
    ensures (forall b: nat :: r.(base := b).Fits() ==> r.(base := b).InBounds())
            <==> r.ElementCount() == 0 || r.WorstGap() <= r.Remainder() + r.HoleSize()
  {
    hide Request.Sized, Request.ElementCount, Request.WorstGap, Request.SpareGap, Request.Remainder;
    hide Request.HoleSize, Request.AllocSize, Request.EffectiveAlign;
    forall b: nat | r.(base := b).Fits()
      ensures r.ElementCount() == 0 || r.WorstGap() <= r.Remainder() + r.HoleSize() ==> r.(base := b).InBounds()
    {
      SameButBase(r, b);
      SameWorst(r, b);
      GapBound(r.(base := b));
    }
    var w := WorstBase(r);
    SameButBase(r, w);
  }

  // ----- how many elements -----

  /** The bytes gained by rounding up to whole pages. */
  function Rounding(r: Request): nat
    requires r.Fits()
  {
    r.AllocCovers();
    r.AllocSize() - r.RawSize()
  }

  lemma SlotsMonotone(m: nat, n: nat, slot: nat)
    requires m <= n
    ensures m * slot <= n * slot
  {
  }

  lemma CountArithmetic(nb: nat, slot: nat, spare: int, n: nat)
    requires 0 <= slot + spare
    requires n * slot <= nb * slot + spare < n * slot + slot
    ensures n >= nb <==> spare >= 0
    ensures spare < 0 ==> n == nb - 1
  {
    Distribute(nb, n, slot);
    if n >= nb {
      SlotsMonotone(nb, n, slot);
    } else {
      SlotsMonotone(n + 1, nb, slot);
      assert (n + 1) * slot == n * slot + slot;
      if n + 2 <= nb {
        SlotsMonotone(n + 2, nb, slot);
      }
    }
  }

  /** The requested count is reached exactly when the rounding pays back the one hole that
      the size formula leaves out; otherwise the pool is one element short. */
  lemma ElementCountExact(r: Request)
    requires r.Fits()
    ensures r.ElementCount() >= r.nb <==> Rounding(r) >= r.HoleSize()
    ensures Rounding(r) < r.HoleSize() ==> r.ElementCount() == r.nb - 1
  {
    hide Request.AllocSize, Request.HoleSize;
    r.AllocCovers();
    HoleFacts(r);
    QuotientFacts(r.AllocSize() - r.EffectiveAlign() - HEADER_SIZE, WORD_SIZE + r.Stride());
    CountArithmetic(r.nb, WORD_SIZE + r.Stride(), Rounding(r) - r.HoleSize(), r.ElementCount());
  }

  /** A pool asked for one element can come out with none: the count is not "at least `nb`". */
  lemma OneElementShort()
    ensures exists r: Request :: r.Accepted() && r.nb == 1 && r.ElementCount() == 0
  {
    hide AlignMask, IsLeastMultiple;
    var r := Request(1, 4008, 0, 0, 4096, 0);
    assert Pow2(12) == 4096;
    assert r.Sized() && r.RawSize() == 4096;
    AlignMaskOf(4096, 4096, 4096);
    assert r.AllocSize() == 4096;
    assert r.Accepted();
    assert r.ElementCount() == 0;
  }

  // ----- bounds that are reached -----

  /** The gap before chunk 0 can exceed the one alignment that the element count charges. */
  lemma GapExceedsCharge()
    ensures exists r: Request :: r.Accepted() && r.ElementCount() >= r.nb
                                 && r.FirstChunk() - r.IndexEnd() == 2 * r.EffectiveAlign() - WORD_SIZE
  {
    hide AlignMask, IsLeastMultiple;
    var r := Request(150, 56, 64, 0, 4096, 0);
    assert Pow2(12) == 4096;
    assert Pow2(6) == 64;
    AlignMaskOf(64, 64, 64);
    assert r.Sized() && r.HoleSize() == 8 && r.RawSize() == 10928;
    AlignMaskOf(10928, 4096, 12288);
    assert r.Accepted() && r.ElementCount() == 168 && r.IndexEnd() == 1416;
    AlignMaskOf(1480, 64, 1536);
    assert r.FirstChunk() == 1536;
  }

  lemma Pow2Gap(a: nat, b: nat)
    requires IsPow2(a) && IsPow2(b) && a < b
    ensures 2 * a <= b
  {
    Pow2Divides(a, b);
    DivModSplit(b, a);
    if b < 2 * a {
      MultiplesApart(b, a, a);
    }
  }

  lemma OverrunIsOut(r: Request, j: nat)
    requires r.Fits() && j < r.ElementCount()
    requires r.Plan().ChunkOff(j) + r.size > r.AllocSize()
    ensures !r.InBounds()
  {
    hide Request.AllocSize, Request.ElementCount, Request.FirstChunk, Request.HoleSize, Request.InBounds;
    hide Layout.ChunkOff, Layout.WellFormed;
    WellFormedExactly(r);
    if r.InBounds() {
      PartsDisjoint(r.Plan(), Chunk(j), Chunk(j));
    }
  }

  /** Above the page size no alignment is safe: for each there is a one-element request, on any
      mapping aligned even that much, whose only chunk ends beyond the mapping. */
  lemma AlignAbovePageOverruns(pagesize: nat, align: nat, base: nat)
    requires IsPow2(pagesize) && IsPow2(align) && 128 <= pagesize < align
    requires base % align == 0 && base + 4 * align <= WORD
    ensures var r := Request(1, align - WORD_SIZE, align, 0, pagesize, base);
            && r.Fits()
            && r.ElementCount() == 1
            && r.Plan().ChunkOff(0) + r.size > r.AllocSize()
            && !r.InBounds()
  {
    hide AlignMask, IsLeastMultiple, Request.InBounds;
    var r := Request(1, align - WORD_SIZE, align, 0, pagesize, base);
    Pow2Divides(pagesize, align);
    ModTransitive(base, align, pagesize);
    Pow2Gap(pagesize, align);
    SumMod(align, align, pagesize);
    SumMod(2 * align, pagesize, pagesize);
    AlignMaskOf(align, align, align);
    assert r.Sized() && r.HoleSize() == WORD_SIZE && r.RawSize() == 2 * align + HEADER_SIZE;
    AlignMaskOf(r.RawSize(), pagesize, 2 * align + pagesize);
    assert r.AllocSize() == 2 * align + pagesize;
    DivModUnique(align + pagesize - HEADER_SIZE, WORD_SIZE + align, 1, pagesize - HEADER_SIZE - WORD_SIZE);
    assert r.ElementCount() == 1 && r.IndexEnd() == 80;
    SumMod(base, align, align);
    SumMod(base + align, align, align);
    AlignMaskOf(base + 80 + align, align, base + 2 * align);
    OverrunIsOut(r, 0);
  }

  /** A larger alignment can be safe wherever the mapping lies: small elements leave a large hole. */
  lemma AlignAbovePageCanFit()
    ensures exists r: Request :: r.Fits() && r.align > r.pagesize && r.ElementCount() == 1
                                 && r.WorstGap() <= r.Remainder() + r.HoleSize()
  {
    hide AlignMask, IsLeastMultiple;
    var r := Request(2, 8, 8192, 0, 4096, 0);
    assert Pow2(12) == 4096;
    assert Pow2(13) == 8192;
    AlignMaskOf(16, 8192, 8192);
    assert r.Sized() && r.HoleSize() == 8184 && r.RawSize() == 16480;
    AlignMaskOf(16480, 4096, 20480);
    assert r.Fits() && r.ElementCount() == 1 && r.Remainder() == 4016;
    assert r.WorstGap() == 4096 + Gap(80, 4096);
  }
}
