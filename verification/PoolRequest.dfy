/** What a caller of `heap_pool_create` asks for, said without the source's formulas: each number
    of the layout is the least, or the greatest, that serves. One layout does, and it is `Plan`. */
module PoolRequest {
  import opened Words
  import opened PoolLayout

  // ----- what serves a request -----

  /** The alignment of chunk 0: never less than a word. */
  function AlignFor(r: Request): nat {
    if r.align < WORD_SIZE then WORD_SIZE else r.align
  }

  /** Holes of `h` bytes have room for the back word and keep chunks one stride apart aligned. */
  predicate HoleServes(r: Request, h: nat) {
    h >= WORD_SIZE && (r.align >= 1 ==> (h + r.size + r.extra) % r.align == 0)
  }

  /** Index entry, hole and chunk of one element. */
  function SlotSize(r: Request, h: nat): nat {
    WORD_SIZE + h + r.size + r.extra
  }

  /** Whole pages hold the descriptor, one alignment, and the requested elements, the last of them
      without its hole. */
  predicate MappingServes(r: Request, h: nat, size: nat)
    requires r.nb >= 1 && r.pagesize > 0
  {
    && size % r.pagesize == 0
    && HEADER_SIZE + AlignFor(r) + (r.nb - 1) * SlotSize(r, h) + WORD_SIZE + r.size + r.extra <= size
  }

  /** `n` elements, each with its hole, fit beside the descriptor and one alignment. */
  predicate CountServes(r: Request, h: nat, size: nat, n: nat) {
    HEADER_SIZE + AlignFor(r) + n * SlotSize(r, h) <= size
  }

  /** Chunk 0 is the first aligned address at least one alignment past the index array. */
  predicate FirstServes(r: Request, n: nat, first: nat) {
    && (r.base + first) % AlignFor(r) == 0
    && HEADER_SIZE + WORD_SIZE * n + AlignFor(r) <= first < HEADER_SIZE + WORD_SIZE * n + 2 * AlignFor(r)
  }

  /** The least hole, the least mapping for it, and the greatest count that the mapping allows. */
  ghost predicate Meets(r: Request, l: Layout)
    requires r.nb >= 1 && r.pagesize > 0
  {
    && l.base == r.base && l.szel == r.size && l.extra == r.extra
    && HoleServes(r, l.holesize)
    && (forall h: nat :: HoleServes(r, h) ==> l.holesize <= h)
    && l.szck == l.holesize + r.size + r.extra
    && MappingServes(r, l.holesize, l.allocsize)
    && (forall size: nat :: MappingServes(r, l.holesize, size) ==> l.allocsize <= size)
    && (forall n: nat :: CountServes(r, l.holesize, l.allocsize, n) <==> n <= l.nrel)
    && FirstServes(r, l.nrel, l.first)
  }

  lemma CountsAgree(r: Request, k: Layout, l: Layout)
    requires r.nb >= 1 && r.pagesize > 0 && Meets(r, k) && Meets(r, l)
    requires k.holesize == l.holesize && k.allocsize == l.allocsize
    ensures k.nrel == l.nrel
  {
    hide MappingServes, FirstServes, CountServes, HoleServes;
    assert CountServes(r, k.holesize, k.allocsize, k.nrel);
    assert CountServes(r, l.holesize, l.allocsize, l.nrel);
  }

  lemma FirstUnique(r: Request, n: nat, a: nat, b: nat)
    requires FirstServes(r, n, a) && FirstServes(r, n, b)
    ensures a == b
  {
    MultiplesApart(r.base + a, r.base + b, AlignFor(r));
    MultiplesApart(r.base + b, r.base + a, AlignFor(r));
  }

  lemma MeetsUnique(r: Request, k: Layout, l: Layout)
    requires r.nb >= 1 && r.pagesize > 0 && Meets(r, k) && Meets(r, l)
    ensures k == l
  {
    hide MappingServes, FirstServes, CountServes, HoleServes;
    assert k.holesize == l.holesize;
    assert k.allocsize == l.allocsize;
    CountsAgree(r, k, l);
    FirstUnique(r, k.nrel, k.first, l.first);
  }

  // ----- the source's formulas serve -----

  /** No smaller hole has room for the back word and keeps the alignment asked for. */
  lemma HoleIsLeast(r: Request, h: nat)
    requires r.Sized()
    ensures HoleServes(r, r.HoleSize())
    ensures HoleServes(r, h) ==> r.HoleSize() <= h
  {
    hide AlignMask;
    HoleFacts(r);
    if r.align > 1 {
      AlignMaskIsLeastMultiple(r.ChunkSize() + WORD_SIZE, r.align);
    }
  }

  lemma LastWithoutHole(nb: nat, word: nat, h: nat, chunk: nat)
    requires nb >= 1
    ensures nb * (word + (h + chunk)) - h == (nb - 1) * (word + h + chunk) + word + chunk
  {
  }

  lemma RawServes(r: Request)
    requires r.Sized()
    ensures r.RawSize() == HEADER_SIZE + AlignFor(r) + (r.nb - 1) * SlotSize(r, r.HoleSize())
                           + WORD_SIZE + r.size + r.extra
  {
    hide Request.HoleSize, Request.EffectiveAlign, IsPow2, NewAlignment, AlignMask;
    r.EffectiveAlignFacts();
    LastWithoutHole(r.nb, WORD_SIZE, r.HoleSize(), r.ChunkSize());
  }

  /** No smaller number of pages holds what was asked for. */
  lemma MappingIsLeast(r: Request, size: nat)
    requires r.Fits()
    ensures MappingServes(r, r.HoleSize(), r.AllocSize())
    ensures MappingServes(r, r.HoleSize(), size) ==> r.AllocSize() <= size
    ensures r.AllocSize() < HEADER_SIZE + AlignFor(r) + (r.nb - 1) * SlotSize(r, r.HoleSize())
                            + WORD_SIZE + r.size + r.extra + r.pagesize
  {
    hide Request.HoleSize, Request.RawSize, AlignMask;
    RawServes(r);
    AlignMaskIsLeastMultiple(r.RawSize(), r.pagesize);
  }

  lemma ProductBound(n: nat, slot: nat, q: nat, space: nat)
    requires q * slot <= space < q * slot + slot
    ensures n * slot <= space <==> n <= q
  {
    if n <= q {
      SlotsMonotone(n, q, slot);
    } else {
      SlotsMonotone(q + 1, n, slot);
      assert (q + 1) * slot == q * slot + slot;
    }
  }

  /** The element count is the greatest that the mapping allows. */
  lemma CountIsGreatest(r: Request, n: nat)
    requires r.Fits()
    ensures CountServes(r, r.HoleSize(), r.AllocSize(), n) <==> n <= r.ElementCount()
  {
    hide Request.HoleSize, Request.AllocSize, Request.RawSize, Request.EffectiveAlign, IsPow2;
    r.EffectiveAlignFacts();
    r.AllocCovers();
    var space, slot := r.AllocSize() - r.EffectiveAlign() - HEADER_SIZE, WORD_SIZE + r.Stride();
    QuotientFacts(space, slot);
    ProductBound(n, slot, r.ElementCount(), space);
  }

  lemma FirstIsAligned(r: Request)
    requires r.Fits()
    ensures FirstServes(r, r.ElementCount(), r.FirstChunk())
  {
    hide Request.FirstChunk, Request.ElementCount, Request.AllocSize, Request.HoleSize, Request.RawSize;
    r.EffectiveAlignFacts();
    FirstChunkFacts(r);
  }

  lemma PlanMeets(r: Request)
    requires r.Fits()
    ensures Meets(r, r.Plan())
  {
    hide Request.FirstChunk, Request.ElementCount, Request.AllocSize, Request.HoleSize, Request.RawSize;
    hide HoleServes, MappingServes, CountServes, FirstServes;
    FirstIsAligned(r);
    forall h: nat
      ensures HoleServes(r, r.HoleSize())
      ensures HoleServes(r, h) ==> r.HoleSize() <= h
    {
      HoleIsLeast(r, h);
    }
    forall size: nat
      ensures MappingServes(r, r.HoleSize(), r.AllocSize())
      ensures MappingServes(r, r.HoleSize(), size) ==> r.AllocSize() <= size
    {
      MappingIsLeast(r, size);
    }
    forall n: nat
      ensures CountServes(r, r.HoleSize(), r.AllocSize(), n) <==> n <= r.ElementCount()
    {
      CountIsGreatest(r, n);
    }
  }

  /** `heap_pool_create` lays the mapping out in the one way that meets the request. */
  lemma PlanExactly(r: Request, l: Layout)
    requires r.Fits()
    ensures Meets(r, l) <==> l == r.Plan()
  {
    PlanMeets(r);
    if Meets(r, l) {
      MeetsUnique(r, l, r.Plan());
    }
  }

  /** Ten elements of 128 bytes, no alignment: one page, 27 elements, chunk 0 at 296. */
  lemma TenOf128()
    ensures Request(10, 128, 0, 0, 4096, 0).Fits()
    ensures Request(10, 128, 0, 0, 4096, 0).Plan() == Layout(0, 128, 0, 136, 8, 27, 4096, 296)
  {
    hide AlignMask, IsLeastMultiple;
    var r := Request(10, 128, 0, 0, 4096, 0);
    assert Pow2(12) == 4096 && Pow2(3) == 8;
    AlignMaskOf(1512, 4096, 4096);
    assert r.Sized() && r.RawSize() == 1512 && r.AllocSize() == 4096;
    assert r.ElementCount() == 27 && r.IndexEnd() == 288;
    AlignMaskOf(296, 8, 296);
  }
}
