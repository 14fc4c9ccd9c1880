/** The pool itself: a mapping that `heap_pool_create` lays out and links, and that
    `heap_pool_alloc` and `heap_pool_free` then update in place. */
module HeapPools {
  import opened Common
  import opened Words
  import opened PoolLayout
  import opened PoolRequest
  import opened ByteStore
  import opened PoolSpec

  // ----- the operations on the raw mapping -----

  /** The two header words that locate the chunks survive an allocation's stores. */
  lemma HeaderKept(m: seq<byte>, next: nat, count: nat)
    requires |m| >= HEADER_SIZE && next < WORD && count < WORD
    ensures var m' := Store(Store(m, HPD_FIRSTFREE, next), HPD_NRALLOC, count);
            && Load(m', HPD_OFFFIRSTELEM) == Load(m, HPD_OFFFIRSTELEM)
            && Load(m', HPD_SZCK) == Load(m, HPD_SZCK)
  {
    hide Load, Store;
    StoreFrame(m, HPD_FIRSTFREE, next);
    StoreFrame(Store(m, HPD_FIRSTFREE, next), HPD_NRALLOC, count);
  }

  lemma AllocReplyAfter(base: nat, m: seq<byte>)
    requires AllocSafe(m) && NbFree(m) != 0
    ensures AllocReply(base, m) == Addr(NthChunk(base, AllocMem(m), Load(m, HPD_FIRSTFREE)))
  {
    hide Load, Store, NbFree;
    var next := Load(m, IndexEntry(Load(m, HPD_FIRSTFREE)));
    LoadBound(m, IndexEntry(Load(m, HPD_FIRSTFREE)));
    HeaderKept(m, next, (Load(Store(m, HPD_FIRSTFREE, next), HPD_NRALLOC) + 1) % WORD);
  }

  /** `heap_pool_nb_free`. */
  method CountFree(mem: array<byte>) returns (n: nat)
    requires mem.Length >= HEADER_SIZE
    ensures n == NbFree(mem[..])
  {
    var nrel := LoadWord(mem, HPD_NREL);
    var nralloc := LoadWord(mem, HPD_NRALLOC);
    n := (nrel - nralloc) % WORD;
  }

  /** `heap_pool_alloc`, statement by statement. */
  method AllocInPlace(base: nat, mem: array<byte>) returns (r: Reply)
    requires AllocSafe(mem[..])
    modifies mem
    ensures mem[..] == AllocMem(old(mem[..]))
    ensures r == AllocReply(base, old(mem[..]))
  {
    ghost var m := mem[..];
    var nfree := CountFree(mem);
    if nfree == 0 {
      return NoMem;
    }
    AllocReplyAfter(base, m);
    hide Load, Store, AllocReply, NbFree, NthChunk;
    var oldFirst := LoadWord(mem, HPD_FIRSTFREE);
    var next := LoadWord(mem, IndexEntry(oldFirst));
    StoreWord(mem, HPD_FIRSTFREE, next);
    var nralloc := LoadWord(mem, HPD_NRALLOC);
    StoreWord(mem, HPD_NRALLOC, (nralloc + 1) % WORD);
    return Addr(NthChunk(base, mem[..], oldFirst));
  }

  /** `heap_pool_free`, statement by statement. */
  method FreeInPlace(base: nat, mem: array<byte>, addr: nat)
    requires FreeSafe(base, mem[..], addr)
    modifies mem
    ensures mem[..] == FreeMem(base, old(mem[..]), addr)
  {
    hide Load, Store;
    var index := LoadWord(mem, addr - base - WORD_SIZE);
    var first := LoadWord(mem, HPD_FIRSTFREE);
    StoreWord(mem, IndexEntry(index), first);
    StoreWord(mem, HPD_FIRSTFREE, index);
    var nralloc := LoadWord(mem, HPD_NRALLOC);
    StoreWord(mem, HPD_NRALLOC, (nralloc - 1) % WORD);
  }

  // ----- creation -----

  ghost predicate FreshHeader(l: Layout, m: seq<byte>)
    requires |m| >= HEADER_SIZE
  {
    HeaderHolds(l, m, l.nrel) && Load(m, HPD_FIRSTFREE) == 0
  }

  /** After `i` rounds of the creation loop, the last of them having written `e - i` entries more:
      free-list entries below `e` and back words below `i` are set, payloads are still zero. */
  ghost predicate Ready(l: Layout, m: seq<byte>, i: nat, e: nat) {
    && l.WellFormed() && |m| == l.allocsize && |m| >= HEADER_SIZE && i <= e <= l.nrel
    && FreshHeader(l, m)
    && (forall k: nat :: k < e ==> Load(m, EntryOf(l, k)) == k + 1)
    && (forall k: nat :: k < i ==> Load(m, BackOf(l, k)) == k)
    && PayloadsHold(l, m, FreshPool(l).payload)
  }

  lemma FreshHeaderKept(l: Layout, m: seq<byte>, a: nat, data: seq<byte>)
    requires HEADER_SIZE <= a && a + |data| <= |m| && FreshHeader(l, m)
    ensures FreshHeader(l, Splice(m, a, data))
  {
    hide Load, Splice;
    SpliceFrame(m, a, data);
  }

  /** A store of `data` that touches no payload keeps the payloads. */
  lemma PayloadsKept(l: Layout, m: seq<byte>, a: nat, data: seq<byte>, payload: seq<seq<byte>>)
    requires l.WellFormed() && |m| == l.allocsize && a + |data| <= |m|
    requires PayloadsHold(l, m, payload)
    requires forall k: nat :: k < l.nrel ==> Apart(a, |data|, l.ChunkOff(k), l.szel)
    ensures PayloadsHold(l, Splice(m, a, data), payload)
  {
    hide Splice, Layout.ChunkOff;
    forall k: nat | k < l.nrel
      ensures PayloadOf(l, Splice(m, a, data), k) == payload[k]
    {
      var start, end := l.ChunkOff(k), EndOf(l, k);
      SpliceSlice(m, a, data, start, end - start);
      assert PayloadOf(l, m, k) == payload[k];
    }
  }

  lemma EntryStep(l: Layout, m: seq<byte>, i: nat)
    requires Ready(l, m, i, i) && i < l.nrel
    ensures IndexEntry(i) + WORD_SIZE <= |m|
    ensures Ready(l, Store(m, IndexEntry(i), i + 1), i, i + 1)
  {
    hide Load, Splice, Encode, FreshHeader, PayloadsHold, Layout.ChunkOff;
    Bounds(l);
    var a := EntryOf(l, i);
    FreshHeaderKept(l, m, a, Encode(i + 1, 8));
    PayloadsKept(l, m, a, Encode(i + 1, 8), FreshPool(l).payload);
    assert Store(m, a, i + 1) == Splice(m, a, Encode(i + 1, 8));
    hide Store;
    StoreFrame(m, a, i + 1);
  }

  /** The debug byte after chunk `i` lies in no payload, entry or back word. */
  lemma MagicStep(l: Layout, m: seq<byte>, i: nat)
    requires Ready(l, m, i, i + 1) && i < l.nrel && l.extra > 0
    ensures l.ChunkOff(i) + l.szel < |m|
    ensures Ready(l, Splice(m, l.ChunkOff(i) + l.szel, [MAGIC_BYTE]), i, i + 1)
  {
    hide Load, Splice, FreshHeader, PayloadsHold, Layout.ChunkOff;
    Bounds(l);
    PartsDisjoint(l, Chunk(i), Header);
    var a := l.ChunkOff(i) + l.szel;
    FreshHeaderKept(l, m, a, [MAGIC_BYTE]);
    forall k: nat | k < l.nrel
      ensures Apart(a, 1, BackOf(l, k), WORD_SIZE)
      ensures Apart(a, 1, l.ChunkOff(k), l.szel)
    {
      PartsDisjoint(l, Chunk(i), Back(k));
      PartsDisjoint(l, Chunk(i), Chunk(k));
    }
    PayloadsKept(l, m, a, [MAGIC_BYTE], FreshPool(l).payload);
    SpliceFrame(m, a, [MAGIC_BYTE]);
  }

  lemma BackStep(l: Layout, m: seq<byte>, i: nat)
    requires Ready(l, m, i, i + 1) && i < l.nrel
    ensures WORD_SIZE <= l.ChunkOff(i) <= |m|
    ensures Ready(l, Store(m, l.ChunkOff(i) - WORD_SIZE, i), i + 1, i + 1)
  {
    hide Load, Splice, Encode, FreshHeader, PayloadsHold, Layout.ChunkOff;
    Bounds(l);
    var a := BackOf(l, i);
    forall k: nat | k < l.nrel
      ensures k != i ==> Apart(a, WORD_SIZE, BackOf(l, k), WORD_SIZE)
      ensures Apart(a, WORD_SIZE, l.ChunkOff(k), l.szel)
    {
      PartsDisjoint(l, Back(i), Back(k));
      PartsDisjoint(l, Back(i), Chunk(k));
    }
    FreshHeaderKept(l, m, a, Encode(i, 8));
    PayloadsKept(l, m, a, Encode(i, 8), FreshPool(l).payload);
    assert Store(m, a, i) == Splice(m, a, Encode(i, 8));
    hide Store;
    StoreFrame(m, a, i);
  }

  /** Once every chunk is linked the mapping is the fresh pool. */
  lemma LinkedIsFresh(l: Layout, m: seq<byte>)
    requires Ready(l, m, l.nrel, l.nrel)
    ensures Represents(l, m, FreshPool(l))
  {
    hide Load, Layout.ChunkOff, PayloadOf;
  }

  function HeaderStores(l: Layout, m: seq<byte>): (m': seq<byte>)
    requires |m| >= HEADER_SIZE
    ensures |m'| == |m|
  {
    var m1 := Store(Store(Store(m, HPD_NEXT, 0), HPD_SZEL, l.szel), HPD_NREL, l.nrel);
    var m2 := Store(Store(Store(m1, HPD_NRALLOC, 0), HPD_FIRSTFREE, 0), HPD_SZCK, l.szck);
    Store(Store(Store(m2, HPD_HOLESIZE, l.holesize), HPD_ALLOCSIZE, l.allocsize), HPD_OFFFIRSTELEM, l.first)
  }

  method WriteHeader(l: Layout, mem: array<byte>)
    requires l.WellFormed() && mem.Length == l.allocsize && HEADER_SIZE <= l.allocsize
    modifies mem
    ensures mem[..] == HeaderStores(l, old(mem[..]))
  {
    hide Store;
    StoreWord(mem, HPD_NEXT, 0);
    StoreWord(mem, HPD_SZEL, l.szel);
    StoreWord(mem, HPD_NREL, l.nrel);
    StoreWord(mem, HPD_NRALLOC, 0);
    StoreWord(mem, HPD_FIRSTFREE, 0);
    StoreWord(mem, HPD_SZCK, l.szck);
    StoreWord(mem, HPD_HOLESIZE, l.holesize);
    StoreWord(mem, HPD_ALLOCSIZE, l.allocsize);
    StoreWord(mem, HPD_OFFFIRSTELEM, l.first);
  }

  lemma HeaderWritten(l: Layout, m: seq<byte>)
    requires l.WellFormed() && |m| == l.allocsize && |m| >= HEADER_SIZE
    ensures FreshHeader(l, HeaderStores(l, m))
    ensures HeaderStores(l, m)[HEADER_SIZE..|m|] == m[HEADER_SIZE..|m|]
  {
    hide Load, Store, Layout.ChunkOff;
    Bounds(l);
    var m1 := Store(m, HPD_NEXT, 0);
    StoreFrame(m, HPD_NEXT, 0);
    var m2 := Store(m1, HPD_SZEL, l.szel);
    StoreFrame(m1, HPD_SZEL, l.szel);
    var m3 := Store(m2, HPD_NREL, l.nrel);
    StoreFrame(m2, HPD_NREL, l.nrel);
    var m4 := Store(m3, HPD_NRALLOC, 0);
    StoreFrame(m3, HPD_NRALLOC, 0);
    var m5 := Store(m4, HPD_FIRSTFREE, 0);
    StoreFrame(m4, HPD_FIRSTFREE, 0);
    var m6 := Store(m5, HPD_SZCK, l.szck);
    StoreFrame(m5, HPD_SZCK, l.szck);
    var m7 := Store(m6, HPD_HOLESIZE, l.holesize);
    StoreFrame(m6, HPD_HOLESIZE, l.holesize);
    var m8 := Store(m7, HPD_ALLOCSIZE, l.allocsize);
    StoreFrame(m7, HPD_ALLOCSIZE, l.allocsize);
    StoreFrame(m8, HPD_OFFFIRSTELEM, l.first);
  }

  lemma ZeroedIsReady(l: Layout, m: seq<byte>)
    requires l.WellFormed() && |m| == l.allocsize && |m| >= HEADER_SIZE
    requires forall i :: 0 <= i < |m| ==> m[i] == 0
    ensures Ready(l, HeaderStores(l, m), 0, 0)
  {
    hide HeaderStores, Layout.ChunkOff, FreshHeader;
    Bounds(l);
    HeaderWritten(l, m);
    var m' := HeaderStores(l, m);
    assert forall i :: HEADER_SIZE <= i < |m| ==> m'[HEADER_SIZE..|m|][i - HEADER_SIZE] == m'[i];
    forall k: nat | k < l.nrel
      ensures PayloadOf(l, m', k) == Zeros(l.szel)
    {
      var start, end := l.ChunkOff(k), EndOf(l, k);
      assert forall i :: start <= i < end ==> m'[i] == 0;
    }
  }

  /** `*addr = b`. */
  method PutByte(mem: array<byte>, a: nat, b: byte)
    requires a < mem.Length
    modifies mem
    ensures mem[..] == Splice(old(mem[..]), a, [b])
  {
    mem[a] := b;
  }

  /** `memcpy(addr, data, |data|)`. */
  method PutBytes(mem: array<byte>, a: nat, data: seq<byte>)
    requires a + |data| <= mem.Length
    modifies mem
    ensures mem[..] == Splice(old(mem[..]), a, data)
  {
    forall i | 0 <= i < |data| {
      mem[a + i] := data[i];
    }
    assert mem[a..a + |data|] == data;
    assert mem[..] == mem[..a] + mem[a..a + |data|] + mem[a + |data|..];
  }

  predicate LinkInBounds(szel: nat, extra: nat, m: seq<byte>, walker: nat, ptr: nat) {
    walker + WORD_SIZE <= |m| && WORD_SIZE <= ptr <= |m| && (extra > 0 ==> ptr + szel < |m|)
  }

  /** The bytes after one round of the creation loop: the free-list entry at `walker`, the debug
      byte in a debug build, and the back-index word before `ptr`. */
  function LinkStores(szel: nat, extra: nat, m: seq<byte>, i: nat, walker: nat, ptr: nat): (m': seq<byte>)
    requires LinkInBounds(szel, extra, m, walker, ptr)
    ensures |m'| == |m|
  {
    var m1 := Store(m, walker, i + 1);
    var m2 := if extra > 0 then Splice(m1, ptr + szel, [MAGIC_BYTE]) else m1;
    Store(m2, ptr - WORD_SIZE, i)
  }

  method LinkChunk(szel: nat, extra: nat, mem: array<byte>, i: nat, walker: nat, ptr: nat)
    requires LinkInBounds(szel, extra, mem[..], walker, ptr)
    modifies mem
    ensures mem[..] == LinkStores(szel, extra, old(mem[..]), i, walker, ptr)
  {
    hide Store, Splice;
    StoreWord(mem, walker, i + 1);
    if extra > 0 {
      PutByte(mem, ptr + szel, MAGIC_BYTE);
    }
    StoreWord(mem, ptr - WORD_SIZE, i);
  }

  lemma LinkStep(l: Layout, m: seq<byte>, i: nat)
    requires Ready(l, m, i, i) && i < l.nrel
    ensures LinkInBounds(l.szel, l.extra, m, IndexEntry(i), l.ChunkOff(i))
    ensures Ready(l, LinkStores(l.szel, l.extra, m, i, IndexEntry(i), l.ChunkOff(i)), i + 1, i + 1)
  {
    hide Ready, Store, Splice, Layout.ChunkOff, IndexEntry;
    EntryStep(l, m, i);
    var m1 := Store(m, IndexEntry(i), i + 1);
    var m2 := m1;
    if l.extra > 0 {
      MagicStep(l, m1, i);
      m2 := Splice(m1, l.ChunkOff(i) + l.szel, [MAGIC_BYTE]);
    }
    BackStep(l, m2, i);
  }

  lemma GuardPut(m: seq<byte>, a: nat, x: nat)
    requires a < |m| && x < |m|
    ensures Splice(m, a, [MAGIC_BYTE])[x] == if x == a then MAGIC_BYTE else m[x]
  {
  }

  /** The round of the creation loop for chunk `i` puts its guard byte, and reaches no other. */
  lemma GuardStep(l: Layout, m: seq<byte>, i: nat)
    requires Ready(l, m, i, i) && i < l.nrel && Guarded(l, m, i)
    ensures LinkInBounds(l.szel, l.extra, m, IndexEntry(i), l.ChunkOff(i))
    ensures Guarded(l, LinkStores(l.szel, l.extra, m, i, IndexEntry(i), l.ChunkOff(i)), i + 1)
  {
    hide Store, Splice, Layout.ChunkOff, FreshHeader, PayloadsHold, Load;
    Bounds(l);
    var entry, back := EntryOf(l, i), BackOf(l, i);
    if l.extra > 0 {
      var m1 := Store(m, entry, i + 1);
      var m2 := Splice(m1, GuardOf(l, i), [MAGIC_BYTE]);
      forall j: nat | j < i + 1
        ensures Store(m2, back, i)[GuardOf(l, j)] == MAGIC_BYTE
      {
        PartsDisjoint(l, Back(i), Chunk(j));
        PartsDisjoint(l, Chunk(i), Chunk(j));
        StoreByte(m, entry, i + 1, GuardOf(l, j));
        StoreByte(m2, back, i, GuardOf(l, j));
        GuardPut(m1, GuardOf(l, i), GuardOf(l, j));
      }
    }
  }

  lemma NoGuards(l: Layout, m: seq<byte>)
    requires l.WellFormed() && |m| == l.allocsize
    ensures Guarded(l, m, 0)
  {
  }

  lemma ReadyFacts(l: Layout, m: seq<byte>, i: nat, e: nat)
    requires Ready(l, m, i, e)
    ensures l.WellFormed() && |m| == l.allocsize
    ensures l.ChunkOff(0) == l.first && l.ChunkOff(i + 1) == l.ChunkOff(i) + l.szck
    ensures i < l.nrel ==> BackOf(l, i) + WORD_SIZE <= |m| && EntryOf(l, i) + WORD_SIZE <= |m|
  {
    Bounds(l);
  }

  /** The initialisation of a zeroed mapping: the descriptor, then every chunk. */
  method Initialise(l: Layout, mem: array<byte>)
    requires l.WellFormed() && mem.Length == l.allocsize
    requires forall i :: 0 <= i < mem.Length ==> mem[i] == 0
    modifies mem
    ensures Represents(l, mem[..], FreshPool(l))
    ensures Guarded(l, mem[..], l.nrel)
  {
    hide Ready, Represents, Layout.ChunkOff, Layout.WellFormed, HeaderStores, FreshPool, LinkStores, LinkInBounds;
    hide Guarded;
    Bounds(l);
    ZeroedIsReady(l, mem[..]);
    WriteHeader(l, mem);
    ReadyFacts(l, mem[..], 0, 0);
    NoGuards(l, mem[..]);
    var i, walker, ptr := 0, HPD_RAW, l.first;
    while i < l.nrel
      invariant i <= l.nrel && walker == IndexEntry(i) && ptr == l.ChunkOff(i)
      invariant Ready(l, mem[..], i, i) && Guarded(l, mem[..], i)
    {
      ReadyFacts(l, mem[..], i, i);
      GuardStep(l, mem[..], i);
      LinkStep(l, mem[..], i);
      LinkChunk(l.szel, l.extra, mem, i, walker, ptr);
      i, walker, ptr := i + 1, walker + WORD_SIZE, ptr + l.szck;
    }
    LinkedIsFresh(l, mem[..]);
  }

  // ----- the pool object -----

  /** -EINVAL, MAP_FAILED, or the new pool. */
  datatype CreateResult = InvalidAlign | MapFailed | Created(pool: HeapPool)

  class HeapPool {
    const base: nat
    const mem: array<byte>
    ghost const layout: Layout
    ghost var pool: Pool

    ghost predicate Valid()
      reads this, mem
    {
      layout.base == base && Represents(layout, mem[..], pool)
    }

    /** A handle on a mapping that already holds a pool. */
    constructor (l: Layout, mem: array<byte>)
      requires Represents(l, mem[..], FreshPool(l))
      ensures this.mem == mem && layout == l && pool == FreshPool(l)
      ensures Valid()
    {
      base := l.base;
      this.mem := mem;
      layout := l;
      pool := FreshPool(l);
      hide Represents;
    }

    /** `heap_pool_create`. `mapped` says whether mmap succeeded; a successful mapping is zeroed. */
    static method Create(req: Request, mapped: bool) returns (r: CreateResult)
      requires req.align == 0 || IsPow2(req.align) ==> req.Fits() && req.InBounds()
      ensures r.InvalidAlign? <==> req.align != 0 && !IsPow2(req.align)
      ensures r.MapFailed? <==> (req.align == 0 || IsPow2(req.align)) && !mapped
      ensures r.Created? ==>
                && fresh(r.pool) && fresh(r.pool.mem)
                && r.pool.Valid()
                && r.pool.layout == req.Plan()
                && r.pool.pool == FreshPool(req.Plan())
                && Meets(req, r.pool.layout)
                && Guarded(r.pool.layout, r.pool.mem[..], r.pool.layout.nrel)
    {
      IsPow2MacroExact(req.align);
      if req.align != 0 && !IsPow2Macro(req.align) {
        return InvalidAlign;
      }
      if !mapped {
        return MapFailed;
      }
      WellFormedExactly(req);
      PlanExactly(req, req.Plan());
      var l := req.Plan();
      hide Represents, Layout.WellFormed, Request.Plan, Request.Fits, FreshPool, Meets, Guarded;
      var mem := new byte[l.allocsize](_ => 0);
      Initialise(l, mem);
      var pool := new HeapPool(l, mem);
      return Created(pool);
    }

    /** `heap_pool_nb_free`. */
    method FreeCount() returns (n: nat)
      requires Valid()
      ensures n == |pool.free|
    {
      ReadCounts(layout, mem[..], pool);
      hide Represents, NbFree;
      n := CountFree(mem);
    }

    /** `heap_pool_alloc`: the chunk freed last, or -ENOMEM exactly when none is free. */
    method Alloc() returns (r: Reply)
      requires Valid()
      modifies this`pool, mem
      ensures Valid()
      ensures AllocSafe(old(mem[..])) && mem[..] == AllocMem(old(mem[..]))
      ensures pool == old(pool).Alloc()
      ensures r == if old(pool).free == [] then NoMem else Addr(layout.ChunkAddr(old(pool).free[0]))
    {
      hide Represents, AllocMem, AllocSafe, AllocReply, Layout.ChunkAddr, Pool.Alloc;
      AllocRefines(layout, mem[..], pool);
      r := AllocInPlace(base, mem);
      pool := pool.Alloc();
    }

    /** `heap_pool_free` of the held chunk `j`. */
    method Free(addr: nat, ghost j: nat)
      requires Valid() && pool.Holds(j) && addr == layout.ChunkAddr(j)
      modifies this`pool, mem
      ensures Valid()
      ensures FreeSafe(base, old(mem[..]), addr) && mem[..] == FreeMem(base, old(mem[..]), addr)
      ensures pool == old(pool).Free(j)
    {
      hide Represents, FreeMem, FreeSafe, Layout.ChunkAddr, Pool.Free;
      FreeRefines(layout, mem[..], pool, j);
      FreeInPlace(base, mem, addr);
      pool := pool.Free(j);
    }

    /** The holder of chunk `j` stores `data` at offset `off` of its payload. */
    method Write(addr: nat, off: nat, data: seq<byte>, ghost j: nat)
      requires Valid() && pool.Holds(j) && addr == layout.ChunkAddr(j)
      requires off + |data| <= layout.szel
      modifies this`pool, mem
      ensures Valid()
      ensures addr - base + off + |data| <= mem.Length
      ensures mem[..] == Splice(old(mem[..]), addr - base + off, data)
      ensures pool == old(pool).Write(j, off, data)
    {
      hide Represents, Splice, Layout.ChunkOff, Pool.Write;
      WriteRefines(layout, mem[..], pool, j, off, data);
      PutBytes(mem, addr - base + off, data);
      pool := pool.Write(j, off, data);
    }
  }
}
