/** What `heap_pool_alloc` and `heap_pool_free` do to the mapping, and the abstract
    last-in-first-out allocator that they refine. */
module PoolSpec {
  import opened Common
  import opened Words
  import opened PoolLayout
  import opened ByteStore

  // Offsets of the fields of `struct heap_pool_desc`.
  const HPD_NEXT: nat := 0
  const HPD_SZEL: nat := 8
  const HPD_NREL: nat := 16
  const HPD_NRALLOC: nat := 24
  const HPD_FIRSTFREE: nat := 32
  const HPD_SZCK: nat := 40
  const HPD_HOLESIZE: nat := 48
  const HPD_ALLOCSIZE: nat := 56
  const HPD_OFFFIRSTELEM: nat := 64
  const HPD_RAW: nat := HEADER_SIZE

  /** HEAP_POOL_MAGIC | HEAP_CHUNK_FREE, stored as one byte. */
  const MAGIC_BYTE: byte := 0xca

  // ----- the source's operations, on the bytes of the mapping -----

  /** `heap_pool_nb_free`. */
  function NbFree(m: seq<byte>): nat
    requires |m| >= HEADER_SIZE
  {
    (Load(m, HPD_NREL) - Load(m, HPD_NRALLOC)) % WORD
  }

  /** HEAP_POOL_GET_NTH_CHUNK. */
  function NthChunk(base: nat, m: seq<byte>, nth: nat): nat
    requires |m| >= HEADER_SIZE
  {
    base + Load(m, HPD_OFFFIRSTELEM) + nth * Load(m, HPD_SZCK)
  }

  predicate AllocSafe(m: seq<byte>) {
    |m| >= HEADER_SIZE && (NbFree(m) != 0 ==> IndexEntry(Load(m, HPD_FIRSTFREE)) + WORD_SIZE <= |m|)
  }

  /** The mapping after `heap_pool_alloc`. */
  function AllocMem(m: seq<byte>): (m': seq<byte>)
    requires AllocSafe(m)
    ensures |m'| == |m|
  {
    if NbFree(m) == 0 then m else
      var oldFirst := Load(m, HPD_FIRSTFREE);
      var m1 := Store(m, HPD_FIRSTFREE, Load(m, IndexEntry(oldFirst)));
      Store(m1, HPD_NRALLOC, (Load(m1, HPD_NRALLOC) + 1) % WORD)
  }

  datatype Reply = NoMem | Addr(addr: nat) | Done

  /** What `heap_pool_alloc` returns: -ENOMEM, or the address of a chunk. */
  function AllocReply(base: nat, m: seq<byte>): Reply
    requires AllocSafe(m)
  {
    if NbFree(m) == 0 then NoMem else Addr(NthChunk(base, m, Load(m, HPD_FIRSTFREE)))
  }

  predicate FreeSafe(base: nat, m: seq<byte>, addr: nat) {
    && |m| >= HEADER_SIZE
    && base + WORD_SIZE <= addr <= base + |m|
    && IndexEntry(Load(m, addr - base - WORD_SIZE)) + WORD_SIZE <= |m|
  }

  /** The mapping after `heap_pool_free(p, addr)`, which trusts the word before `addr`. */
  function FreeMem(base: nat, m: seq<byte>, addr: nat): (m': seq<byte>)
    requires FreeSafe(base, m, addr)
    ensures |m'| == |m|
  {
    var index := Load(m, addr - base - WORD_SIZE);
    var m1 := Store(m, IndexEntry(index), Load(m, HPD_FIRSTFREE));
    var m2 := Store(m1, HPD_FIRSTFREE, index);
    Store(m2, HPD_NRALLOC, (Load(m2, HPD_NRALLOC) - 1) % WORD)
  }

  // ----- the abstract allocator -----

  ghost predicate Distinct(s: seq<nat>) {
    forall i, j :: 0 <= i < j < |s| ==> s[i] != s[j]
  }

  /** The free chunks, next one to hand out first, and the payload bytes of every chunk. */
  datatype Pool = Pool(free: seq<nat>, payload: seq<seq<byte>>) {

    predicate Holds(j: nat) {
      j < |payload| && j !in free
    }

    function Alloc(): Pool {
      if free == [] then this else this.(free := free[1..])
    }

    function Free(j: nat): Pool {
      this.(free := [j] + free)
    }

    /** A write that does not fit a payload is no write of a client and changes nothing here. */
    function Write(j: nat, off: nat, data: seq<byte>): Pool {
      if j < |payload| && off + |data| <= |payload[j]|
      then this.(payload := payload[j := Splice(payload[j], off, data)])
      else this
    }

    ghost predicate Valid() {
      && (forall i :: 0 <= i < |free| ==> free[i] < |payload|)
      && Distinct(free)
    }
  }

  /** All chunks free, handed out from the first to the last, with zeroed payloads. */
  function FreshPool(l: Layout): Pool {
    Pool(seq(l.nrel, i => i), seq(l.nrel, _ => Zeros(l.szel)))
  }

  // ----- the representation invariant -----

  ghost predicate HeaderHolds(l: Layout, m: seq<byte>, nfree: nat)
    requires |m| >= HEADER_SIZE
  {
    && Load(m, HPD_NEXT) == 0
    && Load(m, HPD_SZEL) == l.szel
    && Load(m, HPD_NREL) == l.nrel
    && nfree <= l.nrel
    && Load(m, HPD_NRALLOC) == l.nrel - nfree
    && Load(m, HPD_SZCK) == l.szck
    && Load(m, HPD_HOLESIZE) == l.holesize
    && Load(m, HPD_ALLOCSIZE) == l.allocsize
    && Load(m, HPD_OFFFIRSTELEM) == l.first
  }

  function EntryOf(l: Layout, i: nat): (a: nat)
    requires l.WellFormed() && i < l.nrel
    ensures HEADER_SIZE <= a && a + WORD_SIZE <= l.first - WORD_SIZE
    ensures l.first <= l.allocsize
  {
    ChunkInside(l, Index(i));
    IndexEntry(i)
  }

  /** The index array links the free chunks from `hpd_firstfree` on and ends at `hpd_nrel`. */
  ghost predicate Chained(l: Layout, m: seq<byte>, free: seq<nat>)
    requires l.WellFormed() && |m| == l.allocsize
    requires forall i :: 0 <= i < |free| ==> free[i] < l.nrel
  {
    && Load(m, HPD_FIRSTFREE) == ItemAt(free, 0, l.nrel)
    && forall i: nat :: i < |free| ==> Load(m, EntryOf(l, free[i])) == ItemAt(free, i + 1, l.nrel)
  }

  function BackOf(l: Layout, j: nat): (a: nat)
    requires l.WellFormed() && j < l.nrel
    ensures l.first - WORD_SIZE <= a && a + WORD_SIZE <= l.allocsize
  {
    ChunkInside(l, Back(j));
    l.ChunkOff(j) - WORD_SIZE
  }

  function EndOf(l: Layout, j: nat): (a: nat)
    requires l.WellFormed() && j < l.nrel
    ensures l.first <= l.ChunkOff(j) <= a <= l.allocsize
  {
    ChunkInside(l, Chunk(j));
    l.ChunkOff(j) + l.szel
  }

  /** The `hpd_szel` bytes of chunk `j` that belong to whoever holds it. */
  function PayloadOf(l: Layout, m: seq<byte>, j: nat): seq<byte>
    requires l.WellFormed() && |m| == l.allocsize && j < l.nrel
  {
    var end := EndOf(l, j);
    m[l.ChunkOff(j)..end]
  }

  /** The word before each chunk holds the chunk's own index. */
  ghost predicate BackLinked(l: Layout, m: seq<byte>)
    requires l.WellFormed() && |m| == l.allocsize
  {
    forall j: nat :: j < l.nrel ==> Load(m, BackOf(l, j)) == j
  }

  ghost predicate PayloadsHold(l: Layout, m: seq<byte>, payload: seq<seq<byte>>)
    requires l.WellFormed() && |m| == l.allocsize
  {
    && |payload| == l.nrel
    && forall j: nat :: j < l.nrel ==> PayloadOf(l, m, j) == payload[j]
  }

  /** The mapping `m`, laid out as `l`, is the abstract pool `p`. */
  ghost predicate Represents(l: Layout, m: seq<byte>, p: Pool) {
    && l.WellFormed()
    && |m| == l.allocsize
    && |p.payload| == l.nrel
    && p.Valid()
    && |m| >= HEADER_SIZE
    && HeaderHolds(l, m, |p.free|)
    && Chained(l, m, p.free)
    && BackLinked(l, m)
    && PayloadsHold(l, m, p.payload)
  }

  /** Where a debug build puts the byte that guards chunk `j` against overflow. */
  function GuardOf(l: Layout, j: nat): (a: nat)
    requires l.WellFormed() && j < l.nrel && l.extra > 0
    ensures l.first <= a < l.allocsize
  {
    ChunkInside(l, Chunk(j));
    l.ChunkOff(j) + l.szel
  }

  /** In a debug build the first `n` guard bytes are in place. */
  ghost predicate Guarded(l: Layout, m: seq<byte>, n: nat)
    requires l.WellFormed() && |m| == l.allocsize && n <= l.nrel
  {
    l.extra > 0 ==> forall j: nat :: j < n ==> m[GuardOf(l, j)] == MAGIC_BYTE
  }

  lemma Bounds(l: Layout)
    requires l.WellFormed()
    ensures HEADER_SIZE <= l.first - WORD_SIZE && HEADER_SIZE <= l.allocsize <= WORD
    ensures l.nrel < l.first < WORD
  {
  }

  /** A store below the chunks, whatever it hits there, keeps back words and payloads. */
  lemma LowStoreKeepsChunks(l: Layout, m: seq<byte>, a: nat, v: nat, payload: seq<seq<byte>>)
    requires l.WellFormed() && |m| == l.allocsize
    requires a + WORD_SIZE <= l.first - WORD_SIZE && a + WORD_SIZE <= l.allocsize && v < WORD
    requires BackLinked(l, m) && PayloadsHold(l, m, payload)
    ensures BackLinked(l, Store(m, a, v)) && PayloadsHold(l, Store(m, a, v), payload)
  {
    hide Load, Store, Layout.ChunkOff;
    StoreFrame(m, a, v);
  }

  lemma StoreKeepsHeader(l: Layout, m: seq<byte>, nfree: nat, a: nat, v: nat)
    requires HEADER_SIZE <= |m| && a + WORD_SIZE <= |m| && v < WORD
    requires HeaderHolds(l, m, nfree)
    requires a == HPD_FIRSTFREE || a >= HEADER_SIZE
    ensures HeaderHolds(l, Store(m, a, v), nfree)
  {
    hide Load, Store;
    StoreFrame(m, a, v);
  }

  lemma StoreCount(l: Layout, m: seq<byte>, nfree: nat, nfree': nat)
    requires HEADER_SIZE <= |m| && HeaderHolds(l, m, nfree)
    requires nfree' <= l.nrel < WORD
    ensures HeaderHolds(l, Store(m, HPD_NRALLOC, l.nrel - nfree'), nfree')
  {
    hide Load, Store;
    StoreFrame(m, HPD_NRALLOC, l.nrel - nfree');
  }

  ghost predicate AllBelow(free: seq<nat>, n: nat) {
    forall i :: 0 <= i < |free| ==> free[i] < n
  }

  lemma CountStoreKeepsChain(l: Layout, m: seq<byte>, free: seq<nat>, v: nat)
    requires l.WellFormed() && |m| == l.allocsize && |m| >= HEADER_SIZE && v < WORD
    requires AllBelow(free, l.nrel) && Chained(l, m, free)
    ensures Chained(l, Store(m, HPD_NRALLOC, v), free)
  {
    hide Load, Store;
    StoreFrame(m, HPD_NRALLOC, v);
  }

  /** Moving `hpd_firstfree` to the next entry drops the first free chunk from the chain. */
  lemma PopChain(l: Layout, m: seq<byte>, free: seq<nat>)
    requires l.WellFormed() && |m| == l.allocsize && |m| >= HEADER_SIZE
    requires AllBelow(free, l.nrel) && Chained(l, m, free) && free != []
    ensures Load(m, EntryOf(l, free[0])) < WORD
    ensures Chained(l, Store(m, HPD_FIRSTFREE, Load(m, EntryOf(l, free[0]))), free[1..])
  {
    hide Load, Store;
    var next := Load(m, EntryOf(l, free[0]));
    LoadBound(m, EntryOf(l, free[0]));
    StoreFrame(m, HPD_FIRSTFREE, next);
    assert next == ItemAt(free[1..], 0, l.nrel);
    forall i: nat | i < |free[1..]|
      ensures Load(Store(m, HPD_FIRSTFREE, next), EntryOf(l, free[1..][i])) == ItemAt(free[1..], i + 1, l.nrel)
    {
      assert free[1..][i] == free[i + 1];
    }
  }

  /** Linking entry `j` to the old chain and starting at `j` puts `j` in front. */
  lemma PushChain(l: Layout, m: seq<byte>, free: seq<nat>, j: nat)
    requires l.WellFormed() && |m| == l.allocsize && |m| >= HEADER_SIZE
    requires AllBelow(free, l.nrel) && Chained(l, m, free) && j < l.nrel && j !in free
    requires l.nrel < WORD
    ensures AllBelow([j] + free, l.nrel)
    ensures Load(m, HPD_FIRSTFREE) < WORD
    ensures var m1 := Store(m, EntryOf(l, j), Load(m, HPD_FIRSTFREE));
            Chained(l, Store(m1, HPD_FIRSTFREE, j), [j] + free)
  {
    hide Load, Store;
    var first := Load(m, HPD_FIRSTFREE);
    LoadBound(m, HPD_FIRSTFREE);
    StoreFrame(m, EntryOf(l, j), first);
    var m1 := Store(m, EntryOf(l, j), first);
    StoreFrame(m1, HPD_FIRSTFREE, j);
    var m2, free' := Store(m1, HPD_FIRSTFREE, j), [j] + free;
    forall i: nat | i < |free'|
      ensures Load(m2, EntryOf(l, free'[i])) == ItemAt(free', i + 1, l.nrel)
    {
      if i > 0 {
        assert free'[i] == free[i - 1];
        assert free'[i] != j;
        assert Load(m, EntryOf(l, free[i - 1])) == ItemAt(free, i, l.nrel);
      }
    }
  }

  lemma ReadCounts(l: Layout, m: seq<byte>, p: Pool)
    requires Represents(l, m, p)
    ensures NbFree(m) == |p.free| <= l.nrel
    ensures Load(m, HPD_NRALLOC) == l.nrel - |p.free|
    ensures l.nrel < WORD
  {
    hide Load, Layout.ChunkOff, Chained, BackLinked, PayloadsHold;
    Bounds(l);
  }

  lemma FirstFree(l: Layout, m: seq<byte>, p: Pool)
    requires Represents(l, m, p) && p.free != []
    ensures Load(m, HPD_FIRSTFREE) == p.free[0]
    ensures IndexEntry(p.free[0]) == EntryOf(l, p.free[0])
    ensures NthChunk(l.base, m, p.free[0]) == l.ChunkAddr(p.free[0])
  {
    hide Load;
    NthChunkIsVisited(l, p.free[0]);
  }

  lemma BackWord(l: Layout, m: seq<byte>, p: Pool, j: nat)
    requires Represents(l, m, p) && j < l.nrel
    ensures l.ChunkAddr(j) - l.base - WORD_SIZE == BackOf(l, j)
    ensures Load(m, BackOf(l, j)) == j
    ensures EntryOf(l, j) == IndexEntry(j)
  {
  }

  // ----- counting -----

  function UpTo(n: nat): (s: set<nat>)
    ensures |s| == n
    ensures forall j: nat :: j in s <==> j < n
  {
    if n == 0 then {} else UpTo(n - 1) + {n - 1}
  }

  function Elements(s: seq<nat>): (e: set<nat>)
    ensures forall j: nat :: j in e <==> j in s
  {
    if s == [] then {} else Elements(s[..|s| - 1]) + {s[|s| - 1]}
  }

  function HeldSet(p: Pool): set<nat> {
    UpTo(|p.payload|) - Elements(p.free)
  }

  lemma {:induction false} DistinctCount(s: seq<nat>)
    requires Distinct(s)
    ensures |Elements(s)| == |s|
  {
    if s != [] {
      DistinctCount(s[..|s| - 1]);
    }
  }

  /** Held chunks and free chunks together are all the chunks. */
  lemma HeldPlusFree(p: Pool)
    requires p.Valid()
    ensures |HeldSet(p)| + |p.free| == |p.payload|
  {
    DistinctCount(p.free);
    assert Elements(p.free) <= UpTo(|p.payload|);
  }

  lemma NotAllFree(p: Pool, j: nat)
    requires p.Valid() && p.Holds(j)
    ensures |p.free| < |p.payload|
  {
    HeldPlusFree(p);
    assert j in HeldSet(p);
  }

  /** `hpd_nralloc` counts the held chunks, and with `heap_pool_nb_free` they make up `hpd_nrel`. */
  lemma HeldPlusNbFree(l: Layout, m: seq<byte>, p: Pool)
    requires Represents(l, m, p)
    ensures |m| >= HEADER_SIZE
    ensures |HeldSet(p)| == Load(m, HPD_NRALLOC)
    ensures |HeldSet(p)| + NbFree(m) == Load(m, HPD_NREL) == l.nrel
  {
    hide Load, NbFree, HeldSet, Chained, BackLinked, PayloadsHold, Layout.ChunkOff;
    ReadCounts(l, m, p);
    HeldPlusFree(p);
  }

  // ----- allocating and freeing -----

  lemma AllocStores(m: seq<byte>, entry: nat, used: nat)
    requires AllocSafe(m) && NbFree(m) != 0 && used + 1 < WORD
    requires entry == IndexEntry(Load(m, HPD_FIRSTFREE)) && used == Load(m, HPD_NRALLOC)
    ensures AllocMem(m) == Store(Store(m, HPD_FIRSTFREE, Load(m, entry)), HPD_NRALLOC, used + 1)
  {
    hide Load, Store, NbFree;
    LoadBound(m, entry);
    StoreFrame(m, HPD_FIRSTFREE, Load(m, entry));
  }

  /** On a pool with a free chunk, `heap_pool_alloc` stores exactly two words. */
  lemma AllocShape(l: Layout, m: seq<byte>, p: Pool)
    requires Represents(l, m, p) && p.free != []
    ensures AllocSafe(m)
    ensures AllocMem(m) == Store(Store(m, HPD_FIRSTFREE, Load(m, EntryOf(l, p.free[0]))),
                                 HPD_NRALLOC, l.nrel - |p.free| + 1)
  {
    hide Load, Store, Layout.ChunkOff, Chained, BackLinked, PayloadsHold, HeaderHolds;
    Bounds(l);
    ReadCounts(l, m, p);
    FirstFree(l, m, p);
    LoadBound(m, EntryOf(l, p.free[0]));
    AllocStores(m, EntryOf(l, p.free[0]), l.nrel - |p.free|);
  }

  /** `heap_pool_alloc` pops the free list, and fails exactly when it is empty. */
  lemma AllocRefines(l: Layout, m: seq<byte>, p: Pool)
    requires Represents(l, m, p)
    ensures AllocSafe(m)
    ensures Represents(l, AllocMem(m), p.Alloc())
    ensures AllocReply(l.base, m) == if p.free == [] then NoMem else Addr(l.ChunkAddr(p.free[0]))
  {
    hide Load, Store, Layout.ChunkOff, Chained, BackLinked, PayloadsHold, HeaderHolds;
    Bounds(l);
    ReadCounts(l, m, p);
    if p.free != [] {
      FirstFree(l, m, p);
      AllocShape(l, m, p);
      var next := Load(m, EntryOf(l, p.free[0]));
      var m1 := Store(m, HPD_FIRSTFREE, next);
      PopChain(l, m, p.free);
      StoreKeepsHeader(l, m, |p.free|, HPD_FIRSTFREE, next);
      LowStoreKeepsChunks(l, m, HPD_FIRSTFREE, next, p.payload);
      var count := l.nrel - (|p.free| - 1);
      StoreCount(l, m1, |p.free|, |p.free| - 1);
      CountStoreKeepsChain(l, m1, p.free[1..], count);
      LowStoreKeepsChunks(l, m1, HPD_NRALLOC, count, p.payload);
    }
  }

  /** Freeing the held chunk `j` stores exactly three words. */
  lemma FreeShape(l: Layout, m: seq<byte>, p: Pool, j: nat)
    requires Represents(l, m, p) && p.Holds(j)
    ensures |p.free| < l.nrel
    ensures FreeSafe(l.base, m, l.ChunkAddr(j))
    ensures FreeMem(l.base, m, l.ChunkAddr(j))
            == Store(Store(Store(m, EntryOf(l, j), Load(m, HPD_FIRSTFREE)), HPD_FIRSTFREE, j),
                     HPD_NRALLOC, l.nrel - |p.free| - 1)
  {
    hide Load, Store, Layout.ChunkOff, Chained, PayloadsHold, BackLinked, HeaderHolds;
    Bounds(l);
    ReadCounts(l, m, p);
    BackWord(l, m, p, j);
    NotAllFree(p, j);
    var first := Load(m, HPD_FIRSTFREE);
    LoadBound(m, HPD_FIRSTFREE);
    StoreFrame(m, EntryOf(l, j), first);
    StoreFrame(Store(m, EntryOf(l, j), first), HPD_FIRSTFREE, j);
  }

  /** `heap_pool_free` of a held chunk pushes it. */
  lemma FreeRefines(l: Layout, m: seq<byte>, p: Pool, j: nat)
    requires Represents(l, m, p) && p.Holds(j)
    ensures FreeSafe(l.base, m, l.ChunkAddr(j))
    ensures Represents(l, FreeMem(l.base, m, l.ChunkAddr(j)), p.Free(j))
  {
    hide Load, Store, FreeMem, FreeSafe, Layout.ChunkOff, Chained, PayloadsHold, BackLinked, HeaderHolds;
    Bounds(l);
    FreeShape(l, m, p, j);
    var first := Load(m, HPD_FIRSTFREE);
    var m1 := Store(m, EntryOf(l, j), first);
    var m2 := Store(m1, HPD_FIRSTFREE, j);
    PushChain(l, m, p.free, j);
    StoreKeepsHeader(l, m, |p.free|, EntryOf(l, j), first);
    LowStoreKeepsChunks(l, m, EntryOf(l, j), first, p.payload);
    StoreKeepsHeader(l, m1, |p.free|, HPD_FIRSTFREE, j);
    LowStoreKeepsChunks(l, m1, HPD_FIRSTFREE, j, p.payload);
    var count := l.nrel - (|p.free| + 1);
    StoreCount(l, m2, |p.free|, |p.free| + 1);
    CountStoreKeepsChain(l, m2, [j] + p.free, count);
    LowStoreKeepsChunks(l, m2, HPD_NRALLOC, count, p.payload);
  }

  // ----- the chain in the bytes -----

  /** The indices met in `n` steps along the index array, starting with `head`. */
  function FollowChain(m: seq<byte>, head: nat, n: nat): seq<nat>
    decreases n
  {
    if n == 0 || IndexEntry(head) + WORD_SIZE > |m| then []
    else [head] + FollowChain(m, Load(m, IndexEntry(head)), n - 1)
  }

  lemma FollowNone(m: seq<byte>, head: nat)
    ensures FollowChain(m, head, 0) == []
  {
  }

  lemma ChainLink(l: Layout, m: seq<byte>, p: Pool, i: nat)
    requires Represents(l, m, p) && i < |p.free|
    ensures IndexEntry(p.free[i]) + WORD_SIZE <= |m|
    ensures Load(m, IndexEntry(p.free[i])) == ItemAt(p.free, i + 1, l.nrel)
  {
    hide Load, HeaderHolds, BackLinked, PayloadsHold, Layout.ChunkOff;
    assert Load(m, EntryOf(l, p.free[i])) == ItemAt(p.free, i + 1, l.nrel);
  }

  lemma FollowOne(m: seq<byte>, head: nat, n: nat)
    requires n > 0 && IndexEntry(head) + WORD_SIZE <= |m|
    ensures FollowChain(m, head, n) == [head] + FollowChain(m, Load(m, IndexEntry(head)), n - 1)
  {
    hide Load;
  }

  lemma {:induction false} FollowFrom(l: Layout, m: seq<byte>, p: Pool, i: nat)
    requires Represents(l, m, p) && i <= |p.free|
    ensures FollowChain(m, ItemAt(p.free, i, l.nrel), |p.free| - i) == p.free[i..]
    decreases |p.free| - i
  {
    hide Load, Represents, IndexEntry, FollowChain;
    if i == |p.free| {
      FollowNone(m, l.nrel);
    } else {
      ChainLink(l, m, p, i);
      FollowFrom(l, m, p, i + 1);
      FollowOne(m, p.free[i], |p.free| - i);
      assert p.free[i..] == [p.free[i]] + p.free[i + 1..];
    }
  }

  /** From `hpd_firstfree` on, the index array leads through `heap_pool_nb_free` different indices,
      exactly those of the chunks not held, and the last entry holds `hpd_nrel`. */
  lemma ChainVisitsFree(l: Layout, m: seq<byte>, p: Pool)
    requires Represents(l, m, p)
    ensures |m| >= HEADER_SIZE
    ensures var chain := FollowChain(m, Load(m, HPD_FIRSTFREE), NbFree(m));
            && chain == p.free
            && |chain| == NbFree(m) == l.nrel - Load(m, HPD_NRALLOC)
            && Distinct(chain)
            && (forall j: nat :: j < l.nrel ==> (j in chain <==> !p.Holds(j)))
            && (if chain == [] then Load(m, HPD_FIRSTFREE) == l.nrel
                else chain[|chain| - 1] < l.nrel && Load(m, EntryOf(l, chain[|chain| - 1])) == l.nrel)
  {
    hide Load, HeaderHolds, BackLinked, PayloadsHold, Layout.ChunkOff, NbFree, FollowChain;
    ReadCounts(l, m, p);
    FollowFrom(l, m, p, 0);
    assert p.free[0..] == p.free;
  }

  /** The bytes of a pool determine what it is: a mapping represents at most one abstract pool. */
  lemma PoolUnique(l: Layout, m: seq<byte>, p: Pool, q: Pool)
    requires Represents(l, m, p) && Represents(l, m, q)
    ensures p == q
  {
    hide Load, HeaderHolds, Chained, BackLinked, Layout.ChunkOff, FollowChain, NbFree;
    ChainVisitsFree(l, m, p);
    ChainVisitsFree(l, m, q);
    forall j | 0 <= j < l.nrel
      ensures p.payload[j] == q.payload[j]
    {
      assert PayloadOf(l, m, j) == p.payload[j] && PayloadOf(l, m, j) == q.payload[j];
    }
  }

  // ----- client writes -----

  /** A write inside the payload of chunk `j` misses every other part of the mapping. */
  lemma WriteApart(l: Layout, j: nat, off: nat, len: nat, k: nat)
    requires l.WellFormed() && j < l.nrel && k < l.nrel && off + len <= l.szel
    ensures l.ChunkOff(j) + off + len <= l.allocsize
    ensures Apart(l.ChunkOff(j) + off, len, BackOf(l, k), WORD_SIZE)
    ensures k != j ==> Apart(l.ChunkOff(j) + off, len, l.ChunkOff(k), l.szel)
  {
    hide Layout.ChunkOff;
    PartsDisjoint(l, Chunk(j), Back(k));
    PartsDisjoint(l, Chunk(j), Chunk(k));
  }

  lemma SpliceInside(m: seq<byte>, a: nat, n: nat, off: nat, data: seq<byte>)
    requires a + n <= |m| && off + |data| <= n
    ensures Splice(m, a + off, data)[a..a + n] == Splice(m[a..a + n], off, data)
  {
  }

  lemma WriteKeepsLinks(l: Layout, m: seq<byte>, p: Pool, a: nat, data: seq<byte>)
    requires Represents(l, m, p) && l.first <= a && a + |data| <= |m|
    ensures |m| >= HEADER_SIZE && HeaderHolds(l, Splice(m, a, data), |p.free|)
    ensures Chained(l, Splice(m, a, data), p.free)
  {
    hide Load, Splice, Layout.ChunkOff, BackLinked, PayloadsHold;
    Bounds(l);
    SpliceFrame(m, a, data);
  }

  lemma WriteKeepsBacks(l: Layout, m: seq<byte>, p: Pool, j: nat, off: nat, data: seq<byte>)
    requires Represents(l, m, p) && j < l.nrel && off + |data| <= l.szel
    requires l.ChunkOff(j) + off + |data| <= |m|
    ensures BackLinked(l, Splice(m, l.ChunkOff(j) + off, data))
  {
    hide Load, Splice, Layout.ChunkOff, HeaderHolds, Chained, PayloadsHold;
    SpliceFrame(m, l.ChunkOff(j) + off, data);
    forall k: nat | k < l.nrel
      ensures Load(Splice(m, l.ChunkOff(j) + off, data), BackOf(l, k)) == k
    {
      WriteApart(l, j, off, |data|, k);
    }
  }

  lemma WriteOnePayload(l: Layout, m: seq<byte>, p: Pool, j: nat, off: nat, data: seq<byte>)
    requires Represents(l, m, p) && j < l.nrel && off + |data| <= l.szel
    requires l.ChunkOff(j) + off + |data| <= |m| && |p.payload[j]| == l.szel
    ensures PayloadsHold(l, Splice(m, l.ChunkOff(j) + off, data), p.Write(j, off, data).payload)
  {
    hide Load, Splice, Layout.ChunkOff, HeaderHolds, Chained, BackLinked;
    SpliceFrame(m, l.ChunkOff(j) + off, data);
    forall k: nat | k < l.nrel
      ensures PayloadOf(l, Splice(m, l.ChunkOff(j) + off, data), k) == p.Write(j, off, data).payload[k]
    {
      WriteApart(l, j, off, |data|, k);
      assert PayloadOf(l, m, k) == p.payload[k];
      SpliceInside(m, l.ChunkOff(j), l.szel, off, data);
    }
  }

  /** Writing into the payload of a chunk changes that payload and nothing else of the pool. */
  lemma WriteRefines(l: Layout, m: seq<byte>, p: Pool, j: nat, off: nat, data: seq<byte>)
    requires Represents(l, m, p) && j < |p.payload| && off + |data| <= l.szel
    ensures l.ChunkOff(j) + off + |data| <= |m|
    ensures |p.payload[j]| == l.szel
    ensures Represents(l, Splice(m, l.ChunkOff(j) + off, data), p.Write(j, off, data))
  {
    hide Load, Splice, Layout.ChunkOff, HeaderHolds, Chained, BackLinked;
    WriteApart(l, j, off, |data|, j);
    assert p.payload[j] == PayloadOf(l, m, j);
    hide PayloadsHold;
    WriteKeepsLinks(l, m, p, l.ChunkOff(j) + off, data);
    WriteKeepsBacks(l, m, p, j, off, data);
    WriteOnePayload(l, m, p, j, off, data);
  }

  // ----- the guard bytes -----

  lemma SpliceByte(m: seq<byte>, a: nat, data: seq<byte>, x: nat)
    requires a + |data| <= |m| && x < |m| && (x < a || a + |data| <= x)
    ensures Splice(m, a, data)[x] == m[x]
  {
  }

  lemma StoreByte(m: seq<byte>, a: nat, v: nat, x: nat)
    requires a + WORD_SIZE <= |m| && x < |m| && (x < a || a + WORD_SIZE <= x)
    ensures Store(m, a, v)[x] == m[x]
  {
    hide Splice, Encode;
    SpliceByte(m, a, Encode(v, 8), x);
  }

  lemma AllocKeepsGuards(l: Layout, m: seq<byte>)
    requires l.WellFormed() && |m| == l.allocsize && AllocSafe(m) && Guarded(l, m, l.nrel)
    ensures Guarded(l, AllocMem(m), l.nrel)
  {
    hide Load, Store, NbFree, Layout.ChunkOff;
    Bounds(l);
    if l.extra > 0 && NbFree(m) != 0 {
      var m1 := Store(m, HPD_FIRSTFREE, Load(m, IndexEntry(Load(m, HPD_FIRSTFREE))));
      forall j: nat | j < l.nrel
        ensures AllocMem(m)[GuardOf(l, j)] == MAGIC_BYTE
      {
        StoreByte(m, HPD_FIRSTFREE, Load(m, IndexEntry(Load(m, HPD_FIRSTFREE))), GuardOf(l, j));
        StoreByte(m1, HPD_NRALLOC, (Load(m1, HPD_NRALLOC) + 1) % WORD, GuardOf(l, j));
      }
    }
  }

  lemma FreeKeepsGuards(l: Layout, m: seq<byte>, p: Pool, i: nat)
    requires Represents(l, m, p) && p.Holds(i) && Guarded(l, m, l.nrel)
    ensures FreeSafe(l.base, m, l.ChunkAddr(i))
    ensures Guarded(l, FreeMem(l.base, m, l.ChunkAddr(i)), l.nrel)
  {
    hide Load, Store, FreeMem, FreeSafe, Layout.ChunkOff, Chained, BackLinked, PayloadsHold, HeaderHolds;
    Bounds(l);
    FreeShape(l, m, p, i);
    if l.extra > 0 {
      var m1 := Store(m, EntryOf(l, i), Load(m, HPD_FIRSTFREE));
      var m2 := Store(m1, HPD_FIRSTFREE, i);
      forall j: nat | j < l.nrel
        ensures FreeMem(l.base, m, l.ChunkAddr(i))[GuardOf(l, j)] == MAGIC_BYTE
      {
        StoreByte(m, EntryOf(l, i), Load(m, HPD_FIRSTFREE), GuardOf(l, j));
        StoreByte(m1, HPD_FIRSTFREE, i, GuardOf(l, j));
        StoreByte(m2, HPD_NRALLOC, l.nrel - |p.free| - 1, GuardOf(l, j));
      }
    }
  }

  /** A write that stays within its payload reaches no guard byte. */
  lemma WriteKeepsGuards(l: Layout, m: seq<byte>, i: nat, off: nat, data: seq<byte>)
    requires l.WellFormed() && |m| == l.allocsize && Guarded(l, m, l.nrel)
    requires i < l.nrel && off + |data| <= l.szel
    ensures l.ChunkOff(i) + off + |data| <= |m|
    ensures Guarded(l, Splice(m, l.ChunkOff(i) + off, data), l.nrel)
  {
    hide Splice, Layout.ChunkOff;
    ChunkInside(l, Chunk(i));
    if l.extra > 0 {
      forall j: nat | j < l.nrel
        ensures Splice(m, l.ChunkOff(i) + off, data)[GuardOf(l, j)] == MAGIC_BYTE
      {
        PartsDisjoint(l, Chunk(i), Chunk(j));
        SpliceByte(m, l.ChunkOff(i) + off, data, GuardOf(l, j));
      }
    }
  }

  // ----- undoing -----

  /** The stores of an allocation followed by those of the matching free cancel. */
  lemma UndoAlloc(m: seq<byte>, entry: nat, j: nat, used: nat)
    requires HEADER_SIZE <= entry && entry + WORD_SIZE <= |m| && used + 1 < WORD
    requires Load(m, HPD_FIRSTFREE) == j && Load(m, HPD_NRALLOC) == used
    ensures Load(m, entry) < WORD
    ensures var m2 := Store(Store(m, HPD_FIRSTFREE, Load(m, entry)), HPD_NRALLOC, used + 1);
            Store(Store(Store(m2, entry, Load(m2, HPD_FIRSTFREE)), HPD_FIRSTFREE, j), HPD_NRALLOC, used) == m
  {
    hide Load, Store;
    var next := Load(m, entry);
    LoadBound(m, entry);
    var m1 := Store(m, HPD_FIRSTFREE, next);
    StoreFrame(m, HPD_FIRSTFREE, next);
    var m2 := Store(m1, HPD_NRALLOC, used + 1);
    StoreFrame(m1, HPD_NRALLOC, used + 1);
    StoreLoaded(m2, entry);
    StoresCommute(m1, HPD_NRALLOC, used + 1, HPD_FIRSTFREE, j);
    StoreTwice(m, HPD_FIRSTFREE, next, j);
    StoreLoaded(m, HPD_FIRSTFREE);
    StoreTwice(m, HPD_NRALLOC, used + 1, used);
    StoreLoaded(m, HPD_NRALLOC);
  }

  /** Freeing the chunk just allocated restores the whole mapping, byte for byte. */
  lemma AllocFreeRestores(l: Layout, m: seq<byte>, p: Pool)
    requires Represents(l, m, p) && p.free != []
    ensures AllocSafe(m) && AllocReply(l.base, m) == Addr(l.ChunkAddr(p.free[0]))
    ensures var addr := l.ChunkAddr(p.free[0]);
            && FreeSafe(l.base, AllocMem(m), addr)
            && FreeMem(l.base, AllocMem(m), addr) == m
  {
    hide Load, Store, AllocMem, AllocReply, FreeMem, FreeSafe;
    hide Layout.ChunkOff, Chained, BackLinked, PayloadsHold, HeaderHolds;
    Bounds(l);
    AllocRefines(l, m, p);
    ReadCounts(l, m, p);
    FirstFree(l, m, p);
    var j := p.free[0];
    AllocShape(l, m, p);
    assert p.Alloc().Holds(j);
    FreeShape(l, AllocMem(m), p.Alloc(), j);
    LoadBound(m, EntryOf(l, j));
    UndoAlloc(m, EntryOf(l, j), j, l.nrel - |p.free|);
  }

  lemma RedoFree(m: seq<byte>, entry: nat, j: nat, used: nat)
    requires HEADER_SIZE <= entry && entry + WORD_SIZE <= |m| && 0 < used < WORD && j < WORD
    requires Load(m, HPD_NRALLOC) == used
    ensures var n := Store(m, entry, Load(m, HPD_FIRSTFREE));
            var n2 := Store(Store(n, HPD_FIRSTFREE, j), HPD_NRALLOC, used - 1);
            Store(Store(n2, HPD_FIRSTFREE, Load(n2, entry)), HPD_NRALLOC, used) == n
  {
    hide Load, Store;
    var first := Load(m, HPD_FIRSTFREE);
    LoadBound(m, HPD_FIRSTFREE);
    var n := Store(m, entry, first);
    StoreFrame(m, entry, first);
    var n1 := Store(n, HPD_FIRSTFREE, j);
    StoreFrame(n, HPD_FIRSTFREE, j);
    StoreFrame(n1, HPD_NRALLOC, used - 1);
    StoresCommute(n1, HPD_NRALLOC, used - 1, HPD_FIRSTFREE, first);
    StoreTwice(n, HPD_FIRSTFREE, j, first);
    StoreLoaded(n, HPD_FIRSTFREE);
    StoreTwice(n, HPD_NRALLOC, used - 1, used);
    StoreLoaded(n, HPD_NRALLOC);
  }

  /** Allocating right after a free hands the same chunk back, and only the freed chunk's own
      index entry, which no longer matters, can differ from before. */
  lemma FreeAllocReturns(l: Layout, m: seq<byte>, p: Pool, j: nat)
    requires Represents(l, m, p) && p.Holds(j)
    ensures FreeSafe(l.base, m, l.ChunkAddr(j))
    ensures var m1 := FreeMem(l.base, m, l.ChunkAddr(j));
            && AllocSafe(m1)
            && AllocReply(l.base, m1) == Addr(l.ChunkAddr(j))
            && AllocMem(m1) == Store(m, EntryOf(l, j), Load(m, HPD_FIRSTFREE))
  {
    hide Load, Store, AllocMem, AllocReply, FreeMem, FreeSafe;
    hide Layout.ChunkOff, Chained, BackLinked, PayloadsHold, HeaderHolds;
    Bounds(l);
    FreeRefines(l, m, p, j);
    FreeShape(l, m, p, j);
    var m1 := FreeMem(l.base, m, l.ChunkAddr(j));
    AllocRefines(l, m1, p.Free(j));
    AllocShape(l, m1, p.Free(j));
    ReadCounts(l, m, p);
    RedoFree(m, EntryOf(l, j), j, l.nrel - |p.free|);
  }
}
