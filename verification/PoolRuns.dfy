/** Whole runs of a pool: any interleaving of allocations, frees of held chunks and client
    writes into held payloads, on one shared byte store. */
module PoolRuns {
  import opened Common
  import opened PoolLayout
  import opened PoolRequest
  import opened ByteStore
  import opened PoolSpec

  /** What a client does: a chunk is named by its number, and passed as its address. */
  datatype Event = Alloc | Free(j: nat) | Write(j: nat, off: nat, data: seq<byte>)

  /** Only held chunks are freed or written, and writes stay within `hpd_szel` bytes. */
  predicate Legal(l: Layout, p: Pool, e: Event) {
    match e
    case Alloc => true
    case Free(j) => p.Holds(j)
    case Write(j, off, data) => p.Holds(j) && off + |data| <= l.szel
  }

  // ----- one event, on the bytes and on the abstract pool -----

  predicate Safe(l: Layout, m: seq<byte>, e: Event) {
    match e
    case Alloc => AllocSafe(m)
    case Free(j) => FreeSafe(l.base, m, l.ChunkAddr(j))
    case Write(j, off, data) => l.ChunkOff(j) + off + |data| <= |m|
  }

  function StepMem(l: Layout, m: seq<byte>, e: Event): seq<byte>
    requires Safe(l, m, e)
  {
    match e
    case Alloc => AllocMem(m)
    case Free(j) => FreeMem(l.base, m, l.ChunkAddr(j))
    case Write(j, off, data) => Splice(m, l.ChunkOff(j) + off, data)
  }

  function StepReply(l: Layout, m: seq<byte>, e: Event): Reply
    requires Safe(l, m, e)
  {
    if e.Alloc? then AllocReply(l.base, m) else Done
  }

  function StepPool(p: Pool, e: Event): (p': Pool)
    ensures |p'.payload| == |p.payload|
  {
    match e
    case Alloc => p.Alloc()
    case Free(j) => p.Free(j)
    case Write(j, off, data) => p.Write(j, off, data)
  }

  /** The allocator's answer: the chunk freed last, or failure when none is free. */
  function PoolReply(l: Layout, p: Pool, e: Event): Reply {
    if !e.Alloc? then Done
    else if p.free == [] then NoMem
    else Addr(l.ChunkAddr(p.free[0]))
  }

  lemma StepRefines(l: Layout, m: seq<byte>, p: Pool, e: Event)
    requires Represents(l, m, p) && Legal(l, p, e)
    ensures Safe(l, m, e)
    ensures Represents(l, StepMem(l, m, e), StepPool(p, e))
    ensures StepReply(l, m, e) == PoolReply(l, p, e)
  {
    hide Represents, AllocMem, AllocReply, AllocSafe, FreeMem, FreeSafe, Splice, Layout.ChunkOff;
    match e
    case Alloc => AllocRefines(l, m, p);
    case Free(j) => FreeRefines(l, m, p, j);
    case Write(j, off, data) => WriteRefines(l, m, p, j, off, data);
  }

  // ----- runs -----

  predicate RunSafe(l: Layout, m: seq<byte>, events: seq<Event>)
    decreases |events|
  {
    events == [] || (Safe(l, m, events[0]) && RunSafe(l, StepMem(l, m, events[0]), events[1..]))
  }

  function RunMem(l: Layout, m: seq<byte>, events: seq<Event>): seq<byte>
    requires RunSafe(l, m, events)
    decreases |events|
  {
    if events == [] then m else RunMem(l, StepMem(l, m, events[0]), events[1..])
  }

  function RunReplies(l: Layout, m: seq<byte>, events: seq<Event>): (rs: seq<Reply>)
    requires RunSafe(l, m, events)
    ensures |rs| == |events|
    decreases |events|
  {
    if events == [] then []
    else [StepReply(l, m, events[0])] + RunReplies(l, StepMem(l, m, events[0]), events[1..])
  }

  predicate LegalRun(l: Layout, p: Pool, events: seq<Event>)
    decreases |events|
  {
    events == [] || (Legal(l, p, events[0]) && LegalRun(l, StepPool(p, events[0]), events[1..]))
  }

  function RunPool(p: Pool, events: seq<Event>): (p': Pool)
    ensures |p'.payload| == |p.payload|
    decreases |events|
  {
    if events == [] then p else RunPool(StepPool(p, events[0]), events[1..])
  }

  function PoolReplies(l: Layout, p: Pool, events: seq<Event>): (rs: seq<Reply>)
    ensures |rs| == |events|
    decreases |events|
  {
    if events == [] then []
    else [PoolReply(l, p, events[0])] + PoolReplies(l, StepPool(p, events[0]), events[1..])
  }

  /** Over every legal run the bytes stay a pool, namely the one the abstract run reaches,
      and every answer is the abstract allocator's. */
  lemma {:induction false} RunRefines(l: Layout, m: seq<byte>, p: Pool, events: seq<Event>)
    requires Represents(l, m, p) && LegalRun(l, p, events)
    ensures RunSafe(l, m, events)
    ensures Represents(l, RunMem(l, m, events), RunPool(p, events))
    ensures RunReplies(l, m, events) == PoolReplies(l, p, events)
    decreases |events|
  {
    hide Represents, Safe, StepMem, StepReply, PoolReply;
    if events != [] {
      StepRefines(l, m, p, events[0]);
      RunRefines(l, StepMem(l, m, events[0]), StepPool(p, events[0]), events[1..]);
    }
  }

  // ----- what a client holds -----

  /** The addresses a client holds after an event, from what it asked and was told. */
  function Track(l: Layout, held: set<nat>, e: Event, r: Reply): set<nat> {
    match e
    case Alloc => if r.Addr? then held + {r.addr} else held
    case Free(j) => held - {l.ChunkAddr(j)}
    case Write(_, _, _) => held
  }

  function TrackRun(l: Layout, held: set<nat>, events: seq<Event>, replies: seq<Reply>): set<nat>
    requires |events| == |replies|
    decreases |events|
  {
    if events == [] then held
    else TrackRun(l, Track(l, held, events[0], replies[0]), events[1..], replies[1..])
  }

  /** An allocation hands out an address not already held, or reports failure when, and only
      when, all the chunks are held. */
  predicate FairReply(l: Layout, held: set<nat>, r: Reply) {
    match r
    case Addr(a) => a !in held && |held| < l.nrel
    case NoMem => |held| == l.nrel
    case Done => false
  }

  /** Every allocation of the run is answered fairly. */
  predicate Coherent(l: Layout, held: set<nat>, events: seq<Event>, replies: seq<Reply>)
    requires |events| == |replies|
    decreases |events|
  {
    events == [] || (
      && (events[0].Alloc? ==> FairReply(l, held, replies[0]))
      && Coherent(l, Track(l, held, events[0], replies[0]), events[1..], replies[1..]))
  }

  ghost function Addresses(l: Layout, chunks: set<nat>): set<nat> {
    set j | j in chunks :: l.ChunkAddr(j)
  }

  lemma AddrInjective(l: Layout, i: nat, j: nat)
    requires l.szck > 0 && l.ChunkAddr(i) == l.ChunkAddr(j)
    ensures i == j
  {
    hide Layout.ChunkOff;
    if i < j {
      ChunkOrder(l, i, j);
    } else if j < i {
      ChunkOrder(l, j, i);
    }
  }

  lemma AddressIn(l: Layout, chunks: set<nat>, j: nat)
    requires l.szck > 0
    ensures l.ChunkAddr(j) in Addresses(l, chunks) <==> j in chunks
  {
    if l.ChunkAddr(j) in Addresses(l, chunks) {
      var i :| i in chunks && l.ChunkAddr(i) == l.ChunkAddr(j);
      AddrInjective(l, i, j);
    }
  }

  lemma {:induction false} AddressesCount(l: Layout, chunks: set<nat>)
    requires l.szck > 0
    ensures |Addresses(l, chunks)| == |chunks|
    decreases |chunks|
  {
    hide Layout.ChunkAddr;
    if chunks != {} {
      var j :| j in chunks;
      AddressesCount(l, chunks - {j});
      AddressIn(l, chunks - {j}, j);
      assert chunks == chunks - {j} + {j};
      assert Addresses(l, chunks) == Addresses(l, chunks - {j}) + {l.ChunkAddr(j)};
    }
  }

  lemma RemoveAddress(l: Layout, chunks: set<nat>, j: nat)
    requires l.szck > 0
    ensures Addresses(l, chunks - {j}) == Addresses(l, chunks) - {l.ChunkAddr(j)}
  {
    hide Layout.ChunkAddr;
    forall a: nat
      ensures a in Addresses(l, chunks - {j}) <==> a in Addresses(l, chunks) - {l.ChunkAddr(j)}
    {
      if a in Addresses(l, chunks) {
        var i :| i in chunks && l.ChunkAddr(i) == a;
        if a == l.ChunkAddr(j) {
          AddressIn(l, chunks - {j}, j);
        } else {
          assert i in chunks - {j};
        }
      }
    }
  }

  lemma AddAddress(l: Layout, chunks: set<nat>, j: nat)
    ensures Addresses(l, chunks + {j}) == Addresses(l, chunks) + {l.ChunkAddr(j)}
  {
    hide Layout.ChunkAddr;
  }

  lemma AllocHeld(p: Pool)
    requires p.Valid() && p.free != []
    ensures p.Alloc().Valid()
    ensures p.free[0] !in HeldSet(p)
    ensures HeldSet(p.Alloc()) == HeldSet(p) + {p.free[0]}
  {
    assert p.free == [p.free[0]] + p.free[1..];
    assert p.free[0] !in p.free[1..];
  }

  lemma FreeHeld(p: Pool, j: nat)
    requires p.Valid() && p.Holds(j)
    ensures p.Free(j).Valid()
    ensures HeldSet(p.Free(j)) == HeldSet(p) - {j}
  {
    assert forall k :: k in [j] + p.free <==> k == j || k in p.free;
  }

  lemma TrackAlloc(l: Layout, p: Pool)
    requires l.szck > 0 && p.Valid() && |p.payload| == l.nrel
    ensures p.Alloc().Valid()
    ensures FairReply(l, Addresses(l, HeldSet(p)), PoolReply(l, p, Alloc))
    ensures Track(l, Addresses(l, HeldSet(p)), Alloc, PoolReply(l, p, Alloc)) == Addresses(l, HeldSet(p.Alloc()))
  {
    hide Layout.ChunkAddr, Addresses, HeldSet, Pool.Valid;
    AddressesCount(l, HeldSet(p));
    HeldPlusFree(p);
    if p.free != [] {
      AllocHeld(p);
      AddressIn(l, HeldSet(p), p.free[0]);
      AddAddress(l, HeldSet(p), p.free[0]);
    }
  }

  lemma TrackFree(l: Layout, p: Pool, j: nat)
    requires l.szck > 0 && p.Valid() && p.Holds(j)
    ensures p.Free(j).Valid()
    ensures Addresses(l, HeldSet(p)) - {l.ChunkAddr(j)} == Addresses(l, HeldSet(p.Free(j)))
  {
    hide Addresses, HeldSet, Layout.ChunkAddr;
    FreeHeld(p, j);
    RemoveAddress(l, HeldSet(p), j);
  }

  lemma TrackStep(l: Layout, p: Pool, e: Event)
    requires l.szck > 0 && p.Valid() && |p.payload| == l.nrel && Legal(l, p, e)
    ensures StepPool(p, e).Valid()
    ensures var held, r := Addresses(l, HeldSet(p)), PoolReply(l, p, e);
            && Track(l, held, e, r) == Addresses(l, HeldSet(StepPool(p, e)))
            && (e.Alloc? ==> FairReply(l, held, r))
  {
    hide Layout.ChunkAddr, Addresses, FairReply;
    match e
    case Alloc =>
      TrackAlloc(l, p);
    case Free(j) =>
      TrackFree(l, p, j);
    case Write(j, off, data) =>
      assert HeldSet(p.Write(j, off, data)) == HeldSet(p);
  }

  lemma {:induction false} TrackPool(l: Layout, p: Pool, events: seq<Event>)
    requires l.szck > 0 && p.Valid() && |p.payload| == l.nrel && LegalRun(l, p, events)
    ensures RunPool(p, events).Valid()
    ensures TrackRun(l, Addresses(l, HeldSet(p)), events, PoolReplies(l, p, events))
            == Addresses(l, HeldSet(RunPool(p, events)))
    ensures Coherent(l, Addresses(l, HeldSet(p)), events, PoolReplies(l, p, events))
    decreases |events|
  {
    hide Track, Addresses, HeldSet, Pool.Valid;
    if events != [] {
      TrackStep(l, p, events[0]);
      TrackPool(l, StepPool(p, events[0]), events[1..]);
      assert PoolReplies(l, p, events)[1..] == PoolReplies(l, StepPool(p, events[0]), events[1..]);
    }
  }

  /** Safety over whole runs, as the client sees it: no address is handed out while held,
      allocation fails exactly when everything is held, and the addresses held plus
      `heap_pool_nb_free` always make up `hpd_nrel`. */
  lemma RunsAreSafe(l: Layout, m: seq<byte>, p: Pool, events: seq<Event>)
    requires Represents(l, m, p) && LegalRun(l, p, events)
    ensures RunSafe(l, m, events)
    ensures var held, replies := Addresses(l, HeldSet(p)), RunReplies(l, m, events);
            && Coherent(l, held, events, replies)
            && |RunMem(l, m, events)| >= HEADER_SIZE
            && |TrackRun(l, held, events, replies)| + NbFree(RunMem(l, m, events)) == l.nrel
  {
    var p' := RunPool(p, events);
    RunRefines(l, m, p, events);
    var m' := RunMem(l, m, events);
    hide RunMem, RunReplies, RunPool, PoolReplies, Layout.ChunkOff, NbFree;
    ReadCounts(l, m', p');
    TrackPool(l, p, events);
    AddressesCount(l, HeldSet(p'));
    HeldPlusFree(p');
  }

  // ----- payloads -----

  predicate NoWriteTo(events: seq<Event>, j: nat) {
    forall i :: 0 <= i < |events| && events[i].Write? ==> events[i].j != j
  }

  lemma {:induction false} PayloadKept(l: Layout, p: Pool, events: seq<Event>, j: nat)
    requires LegalRun(l, p, events) && j < |p.payload| && NoWriteTo(events, j)
    ensures RunPool(p, events).payload[j] == p.payload[j]
    decreases |events|
  {
    if events != [] {
      PayloadKept(l, StepPool(p, events[0]), events[1..], j);
    }
  }

  /** What a client wrote to a held chunk is what it reads back, whatever the allocator and
      the holders of other chunks do in between. */
  lemma WrittenIsReadBack(l: Layout, m: seq<byte>, p: Pool, j: nat, off: nat, data: seq<byte>,
                          events: seq<Event>)
    requires Represents(l, m, p)
    requires LegalRun(l, p, [Write(j, off, data)] + events) && NoWriteTo(events, j)
    ensures RunSafe(l, m, [Write(j, off, data)] + events)
    ensures var m' := RunMem(l, m, [Write(j, off, data)] + events);
            && |m'| == l.allocsize
            && PayloadOf(l, m', j) == Splice(PayloadOf(l, m, j), off, data)
  {
    var all := [Write(j, off, data)] + events;
    assert all[0] == Write(j, off, data) && all[1..] == events;
    RunRefines(l, m, p, all);
    PayloadKept(l, StepPool(p, all[0]), events, j);
    hide RunMem, Safe, PayloadOf, HeaderHolds, Chained, BackLinked, Layout.ChunkOff, Splice;
    assert RunPool(p, all).payload[j] == Splice(p.payload[j], off, data);
  }

  // ----- guard bytes -----

  lemma RepresentsShape(l: Layout, m: seq<byte>, p: Pool)
    requires Represents(l, m, p)
    ensures l.WellFormed() && |m| == l.allocsize && |p.payload| == l.nrel
  {
    hide HeaderHolds, Chained, BackLinked, PayloadsHold, Layout.ChunkOff;
  }

  lemma StepKeepsGuards(l: Layout, m: seq<byte>, p: Pool, e: Event)
    requires Represents(l, m, p) && Legal(l, p, e) && Guarded(l, m, l.nrel)
    ensures Safe(l, m, e) && |StepMem(l, m, e)| == l.allocsize
    ensures Guarded(l, StepMem(l, m, e), l.nrel)
  {
    hide Represents, Guarded, AllocMem, AllocSafe, FreeMem, FreeSafe, Splice, Layout.ChunkOff;
    RepresentsShape(l, m, p);
    StepRefines(l, m, p, e);
    match e
    case Alloc => AllocKeepsGuards(l, m);
    case Free(j) => FreeKeepsGuards(l, m, p, j);
    case Write(j, off, data) => WriteKeepsGuards(l, m, j, off, data);
  }

  /** In a debug build no legal run damages the byte that guards a chunk against overflow. */
  lemma {:induction false} GuardsSurvive(l: Layout, m: seq<byte>, p: Pool, events: seq<Event>)
    requires Represents(l, m, p) && LegalRun(l, p, events) && Guarded(l, m, l.nrel)
    ensures RunSafe(l, m, events) && |RunMem(l, m, events)| == l.allocsize
    ensures Guarded(l, RunMem(l, m, events), l.nrel)
    decreases |events|
  {
    hide Represents, Guarded, Safe, StepMem;
    RepresentsShape(l, m, p);
    if events != [] {
      StepRefines(l, m, p, events[0]);
      StepKeepsGuards(l, m, p, events[0]);
      GuardsSurvive(l, StepMem(l, m, events[0]), StepPool(p, events[0]), events[1..]);
    }
  }

  // ----- last in, first out -----

  function Allocs(k: nat): (es: seq<Event>)
    ensures |es| == k
  {
    if k == 0 then [] else [Alloc] + Allocs(k - 1)
  }

  function Frees(js: seq<nat>): (es: seq<Event>)
    ensures |es| == |js|
  {
    if js == [] then [] else [Free(js[0])] + Frees(js[1..])
  }

  function AddrReplies(l: Layout, chunks: seq<nat>): (rs: seq<Reply>)
    ensures |rs| == |chunks|
  {
    if chunks == [] then [] else [Addr(l.ChunkAddr(chunks[0]))] + AddrReplies(l, chunks[1..])
  }

  /** A batch of allocations hands out the free list in order. */
  lemma {:induction false} AllocsPop(l: Layout, p: Pool, k: nat)
    requires k <= |p.free|
    ensures LegalRun(l, p, Allocs(k))
    ensures PoolReplies(l, p, Allocs(k)) == AddrReplies(l, p.free[..k])
    decreases k
  {
    if k > 0 {
      AllocsPop(l, p.Alloc(), k - 1);
      assert Allocs(k)[1..] == Allocs(k - 1);
      assert p.free[..k][1..] == p.free[1..][..k - 1];
    }
  }

  lemma RestHeld(p: Pool, js: seq<nat>)
    requires js != [] && Distinct(js) && forall i :: 0 <= i < |js| ==> p.Holds(js[i])
    ensures Distinct(js[1..]) && forall i :: 0 <= i < |js[1..]| ==> p.Free(js[0]).Holds(js[1..][i])
  {
    forall i | 0 <= i < |js[1..]|
      ensures p.Free(js[0]).Holds(js[1..][i])
    {
      assert js[1..][i] == js[i + 1];
    }
  }

  lemma {:induction false} FreesPush(l: Layout, p: Pool, js: seq<nat>)
    requires Distinct(js) && forall i :: 0 <= i < |js| ==> p.Holds(js[i])
    ensures LegalRun(l, p, Frees(js))
    ensures RunPool(p, Frees(js)) == p.(free := Reversed(js) + p.free)
    decreases |js|
  {
    hide Distinct, Pool.Write, Pool.Alloc;
    if js != [] {
      var q := p.Free(js[0]);
      RestHeld(p, js);
      FreesPush(l, q, js[1..]);
      assert Frees(js)[1..] == Frees(js[1..]);
      assert Reversed(js[1..]) + q.free == Reversed(js) + p.free;
    }
  }

  /** On the bytes: after any batch of frees, the same number of allocations hands the chunks
      back in the opposite order. */
  lemma LastFreedFirst(l: Layout, m: seq<byte>, p: Pool, js: seq<nat>)
    requires Represents(l, m, p) && Distinct(js) && forall i :: 0 <= i < |js| ==> p.Holds(js[i])
    ensures RunSafe(l, m, Frees(js))
    ensures var m1 := RunMem(l, m, Frees(js));
            && RunSafe(l, m1, Allocs(|js|))
            && RunReplies(l, m1, Allocs(|js|)) == AddrReplies(l, Reversed(js))
  {
    hide Represents, Pool.Holds, RunMem, RunReplies;
    FreesPush(l, p, js);
    RunRefines(l, m, p, Frees(js));
    var q := RunPool(p, Frees(js));
    AllocsPop(l, q, |js|);
    RunRefines(l, RunMem(l, m, Frees(js)), q, Allocs(|js|));
    assert q.free[..|js|] == Reversed(js);
  }

  // ----- pools built by heap_pool_create -----

  lemma FreshIsValid(l: Layout)
    ensures FreshPool(l).Valid() && |FreshPool(l).payload| == l.nrel
    ensures HeldSet(FreshPool(l)) == {}
  {
    forall j: nat | j < l.nrel
      ensures j in FreshPool(l).free
    {
      assert FreshPool(l).free[j] == j;
    }
  }

  /** Every address ever returned is that of a chunk of the pool. */
  lemma {:induction false} RepliesAreChunks(l: Layout, p: Pool, events: seq<Event>, i: nat)
    requires l.szck > 0 && p.Valid() && |p.payload| == l.nrel && LegalRun(l, p, events)
    requires i < |events|
    requires PoolReplies(l, p, events)[i].Addr?
    ensures exists j: nat :: j < l.nrel && PoolReplies(l, p, events)[i].addr == l.ChunkAddr(j)
    decreases |events|
  {
    hide Layout.ChunkAddr;
    if i == 0 {
      assert p.free[0] < l.nrel;
    } else {
      TrackStep(l, p, events[0]);
      RepliesAreChunks(l, StepPool(p, events[0]), events[1..], i - 1);
    }
  }

  lemma MeetsBase(req: Request, l: Layout)
    requires req.nb >= 1 && req.pagesize > 0 && Meets(req, l)
    ensures l.base == req.base && l.szel == req.size && l.extra == req.extra
  {
  }

  /** What the descriptor of a created pool says, at any time of its life, is what was asked for:
      read back from its bytes, it is the one layout that meets the request. */
  lemma CreatedDescriptor(req: Request, m: seq<byte>, p: Pool)
    requires req.Fits() && Represents(req.Plan(), m, p)
    ensures |m| >= HEADER_SIZE && |m| == Load(m, HPD_ALLOCSIZE)
    ensures Load(m, HPD_SZEL) == req.size
    ensures Meets(req, Layout(req.base, Load(m, HPD_SZEL), req.extra, Load(m, HPD_SZCK), Load(m, HPD_HOLESIZE),
                              Load(m, HPD_NREL), Load(m, HPD_ALLOCSIZE), Load(m, HPD_OFFFIRSTELEM)))
    ensures |p.payload| == Load(m, HPD_NREL) && forall j :: 0 <= j < |p.payload| ==> |p.payload[j]| == req.size
  {
    var l := req.Plan();
    PlanExactly(req, l);
    MeetsBase(req, l);
    hide Request.Plan, Meets, Load, Chained, BackLinked, Layout.ChunkOff;
    forall j | 0 <= j < |p.payload|
      ensures |p.payload[j]| == req.size
    {
      assert PayloadOf(l, m, j) == p.payload[j];
    }
    assert l == Layout(req.base, Load(m, HPD_SZEL), req.extra, Load(m, HPD_SZCK), Load(m, HPD_HOLESIZE),
                       Load(m, HPD_NREL), Load(m, HPD_ALLOCSIZE), Load(m, HPD_OFFFIRSTELEM));
  }

  /** A chunk of a created pool lies between the descriptor and the end of the mapping. */
  lemma CreatedChunkInside(req: Request, j: nat)
    requires req.Fits() && req.InBounds() && j < req.ElementCount()
    ensures req.base + HEADER_SIZE < req.Plan().ChunkAddr(j)
    ensures req.Plan().ChunkAddr(j) + req.size + req.extra <= req.base + req.AllocSize()
  {
    hide Request.AllocSize, Request.ElementCount, Request.FirstChunk, Request.HoleSize, Request.InBounds;
    hide Layout.ChunkOff;
    WellFormedExactly(req);
    ChunkInside(req.Plan(), Chunk(j));
  }

  /** After `events` the bytes from `a` on are `data`. */
  predicate Ends(l: Layout, m: seq<byte>, events: seq<Event>, a: nat, data: seq<byte>) {
    && RunSafe(l, m, events)
    && a + |data| <= |RunMem(l, m, events)|
    && RunMem(l, m, events)[a..a + |data|] == data
  }

  lemma WholePayload(payload: seq<byte>, data: seq<byte>)
    requires |payload| == |data|
    ensures Splice(payload, 0, data) == data
  {
  }

  lemma EndsWithPayload(l: Layout, m: seq<byte>, later: seq<Event>, j: nat, data: seq<byte>)
    requires l.WellFormed() && j < l.nrel && |data| == l.szel
    requires RunSafe(l, m, later) && |RunMem(l, m, later)| == l.allocsize
    requires PayloadOf(l, RunMem(l, m, later), j) == data
    ensures Ends(l, m, later, l.ChunkOff(j), data)
  {
    hide RunMem, RunSafe, Layout.ChunkOff, Layout.WellFormed;
    var end := EndOf(l, j);
  }

  lemma PayloadSize(l: Layout, m: seq<byte>, j: nat)
    requires l.WellFormed() && |m| == l.allocsize && j < l.nrel
    ensures |PayloadOf(l, m, j)| == l.szel
  {
  }

  lemma WholeWrittenIsRead(l: Layout, m: seq<byte>, p: Pool, j: nat, data: seq<byte>, later: seq<Event>)
    requires Represents(l, m, p) && p.Holds(j) && |data| == l.szel
    requires LegalRun(l, p.Write(j, 0, data), later) && NoWriteTo(later, j)
    ensures l.ChunkOff(j) + |data| <= |m|
    ensures Ends(l, Splice(m, l.ChunkOff(j), data), later, l.ChunkOff(j), data)
  {
    hide Represents, Layout.ChunkOff, Splice, NoWriteTo, Ends, PayloadOf, Pool.Write;
    var all := [Write(j, 0, data)] + later;
    assert all[0] == Write(j, 0, data) && all[1..] == later;
    RepresentsShape(l, m, p);
    WriteRefines(l, m, p, j, 0, data);
    WrittenIsReadBack(l, m, p, j, 0, data, later);
    PayloadSize(l, m, j);
    WholePayload(PayloadOf(l, m, j), data);
    EndsWithPayload(l, Splice(m, l.ChunkOff(j), data), later, j, data);
  }

  lemma RequestSized(req: Request)
    requires req.Fits()
    ensures req.nb >= 1 && req.pagesize > 0
  {
  }

  /** A holder can write any `req.size` bytes at its address, and finds them there after any later
      run in which nobody else writes to the chunk. */
  lemma CreatedWriteRead(req: Request, l: Layout, m: seq<byte>, p: Pool, j: nat, data: seq<byte>,
                         later: seq<Event>)
    requires req.Fits() && Meets(req, l) && Represents(l, m, p) && p.Holds(j) && |data| == req.size
    requires LegalRun(l, p.Write(j, 0, data), later) && NoWriteTo(later, j)
    ensures l.ChunkAddr(j) - req.base + req.size <= |m|
    ensures Ends(l, Splice(m, l.ChunkAddr(j) - req.base, data), later, l.ChunkAddr(j) - req.base, data)
  {
    hide Request.Fits, Meets, Represents, Layout.ChunkOff, Splice, NoWriteTo, Ends, LegalRun;
    RequestSized(req);
    MeetsBase(req, l);
    WholeWrittenIsRead(l, m, p, j, data, later);
  }

  lemma PlanSizes(req: Request)
    requires req.Fits()
    ensures req.Plan().nrel == req.ElementCount() && req.Plan().allocsize == req.AllocSize()
  {
    hide Request.AllocSize, Request.ElementCount, Request.FirstChunk, Request.HoleSize;
  }

  lemma CreatedAddress(req: Request, j: nat)
    requires req.Fits() && req.Plan().WellFormed() && j < req.Plan().nrel
    ensures req.align >= 1 ==> req.Plan().ChunkAddr(j) % req.align == 0
    ensures req.base < req.Plan().ChunkAddr(j)
    ensures req.Plan().ChunkAddr(j) + req.size + req.extra <= req.base + req.Plan().allocsize
  {
    hide Request.AllocSize, Request.ElementCount, Request.FirstChunk, Request.HoleSize, Request.InBounds;
    hide Layout.WellFormed, Layout.ChunkAddr;
    WellFormedExactly(req);
    CreatedChunkInside(req, j);
    if req.align >= 1 {
      ChunksAligned(req, j);
    }
  }

  /** Over every legal run of a freshly created pool: the bytes stay a pool; no address is handed
      out while held; allocation fails exactly when everything is held; addresses held plus
      `heap_pool_nb_free` make up `hpd_nrel`; and every address has the requested alignment, with
      `req.size` bytes from it on that lie inside the mapping. */
  lemma CreatedPoolIsSafe(req: Request, m: seq<byte>, events: seq<Event>)
    requires req.Fits() && Represents(req.Plan(), m, FreshPool(req.Plan()))
    requires LegalRun(req.Plan(), FreshPool(req.Plan()), events)
    ensures var l := req.Plan();
            && RunSafe(l, m, events)
            && Represents(l, RunMem(l, m, events), RunPool(FreshPool(l), events))
            && Coherent(l, {}, events, RunReplies(l, m, events))
            && |RunMem(l, m, events)| >= HEADER_SIZE
            && |TrackRun(l, {}, events, RunReplies(l, m, events))| + NbFree(RunMem(l, m, events)) == l.nrel
    ensures req.align >= 1 ==>
              forall i :: 0 <= i < |events| && RunReplies(req.Plan(), m, events)[i].Addr?
                          ==> RunReplies(req.Plan(), m, events)[i].addr % req.align == 0
    ensures forall i :: 0 <= i < |events| && RunReplies(req.Plan(), m, events)[i].Addr?
                        ==> req.base < RunReplies(req.Plan(), m, events)[i].addr
                            && RunReplies(req.Plan(), m, events)[i].addr + req.size + req.extra <= req.base + |m|
  {
    var l, p := req.Plan(), FreshPool(req.Plan());
    RepresentsShape(l, m, p);
    PlanSizes(req);
    FreshIsValid(l);
    hide Request.Plan, Request.Fits, FreshPool, HeldSet, Coherent, TrackRun, RunMem, RunReplies, NbFree;
    RunRefines(l, m, p, events);
    RunsAreSafe(l, m, p, events);
    assert Addresses(l, {}) == {};
    forall i | 0 <= i < |events| && RunReplies(l, m, events)[i].Addr?
      ensures req.align >= 1 ==> RunReplies(l, m, events)[i].addr % req.align == 0
      ensures req.base < RunReplies(l, m, events)[i].addr
      ensures RunReplies(l, m, events)[i].addr + req.size + req.extra <= req.base + |m|
    {
      RepliesAreChunks(l, p, events, i);
      var j: nat :| j < l.nrel && PoolReplies(l, p, events)[i].addr == l.ChunkAddr(j);
      CreatedAddress(req, j);
    }
  }

  lemma {:induction false} AddrReplyAt(l: Layout, chunks: seq<nat>, i: nat)
    requires i < |chunks|
    ensures AddrReplies(l, chunks)[i] == Addr(l.ChunkAddr(chunks[i]))
    decreases |chunks|
  {
    hide Layout.ChunkAddr;
    if i > 0 {
      AddrReplyAt(l, chunks[1..], i - 1);
    }
  }

  /** A fresh pool hands out chunks 0, 1, 2, ... in order. */
  lemma FirstAllocations(l: Layout, m: seq<byte>, k: nat)
    requires Represents(l, m, FreshPool(l)) && k <= l.nrel
    ensures RunSafe(l, m, Allocs(k))
    ensures forall i: nat :: i < k ==> RunReplies(l, m, Allocs(k))[i] == Addr(l.ChunkAddr(i))
  {
    hide Represents, RunReplies;
    FreshIsValid(l);
    AllocsPop(l, FreshPool(l), k);
    RunRefines(l, m, FreshPool(l), Allocs(k));
    forall i: nat | i < k
      ensures RunReplies(l, m, Allocs(k))[i] == Addr(l.ChunkAddr(i))
    {
      AddrReplyAt(l, FreshPool(l).free[..k], i);
    }
  }
}
