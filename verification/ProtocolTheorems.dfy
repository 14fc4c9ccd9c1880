/** What the protocol guarantees in every interleaving: the writer sees each reader's reads in
    order, nobody overwrites a bank under it, the system never blocks, and it always ends. */
module ProtocolTheorems {
  import opened Common
  import opened Protocol
  import opened ProtocolInv
  import Words

  // ----- counting acknowledgements -----

  lemma {:induction false} SumAckedExact(readers: seq<Reader>, bound: nat)
    requires forall i :: 0 <= i < |readers| ==> readers[i].firstBank == bound
    ensures SumAcked(readers) == bound * |readers|
    decreases |readers|
  {
    if readers != [] {
      SumAckedExact(readers[..|readers| - 1], bound);
      assert bound * |readers| == bound * (|readers| - 1) + bound;
    }
  }

  lemma IdleAfterWait(c: Config, s: State, i: nat)
    requires Inv(c, s) && s.pc == Sending(0) && i < c.nr
    ensures s.readers[i].firstBank == s.round + 1 == |s.readers[i].chunks|
    ensures s.readers[i].pc.Receiving? && s.readers[i].queue == []
  {
    hide Holds, Concat, FullInv, VisitsInv, LastInv;
    assert ReaderInv(c, i, s.readers[i], 1, s.round + 1, 0);
    assert s.round + 1 <= s.readers[i].firstBank;
  }

  /** When `wait_readers` returns for a round, every reader has made and acknowledged its read of
      that round and of each earlier one exactly once, has nothing left to do, and no
      acknowledgement is left over, although none of them says whose it is. */
  lemma AcksSuffice(c: Config, s: State)
    requires c.Valid() && Reachable(c, s) && s.pc == Sending(0)
    ensures |s.readers| == c.nr && s.acks == []
    ensures forall i :: 0 <= i < c.nr ==>
              && s.readers[i].firstBank == s.round + 1
              && |s.readers[i].chunks| == s.round + 1
              && s.readers[i].pc.Receiving?
              && s.readers[i].queue == []
  {
    ReachableInv(c, s);
    forall i | 0 <= i < c.nr
      ensures s.readers[i].firstBank == s.round + 1 == |s.readers[i].chunks|
      ensures s.readers[i].pc.Receiving? && s.readers[i].queue == []
    {
      IdleAfterWait(c, s, i);
    }
    SumAckedExact(s.readers, s.round + 1);
  }

  // ----- the writer is alone with its banks -----

  /** While main is in `process_writer` for a round, the bank it looks at in any reader holds
      exactly that reader's read of this round. */
  lemma WriterSeesItsRound(c: Config, s: State, i: nat)
    requires c.Valid() && Reachable(c, s) && s.pc.Visiting? && i < c.nr
    ensures Shaped(c, s) && s.round < |s.readers[i].chunks|
    ensures var bank := VisitedBank(c, s, i);
            bank.len <= |bank.buffer| && bank.Content() == s.readers[i].chunks[s.round]
  {
    ReachableInv(c, s);
    VisitedBankHolds(c, s, i);
  }

  /** A reader makes its `n`-th read only after main has sent the request of round `n`; with
      `WriterSeesItsRound`, the bank of round `k` is next filled by the read of round `k + 2`,
      whose request main sends only after `process_writer` for round `k` has ended. */
  lemma FillNeedsRequest(c: Config, s: State, i: nat, k: nat)
    requires Inv(c, s) && Enabled(c, s, Fill(i, k))
    ensures s.readers[i].firstBank == |s.readers[i].chunks| < Sent(s.pc, s.round, i)
    ensures s.pc.Visiting? ==> Sent(s.pc, s.round, i) == s.round + 2
  {
    hide Holds, Concat, FullInv, AcksInv, VisitsInv, LastInv;
    assert ReaderInv(c, i, s.readers[i], Opened(s.pc, i), Sent(s.pc, s.round, i), Finish(s.pc, i));
  }

  lemma OtherParity(n: nat)
    ensures (n + 1) % 2 != n % 2 == (n % 2) % 2
  {
  }

  lemma FillHitsOtherBank(c: Config, s: State, i: nat, k: nat)
    requires Inv(c, s) && s.pc.Visiting? && Enabled(c, s, Fill(i, k))
    ensures s.readers[i].firstBank % 2 != s.bankRead % 2
  {
    FillNeedsRequest(c, s, i, k);
    FloorReached(c, s, i);
    assert s.bankRead == s.round % 2;
    assert AckedFloor(s.pc, s.round) == s.round + 1;
    hide Inv, Shaped, Enabled, Sent, AckedFloor;
    OtherParity(s.round);
  }

  /** No reader step that can happen meanwhile touches any bank the writer looks at. */
  lemma NoFillUnderWriter(c: Config, s: State, a: Action, i: nat)
    requires c.Valid() && Reachable(c, s) && s.pc.Visiting? && i < c.nr
    requires Shaped(c, s) && Enabled(c, s, a) && !a.Main?
    ensures VisitedBank(c, Apply(c, s, a), i) == VisitedBank(c, s, i)
  {
    hide Inv, MainStep, Reachable, Bank.Sized, Bank.Filled, ReadReturns;
    ReachableInv(c, s);
    if a.Fill? && a.i == i {
      FillHitsOtherBank(c, s, i, a.k);
    }
  }

  // ----- what the writer saw -----

  /** The `len`-prefixes of the banks seen. */
  function Seen(visits: seq<Bank>): (pieces: seq<seq<byte>>)
    ensures |pieces| == |visits|
    ensures forall n :: 0 <= n < |visits| ==> pieces[n] == visits[n].Content()
  {
    seq(|visits|, n requires 0 <= n < |visits| => visits[n].Content())
  }

  lemma {:induction false} ConcatPrefix(pieces: seq<seq<byte>>, n: nat)
    requires n <= |pieces|
    ensures Concat(pieces[..n]) <= Concat(pieces)
    decreases |pieces|
  {
    if n == |pieces| {
      assert pieces[..n] == pieces;
    } else {
      var m := |pieces| - 1;
      ConcatPrefix(pieces[..m], n);
      assert pieces[..m][..n] == pieces[..n];
    }
  }

  lemma SeenAreReads(c: Config, s: State, i: nat)
    requires Inv(c, s) && i < c.nr
    ensures |s.visits[i]| <= |s.readers[i].chunks|
    ensures Seen(s.visits[i]) == s.readers[i].chunks[..|s.visits[i]|]
  {
    hide ReadersInv, AcksInv, LastInv, ReaderShaped;
    assert Saw(c, s.visits[i], s.readers[i].chunks);
    var visits, chunks := s.visits[i], s.readers[i].chunks;
    forall n: nat | n < |visits|
      ensures visits[n].len <= |visits[n].buffer| && visits[n].Content() == chunks[n]
    {
      assert Holds(visits[n], chunks[n]);
    }
  }

  lemma ChunksPrefix(c: Config, s: State, i: nat)
    requires Inv(c, s) && i < c.nr
    ensures Concat(s.readers[i].chunks) <= c.files[i]
  {
    hide Holds, QueueInv, FullInv, VisitsInv, AcksInv, LastInv;
    assert ReaderInv(c, i, s.readers[i], Opened(s.pc, i), Sent(s.pc, s.round, i), Finish(s.pc, i));
  }

  /** At every moment, what the writer saw of a reader, concatenated, is a prefix of that reader's
      file: nothing lost, repeated or out of order. */
  lemma SeenIsPrefix(c: Config, s: State, i: nat)
    requires c.Valid() && Reachable(c, s) && i < c.nr
    ensures Shaped(c, s)
    ensures Concat(Seen(s.visits[i])) <= c.files[i]
  {
    ReachableInv(c, s);
    SeenAreReads(c, s, i);
    ChunksPrefix(c, s, i);
    ConcatPrefix(s.readers[i].chunks, |s.visits[i]|);
  }

  lemma VisitedAtLeast(c: Config, s: State, i: nat)
    requires Inv(c, s) && i < c.nr
    ensures Shaped(c, s) && s.round <= |s.visits[i]|
  {
    hide ReadersInv, AcksInv, LastInv, JoinedInv, ReaderShaped, Saw;
  }

  lemma FillEffect(c: Config, r: Reader, k: nat, n: nat)
    requires ReaderShaped(c, r) && r.pc.Filling? && ReadReturns(c, r, k)
    requires n == r.firstBank == |r.chunks| && n >= 2
    ensures ReaderShaped(c, ReaderFill(c, r, k))
    ensures var r' := ReaderFill(c, r, k);
            && |r.banks| == |r'.banks| == 2 && |r'.chunks| == n + 1
            && r'.banks[n % 2].Content() == r'.chunks[n]
            && r'.banks[(n - 1) % 2] == r.banks[(n - 1) % 2]
  {
    var r' := ReaderFill(c, r, k);
    FilledHolds(r.banks[n % 2], r'.chunks[n]);
    OtherParity(n - 1);
  }

  /** No bank is overwritten before the writer has seen it: a reader can start its read `n` only
      after `process_writer` has ended for round `n - 2`, whose bank that read overwrites, and what
      the writer then saw is the read made in that round. */
  lemma OverwrittenWasSeen(c: Config, s: State, i: nat, k: nat, n: nat)
    requires c.Valid() && Reachable(c, s) && Shaped(c, s) && Enabled(c, s, Fill(i, k))
    requires n == |s.readers[i].chunks| && n >= 2
    ensures n < Sent(s.pc, s.round, i) && s.round > n - 2
    ensures |s.visits[i]| > n - 2 && s.visits[i][n - 2].Content() == s.readers[i].chunks[n - 2]
    ensures var r := Apply(c, s, Fill(i, k)).readers[i];
            && r.banks[n % 2].Content() == r.chunks[n]
            && r.banks[(n - 1) % 2] == s.readers[i].banks[(n - 1) % 2]
  {
    hide Inv, Reachable, Concat, MainStep, ReaderShaped;
    ReachableInv(c, s);
    FillNeedsRequest(c, s, i, k);
    VisitedAtLeast(c, s, i);
    SeenAreReads(c, s, i);
    assert Seen(s.visits[i])[n - 2] == s.readers[i].chunks[n - 2];
    FillEffect(c, s.readers[i], k, n);
  }

  // ----- full reads -----

  lemma {:induction false} CutIsMin(capacity: nat, size: nat, n: nat)
    ensures Cut(capacity, size, n) == Min(n * capacity, size)
  {
    if n > 0 {
      CutIsMin(capacity, size, n - 1);
      assert n * capacity == (n - 1) * capacity + capacity;
    }
  }

  lemma FullChunkExtends(c: Config, i: nat, m: nat, data: seq<byte>)
    requires i < |c.files| && FullChunk(c, i, m, data)
    ensures c.files[i][..Cut(c.capacity, |c.files[i]|, m)] + data
            == c.files[i][..Cut(c.capacity, |c.files[i]|, m + 1)]
  {
    hide Cut;
  }

  lemma {:induction false} FullConcat(c: Config, i: nat, pieces: seq<seq<byte>>)
    requires i < |c.files| && forall n: nat :: n < |pieces| ==> FullChunk(c, i, n, pieces[n])
    ensures Concat(pieces) == c.files[i][..Cut(c.capacity, |c.files[i]|, |pieces|)]
    decreases |pieces|
  {
    if pieces != [] {
      var m := |pieces| - 1;
      hide FullChunk, Cut;
      FullConcat(c, i, pieces[..m]);
      assert FullChunk(c, i, m, pieces[m]);
      FullChunkExtends(c, i, m, pieces[m]);
    }
  }

  lemma FullPrefix(c: Config, i: nat, chunks: seq<seq<byte>>, n: nat)
    requires i < |c.files| && n <= |chunks|
    requires forall m: nat :: m < |chunks| ==> FullChunk(c, i, m, chunks[m])
    ensures Concat(chunks[..n]) == c.files[i][..Min(n * c.capacity, |c.files[i]|)]
  {
    hide FullChunk, Cut, Concat;
    FullConcat(c, i, chunks[..n]);
    CutIsMin(c.capacity, |c.files[i]|, n);
  }

  lemma FullChunks(c: Config, s: State, i: nat)
    requires Inv(c, s) && c.fullReads && i < c.nr
    ensures forall n: nat :: n < |s.readers[i].chunks| ==> FullChunk(c, i, n, s.readers[i].chunks[n])
  {
    hide Holds, QueueInv, VisitsInv, AcksInv, LastInv, FullChunk, Cut, Concat;
    assert ReaderInv(c, i, s.readers[i], Opened(s.pc, i), Sent(s.pc, s.round, i), Finish(s.pc, i));
  }

  /** Only the last read seen of the last reader was short, and it was. */
  lemma LastReads(c: Config, s: State)
    requires Inv(c, s) && Stopped(s.pc)
    ensures s.round >= 1 && |s.visits[c.nr - 1]| == s.round <= |s.readers[c.nr - 1].chunks|
    ensures var chunks := s.readers[c.nr - 1].chunks;
            forall n: nat :: n < s.round ==> (|chunks[n]| < c.capacity <==> n == s.round - 1)
  {
    hide ReadersInv, AcksInv, ReaderShaped;
    SeenAreReads(c, s, c.nr - 1);
    var visits, chunks := s.visits[c.nr - 1], s.readers[c.nr - 1].chunks;
    assert Saw(c, visits, chunks);
    forall n: nat | n < s.round
      ensures |chunks[n]| < c.capacity <==> n == s.round - 1
    {
      assert Holds(visits[n], chunks[n]);
      assert visits[n].len == |chunks[n]|;
    }
  }

  lemma {:induction false} FullWhileFits(c: Config, i: nat, n: nat, chunks: seq<seq<byte>>)
    requires i < |c.files| && n < |chunks| && c.capacity > 0
    requires forall m: nat :: m < |chunks| ==> FullChunk(c, i, m, chunks[m])
    requires forall m: nat :: m < n ==> |chunks[m]| >= c.capacity
    ensures Cut(c.capacity, |c.files[i]|, n) == n * c.capacity
  {
    if n > 0 {
      FullWhileFits(c, i, n - 1, chunks);
      assert FullChunk(c, i, n - 1, chunks[n - 1]);
      assert |chunks[n - 1]| >= c.capacity;
      assert n * c.capacity == (n - 1) * c.capacity + c.capacity;
    }
  }

  /** A short piece that starts at a multiple of the capacity is the last one of its file. */
  lemma ShortPiece(c: Config, i: nat, n: nat, data: seq<byte>)
    requires i < |c.files| && c.capacity > 0
    requires FullChunk(c, i, n, data) && |data| < c.capacity && Cut(c.capacity, |c.files[i]|, n) == n * c.capacity
    ensures |c.files[i]| / c.capacity == n
  {
    var size := |c.files[i]|;
    Words.DivModUnique(size, c.capacity, n, size - n * c.capacity);
  }

  /** With full reads, `work` processes exactly `L / capacity + 1` rounds for a last file of
      length `L`, whatever the other files are. */
  lemma RoundsProcessed(c: Config, s: State)
    requires c.Valid() && Reachable(c, s) && c.fullReads && Stopped(s.pc)
    ensures s.round == |c.files[c.nr - 1]| / c.capacity + 1
  {
    hide Reachable, Cut, FullChunk, ReadersInv, AcksInv, VisitsInv, LastInv, JoinedInv, ReaderShaped, Offset;
    ReachableInv(c, s);
    var i := c.nr - 1;
    var chunks := s.readers[i].chunks;
    LastReads(c, s);
    FullChunks(c, s, i);
    var n := s.round - 1;
    FullWhileFits(c, i, n, chunks);
    ShortPiece(c, i, n, chunks[n]);
  }

  lemma VisitCount(c: Config, s: State, i: nat)
    requires Inv(c, s) && i < c.nr && Stopped(s.pc)
    ensures Shaped(c, s) && |s.visits[i]| == s.round
  {
    hide ReadersInv, AcksInv, LastInv, JoinedInv, ReaderShaped, Saw;
  }

  lemma RoundsCover(size: nat, capacity: nat)
    requires capacity > 0
    ensures size < (size / capacity + 1) * capacity
  {
    Words.DivModSplit(size, capacity);
  }

  /** With full reads, what the writer saw of any reader by the time `work` returned is the first
      `rounds * capacity` bytes of its file; so it is the whole file exactly when the file is no
      longer than that, which always holds for the last reader. */
  lemma ContentDelivered(c: Config, s: State, i: nat)
    requires c.Valid() && Reachable(c, s) && c.fullReads && Stopped(s.pc) && i < c.nr
    ensures Shaped(c, s)
    ensures var rounds := |c.files[c.nr - 1]| / c.capacity + 1;
            && |s.visits[i]| == rounds
            && Concat(Seen(s.visits[i])) == c.files[i][..Min(rounds * c.capacity, |c.files[i]|)]
            && (Concat(Seen(s.visits[i])) == c.files[i] <==> |c.files[i]| <= rounds * c.capacity)
            && (i == c.nr - 1 ==> Concat(Seen(s.visits[i])) == c.files[i])
  {
    hide Inv, Concat, FullChunk, Reachable, ReaderShaped;
    ReachableInv(c, s);
    RoundsProcessed(c, s);
    SeenAreReads(c, s, i);
    FullChunks(c, s, i);
    VisitCount(c, s, i);
    FullPrefix(c, i, s.readers[i].chunks, s.round);
    RoundsCover(|c.files[c.nr - 1]|, c.capacity);
  }

  /** With full reads, the last file has been seen whole when `work` returns. */
  lemma LastFileDelivered(c: Config, s: State, i: nat)
    requires c.Valid() && Reachable(c, s) && c.fullReads && Stopped(s.pc) && i == c.nr - 1
    ensures Shaped(c, s) && Concat(Seen(s.visits[i])) == c.files[i]
  {
    ContentDelivered(c, s, i);
  }

  // ----- what the messages carry -----

  /** The acknowledgement of a reader's read `n` carries the offset requested for round `n` and the
      number of bytes read. */
  lemma AckCarriesRead(c: Config, s: State, i: nat)
    requires c.Valid() && Reachable(c, s) && Shaped(c, s) && Enabled(c, s, Ack(i))
    ensures var r := s.readers[i];
            var n := r.firstBank;
            && |r.chunks| == n + 1
            && Apply(c, s, Ack(i)).acks == s.acks + [Job(n * c.capacity, |r.chunks[n]|, false, None)]
  {
    ReachableInv(c, s);
    ReaderOf(c, s, i);
    hide Inv, Reachable, QueueInv, FullInv, Holds, Concat, ReaderShaped;
  }

  lemma ReachableShaped(c: Config, s: State)
    requires Inv(c, s)
    ensures Shaped(c, s)
  {
  }

  lemma FillingAt(c: Config, i: nat, r: Reader, opens: nat, sent: nat, finish: nat)
    requires ReaderInv(c, i, r, opens, sent, finish) && r.pc.Filling?
    ensures i < |c.files| && r.file.Some?
    ensures r.pc.job == Job(r.firstBank * c.capacity, c.capacity, false, None)
    ensures c.fullReads ==> r.file.value.pos == Cut(c.capacity, |c.files[i]|, r.firstBank)
  {
    hide Holds, Concat, FullChunk, Cut;
  }

  /** With full reads a request is answered from the offset it names, or from the end of a shorter
      file, although the reader never looks at that offset. */
  lemma OffsetIsPosition(c: Config, s: State, i: nat)
    requires c.Valid() && Reachable(c, s) && c.fullReads && i < c.nr
    ensures Shaped(c, s)
    ensures s.readers[i].pc.Filling? ==>
              && s.readers[i].pc.job == Job(s.readers[i].firstBank * c.capacity, c.capacity, false, None)
              && s.readers[i].file.Some?
              && s.readers[i].file.value.pos == Min(s.readers[i].pc.job.offset, |c.files[i]|)
  {
    hide Inv, Reachable, ReaderInv, ReaderShaped, Cut;
    ReachableInv(c, s);
    ReaderOf(c, s, i);
    ReachableShaped(c, s);
    if s.readers[i].pc.Filling? {
      FillingAt(c, i, s.readers[i], Opened(s.pc, i), Sent(s.pc, s.round, i), Finish(s.pc, i));
      CutIsMin(c.capacity, |c.files[i]|, s.readers[i].firstBank);
    }
  }

  // ----- what is printed -----

  /** `process_writer` prints whole buffers. */
  function Printed(visits: seq<Bank>): (pieces: seq<seq<byte>>)
    ensures |pieces| == |visits|
    ensures forall n :: 0 <= n < |visits| ==> pieces[n] == visits[n].buffer
  {
    seq(|visits|, n requires 0 <= n < |visits| => visits[n].buffer)
  }

  lemma {:induction false} LongerPieces(short: seq<seq<byte>>, long: seq<seq<byte>>)
    requires |short| == |long| && forall n :: 0 <= n < |short| ==> |short[n]| <= |long[n]|
    ensures |Concat(short)| <= |Concat(long)|
    ensures |Concat(short)| == |Concat(long)| <==> forall n :: 0 <= n < |short| ==> |short[n]| == |long[n]|
    decreases |short|
  {
    if short != [] {
      LongerPieces(short[..|short| - 1], long[..|long| - 1]);
    }
  }

  lemma SizedVisits(c: Config, s: State, i: nat)
    requires Inv(c, s) && i < c.nr
    ensures forall n :: 0 <= n < |s.visits[i]| ==> s.visits[i][n].Sized(c.capacity)
  {
    assert Saw(c, s.visits[i], s.readers[i].chunks);
  }

  /** Whole buffers carry exactly what was read into them when every one of them was full. */
  lemma PrintedExact(c: Config, visits: seq<Bank>)
    requires forall n :: 0 <= n < |visits| ==> visits[n].Sized(c.capacity)
    ensures Concat(Printed(visits)) == Concat(Seen(visits))
            <==> forall n :: 0 <= n < |visits| ==> visits[n].len == c.capacity
    ensures |Concat(Printed(visits))| == |Concat(Seen(visits))|
            ==> Concat(Printed(visits)) == Concat(Seen(visits))
  {
    LongerPieces(Seen(visits), Printed(visits));
    if forall n :: 0 <= n < |visits| ==> visits[n].len == c.capacity {
      forall n | 0 <= n < |visits|
        ensures Seen(visits)[n] == Printed(visits)[n]
      {
        assert visits[n].buffer[..|visits[n].buffer|] == visits[n].buffer;
      }
      assert Seen(visits) == Printed(visits);
    }
  }

  lemma {:induction false} EqualPiecesLength(pieces: seq<seq<byte>>, capacity: nat)
    requires forall n :: 0 <= n < |pieces| ==> |pieces[n]| == capacity
    ensures |Concat(pieces)| == |pieces| * capacity
    decreases |pieces|
  {
    if pieces != [] {
      EqualPiecesLength(pieces[..|pieces| - 1], capacity);
      assert |pieces| * capacity == (|pieces| - 1) * capacity + capacity;
    }
  }

  /** With full reads, at every moment the text printed for a reader is what was read of its file
      exactly when the file fills every buffer printed so far. */
  lemma PrintedWhileFull(c: Config, s: State, i: nat)
    requires c.Valid() && Reachable(c, s) && c.fullReads && i < c.nr
    ensures Shaped(c, s)
    ensures Concat(Printed(s.visits[i])) == Concat(Seen(s.visits[i]))
            <==> |c.files[i]| >= |s.visits[i]| * c.capacity
  {
    hide Inv, Concat, FullChunk, Reachable, ReaderShaped, Printed, Seen;
    ReachableInv(c, s);
    ReachableShaped(c, s);
    SizedVisits(c, s, i);
    SeenAreReads(c, s, i);
    FullChunks(c, s, i);
    FullPrefix(c, i, s.readers[i].chunks, |s.visits[i]|);
    EqualPiecesLength(Printed(s.visits[i]), c.capacity);
    PrintedExact(c, s.visits[i]);
  }

  /** With full reads, what `work` has printed of a reader's file when it returns is what it read
      exactly when the file is long enough to fill every buffer of every round; a shorter one is
      printed with the stale rest of a buffer. The last reader's file is always shorter. */
  lemma PrintedExceedsContent(c: Config, s: State, i: nat)
    requires c.Valid() && Reachable(c, s) && c.fullReads && Stopped(s.pc) && i < c.nr
    ensures Shaped(c, s)
    ensures var rounds := |c.files[c.nr - 1]| / c.capacity + 1;
            && (Concat(Printed(s.visits[i])) == Concat(Seen(s.visits[i]))
                <==> |c.files[i]| >= rounds * c.capacity)
            && |c.files[c.nr - 1]| < rounds * c.capacity
  {
    hide Inv, Concat, Reachable, Printed, Seen;
    PrintedWhileFull(c, s, i);
    ContentDelivered(c, s, i);
    RoundsCover(|c.files[c.nr - 1]|, c.capacity);
  }

  /** Whatever lengths the reads return, the last reader's text is printed with stale bytes: the
      short read that ends the loop is printed as a whole buffer. */
  lemma LastPrintedStale(c: Config, s: State, i: nat)
    requires c.Valid() && Reachable(c, s) && Stopped(s.pc) && i == c.nr - 1
    ensures Shaped(c, s) && Concat(Printed(s.visits[i])) != Concat(Seen(s.visits[i]))
  {
    hide Concat, Reachable, ReadersInv, AcksInv, JoinedInv, Saw, ReaderShaped, Printed, Seen;
    ReachableInv(c, s);
    SizedVisits(c, s, i);
    assert ShortOnlyLast(c, s.visits[i], true);
    assert s.visits[i][|s.visits[i]| - 1].len < c.capacity;
    PrintedExact(c, s.visits[i]);
  }

  // ----- the trailing prefetch -----

  /** When `work` returns, each reader has exactly one read request beyond the rounds processed:
      still queued, being served, or served and acknowledged with nobody to take the answer. */
  lemma OneTrailingJob(c: Config, s: State, i: nat)
    requires c.Valid() && Reachable(c, s) && s.pc == Returned && i < c.nr
    ensures Shaped(c, s)
    ensures var r := s.readers[i];
            || (|r.queue| == 1 && Busy(r) == 0 && r.firstBank == s.round)
            || (|r.queue| == 0 && Busy(r) == 1 && r.firstBank == s.round)
            || (|r.queue| == 0 && Busy(r) == 0 && r.firstBank == s.round + 1)
    ensures |s.acks| == SumAcked(s.readers) - s.round * c.nr
  {
    ReachableInv(c, s);
    hide DataInv, FullInv, VisitsInv;
    assert ReaderInv(c, i, s.readers[i], 1, s.round + 1, 0);
    assert s.round <= s.readers[i].firstBank;
  }

  /** The order to finish queues behind at most one trailing read request. */
  lemma FinishBehindOne(c: Config, s: State, i: nat)
    requires c.Valid() && Reachable(c, s) && i < c.nr && Finish(s.pc, i) == 1
    ensures Shaped(c, s)
    ensures var r := s.readers[i];
            if r.pc.Exited? then r.queue == []
            else 1 <= |r.queue| <= 2 && r.queue[|r.queue| - 1].finished
                 && (|r.queue| == 2 ==> !r.queue[0].finished && Busy(r) == 0)
  {
    ReachableInv(c, s);
    hide DataInv, FullInv, VisitsInv;
    var r := s.readers[i];
    assert ReaderInv(c, i, r, 1, s.round + 1, 1);
    assert s.round <= r.firstBank;
    if !r.pc.Exited? && r.queue != [] {
      assert Expected(c, i, s.round + 1, Received(r), r.queue[0]);
      assert Expected(c, i, s.round + 1, Received(r) + (|r.queue| - 1), r.queue[|r.queue| - 1]);
    }
  }
}
