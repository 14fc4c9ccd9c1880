/** The protocol never blocks before the end, and every interleaving reaches the end: a potential
    that every step of every thread lowers. */
module ProtocolLiveness {
  import opened Common
  import opened Protocol
  import opened ProtocolInv
  import opened ProtocolTheorems
  import Words

  // ----- no deadlock -----

  /** The reader itself can take a step: it is in the middle of a job, or has one waiting. */
  predicate Ready(r: Reader) {
    r.pc.Filling? || r.pc.Acking? || (r.pc.Receiving? && r.queue != [])
  }

  /** The step a ready reader takes next, with the longest read when it reads. */
  function NextOf(c: Config, r: Reader, i: nat): Action
    requires ReaderShaped(c, r) && Ready(r)
  {
    match r.pc
    case Filling(_) => Fill(i, Min(c.capacity, Remaining(c, r)))
    case Acking(_) => Ack(i)
    case _ => Recv(i)
  }

  lemma ReadyEnabled(c: Config, s: State, i: nat)
    requires Shaped(c, s) && i < c.nr && Ready(s.readers[i])
    ensures Enabled(c, s, NextOf(c, s.readers[i], i))
  {
    hide Bank.Sized;
  }

  /** A reader that has not acknowledged all it was sent, or not left its loop when told to,
      still has work. */
  lemma OwingIsReady(c: Config, s: State, i: nat)
    requires Inv(c, s) && i < c.nr
    requires s.readers[i].firstBank < Sent(s.pc, s.round, i)
             || (Finish(s.pc, i) == 1 && !s.readers[i].pc.Exited?)
    requires Opened(s.pc, i) == 1
    ensures Ready(s.readers[i])
  {
    ReaderOf(c, s, i);
    hide Inv, DataInv, FullInv, Opened, Sent, Finish;
  }

  lemma NotAllTaken(nr: nat, round: nat, done: nat, pending: nat)
    requires done < nr && (round + 1) * nr == round * nr + done + pending
    ensures pending > 0
  {
    assert (round + 1) * nr == round * nr + nr;
  }

  /** If every reader has acknowledged this round, main finds an acknowledgement to take. */
  lemma AllAckedIsPending(c: Config, s: State)
    requires Inv(c, s) && s.pc.Waiting?
    requires forall j :: 0 <= j < c.nr ==> s.readers[j].firstBank == s.round + 1
    ensures s.acks != []
  {
    SumAckedExact(s.readers, s.round + 1);
    hide ReadersInv, VisitsInv, LastInv, JoinedInv, SumAcked, ReaderShaped;
    NotAllTaken(c.nr, s.round, s.pc.done, |s.acks|);
  }

  /** While main waits for an acknowledgement and none is in the channel, some reader owes one. */
  lemma SomeReaderOwes(c: Config, s: State) returns (i: nat)
    requires Inv(c, s) && s.pc.Waiting? && s.acks == []
    ensures i < c.nr && s.readers[i].firstBank < s.round + 1
  {
    forall j: nat | j < c.nr
      ensures s.readers[j].firstBank <= s.round + 1
    {
      AckedAtMostSent(c, s, j);
    }
    if forall j: nat :: j < c.nr ==> s.readers[j].firstBank == s.round + 1 {
      AllAckedIsPending(c, s);
    }
    hide Inv, ReaderShaped;
    i :| i < c.nr && s.readers[i].firstBank != s.round + 1;
  }

  lemma SomeStep(c: Config, s: State) returns (a: Action)
    requires Inv(c, s) && s.pc != Ended
    ensures Enabled(c, s, a)
  {
    if s.pc.Waiting? && s.acks == [] {
      var i := SomeReaderOwes(c, s);
      OwingIsReady(c, s, i);
      ReadyEnabled(c, s, i);
      a := NextOf(c, s.readers[i], i);
    } else if s.pc.Joining? && !s.readers[s.pc.i].pc.Exited? {
      OwingIsReady(c, s, s.pc.i);
      ReadyEnabled(c, s, s.pc.i);
      a := NextOf(c, s.readers[s.pc.i], s.pc.i);
    } else {
      a := Main;
    }
  }

  /** The system never blocks: before the end some thread can always take a step. */
  lemma NeverBlocks(c: Config, s: State)
    requires c.Valid() && Reachable(c, s) && s.pc != Ended
    ensures Shaped(c, s) && exists a :: Enabled(c, s, a)
  {
    ReachableInv(c, s);
    var a := SomeStep(c, s);
  }

  // ----- a potential that every step lowers -----

  function ReaderWork(r: Reader): nat {
    3 * |r.queue| + (if r.pc.Filling? then 2 else if r.pc.Acking? then 1 else 0)
  }

  function SumWork(readers: seq<Reader>): nat {
    if readers == [] then 0 else SumWork(readers[..|readers| - 1]) + ReaderWork(readers[|readers| - 1])
  }

  lemma {:induction false} SumWorkUpdate(readers: seq<Reader>, i: nat, r: Reader)
    requires i < |readers|
    ensures SumWork(readers[i := r]) == SumWork(readers) - ReaderWork(readers[i]) + ReaderWork(r)
    decreases |readers|
  {
    hide ReaderWork;
    var n := |readers| - 1;
    if i == n {
      assert readers[i := r][..n] == readers[..n];
    } else {
      SumWorkUpdate(readers[..n], i, r);
      assert readers[i := r][..n] == readers[..n][i := r];
    }
  }

  lemma {:induction false} SumWorkZero(readers: seq<Reader>)
    requires forall i :: 0 <= i < |readers| ==> ReaderWork(readers[i]) == 0
    ensures SumWork(readers) == 0
    decreases |readers|
  {
    if readers != [] {
      SumWorkZero(readers[..|readers| - 1]);
    }
  }

  /** Rounds that the last file can still feed, whatever lengths the reads return. */
  function RoundsLeft(c: Config, s: State): int
    requires c.Valid()
  {
    |c.files[c.nr - 1]| / c.capacity + 1 - s.round
  }

  /** Steps main can still take. */
  function MainLeft(c: Config, s: State): int
    requires c.Valid()
  {
    var rounds := RoundsLeft(c, s) * (3 * c.nr);
    var tail := 2 * c.nr + 1;
    match s.pc
    case Opening(i) => rounds + 2 * c.nr - i + tail
    case Prefetching(i) => rounds + c.nr - i + tail
    case Waiting(done) => rounds - done + tail
    case Sending(i) => rounds - c.nr - i + tail
    case Visiting(i) => rounds - 2 * c.nr - i + tail
    case Returned => tail
    case Finishing(i) => 2 * c.nr - i
    case Joining(i) => c.nr - i
    case Ended => 0
  }

  function Potential(c: Config, s: State): int
    requires c.Valid()
  {
    4 * MainLeft(c, s) + SumWork(s.readers)
  }

  lemma {:induction false} FullPiecesLength(pieces: seq<seq<byte>>, n: nat, capacity: nat)
    requires n <= |pieces| && forall m :: 0 <= m < n ==> |pieces[m]| >= capacity
    ensures |Concat(pieces)| >= n * capacity
    decreases |pieces|
  {
    if pieces != [] {
      var k := |pieces| - 1;
      if n == |pieces| {
        FullPiecesLength(pieces[..k], n - 1, capacity);
        assert n * capacity == (n - 1) * capacity + capacity;
      } else {
        FullPiecesLength(pieces[..k], n, capacity);
      }
    }
  }

  lemma FullRounds(c: Config, s: State)
    requires Inv(c, s) && !Stopped(s.pc)
    ensures var chunks := s.readers[c.nr - 1].chunks;
            s.round <= |chunks| && forall n: nat :: n < s.round ==> |chunks[n]| >= c.capacity
  {
    hide ReadersInv, AcksInv, JoinedInv, ReaderShaped;
    var visits, chunks := s.visits[c.nr - 1], s.readers[c.nr - 1].chunks;
    assert Saw(c, visits, chunks);
    forall n: nat | n < s.round
      ensures |chunks[n]| >= c.capacity
    {
      assert Holds(visits[n], chunks[n]);
    }
  }

  lemma NegativeMultiple(t: int, y: nat)
    requires t * y < 0
    ensures t < 0
  {
  }

  lemma RoundBound(round: nat, capacity: nat, size: nat)
    requires capacity > 0 && round * capacity <= size
    ensures round <= size / capacity
  {
    RoundsCover(size, capacity);
    Words.Distribute(round, size / capacity + 1, capacity);
    NegativeMultiple(round - (size / capacity + 1), capacity);
  }

  /** While the loop of `work` runs, every round so far was fed a full buffer of the last file. */
  lemma RoundsRemain(c: Config, s: State)
    requires Inv(c, s) && !Stopped(s.pc)
    ensures RoundsLeft(c, s) >= 1
  {
    var i := c.nr - 1;
    SeenAreReads(c, s, i);
    ChunksPrefix(c, s, i);
    FullRounds(c, s);
    var chunks := s.readers[i].chunks;
    hide Inv, Shaped, Concat;
    FullPiecesLength(chunks, s.round, c.capacity);
    RoundBound(s.round, c.capacity, |c.files[i]|);
  }

  lemma OneRound(left: int, nr: nat)
    requires left >= 1
    ensures left * (3 * nr) == (left - 1) * (3 * nr) + 3 * nr
    ensures left * (3 * nr) >= 3 * nr
  {
    assert (left - 1) * (3 * nr) >= 0;
  }

  lemma PotentialNonNegative(c: Config, s: State)
    requires Inv(c, s)
    ensures MainLeft(c, s) >= 0 && Potential(c, s) >= 0
  {
    if !Stopped(s.pc) {
      RoundsRemain(c, s);
      hide ReadersInv, AcksInv, VisitsInv, LastInv, JoinedInv, RoundsLeft, ReaderShaped, SumWork;
      OneRound(RoundsLeft(c, s), c.nr);
    }
  }

  /** Every step of main brings it at least one step nearer to its end. */
  lemma MainNearer(c: Config, s: State)
    requires Inv(c, s) && MainEnabled(c, s)
    ensures MainLeft(c, MainStep(c, s)) <= MainLeft(c, s) - 1
  {
    hide ReaderShaped, ReadersInv, AcksInv, VisitsInv, LastInv, JoinedInv;
    if s.pc.Visiting? && s.pc.i + 1 == c.nr {
      RoundsRemain(c, s);
      var left := RoundsLeft(c, s);
      OneRound(left, c.nr);
      assert RoundsLeft(c, MainStep(c, s)) == left - 1;
    } else {
      assert !Stopped(s.pc) ==> RoundsLeft(c, MainStep(c, s)) == RoundsLeft(c, s);
      hide RoundsLeft;
    }
  }

  /** A step of main queues at most one job. */
  lemma MainAddsOneJob(c: Config, s: State)
    requires Shaped(c, s) && MainEnabled(c, s)
    ensures SumWork(MainStep(c, s).readers) <= SumWork(s.readers) + 3
  {
    hide ReaderShaped, SumWork;
    if Posting(s.pc) {
      SumWorkUpdate(s.readers, s.pc.i, MainStep(c, s).readers[s.pc.i]);
    }
  }

  lemma ReaderNearer(c: Config, s: State, a: Action)
    requires Shaped(c, s) && Enabled(c, s, a) && !a.Main?
    ensures SumWork(Apply(c, s, a).readers) < SumWork(s.readers)
    ensures MainLeft(c, Apply(c, s, a)) == MainLeft(c, s)
  {
    hide ReaderShaped, SumWork, MainStep;
    SumWorkUpdate(s.readers, a.i, Apply(c, s, a).readers[a.i]);
  }

  /** Every step of every thread lowers the potential. */
  lemma StepLowersPotential(c: Config, s: State, a: Action)
    requires Inv(c, s) && Enabled(c, s, a)
    ensures Inv(c, Apply(c, s, a))
    ensures 0 <= Potential(c, Apply(c, s, a)) < Potential(c, s)
  {
    StepKeeps(c, s, a);
    PotentialNonNegative(c, Apply(c, s, a));
    hide MainLeft, SumWork, MainStep, ReaderShaped, ReadersInv, AcksInv, VisitsInv, LastInv, JoinedInv;
    if a.Main? {
      MainNearer(c, s);
      MainAddsOneJob(c, s);
    } else {
      ReaderNearer(c, s, a);
    }
  }

  lemma {:induction false} RunBounded(c: Config, s: State, actions: seq<Action>, t: State)
    requires Inv(c, s) && Executes(c, s, actions, t)
    ensures Inv(c, t) && |actions| + Potential(c, t) <= Potential(c, s)
    decreases |actions|
  {
    if actions != [] {
      StepLowersPotential(c, s, actions[0]);
      RunBounded(c, Apply(c, s, actions[0]), actions[1..], t);
    }
  }

  lemma InitPotential(c: Config)
    requires c.Valid()
    ensures Potential(c, Init(c)) == 4 * ((|c.files[c.nr - 1]| / c.capacity + 1) * (3 * c.nr) + 4 * c.nr + 1)
  {
    hide Shaped, ReaderShaped, SumWork;
    SumWorkZero(Init(c).readers);
  }

  /** The whole life of a worker, from `work` to the end of `drop`, takes a bounded number of
      steps in every interleaving and with reads of any length. */
  lemma RunsAreBounded(c: Config, actions: seq<Action>, t: State)
    requires c.Valid() && Executes(c, Init(c), actions, t)
    ensures |actions| <= 4 * ((|c.files[c.nr - 1]| / c.capacity + 1) * (3 * c.nr) + 4 * c.nr + 1)
  {
    InitInv(c);
    RunBounded(c, Init(c), actions, t);
    PotentialNonNegative(c, t);
    InitPotential(c);
    hide Inv, Executes, Potential, Init;
  }

  // ----- the end -----

  lemma EndedReader(c: Config, s: State, i: nat)
    requires Inv(c, s) && s.pc == Ended && i < c.nr
    ensures s.readers[i].pc.Exited? && s.readers[i].queue == [] && s.readers[i].firstBank == s.round + 1
  {
    ReaderOf(c, s, i);
    FloorReached(c, s, i);
    hide DataInv, FullInv, AcksInv, VisitsInv, LastInv;
    assert s.readers[i].pc.Exited?;
  }

  /** A run that cannot go on has ended properly: `drop` has joined every reader, and each has
      left its loop with an empty channel, having served every request it was sent. */
  lemma StuckIsEnded(c: Config, s: State)
    requires c.Valid() && Reachable(c, s)
    requires Shaped(c, s) && !exists a :: Enabled(c, s, a)
    ensures s.pc == Ended
    ensures forall i :: 0 <= i < c.nr ==>
              && s.readers[i].pc.Exited? && s.readers[i].queue == []
              && s.readers[i].firstBank == s.round + 1
  {
    if s.pc != Ended {
      NeverBlocks(c, s);
    }
    ReachableInv(c, s);
    forall i | 0 <= i < c.nr
      ensures s.readers[i].pc.Exited? && s.readers[i].queue == [] && s.readers[i].firstBank == s.round + 1
    {
      EndedReader(c, s, i);
    }
  }
}
