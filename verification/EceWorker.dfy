/** The worker in the source's own control structure. Main's methods run its loops; between any
    two of their channel or bank operations the reader threads take any steps they can. Every
    operation is one step of the protocol, so what is proved of all its runs holds here. */
module EceWorkers {
  import opened Common
  import opened Protocol
  import opened ProtocolInv
  import opened ProtocolTheorems
  import opened ProtocolText
  import opened ProtocolLiveness

  /** Readers have moved from `s` to `t`: what main owns is untouched, acknowledgements only came in. */
  ghost predicate ReadersOnly(s: State, t: State) {
    && t.pc == s.pc && t.offset == s.offset && t.bankRead == s.bankRead
    && t.round == s.round && t.visits == s.visits
    && s.acks <= t.acks
  }

  lemma {:induction false} ExecutesThen(c: Config, s: State, actions: seq<Action>, t: State, a: Action)
    requires Shaped(c, s) && Executes(c, s, actions, t)
    requires Shaped(c, t) && Enabled(c, t, a)
    ensures Executes(c, s, actions + [a], Apply(c, t, a))
    decreases |actions|
  {
    hide Apply, Enabled, Shaped;
    if actions == [] {
      assert actions + [a] == [a];
      assert Executes(c, Apply(c, s, a), [], Apply(c, s, a));
    } else {
      ExecutesThen(c, Apply(c, s, actions[0]), actions[1..], t, a);
      assert (actions + [a])[1..] == actions[1..] + [a];
    }
  }

  lemma ReachableStep(c: Config, s: State, a: Action)
    requires c.Valid() && Reachable(c, s) && Shaped(c, s) && Enabled(c, s, a)
    ensures Reachable(c, Apply(c, s, a))
  {
    hide Apply, Enabled, Shaped, Executes;
    var actions :| Executes(c, Init(c), actions, s);
    ExecutesThen(c, Init(c), actions, s, a);
  }

  lemma InitReachable(c: Config)
    requires c.Valid()
    ensures Reachable(c, Init(c))
  {
    assert Executes(c, Init(c), [], Init(c));
  }

  lemma VisitsShaped(c: Config, s: State)
    requires Inv(c, s)
    ensures |s.visits| == c.nr <= |c.files|
  {
  }

  lemma ReaderIsShaped(c: Config, s: State, i: nat)
    requires Shaped(c, s) && i < c.nr
    ensures |s.readers| == c.nr && ReaderShaped(c, s.readers[i]) && |s.readers[i].banks| == 2
  {
  }

  /** What the writer has seen so far is, for every reader, a prefix of its file. */
  ghost predicate PrefixesSeen(c: Config, visits: seq<seq<Bank>>) {
    |visits| == c.nr <= |c.files| && forall i :: 0 <= i < c.nr ==> Concat(Seen(visits[i])) <= c.files[i]
  }

  lemma PrefixesDelivered(c: Config, s: State)
    requires c.Valid() && Inv(c, s) && Reachable(c, s)
    ensures PrefixesSeen(c, s.visits)
  {
    hide Inv, Reachable, Shaped, Concat, Seen;
    VisitsShaped(c, s);
    forall i | 0 <= i < c.nr
      ensures Concat(Seen(s.visits[i])) <= c.files[i]
    {
      SeenIsPrefix(c, s, i);
    }
  }

  /** With full reads the last file has been seen whole, in the number of rounds that takes, and
      printed followed by the stale rest of a buffer. */
  ghost predicate LastSeen(c: Config, round: nat, visits: seq<seq<Bank>>)
    requires c.Valid()
  {
    && |visits| == c.nr
    && round == |c.files[c.nr - 1]| / c.capacity + 1
    && Concat(Seen(visits[c.nr - 1])) == c.files[c.nr - 1]
    && Concat(Printed(visits[c.nr - 1])) == c.files[c.nr - 1] + Stale(c.capacity, c.files[c.nr - 1])
  }

  lemma LastDelivered(c: Config, s: State)
    requires c.Valid() && Inv(c, s) && Reachable(c, s) && Stopped(s.pc) && c.fullReads
    ensures LastSeen(c, s.round, s.visits)
  {
    hide Inv, Reachable, Shaped, Concat, Seen, Printed, Stale, Stopped;
    VisitsShaped(c, s);
    RoundsProcessed(c, s);
    LastFileDelivered(c, s, c.nr - 1);
    LastFilePrinted(c, s);
  }

  /** The output consists of the rounds in order, and in each round of the buffers of all readers in
      order, as the writer saw them. */
  ghost predicate PrintsVisits(c: Config, printed: seq<seq<seq<byte>>>, round: nat, visits: seq<seq<Bank>>) {
    && |printed| == round && |visits| == c.nr
    && (forall k :: 0 <= k < round ==> |printed[k]| == c.nr)
    && (forall i :: 0 <= i < c.nr ==> |visits[i]| == round)
    && forall k, i :: 0 <= k < round && 0 <= i < c.nr ==> printed[k][i] == visits[i][k].buffer
  }

  lemma NothingPrinted(c: Config)
    requires c.Valid()
    ensures PrintsVisits(c, [], Init(c).round, Init(c).visits)
  {
  }

  lemma PrintedRound(c: Config, printed: seq<seq<seq<byte>>>, round: nat, before: seq<seq<Bank>>,
                     after: seq<seq<Bank>>, texts: seq<seq<byte>>, banks: seq<Bank>)
    requires PrintsVisits(c, printed, round, before)
    requires |texts| == |banks| == c.nr == |after|
    requires forall i :: 0 <= i < c.nr ==> after[i] == before[i] + [banks[i]]
    requires forall i :: 0 <= i < c.nr ==> texts[i] == banks[i].buffer
    ensures PrintsVisits(c, printed + [texts], round + 1, after)
  {
  }

  /** `process_writer`, begun in `s`, has seen `i` readers, the latest with length `len`. */
  ghost predicate VisitingAt(c: Config, s: State, t: State, i: nat, len: nat) {
    if i < c.nr then t.pc == Visiting(i) && t.bankRead == s.bankRead && t.round == s.round
    else t.pc == (if len < c.capacity then Returned else Waiting(0))
         && t.bankRead == (s.bankRead + 1) % 2 && t.round == s.round + 1
  }

  lemma VisitedOne(c: Config, s0: State, s: State, i: nat, len: nat)
    requires Shaped(c, s) && s.pc == Visiting(i) && VisitingAt(c, s0, s, i, len)
    ensures var t, bank := VisitStep(c, s), VisitedBank(c, s, i);
            && t.offset == s.offset && t.visits == s.visits[i := s.visits[i] + [bank]]
            && VisitingAt(c, s0, t, i + 1, bank.len)
  {
    hide ReaderShaped;
  }

  /** Reader `r` can take its next step, where a read would return `k` bytes. */
  predicate CanMove(c: Config, r: Reader, k: nat) {
    match r.pc
    case Receiving => r.queue != []
    case Filling(_) => ReaderShaped(c, r) && ReadReturns(c, r, k)
    case Acking(_) => true
    case Exited => false
  }

  /** The longest piece a read can return. */
  function FullRead(c: Config, r: Reader): nat
    requires ReaderShaped(c, r) && r.file.Some?
  {
    Min(c.capacity, Remaining(c, r))
  }

  lemma ReadyCanMove(c: Config, r: Reader)
    requires c.Valid() && ReaderShaped(c, r) && Ready(r)
    ensures r.pc.Filling? ==> r.file.Some?
    ensures CanMove(c, r, if r.pc.Filling? then FullRead(c, r) else 0)
  {
  }

  class EceWorker {
    const c: Config
    var readers: seq<Reader>
    var listener: seq<Job>
    /** The state of the protocol that the worker is in. */
    ghost var st: State

    ghost predicate Valid()
      reads this
    {
      && c.Valid() && Inv(c, st) && Reachable(c, st)
      && readers == st.readers && listener == st.acks
    }

    /** `EceWorker::new`, up to the call of `work`. */
    constructor (c: Config)
      requires c.Valid()
      ensures Valid() && this.c == c && st == Init(c)
    {
      this.c := c;
      readers := seq(c.nr, _ => FreshReader(c));
      listener := [];
      st := Init(c);
      new;
      InitInv(c);
      InitReachable(c);
      hide Inv, Reachable;
    }

    /** Records that the step `a` of the protocol has just been taken. */
    ghost method Record(a: Action)
      requires c.Valid() && Inv(c, st) && Reachable(c, st) && Enabled(c, st, a)
      modifies this`st
      ensures Inv(c, st) && Reachable(c, st)
      ensures st == Apply(c, old(st), a)
      ensures 0 <= Potential(c, st) < old(Potential(c, st))
    {
      StepLowersPotential(c, st, a);
      ReachableStep(c, st, a);
      hide Inv, Reachable, Potential, Apply, Enabled;
      st := Apply(c, st, a);
    }

    // ----- the reader threads -----

    lemma Shape()
      requires Valid()
      ensures Shaped(c, st)
    {
      hide Reachable, ReadersInv, AcksInv, VisitsInv, LastInv, JoinedInv;
    }

    /** `recv` and the tests up to the read. */
    method TakeJob(i: nat)
      requires Valid() && Enabled(c, st, Recv(i))
      modifies this
      ensures Valid() && ReadersOnly(old(st), st)
      ensures 0 <= Potential(c, st) < old(Potential(c, st))
    {
      hide Inv, Reachable, Potential, MainStep;
      Shape();
      var r := readers[i];
      var job := r.queue[0];
      r := r.(queue := r.queue[1..]);
      if job.finished {
        r := r.(pc := Exited);
      } else {
        if job.filename.Some? {
          r := r.(file := Some(OpenFile(job.filename.value, 0)));
        }
        if job.len != 0 && r.file.Some? {
          r := r.(pc := Filling(job));
        }
      }
      readers := readers[i := r];
      Record(Recv(i));
    }

    /** The read of `k` bytes into the reader's next bank. */
    method FillBank(i: nat, k: nat)
      requires Valid() && Enabled(c, st, Fill(i, k))
      modifies this
      ensures Valid() && ReadersOnly(old(st), st)
      ensures 0 <= Potential(c, st) < old(Potential(c, st))
    {
      hide Inv, Reachable, Potential, MainStep;
      Shape();
      var r := readers[i];
      var file := r.file.value;
      var bytesRead := c.files[file.id][file.pos..file.pos + k];
      var slot := r.firstBank % 2;
      r := r.(banks := r.banks[slot := r.banks[slot].Filled(bytesRead)], chunks := r.chunks + [bytesRead]);
      r := r.(file := Some(file.(pos := file.pos + k)), pc := Acking(r.pc.job.(len := k)));
      readers := readers[i := r];
      Record(Fill(i, k));
    }

    /** The acknowledgement on the channel that all readers share. */
    method Acknowledge(i: nat)
      requires Valid() && Enabled(c, st, Ack(i))
      modifies this
      ensures Valid() && ReadersOnly(old(st), st)
      ensures 0 <= Potential(c, st) < old(Potential(c, st))
    {
      hide Inv, Reachable, Potential, MainStep;
      Shape();
      var r := readers[i];
      listener := listener + [r.pc.job];
      readers := readers[i := r.(pc := Receiving, firstBank := r.firstBank + 1)];
      Record(Ack(i));
    }

    /** Reader `i` takes one step of its loop if it can; a read returns `k` bytes if it may. */
    method ReaderTurn(i: nat, k: nat) returns (moved: bool)
      requires Valid() && i < c.nr && Shaped(c, st)
      modifies this
      ensures Valid() && ReadersOnly(old(st), st)
      ensures moved <==> old(CanMove(c, readers[i], k))
      ensures moved ==> 0 <= Potential(c, st) < old(Potential(c, st))
      ensures !moved ==> st == old(st)
    {
      hide Inv, Reachable, Potential, ReaderShaped, ReadReturns;
      var r := readers[i];
      ReaderIsShaped(c, st, i);
      moved := CanMove(c, r, k);
      if moved {
        match r.pc
        case Receiving => TakeJob(i);
        case Filling(_) => FillBank(i, k);
        case Acking(_) => Acknowledge(i);
      }
    }

    /** Any reader threads take any number of steps. */
    method Interleave()
      requires Valid()
      modifies this
      ensures Valid() && ReadersOnly(old(st), st)
    {
      hide Inv, Reachable, Potential;
      while *
        invariant Valid() && ReadersOnly(old(st), st)
        decreases Potential(c, st)
      {
        var i: nat := *;
        var k: nat := *;
        if i >= c.nr {
          break;
        }
        Shape();
        var moved := ReaderTurn(i, k);
        if !moved {
          break;
        }
      }
    }

    /** Main is blocked: the scheduler lets some reader that can move take a step. */
    method Schedule(ghost i: nat)
      requires Valid() && Shaped(c, st) && i < c.nr && Ready(readers[i])
      modifies this
      ensures Valid() && ReadersOnly(old(st), st)
      ensures 0 <= Potential(c, st) < old(Potential(c, st))
    {
      hide Inv, Reachable, Potential, ReaderShaped, Ready;
      var n := 0;
      while !Ready(readers[n])
        invariant n <= i
        decreases i - n
      {
        n := n + 1;
      }
      ReaderIsShaped(c, st, n);
      ReadyCanMove(c, readers[n]);
      var k := if readers[n].pc.Filling? then FullRead(c, readers[n]) else 0;
      var moved := ReaderTurn(n, k);
    }

    // ----- main -----

    /** `open_files`. */
    method OpenFiles()
      requires Valid() && st.pc == Opening(0)
      modifies this
      ensures Valid() && st.pc == Prefetching(0)
      ensures st.offset == old(st.offset) && st.bankRead == old(st.bankRead)
      ensures st.round == old(st.round) && st.visits == old(st.visits)
    {
      hide Inv, Reachable;
      for i := 0 to c.nr
        invariant Valid() && st.pc == if i < c.nr then Opening(i) else Prefetching(0)
        invariant st.offset == old(st.offset) && st.bankRead == old(st.bankRead)
        invariant st.round == old(st.round) && st.visits == old(st.visits)
      {
        Interleave();
        Shape();
        readers := readers[i := readers[i].(queue := readers[i].queue + [Job(0, 0, false, Some(i))])];
        Record(Main);
      }
    }

    /** Where main is in `send_work`, called from the point `start`. */
    ghost function SendPc(start: MainPc, i: nat): MainPc {
      match start
      case Prefetching(_) => if i < c.nr then Prefetching(i) else Waiting(0)
      case Sending(_) => if i < c.nr then Sending(i) else Visiting(0)
      case _ => if i < c.nr then Finishing(i) else Joining(0)
    }

    /** `send_work`: one job to every reader, then the offset moves on. */
    method SendWork(offset: nat, capacity: nat, finished: bool) returns (next: nat)
      requires Valid() && offset == st.offset
      requires if finished then st.pc == Finishing(0) && capacity == 0
               else (st.pc == Prefetching(0) || st.pc == Sending(0)) && capacity == c.capacity
      modifies this
      ensures Valid() && next == offset + capacity == st.offset
      ensures st.pc == SendPc(old(st.pc), c.nr)
      ensures st.bankRead == old(st.bankRead) && st.round == old(st.round) && st.visits == old(st.visits)
    {
      hide Inv, Reachable;
      ghost var start := st.pc;
      for i := 0 to c.nr
        invariant Valid() && st.pc == SendPc(start, i)
        invariant st.offset == if i < c.nr then offset else offset + capacity
        invariant st.bankRead == old(st.bankRead) && st.round == old(st.round) && st.visits == old(st.visits)
      {
        Interleave();
        Shape();
        var job := Job(offset, c.capacity, finished, None);
        readers := readers[i := readers[i].(queue := readers[i].queue + [job])];
        Record(Main);
      }
      next := offset + capacity;
    }

    /** `wait_readers`: take `nr` acknowledgements, whosever they are. */
    method WaitReaders()
      requires Valid() && st.pc == Waiting(0)
      modifies this
      ensures Valid() && st.pc == Sending(0)
      ensures st.offset == old(st.offset) && st.bankRead == old(st.bankRead) && st.round == old(st.round)
      ensures st.visits == old(st.visits)
    {
      hide Inv, Reachable, Potential;
      var jobDone := 0;
      while jobDone < c.nr
        invariant jobDone <= c.nr
        invariant Valid() && st.pc == if jobDone < c.nr then Waiting(jobDone) else Sending(0)
        invariant st.offset == old(st.offset) && st.bankRead == old(st.bankRead) && st.round == old(st.round)
        invariant st.visits == old(st.visits)
      {
        Interleave();
        while listener == []
          invariant Valid() && st.pc == Waiting(jobDone)
          invariant st.offset == old(st.offset) && st.bankRead == old(st.bankRead) && st.round == old(st.round)
          invariant st.visits == old(st.visits)
          decreases Potential(c, st)
        {
          ghost var i := SomeReaderOwes(c, st);
          OwingIsReady(c, st, i);
          Shape();
          Schedule(i);
        }
        Shape();
        listener := listener[1..];
        Record(Main);
        jobDone := jobDone + 1;
      }
    }

    /** The closure of `process_writer` on one bank, under its lock. */
    method VisitBank(i: nat, bankRead: nat) returns (bank: Bank)
      requires Valid() && Shaped(c, st) && st.pc == Visiting(i) && bankRead == st.bankRead
      modifies this
      ensures Valid() && Shaped(c, st) && st == VisitStep(c, old(st)) && bank == VisitedBank(c, old(st), i)
    {
      hide Inv, Reachable, ReaderShaped;
      ReaderIsShaped(c, st, i);
      bank := readers[i].banks[bankRead % 2];
      Record(Main);
    }

    /** `process_writer`: look at every reader's bank, print it, and return the last one's length. */
    method ProcessWriter(bankRead: nat)
      returns (nextBank: nat, len: nat, printed: seq<seq<byte>>, ghost banks: seq<Bank>)
      requires Valid() && st.pc == Visiting(0) && bankRead == st.bankRead
      modifies this
      ensures Valid() && nextBank == st.bankRead && st.round == old(st.round) + 1
      ensures st.offset == old(st.offset)
      ensures st.pc == if len < c.capacity then Returned else Waiting(0)
      ensures |printed| == |banks| == c.nr == |st.visits| == |old(st).visits|
      ensures forall i :: 0 <= i < c.nr ==> st.visits[i] == old(st).visits[i] + [banks[i]]
      ensures forall i :: 0 <= i < c.nr ==> printed[i] == banks[i].buffer
      ensures len == banks[c.nr - 1].len
    {
      hide Inv, Reachable, ReaderShaped, VisitStep, VisitedBank;
      Shape();
      len, printed, banks := 0, [], [];
      for i := 0 to c.nr
        invariant Valid() && Shaped(c, st) && st.offset == old(st.offset)
        invariant VisitingAt(c, old(st), st, i, len)
        invariant |printed| == |banks| == i && |old(st).visits| == c.nr
        invariant forall j :: i <= j < c.nr ==> st.visits[j] == old(st).visits[j]
        invariant forall j :: 0 <= j < i ==> st.visits[j] == old(st).visits[j] + [banks[j]]
        invariant forall j :: 0 <= j < i ==> printed[j] == banks[j].buffer
        invariant i > 0 ==> len == banks[i - 1].len
      {
        Interleave();
        Shape();
        VisitedOne(c, old(st), st, i, len);
        var bank := VisitBank(i, bankRead);
        len := bank.len;
        printed := printed + [bank.buffer];
        banks := banks + [bank];
      }
      nextBank := (bankRead + 1) % 2;
    }

    /** `work`: prefetch one round, then wait, prefetch and write until a short read of the last
        file. It returns with the writer having seen, of every reader, a prefix of its file, which
        with full reads is the whole of the last file. `printed` is the output, round by round. */
    method Work() returns (printed: seq<seq<seq<byte>>>)
      requires Valid() && st == Init(c)
      modifies this
      ensures Valid() && st.pc == Returned
      ensures PrefixesSeen(c, st.visits)
      ensures c.fullReads ==> LastSeen(c, st.round, st.visits)
      ensures PrintsVisits(c, printed, st.round, st.visits)
    {
      hide Inv, Reachable, PrefixesSeen, LastSeen, PrintsVisits;
      var offset, bankRead := 0, 0;
      NothingPrinted(c);
      printed := [];
      OpenFiles();
      offset := SendWork(offset, c.capacity, false);
      while true
        invariant Valid() && st.pc == Waiting(0) && offset == st.offset && bankRead == st.bankRead
        invariant PrintsVisits(c, printed, st.round, st.visits)
        decreases RoundsLeft(c, st)
      {
        RoundsRemain(c, st);
        WaitReaders();
        offset := SendWork(offset, c.capacity, false);
        ghost var before := st;
        var len, texts;
        ghost var banks;
        bankRead, len, texts, banks := ProcessWriter(bankRead);
        PrintedRound(c, printed, before.round, before.visits, st.visits, texts, banks);
        printed := printed + [texts];
        if len < c.capacity {
          break;
        }
        RoundsRemain(c, st);
      }
      PrefixesDelivered(c, st);
      if c.fullReads {
        LastDelivered(c, st);
      }
    }

    /** `drop`: tell every reader to finish and join it. Every reader leaves its loop. */
    method Drop()
      requires Valid() && st.pc == Returned
      modifies this
      ensures Valid() && st.pc == Ended
      ensures |readers| == c.nr && forall i :: 0 <= i < c.nr ==> readers[i].pc.Exited? && readers[i].queue == []
    {
      hide Inv, Reachable, Potential;
      Interleave();
      Shape();
      Record(Main);
      var x := SendWork(0, 0, true);
      for i := 0 to c.nr
        invariant Valid() && st.pc == if i < c.nr then Joining(i) else Ended
      {
        Interleave();
        Shape();
        while !readers[i].pc.Exited?
          invariant Valid() && Shaped(c, st) && st.pc == Joining(i)
          decreases Potential(c, st)
        {
          OwingIsReady(c, st, i);
          Schedule(i);
          Shape();
        }
        Record(Main);
      }
      Shape();
      forall i | 0 <= i < c.nr
        ensures readers[i].pc.Exited? && readers[i].queue == []
      {
        EndedReader(c, st, i);
      }
    }
  }
}
