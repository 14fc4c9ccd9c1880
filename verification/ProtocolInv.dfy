/** The invariant of the protocol, and that every step of every thread keeps it. */
module ProtocolInv {
  import opened Common
  import opened Protocol

  // ----- sequences of pieces -----

  function Concat(pieces: seq<seq<byte>>): seq<byte> {
    if pieces == [] then [] else Concat(pieces[..|pieces| - 1]) + pieces[|pieces| - 1]
  }

  lemma ConcatSnoc(pieces: seq<seq<byte>>, piece: seq<byte>)
    ensures Concat(pieces + [piece]) == Concat(pieces) + piece
  {
    assert (pieces + [piece])[..|pieces|] == pieces;
  }

  /** Where the `n`-th full read of a file of length `size` starts: `n * capacity`, at most `size`. */
  function Cut(capacity: nat, size: nat, n: nat): (p: nat)
    ensures p <= size
  {
    if n == 0 then 0 else Min(Cut(capacity, size, n - 1) + capacity, size)
  }

  // ----- counting -----

  function SumAcked(readers: seq<Reader>): nat {
    if readers == [] then 0 else SumAcked(readers[..|readers| - 1]) + readers[|readers| - 1].firstBank
  }

  lemma {:induction false} SumAckedUpdate(readers: seq<Reader>, i: nat, r: Reader)
    requires i < |readers|
    ensures SumAcked(readers[i := r]) == SumAcked(readers) - readers[i].firstBank + r.firstBank
    decreases |readers|
  {
    var n := |readers| - 1;
    if i == n {
      assert readers[i := r][..n] == readers[..n];
    } else {
      SumAckedUpdate(readers[..n], i, r);
      assert readers[i := r][..n] == readers[..n][i := r];
    }
  }

  /** Readers that acknowledged at most `bound` times each cannot reach a total of `bound` each
      unless every one of them did. */
  lemma {:induction false} SumAckedBound(readers: seq<Reader>, bound: nat)
    requires forall i :: 0 <= i < |readers| ==> readers[i].firstBank <= bound
    ensures SumAcked(readers) <= bound * |readers|
    ensures SumAcked(readers) == bound * |readers| ==>
              forall i :: 0 <= i < |readers| ==> readers[i].firstBank == bound
    decreases |readers|
  {
    if readers != [] {
      var n := |readers| - 1;
      SumAckedBound(readers[..n], bound);
      assert bound * |readers| == bound * n + bound;
    }
  }

  // ----- what main has sent and consumed, by program point -----

  function Opened(pc: MainPc, i: nat): nat {
    if pc.Opening? && pc.i <= i then 0 else 1
  }

  /** Rounds whose requests have been sent to every reader; `drop` starts over from 0. */
  function Rounds(pc: MainPc, round: nat): nat {
    match pc
    case Waiting(_) => round + 1
    case Sending(_) => round + 1
    case Visiting(_) => round + 2
    case Returned => round + 1
    case _ => 0
  }

  /** Read jobs sent to reader `i` so far. */
  function Sent(pc: MainPc, round: nat, i: nat): nat {
    match pc
    case Opening(_) => 0
    case Prefetching(n) => if i < n then 1 else 0
    case Waiting(_) => round + 1
    case Sending(n) => if i < n then round + 2 else round + 1
    case Visiting(_) => round + 2
    case _ => round + 1
  }

  function Finish(pc: MainPc, i: nat): nat {
    match pc
    case Finishing(n) => if i < n then 1 else 0
    case Joining(_) => 1
    case Ended => 1
    case _ => 0
  }

  /** Rounds that every reader has certainly acknowledged. */
  function AckedFloor(pc: MainPc, round: nat): nat {
    if pc.Sending? || pc.Visiting? then round + 1 else round
  }

  /** Acknowledgements that main has taken from the shared channel. */
  function Consumed(c: Config, pc: MainPc, round: nat): nat {
    AckedFloor(pc, round) * c.nr + (if pc.Waiting? then pc.done else 0)
  }

  /** Banks of reader `i` that `process_writer` has seen. */
  function Visited(pc: MainPc, round: nat, i: nat): nat {
    if pc.Visiting? && i < pc.i then round + 1 else round
  }

  // ----- one reader -----

  function Busy(r: Reader): nat {
    if r.pc.Filling? || r.pc.Acking? then 1 else 0
  }

  /** Jobs the reader has taken from its channel. */
  function Received(r: Reader): nat {
    (if r.file.Some? then 1 else 0) + r.firstBank + Busy(r) + (if r.pc.Exited? then 1 else 0)
  }

  /** The offset that the request of round `n` carries. */
  function Offset(c: Config, n: nat): nat {
    n * c.capacity
  }

  /** The `n`-th job for reader `i` is its file, then `sent` read requests, one capacity apart,
      then the order to finish. */
  predicate Expected(c: Config, i: nat, sent: nat, n: nat, job: Job) {
    job == if n == 0 then Job(0, 0, false, Some(i))
           else if n <= sent then Job(Offset(c, n - 1), c.capacity, false, None)
           else Job(0, c.capacity, true, None)
  }

  /** A reader at work is at its request of round `firstBank`; to acknowledge it, the request
      carries the length just read. */
  ghost predicate JobInv(c: Config, r: Reader) {
    && (r.pc.Filling? ==> r.pc.job == Job(Offset(c, r.firstBank), c.capacity, false, None))
    && (r.pc.Acking? ==>
          && r.firstBank < |r.chunks|
          && r.pc.job == Job(Offset(c, r.firstBank), |r.chunks[r.firstBank]|, false, None))
  }

  /** Bank `n % 2` still holds the `n`-th read. */
  predicate Holds(bank: Bank, data: seq<byte>) {
    bank.len <= |bank.buffer| && bank.Content() == data
  }

  ghost predicate QueueInv(c: Config, i: nat, r: Reader, opens: nat, sent: nat, finish: nat) {
    && (opens == 0 ==> sent == 0)
    && (sent == 0 ==> finish == 0)
    && Received(r) + |r.queue| == opens + sent + finish
    && (forall n: nat :: n < |r.queue| ==> Expected(c, i, sent, Received(r) + n, r.queue[n]))
    && (r.file.None? ==> r.firstBank == 0 && r.pc.Receiving?)
    && (r.pc.Exited? ==> finish == 1 && r.queue == [])
    && (Busy(r) == 1 ==> r.firstBank < sent)
    && r.firstBank <= sent
  }

  ghost predicate DataInv(c: Config, i: nat, r: Reader) {
    && ReaderShaped(c, r)
    && i < |c.files|
    && |r.chunks| == r.firstBank + (if r.pc.Acking? then 1 else 0)
    && (forall n: nat :: n < |r.chunks| ==> |r.chunks[n]| <= c.capacity)
    && (forall n: nat :: n < |r.chunks| <= n + 2 ==> Holds(r.banks[n % 2], r.chunks[n]))
    && (r.file.None? ==> r.chunks == [])
    && (r.file.Some? ==> r.file.value.id == i && Concat(r.chunks) == c.files[i][..r.file.value.pos])
  }

  ghost predicate FullChunk(c: Config, i: nat, n: nat, data: seq<byte>)
    requires i < |c.files|
  {
    var size := |c.files[i]|;
    var start, end := Cut(c.capacity, size, n), Cut(c.capacity, size, n + 1);
    start <= end && data == c.files[i][start..end]
  }

  /** With full reads, the `n`-th read is the `n`-th capacity-sized piece of the file. */
  ghost predicate FullInv(c: Config, i: nat, r: Reader)
    requires DataInv(c, i, r)
  {
    c.fullReads ==>
      && (r.file.Some? ==> r.file.value.pos == Cut(c.capacity, |c.files[i]|, |r.chunks|))
      && forall n: nat :: n < |r.chunks| ==> FullChunk(c, i, n, r.chunks[n])
  }

  ghost predicate ReaderInv(c: Config, i: nat, r: Reader, opens: nat, sent: nat, finish: nat) {
    QueueInv(c, i, r, opens, sent, finish) && DataInv(c, i, r) && FullInv(c, i, r) && JobInv(c, r)
  }

  // ----- reader steps keep the invariant of their reader -----

  lemma RecvKeeps(c: Config, i: nat, r: Reader, opens: nat, sent: nat, finish: nat)
    requires c.Valid() && ReaderInv(c, i, r, opens, sent, finish)
    requires r.pc.Receiving? && r.queue != []
    requires opens <= 1 && finish <= 1
    ensures ReaderInv(c, i, ReaderRecv(c, r), opens, sent, finish)
    ensures ReaderRecv(c, r).firstBank == r.firstBank && ReaderRecv(c, r).chunks == r.chunks
  {
    var r' := ReaderRecv(c, r);
    assert Expected(c, i, sent, Received(r), r.queue[0]);
    forall n: nat | n < |r'.queue|
      ensures Expected(c, i, sent, Received(r') + n, r'.queue[n])
    {
      assert r'.queue[n] == r.queue[n + 1];
      assert Expected(c, i, sent, Received(r) + (n + 1), r.queue[n + 1]);
    }
  }

  lemma FilledHolds(bank: Bank, data: seq<byte>)
    requires |data| <= |bank.buffer|
    ensures Holds(bank.Filled(data), data)
    ensures bank.Filled(data).Sized(|bank.buffer|)
  {
  }

  lemma FillKeepsData(c: Config, i: nat, r: Reader, k: nat)
    requires c.Valid() && DataInv(c, i, r) && r.pc.Filling? && ReadReturns(c, r, k)
    ensures DataInv(c, i, ReaderFill(c, r, k))
  {
    var f := r.file.value;
    var r' := ReaderFill(c, r, k);
    var data := c.files[f.id][f.pos..f.pos + k];
    ConcatSnoc(r.chunks, data);
    assert c.files[i][..f.pos + k] == c.files[i][..f.pos] + data;
    FilledHolds(r.banks[r.firstBank % 2], data);
    hide Holds, Bank.Filled, Bank.Sized, Concat;
    forall n: nat | n < |r'.chunks| <= n + 2
      ensures Holds(r'.banks[n % 2], r'.chunks[n])
    {
      if n != r.firstBank {
        assert n + 1 == r.firstBank;
        assert n % 2 != r.firstBank % 2;
      }
    }
  }

  lemma FillKeepsFull(c: Config, i: nat, r: Reader, k: nat)
    requires c.Valid() && DataInv(c, i, r) && FullInv(c, i, r) && r.pc.Filling? && ReadReturns(c, r, k)
    requires DataInv(c, i, ReaderFill(c, r, k))
    ensures FullInv(c, i, ReaderFill(c, r, k))
  {
    hide Holds;
    var r' := ReaderFill(c, r, k);
    if c.fullReads {
      var n := |r.chunks|;
      assert Cut(c.capacity, |c.files[i]|, n + 1) == r.file.value.pos + k;
      assert FullChunk(c, i, n, r'.chunks[n]);
    }
  }

  lemma FillKeeps(c: Config, i: nat, r: Reader, k: nat, opens: nat, sent: nat, finish: nat)
    requires c.Valid() && ReaderInv(c, i, r, opens, sent, finish)
    requires r.pc.Filling? && ReadReturns(c, r, k)
    ensures ReaderInv(c, i, ReaderFill(c, r, k), opens, sent, finish)
    ensures ReaderFill(c, r, k).firstBank == r.firstBank
    ensures r.chunks < ReaderFill(c, r, k).chunks
  {
    FillKeepsData(c, i, r, k);
    FillKeepsFull(c, i, r, k);
    hide DataInv, FullInv;
  }

  lemma AckKeeps(c: Config, i: nat, r: Reader, opens: nat, sent: nat, finish: nat)
    requires ReaderInv(c, i, r, opens, sent, finish) && r.pc.Acking?
    ensures ReaderInv(c, i, ReaderAck(r), opens, sent, finish)
  {
    hide Holds, Concat, FullChunk;
  }

  /** Posting the next expected job keeps the invariant of the reader it goes to. */
  lemma PostKeeps(c: Config, i: nat, r: Reader, opens: nat, sent: nat, finish: nat, job: Job,
                  opens': nat, sent': nat, finish': nat)
    requires ReaderInv(c, i, r, opens, sent, finish)
    requires finish == 0 && opens' <= 1
    requires (opens == 0 && opens' == 1 && sent' == sent == finish' == 0)
             || (opens' == opens == 1 && sent' == sent + 1 && finish' == 0)
             || (opens' == opens == 1 && sent' == sent >= 1 && finish' == 1)
    requires Expected(c, i, sent', opens + sent, job)
    requires job.filename.Some? ==> job.filename.value < |c.files|
    ensures ReaderInv(c, i, r.(queue := r.queue + [job]), opens', sent', finish')
  {
    hide Holds, Concat, FullChunk;
    var r' := r.(queue := r.queue + [job]);
    forall n: nat | n < |r'.queue|
      ensures Expected(c, i, sent', Received(r') + n, r'.queue[n])
    {
      if n < |r.queue| {
        assert Expected(c, i, sent, Received(r) + n, r.queue[n]);
      }
    }
  }

  // ----- the whole system -----

  predicate Stopped(pc: MainPc) {
    pc.Returned? || pc.Finishing? || pc.Joining? || pc.Ended?
  }

  ghost predicate ReadersInv(c: Config, s: State)
    requires Shaped(c, s)
  {
    forall i: nat :: i < c.nr ==>
      ReaderInv(c, i, s.readers[i], Opened(s.pc, i), Sent(s.pc, s.round, i), Finish(s.pc, i))
  }

  /** No reader lags behind the rounds main has waited for, and the acknowledgements made are
      those consumed plus those still in the channel. */
  ghost predicate AcksInv(c: Config, s: State)
    requires Shaped(c, s)
  {
    && (forall i: nat :: i < c.nr ==> AckedFloor(s.pc, s.round) <= s.readers[i].firstBank)
    && SumAcked(s.readers) == Consumed(c, s.pc, s.round) + |s.acks|
  }

  /** The writer saw, in order, exactly the reads the reader made. */
  ghost predicate Saw(c: Config, visits: seq<Bank>, chunks: seq<seq<byte>>) {
    && |visits| <= |chunks|
    && forall n: nat :: n < |visits| ==> visits[n].Sized(c.capacity) && Holds(visits[n], chunks[n])
  }

  ghost predicate VisitsInv(c: Config, s: State)
    requires Shaped(c, s)
  {
    forall i: nat :: i < c.nr ==>
      |s.visits[i]| == Visited(s.pc, s.round, i) && Saw(c, s.visits[i], s.readers[i].chunks)
  }

  /** Only the last visit, once the loop has stopped, found a bank that was not full. */
  ghost predicate ShortOnlyLast(c: Config, visits: seq<Bank>, stopped: bool) {
    && (stopped ==> |visits| >= 1)
    && forall n: nat :: n < |visits| ==> (visits[n].len < c.capacity <==> stopped && n == |visits| - 1)
  }

  /** The loop goes on exactly while the last reader's read filled its buffer. */
  ghost predicate LastInv(c: Config, s: State)
    requires Shaped(c, s)
  {
    ShortOnlyLast(c, s.visits[c.nr - 1], Stopped(s.pc))
  }

  /** Main passes a `join` only once that reader has left its loop. */
  ghost predicate JoinedInv(c: Config, s: State)
    requires Shaped(c, s)
  {
    forall i: nat :: i < c.nr && (s.pc.Ended? || (s.pc.Joining? && i < s.pc.i)) ==> s.readers[i].pc.Exited?
  }

  ghost predicate Inv(c: Config, s: State) {
    && Shaped(c, s)
    && (s.pc.Opening? || s.pc.Prefetching? ==> s.round == 0)
    && s.bankRead == s.round % 2
    && s.offset == Offset(c, Rounds(s.pc, s.round))
    && ReadersInv(c, s)
    && AcksInv(c, s)
    && VisitsInv(c, s)
    && LastInv(c, s)
    && JoinedInv(c, s)
  }

  lemma {:induction false} SumAckedZero(readers: seq<Reader>)
    requires forall i :: 0 <= i < |readers| ==> readers[i].firstBank == 0
    ensures SumAcked(readers) == 0
    decreases |readers|
  {
    if readers != [] {
      SumAckedZero(readers[..|readers| - 1]);
    }
  }

  lemma InitInv(c: Config)
    requires c.Valid()
    ensures Inv(c, Init(c))
  {
    SumAckedZero(Init(c).readers);
  }

  // ----- a reader moves -----

  /** Replacing one reader by a later self of it, with the matching acknowledgements, keeps `Inv`. */
  lemma ReaderMoves(c: Config, s: State, i: nat, r: Reader, acks: seq<Job>)
    requires Inv(c, s) && i < c.nr && ReaderShaped(c, r)
    requires ReaderInv(c, i, r, Opened(s.pc, i), Sent(s.pc, s.round, i), Finish(s.pc, i))
    requires s.readers[i].chunks <= r.chunks && !s.readers[i].pc.Exited?
    requires s.readers[i].firstBank <= r.firstBank
    requires |acks| == |s.acks| + r.firstBank - s.readers[i].firstBank
    ensures Inv(c, s.(readers := s.readers[i := r], acks := acks))
  {
    hide ReaderInv, ReaderShaped, SumAcked;
    SumAckedUpdate(s.readers, i, r);
  }

  lemma ReaderStepKeeps(c: Config, s: State, a: Action)
    requires Inv(c, s) && Enabled(c, s, a) && !a.Main?
    ensures Inv(c, Apply(c, s, a))
  {
    var i := a.i;
    var r := s.readers[i];
    assert ReaderInv(c, i, r, Opened(s.pc, i), Sent(s.pc, s.round, i), Finish(s.pc, i));
    hide ReadersInv, AcksInv, VisitsInv, LastInv, JoinedInv;
    match a
    case Recv(_) =>
      RecvKeeps(c, i, r, Opened(s.pc, i), Sent(s.pc, s.round, i), Finish(s.pc, i));
      ReaderMoves(c, s, i, ReaderRecv(c, r), s.acks);
    case Fill(_, k) =>
      FillKeeps(c, i, r, k, Opened(s.pc, i), Sent(s.pc, s.round, i), Finish(s.pc, i));
      ReaderMoves(c, s, i, ReaderFill(c, r, k), s.acks);
    case Ack(_) =>
      AckKeeps(c, i, r, Opened(s.pc, i), Sent(s.pc, s.round, i), Finish(s.pc, i));
      ReaderMoves(c, s, i, ReaderAck(r), s.acks + [r.pc.job]);
  }

  // ----- main moves -----

  lemma NextOffset(c: Config, round: nat)
    ensures Offset(c, 0) == 0
    ensures Offset(c, 1) == c.capacity
    ensures Offset(c, round + 1) + c.capacity == Offset(c, round + 2)
  {
  }

  /** What a send does not touch. */
  lemma PostStepFrame(c: Config, s: State)
    requires Shaped(c, s) && Posting(s.pc) && (s.pc.Opening? || s.pc.Prefetching? ==> s.round == 0)
    ensures var s', i := PostStep(c, s), s.pc.i;
            && s'.acks == s.acks && s'.visits == s.visits
            && s'.round == s.round && s'.bankRead == s.bankRead
            && (s.offset == Offset(c, Rounds(s.pc, s.round)) ==> s'.offset == Offset(c, Rounds(s'.pc, s'.round)))
            && (s'.pc.Opening? || s'.pc.Prefetching? ==> s'.round == 0)
            && !s'.pc.Ended? && (s'.pc.Joining? ==> s'.pc.i == 0)
            && s'.readers == s.readers[i := s.readers[i].(queue := s.readers[i].queue + [JobToPost(c, s)])]
            && AckedFloor(s'.pc, s'.round) == AckedFloor(s.pc, s.round)
            && Consumed(c, s'.pc, s'.round) == Consumed(c, s.pc, s.round)
            && Stopped(s'.pc) == Stopped(s.pc)
            && (forall j: nat :: j < c.nr ==> Visited(s'.pc, s'.round, j) == Visited(s.pc, s.round, j))
            && (forall j: nat :: j < c.nr && j != i ==>
                  && Opened(s'.pc, j) == Opened(s.pc, j)
                  && Sent(s'.pc, s'.round, j) == Sent(s.pc, s.round, j)
                  && Finish(s'.pc, j) == Finish(s.pc, j))
  {
    hide ReaderShaped, Offset;
    NextOffset(c, s.round);
  }

  lemma PostStepReader(c: Config, s: State)
    requires Shaped(c, s) && Posting(s.pc) && (s.pc.Opening? || s.pc.Prefetching? ==> s.round == 0)
    requires s.offset == Offset(c, Rounds(s.pc, s.round))
    requires ReaderInv(c, s.pc.i, s.readers[s.pc.i],
                       Opened(s.pc, s.pc.i), Sent(s.pc, s.round, s.pc.i), Finish(s.pc, s.pc.i))
    ensures var s', i := PostStep(c, s), s.pc.i;
            ReaderInv(c, i, s'.readers[i], Opened(s'.pc, i), Sent(s'.pc, s'.round, i), Finish(s'.pc, i))
  {
    hide ReaderInv, ReaderShaped, Offset;
    NextOffset(c, s.round);
    var s', i := PostStep(c, s), s.pc.i;
    var r := s.readers[i];
    PostKeeps(c, i, r, Opened(s.pc, i), Sent(s.pc, s.round, i), Finish(s.pc, i), JobToPost(c, s),
              Opened(s'.pc, i), Sent(s'.pc, s'.round, i), Finish(s'.pc, i));
  }

  lemma PostStepReaders(c: Config, s: State)
    requires Inv(c, s) && Posting(s.pc)
    ensures ReadersInv(c, PostStep(c, s))
  {
    hide PostStep, JobToPost, ReaderInv, ReaderShaped, AcksInv, VisitsInv, LastInv, JoinedInv;
    hide Opened, Sent, Finish, Consumed, AckedFloor, Visited, Stopped;
    PostStepFrame(c, s);
    PostStepReader(c, s);
  }

  lemma PostStepAcks(c: Config, s: State)
    requires Inv(c, s) && Posting(s.pc)
    ensures AcksInv(c, PostStep(c, s))
  {
    hide PostStep, JobToPost, ReaderShaped, ReadersInv, VisitsInv, LastInv, JoinedInv, SumAcked;
    hide Opened, Sent, Finish, Consumed, AckedFloor, Visited, Stopped;
    PostStepFrame(c, s);
    var s', i := PostStep(c, s), s.pc.i;
    SumAckedUpdate(s.readers, i, s'.readers[i]);
  }

  lemma PostStepVisits(c: Config, s: State)
    requires Inv(c, s) && Posting(s.pc)
    ensures VisitsInv(c, PostStep(c, s)) && LastInv(c, PostStep(c, s))
  {
    hide PostStep, JobToPost, ReaderShaped, ReadersInv, AcksInv, JoinedInv, Saw, ShortOnlyLast;
    hide Opened, Sent, Finish, Consumed, AckedFloor, Visited, Stopped;
    PostStepFrame(c, s);
  }

  lemma PostStepKeeps(c: Config, s: State)
    requires Inv(c, s) && Posting(s.pc)
    ensures Inv(c, PostStep(c, s))
  {
    PostStepFrame(c, s);
    PostStepReaders(c, s);
    PostStepAcks(c, s);
    PostStepVisits(c, s);
    hide PostStep, ReadersInv, AcksInv, VisitsInv, LastInv;
  }

  lemma ReaderBounds(c: Config, i: nat, r: Reader, opens: nat, sent: nat, finish: nat)
    requires ReaderInv(c, i, r, opens, sent, finish)
    ensures r.firstBank <= |r.chunks| <= sent
  {
    hide Holds, Concat, FullInv;
  }

  /** The readers' invariants let no reader acknowledge more rounds than were sent. */
  lemma AckedAtMostSent(c: Config, s: State, i: nat)
    requires Inv(c, s) && i < c.nr
    ensures s.readers[i].firstBank <= |s.readers[i].chunks| <= Sent(s.pc, s.round, i)
  {
    hide ReaderInv, AcksInv, VisitsInv, LastInv, JoinedInv;
    ReaderBounds(c, i, s.readers[i], Opened(s.pc, i), Sent(s.pc, s.round, i), Finish(s.pc, i));
  }

  lemma ReaderOf(c: Config, s: State, i: nat)
    requires Inv(c, s) && i < c.nr
    ensures ReaderInv(c, i, s.readers[i], Opened(s.pc, i), Sent(s.pc, s.round, i), Finish(s.pc, i))
  {
    hide ReaderInv, ReaderShaped, AcksInv, VisitsInv, LastInv, JoinedInv, Opened, Sent, Finish;
  }

  lemma FloorReached(c: Config, s: State, i: nat)
    requires Inv(c, s) && i < c.nr
    ensures AckedFloor(s.pc, s.round) <= s.readers[i].firstBank
  {
    hide ReadersInv, VisitsInv, LastInv, JoinedInv, ReaderShaped, SumAcked, Consumed, AckedFloor;
  }

  lemma AllAcksIn(nr: nat, round: nat, acked: nat, pending: nat)
    requires nr >= 1 && pending >= 1
    requires acked == round * nr + (nr - 1) + pending && acked <= (round + 1) * nr
    ensures pending == 1 && acked == (round + 1) * nr
  {
    assert (round + 1) * nr == round * nr + nr;
  }

  /** Taking the last of `nr` unattributed acknowledgements means that every reader has
      acknowledged this round, and that none is left over. */
  lemma LastAckIsEveryones(c: Config, s: State)
    requires Inv(c, s) && s.pc == Waiting(c.nr - 1) && s.acks != []
    ensures |s.acks| == 1
    ensures forall i :: 0 <= i < c.nr ==> s.readers[i].firstBank == s.round + 1
  {
    hide ReadersInv, VisitsInv, LastInv, JoinedInv, SumAcked, ReaderShaped;
    forall i | 0 <= i < c.nr
      ensures s.readers[i].firstBank <= s.round + 1
    {
      AckedAtMostSent(c, s, i);
    }
    SumAckedBound(s.readers, s.round + 1);
    AllAcksIn(c.nr, s.round, SumAcked(s.readers), |s.acks|);
  }

  lemma ConsumedOneMore(c: Config, pc: MainPc, pc': MainPc, round: nat)
    requires c.Valid() && pc.Waiting? && pc.done < c.nr
    requires pc' == if pc.done + 1 < c.nr then Waiting(pc.done + 1) else Sending(0)
    ensures Consumed(c, pc', round) == Consumed(c, pc, round) + 1
  {
    assert (round + 1) * c.nr == round * c.nr + c.nr;
  }

  lemma WaitStepAcks(c: Config, s: State)
    requires Inv(c, s) && s.pc.Waiting? && s.acks != []
    ensures AcksInv(c, WaitStep(c, s))
  {
    hide ReadersInv, VisitsInv, LastInv, JoinedInv, SumAcked, ReaderShaped, Consumed;
    if s.pc.done + 1 == c.nr {
      LastAckIsEveryones(c, s);
    }
    ConsumedOneMore(c, s.pc, WaitStep(c, s).pc, s.round);
  }

  lemma WaitStepOthers(c: Config, s: State)
    requires Inv(c, s) && s.pc.Waiting? && s.acks != []
    ensures ReadersInv(c, WaitStep(c, s)) && VisitsInv(c, WaitStep(c, s)) && LastInv(c, WaitStep(c, s))
  {
    hide AcksInv, ReaderInv, Saw, ReaderShaped, ShortOnlyLast;
  }

  lemma WaitStepKeeps(c: Config, s: State)
    requires Inv(c, s) && s.pc.Waiting? && s.acks != []
    ensures Inv(c, WaitStep(c, s))
  {
    hide ReadersInv, AcksInv, VisitsInv, LastInv, ReaderShaped;
    WaitStepAcks(c, s);
    WaitStepOthers(c, s);
  }

  /** The two latest reads of a reader are both still in its banks. */
  lemma LatestReadsHeld(c: Config, i: nat, r: Reader, opens: nat, sent: nat, finish: nat, n: nat)
    requires ReaderInv(c, i, r, opens, sent, finish) && n < |r.chunks| <= n + 2
    ensures |r.banks| == 2 && r.banks[n % 2].Sized(c.capacity) && Holds(r.banks[n % 2], r.chunks[n])
  {
    hide QueueInv, FullInv, Concat, Holds;
  }

  /** While main is in `process_writer`, the bank it looks at holds the read of this round. */
  lemma VisitedBankHolds(c: Config, s: State, i: nat)
    requires Inv(c, s) && s.pc.Visiting? && i < c.nr
    ensures s.round < |s.readers[i].chunks|
    ensures VisitedBank(c, s, i).Sized(c.capacity)
    ensures Holds(VisitedBank(c, s, i), s.readers[i].chunks[s.round])
  {
    AckedAtMostSent(c, s, i);
    FloorReached(c, s, i);
    ReaderOf(c, s, i);
    assert s.bankRead % 2 == s.round % 2;
    hide Inv, ReaderInv, ReaderShaped, Holds, Bank.Sized;
    LatestReadsHeld(c, i, s.readers[i], Opened(s.pc, i), Sent(s.pc, s.round, i), Finish(s.pc, i), s.round);
  }

  lemma SawMore(c: Config, visits: seq<Bank>, chunks: seq<seq<byte>>, bank: Bank)
    requires Saw(c, visits, chunks) && |visits| < |chunks|
    requires bank.Sized(c.capacity) && Holds(bank, chunks[|visits|])
    ensures Saw(c, visits + [bank], chunks)
  {
    hide Holds;
  }

  lemma VisitStepVisits(c: Config, s: State)
    requires Inv(c, s) && s.pc.Visiting?
    ensures VisitsInv(c, VisitStep(c, s))
  {
    var i := s.pc.i;
    VisitedBankHolds(c, s, i);
    hide ReadersInv, AcksInv, LastInv, JoinedInv, ReaderShaped, Holds, VisitedBank;
    SawMore(c, s.visits[i], s.readers[i].chunks, VisitedBank(c, s, i));
    hide Saw;
  }

  lemma VisitStepLast(c: Config, s: State)
    requires Inv(c, s) && s.pc.Visiting?
    ensures LastInv(c, VisitStep(c, s))
  {
    hide ReadersInv, AcksInv, Saw, ReaderShaped;
  }

  lemma VisitStepAcks(c: Config, s: State)
    requires Inv(c, s) && s.pc.Visiting?
    ensures AcksInv(c, VisitStep(c, s))
    ensures ReadersInv(c, VisitStep(c, s))
  {
    hide ReaderInv, VisitsInv, LastInv, SumAcked, ReaderShaped;
  }

  lemma VisitStepFrame(c: Config, s: State)
    requires Shaped(c, s) && s.pc.Visiting? && s.bankRead == s.round % 2
    ensures !VisitStep(c, s).pc.Opening? && !VisitStep(c, s).pc.Prefetching?
    ensures VisitStep(c, s).bankRead == VisitStep(c, s).round % 2
  {
    hide ReaderShaped;
  }

  lemma VisitStepKeeps(c: Config, s: State)
    requires Inv(c, s) && s.pc.Visiting?
    ensures Inv(c, VisitStep(c, s))
  {
    hide ReadersInv, AcksInv, VisitsInv, LastInv, ReaderShaped;
    VisitStepFrame(c, s);
    VisitStepVisits(c, s);
    VisitStepLast(c, s);
    VisitStepAcks(c, s);
  }

  lemma QuietStepKeeps(c: Config, s: State)
    requires Inv(c, s) && MainEnabled(c, s) && (s.pc.Returned? || s.pc.Joining?)
    ensures Inv(c, QuietStep(c, s))
  {
    hide ReaderInv, SumAcked, Saw, ReaderShaped;
  }

  /** Every step of every thread keeps the invariant. */
  lemma StepKeeps(c: Config, s: State, a: Action)
    requires Inv(c, s) && Enabled(c, s, a)
    ensures Inv(c, Apply(c, s, a))
  {
    hide PostStep, WaitStep, VisitStep, QuietStep, ReadersInv, AcksInv, VisitsInv, LastInv;
    if !a.Main? {
      ReaderStepKeeps(c, s, a);
    } else if Posting(s.pc) {
      PostStepKeeps(c, s);
    } else if s.pc.Waiting? {
      WaitStepKeeps(c, s);
    } else if s.pc.Visiting? {
      VisitStepKeeps(c, s);
    } else {
      QuietStepKeeps(c, s);
    }
  }

  lemma {:induction false} RunKeeps(c: Config, s: State, actions: seq<Action>, t: State)
    requires Inv(c, s) && Executes(c, s, actions, t)
    ensures Inv(c, t)
    decreases |actions|
  {
    if actions != [] {
      StepKeeps(c, s, actions[0]);
      RunKeeps(c, Apply(c, s, actions[0]), actions[1..], t);
    }
  }

  /** In every interleaving, every state that is reached satisfies the invariant. */
  lemma ReachableInv(c: Config, s: State)
    requires c.Valid() && Reachable(c, s)
    ensures Inv(c, s)
  {
    InitInv(c);
    var actions :| Executes(c, Init(c), actions, s);
    RunKeeps(c, Init(c), actions, s);
  }
}
