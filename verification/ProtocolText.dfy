/** What `process_writer` prints, to the last byte: each buffer is what its read put at the front,
    followed by what the earlier reads into that bank left behind. */
module ProtocolText {
  import opened Common
  import opened Protocol
  import opened ProtocolInv
  import opened ProtocolTheorems

  // ----- the text that a series of reads leaves in two banks -----

  predicate Fit(chunks: seq<seq<byte>>, capacity: nat) {
    forall n :: 0 <= n < |chunks| ==> |chunks[n]| <= capacity
  }

  /** The bank of read `n` after that read; before any read a bank is all zeros. */
  function Text(capacity: nat, chunks: seq<seq<byte>>, n: int): (t: seq<byte>)
    requires Fit(chunks, capacity) && -2 <= n < |chunks|
    ensures |t| == capacity
    decreases n + 2
  {
    if n < 0 then Zeros(capacity)
    else chunks[n] + Text(capacity, chunks, n - 2)[|chunks[n]|..]
  }

  lemma {:induction false} TextOfPrefix(capacity: nat, chunks: seq<seq<byte>>, more: seq<seq<byte>>, n: int)
    requires Fit(more, capacity) && chunks <= more && -2 <= n < |chunks|
    ensures Fit(chunks, capacity)
    ensures Text(capacity, chunks, n) == Text(capacity, more, n)
    decreases n + 2
  {
    if n >= 0 {
      TextOfPrefix(capacity, chunks, more, n - 2);
    }
  }

  // ----- the invariant -----

  /** The banks hold the texts of the two latest reads. */
  ghost predicate BanksText(c: Config, r: Reader) {
    && |r.banks| == 2 && Fit(r.chunks, c.capacity)
    && r.banks[(|r.chunks| - 1) % 2].buffer == Text(c.capacity, r.chunks, |r.chunks| - 1)
    && r.banks[|r.chunks| % 2].buffer == Text(c.capacity, r.chunks, |r.chunks| - 2)
  }

  ghost predicate VisitsText(c: Config, visits: seq<Bank>, chunks: seq<seq<byte>>) {
    && Fit(chunks, c.capacity) && |visits| <= |chunks|
    && forall n: nat :: n < |visits| ==> visits[n].buffer == Text(c.capacity, chunks, n)
  }

  ghost predicate TextInv(c: Config, s: State)
    requires Shaped(c, s)
  {
    forall i: nat :: i < c.nr ==>
      BanksText(c, s.readers[i]) && VisitsText(c, s.visits[i], s.readers[i].chunks)
  }

  lemma InitText(c: Config)
    requires c.Valid()
    ensures TextInv(c, Init(c))
  {
  }

  lemma TextAt(capacity: nat, chunks: seq<seq<byte>>, n: nat)
    requires Fit(chunks, capacity) && n < |chunks|
    ensures Text(capacity, chunks, n) == chunks[n] + Text(capacity, chunks, n - 2)[|chunks[n]|..]
  {
  }

  lemma Alternate(m: nat)
    ensures (m - 1) % 2 == (m + 1) % 2 == 1 - m % 2
  {
  }

  lemma FillFits(c: Config, r: Reader, k: nat)
    requires ReaderShaped(c, r) && r.pc.Filling? && ReadReturns(c, r, k) && Fit(r.chunks, c.capacity)
    ensures Fit(ReaderFill(c, r, k).chunks, c.capacity) && r.chunks <= ReaderFill(c, r, k).chunks
    ensures |ReaderFill(c, r, k).chunks| == |r.chunks| + 1
  {
  }

  lemma FillText(c: Config, r: Reader, k: nat)
    requires ReaderShaped(c, r) && r.pc.Filling? && ReadReturns(c, r, k)
    requires BanksText(c, r) && r.firstBank == |r.chunks|
    ensures BanksText(c, ReaderFill(c, r, k))
    ensures r.chunks <= ReaderFill(c, r, k).chunks
  {
    hide Text;
    var r', m := ReaderFill(c, r, k), |r.chunks|;
    FillFits(c, r, k);
    TextOfPrefix(c.capacity, r.chunks, r'.chunks, m - 1);
    TextOfPrefix(c.capacity, r.chunks, r'.chunks, m - 2);
    Alternate(m);
    TextAt(c.capacity, r'.chunks, m);
  }

  lemma VisitsTextGrow(c: Config, visits: seq<Bank>, chunks: seq<seq<byte>>, more: seq<seq<byte>>)
    requires VisitsText(c, visits, chunks) && chunks <= more && Fit(more, c.capacity)
    ensures VisitsText(c, visits, more)
  {
    forall n: nat | n < |visits|
      ensures visits[n].buffer == Text(c.capacity, more, n)
    {
      TextOfPrefix(c.capacity, chunks, more, n);
    }
  }

  lemma FillingIsNext(c: Config, s: State, i: nat)
    requires Inv(c, s) && i < c.nr && s.readers[i].pc.Filling?
    ensures s.readers[i].firstBank == |s.readers[i].chunks|
  {
    ReaderOf(c, s, i);
    hide Inv, QueueInv, FullInv, JobInv, Holds, Concat;
  }

  /** A step of reader `i`, which turns it into `r`, keeps the texts. */
  lemma ReaderMovesText(c: Config, s: State, i: nat, r: Reader, acks: seq<Job>)
    requires Shaped(c, s) && TextInv(c, s) && i < c.nr && ReaderShaped(c, r)
    requires BanksText(c, r) && s.readers[i].chunks <= r.chunks
    ensures TextInv(c, s.(readers := s.readers[i := r], acks := acks))
  {
    hide ReaderShaped, VisitsText, Text;
    VisitsTextGrow(c, s.visits[i], s.readers[i].chunks, r.chunks);
  }

  lemma OtherReaderSteps(c: Config, r: Reader)
    requires c.Valid() && ReaderShaped(c, r) && BanksText(c, r)
    ensures r.pc.Receiving? && r.queue != [] ==>
              BanksText(c, ReaderRecv(c, r)) && ReaderRecv(c, r).chunks == r.chunks
    ensures r.pc.Acking? ==> BanksText(c, ReaderAck(r)) && ReaderAck(r).chunks == r.chunks
    ensures r.pc.Acking? ==> ReaderShaped(c, ReaderAck(r))
  {
    hide Text;
  }

  lemma TextOf(c: Config, s: State, i: nat)
    requires Shaped(c, s) && TextInv(c, s) && i < c.nr
    ensures c.Valid() && |s.readers| == |s.visits| == c.nr
    ensures ReaderShaped(c, s.readers[i]) && BanksText(c, s.readers[i])
    ensures VisitsText(c, s.visits[i], s.readers[i].chunks)
  {
    hide ReaderShaped, BanksText, VisitsText;
  }

  lemma ReaderStepText(c: Config, s: State, a: Action)
    requires Inv(c, s) && Shaped(c, s) && TextInv(c, s) && Enabled(c, s, a) && !a.Main?
    ensures TextInv(c, Apply(c, s, a))
  {
    hide Inv, Shaped, TextInv, ReaderShaped, BanksText, ReaderRecv, ReaderFill, ReaderAck, ReadReturns;
    var i := a.i;
    TextOf(c, s, i);
    var r := s.readers[i];
    OtherReaderSteps(c, r);
    match a
    case Recv(_) =>
      ReaderMovesText(c, s, i, ReaderRecv(c, r), s.acks);
    case Fill(_, k) =>
      FillingIsNext(c, s, i);
      FillText(c, r, k);
      ReaderMovesText(c, s, i, ReaderFill(c, r, k), s.acks);
    case Ack(_) =>
      ReaderMovesText(c, s, i, ReaderAck(r), s.acks + [r.pc.job]);
  }

  /** Main's sends, waits and joins touch no bank. */
  lemma QuietText(c: Config, s: State, t: State)
    requires Shaped(c, s) && TextInv(c, s) && Shaped(c, t)
    requires t.visits == s.visits
    requires forall i :: 0 <= i < c.nr ==>
               t.readers[i].banks == s.readers[i].banks && t.readers[i].chunks == s.readers[i].chunks
    ensures TextInv(c, t)
  {
    hide ReaderShaped, VisitsText, Text;
  }

  lemma LatestText(c: Config, r: Reader, n: nat)
    requires BanksText(c, r) && n < |r.chunks| <= n + 2
    ensures r.banks[n % 2].buffer == Text(c.capacity, r.chunks, n)
  {
    hide Text;
    if n == |r.chunks| - 2 {
      assert n % 2 == |r.chunks| % 2;
    }
  }

  lemma RoundParity(c: Config, s: State)
    requires Inv(c, s)
    ensures Shaped(c, s) && s.bankRead % 2 == s.round % 2
    ensures s.pc.Visiting? ==> |s.visits[s.pc.i]| == s.round
  {
    hide ReadersInv, AcksInv, LastInv, JoinedInv, ReaderShaped, Saw;
  }

  /** The bank that main looks at in round `round` holds the text of that read. */
  lemma VisitedText(c: Config, s: State, i: nat)
    requires Inv(c, s) && Shaped(c, s) && TextInv(c, s) && s.pc.Visiting? && i < c.nr
    ensures s.round < |s.readers[i].chunks| && Fit(s.readers[i].chunks, c.capacity)
    ensures VisitedBank(c, s, i).buffer == Text(c.capacity, s.readers[i].chunks, s.round)
  {
    hide Inv, Shaped, TextInv, Text, ReaderShaped;
    AckedAtMostSent(c, s, i);
    FloorReached(c, s, i);
    RoundParity(c, s);
    TextOf(c, s, i);
    LatestText(c, s.readers[i], s.round);
  }

  lemma VisitsTextMore(c: Config, visits: seq<Bank>, chunks: seq<seq<byte>>, bank: Bank)
    requires VisitsText(c, visits, chunks) && |visits| < |chunks|
    requires bank.buffer == Text(c.capacity, chunks, |visits|)
    ensures VisitsText(c, visits + [bank], chunks)
  {
    hide Text, Fit;
    forall n: nat | n < |visits| + 1
      ensures (visits + [bank])[n].buffer == Text(c.capacity, chunks, n)
    {
      if n < |visits| {
        assert (visits + [bank])[n] == visits[n];
      }
    }
  }

  lemma VisitStepText(c: Config, s: State)
    requires Inv(c, s) && Shaped(c, s) && TextInv(c, s) && s.pc.Visiting?
    ensures TextInv(c, VisitStep(c, s))
  {
    hide Inv, Text, BanksText, VisitsText, ReaderShaped, VisitedBank;
    var i := s.pc.i;
    VisitedText(c, s, i);
    RoundParity(c, s);
    TextOf(c, s, i);
    VisitsTextMore(c, s.visits[i], s.readers[i].chunks, VisitedBank(c, s, i));
  }

  lemma StepKeepsText(c: Config, s: State, a: Action)
    requires Inv(c, s) && Shaped(c, s) && TextInv(c, s) && Enabled(c, s, a)
    ensures TextInv(c, Apply(c, s, a))
  {
    hide Inv, TextInv, ReaderShaped, VisitStep;
    if !a.Main? {
      ReaderStepText(c, s, a);
    } else if s.pc.Visiting? {
      VisitStepText(c, s);
    } else {
      QuietText(c, s, MainStep(c, s));
    }
  }

  lemma {:induction false} RunKeepsText(c: Config, s: State, actions: seq<Action>, t: State)
    requires Inv(c, s) && Shaped(c, s) && TextInv(c, s) && Executes(c, s, actions, t)
    ensures Inv(c, t) && Shaped(c, t) && TextInv(c, t)
    decreases |actions|
  {
    hide Inv, TextInv, Apply, Enabled;
    ReachableShaped(c, s);
    if actions != [] {
      StepKeeps(c, s, actions[0]);
      StepKeepsText(c, s, actions[0]);
      ReachableShaped(c, Apply(c, s, actions[0]));
      RunKeepsText(c, Apply(c, s, actions[0]), actions[1..], t);
    }
  }

  lemma ReachableText(c: Config, s: State)
    requires c.Valid() && Reachable(c, s)
    ensures Inv(c, s) && Shaped(c, s) && TextInv(c, s)
  {
    hide Inv, TextInv, Executes;
    InitInv(c);
    InitText(c);
    var actions :| Executes(c, Init(c), actions, s);
    RunKeepsText(c, Init(c), actions, s);
  }

  // ----- what is printed -----

  /** What was in a bank before the writer's round `n` filled it again. */
  function Before(c: Config, visits: seq<Bank>, n: nat): seq<byte>
    requires n < |visits|
  {
    if n >= 2 then visits[n - 2].buffer else Zeros(c.capacity)
  }

  lemma TextBlank(capacity: nat, chunks: seq<seq<byte>>, n: int)
    requires Fit(chunks, capacity) && -2 <= n < 0
    ensures Text(capacity, chunks, n) == Zeros(capacity)
  {
  }

  /** Whatever lengths the reads return, the text printed in round `n` is the read of that round
      followed by the rest of what round `n - 2` printed; before round 2, by zeros. */
  lemma PrintedText(c: Config, s: State, i: nat, n: nat)
    requires c.Valid() && Reachable(c, s) && i < c.nr
    ensures Shaped(c, s) && |s.visits[i]| <= |s.readers[i].chunks|
    ensures n < |s.visits[i]| ==>
              && |Before(c, s.visits[i], n)| == c.capacity >= |s.readers[i].chunks[n]|
              && s.visits[i][n].buffer
                 == s.readers[i].chunks[n] + Before(c, s.visits[i], n)[|s.readers[i].chunks[n]|..]
  {
    hide Text, BanksText, Reachable, Inv, ReaderShaped;
    ReachableText(c, s);
    ReachableShaped(c, s);
    assert VisitsText(c, s.visits[i], s.readers[i].chunks);
    if n < |s.visits[i]| {
      TextAt(c.capacity, s.readers[i].chunks, n);
      if n < 2 {
        TextBlank(c.capacity, s.readers[i].chunks, n - 2);
      }
    }
  }

  // ----- the printed text, from the file -----

  lemma ProductsOrdered(m: nat, n: nat, y: nat)
    requires m <= n
    ensures m * y <= n * y
  {
  }

  lemma OneMore(n: nat, y: nat)
    ensures (n + 1) * y == n * y + y
  {
  }

  /** Where read `n` lies in a file of `size` bytes, with `full` full pieces. */
  lemma PieceBounds(capacity: nat, size: nat, n: nat)
    requires capacity > 0
    ensures var full := size / capacity;
            && (n < full ==> (n + 1) * capacity <= size)
            && (n == full ==> n * capacity + size % capacity == size < (n + 1) * capacity)
            && (n > full ==> size < n * capacity)
    ensures (n + 1) * capacity == n * capacity + capacity
  {
    var full := size / capacity;
    Words.DivModSplit(size, capacity);
    OneMore(n, capacity);
    if n < full {
      ProductsOrdered(n + 1, full, capacity);
    } else if n > full {
      OneMore(full, capacity);
      ProductsOrdered(full + 1, n, capacity);
    }
  }

  /** With full reads, read `n` is the `n`-th piece of the file. */
  lemma PieceOfFile(c: Config, i: nat, n: nat, data: seq<byte>)
    requires c.capacity > 0 && i < |c.files| && FullChunk(c, i, n, data)
    ensures var file := c.files[i];
            var full := |file| / c.capacity;
            && (n < full ==> (n + 1) * c.capacity <= |file|
                             && data == file[n * c.capacity..(n + 1) * c.capacity])
            && (n == full ==> n * c.capacity <= |file| && data == file[n * c.capacity..])
            && (n > full ==> data == [])
  {
    CutIsMin(c.capacity, |c.files[i]|, n);
    CutIsMin(c.capacity, |c.files[i]|, n + 1);
    hide Cut;
    PieceBounds(c.capacity, |c.files[i]|, n);
  }

  lemma FilesEnough(c: Config, s: State)
    requires Shaped(c, s)
    ensures |s.readers| == |s.visits| == c.nr <= |c.files| && c.capacity > 0
  {
  }

  /** With full reads, what round `n` prints of a file: its `n`-th piece while pieces are full; then
      once the short rest of the file over what round `n - 2` printed; after that, what round
      `n - 2` printed, again and again. */
  lemma PrintedFromFile(c: Config, s: State, i: nat, n: nat)
    requires c.Valid() && Reachable(c, s) && c.fullReads && i < c.nr
    ensures Shaped(c, s)
    ensures n < |s.visits[i]| ==>
              var file, text := c.files[i], s.visits[i][n].buffer;
              var full, rest := |file| / c.capacity, |file| % c.capacity;
              && |Before(c, s.visits[i], n)| == c.capacity
              && (n < full ==> (n + 1) * c.capacity <= |file|
                               && text == file[n * c.capacity..(n + 1) * c.capacity])
              && (n == full ==> n * c.capacity <= |file|
                                && text == file[n * c.capacity..] + Before(c, s.visits[i], n)[rest..])
              && (n > full ==> text == Before(c, s.visits[i], n))
  {
    hide Reachable, Inv, ReaderShaped, FullChunk, Before, Shaped;
    PrintedText(c, s, i, n);
    ReachableInv(c, s);
    FullChunks(c, s, i);
    FilesEnough(c, s);
    if n < |s.visits[i]| {
      var chunk := s.readers[i].chunks[n];
      PieceOfFile(c, i, n, chunk);
      PieceBounds(c.capacity, |c.files[i]|, n);
    }
  }

  lemma StaleInside(capacity: nat, size: nat)
    requires capacity > 0 && size / capacity >= 2
    ensures var full := size / capacity;
            0 <= (full - 2) * capacity + size % capacity < (full - 1) * capacity <= size
  {
    var full := size / capacity;
    Words.DivModSplit(size, capacity);
    OneMore(full - 2, capacity);
    ProductsOrdered(full - 1, full, capacity);
  }

  /** What follows the end of a file in the buffer that its last piece went to: the rest of the
      piece two before, or the zeros of a fresh bank. */
  function Stale(capacity: nat, file: seq<byte>): seq<byte>
    requires capacity > 0
  {
    var full, rest := |file| / capacity, |file| % capacity;
    Words.DivModSplit(|file|, capacity);
    if full < 2 then Zeros(capacity - rest)
    else
      StaleInside(capacity, |file|);
      file[(full - 2) * capacity + rest..(full - 1) * capacity]
  }

  lemma StaleOfZeros(capacity: nat, file: seq<byte>)
    requires capacity > 0 && |file| / capacity < 2
    ensures |file| % capacity < capacity
    ensures Zeros(capacity)[|file| % capacity..] == Stale(capacity, file)
  {
    Words.DivModSplit(|file|, capacity);
  }

  lemma SliceTail(file: seq<byte>, a: nat, b: nat, rest: nat)
    requires a + rest <= b <= |file|
    ensures file[a..b][rest..] == file[a + rest..b]
  {
  }

  lemma StaleOfPiece(capacity: nat, file: seq<byte>, n: nat)
    requires capacity > 0 && n == |file| / capacity - 2
    ensures |file| % capacity < capacity && n * capacity <= (n + 1) * capacity <= |file|
    ensures |file[n * capacity..(n + 1) * capacity]| == capacity
    ensures file[n * capacity..(n + 1) * capacity][|file| % capacity..] == Stale(capacity, file)
  {
    Words.DivModSplit(|file|, capacity);
    StaleInside(capacity, |file|);
    OneMore(n, capacity);
    SliceTail(file, n * capacity, (n + 1) * capacity, |file| % capacity);
  }

  lemma BeforeLast(c: Config, s: State, i: nat, n: nat)
    requires c.Valid() && Reachable(c, s) && c.fullReads && i < c.nr
    requires Shaped(c, s) && n < |s.visits[i]| && n == |c.files[i]| / c.capacity
    ensures |c.files[i]| % c.capacity < c.capacity == |Before(c, s.visits[i], n)|
    ensures Before(c, s.visits[i], n)[|c.files[i]| % c.capacity..] == Stale(c.capacity, c.files[i])
  {
    hide Reachable, ReaderShaped, Shaped, Stale;
    FilesEnough(c, s);
    if n >= 2 {
      PrintedFromFile(c, s, i, n - 2);
      StaleOfPiece(c.capacity, c.files[i], n - 2);
    } else {
      StaleOfZeros(c.capacity, c.files[i]);
    }
  }

  lemma MinFirst(a: nat, b: nat)
    requires a <= b
    ensures Min(a, b) == a
  {
  }

  /** The full pieces printed of the last file are its beginning. */
  lemma FullPart(c: Config, s: State, n: nat)
    requires c.Valid() && Reachable(c, s) && c.fullReads && Shaped(c, s)
    requires n == |c.files[c.nr - 1]| / c.capacity && n <= |s.visits[c.nr - 1]|
    ensures n * c.capacity <= |c.files[c.nr - 1]|
    ensures Concat(Printed(s.visits[c.nr - 1][..n])) == c.files[c.nr - 1][..n * c.capacity]
  {
    hide Reachable, ReaderShaped, Shaped, Inv, Concat, Before, FullChunk, Min;
    FilesEnough(c, s);
    ReachableInv(c, s);
    var i := c.nr - 1;
    var file, visits, chunks := c.files[i], s.visits[i], s.readers[i].chunks;
    FullChunks(c, s, i);
    PrintedText(c, s, i, 0);
    FullPrefix(c, i, chunks, n);
    PieceBounds(c.capacity, |file|, n);
    forall k: nat | k < n
      ensures visits[k].buffer == chunks[k]
    {
      PrintedFromFile(c, s, i, k);
      PieceOfFile(c, i, k, chunks[k]);
    }
    assert Printed(visits[..n]) == chunks[..n];
    MinFirst(n * c.capacity, |file|);
  }

  lemma ShortFile(size: nat, capacity: nat)
    requires capacity > 0
    ensures size < capacity ==> size / capacity == 0 && size % capacity == size
  {
    if size < capacity {
      Words.DivModUnique(size, capacity, 0, size);
    }
  }

  /** With full reads, all that `work` prints of the last file: the file, then stale bytes up to the
      end of a buffer. A file shorter than a buffer is followed by zeros alone. */
  lemma LastFilePrinted(c: Config, s: State)
    requires c.Valid() && Reachable(c, s) && c.fullReads && Stopped(s.pc)
    ensures Shaped(c, s) && c.nr - 1 < |c.files|
    ensures var file := c.files[c.nr - 1];
            && Concat(Printed(s.visits[c.nr - 1])) == file + Stale(c.capacity, file)
            && (|file| < c.capacity ==> Stale(c.capacity, file) == Zeros(c.capacity - |file|))
  {
    hide Reachable, ReaderShaped, Shaped, Stopped, Inv, Concat, Before, FullChunk;
    ReachableInv(c, s);
    ReachableShaped(c, s);
    FilesEnough(c, s);
    var i := c.nr - 1;
    var file, visits, n := c.files[i], s.visits[i], |c.files[i]| / c.capacity;
    RoundsProcessed(c, s);
    VisitCount(c, s, i);
    BeforeLast(c, s, i, n);
    PrintedFromFile(c, s, i, n);
    FullPart(c, s, n);
    PieceBounds(c.capacity, |file|, n);
    assert Printed(visits) == Printed(visits[..n]) + [visits[n].buffer];
    ConcatSnoc(Printed(visits[..n]), visits[n].buffer);
    assert file == file[..n * c.capacity] + file[n * c.capacity..];
    ShortFile(|file|, c.capacity);
  }
}
