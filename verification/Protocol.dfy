/** The double-buffered reader/writer protocol as a step system: one main thread, `nr` reader
    threads, a FIFO job channel per reader, one shared acknowledgement channel, and two
    lock-protected banks per reader. Every send, receive, fill under the lock, acknowledgement
    and writer visit under the lock is one step, and steps interleave freely. */
module Protocol {
  import opened Common

  datatype Option<+T> = None | Some(value: T)

  /** The worker's parameters and the contents of the files to read. With `fullReads` a read
      fills the buffer unless the file ends first; without it reads may come back shorter. */
  datatype Config = Config(nr: nat, capacity: nat, files: seq<seq<byte>>, fullReads: bool) {
    predicate Valid() {
      nr >= 1 && capacity > 0 && |files| >= nr
    }
  }

  /** EceJob: a file to open, a read request, or the order to finish. */
  datatype Job = Job(offset: nat, len: nat, finished: bool, filename: Option<nat>)

  function Min(a: nat, b: nat): nat {
    if a < b then a else b
  }

  /** EceBuffer: `len` is how much of `buffer` the last read filled. */
  datatype Bank = Bank(buffer: seq<byte>, len: nat) {
    predicate Sized(capacity: nat) {
      |buffer| == capacity && len <= capacity
    }

    /** The part of the buffer that the last read filled. */
    function Content(): seq<byte> {
      buffer[..Min(len, |buffer|)]
    }

    /** `file.read(&mut buffer.buffer[..])` returned `data`. */
    function Filled(data: seq<byte>): Bank
      requires |data| <= |buffer|
    {
      Bank(data + buffer[|data|..], |data|)
    }
  }

  datatype OpenFile = OpenFile(id: nat, pos: nat)

  /** Where a reader thread is in its loop. */
  datatype ReaderPc = Receiving | Filling(job: Job) | Acking(job: Job) | Exited

  /** A reader thread with its job channel and banks. `chunks` records every read it made. */
  datatype Reader = Reader(queue: seq<Job>, pc: ReaderPc, file: Option<OpenFile>, firstBank: nat,
                           banks: seq<Bank>, chunks: seq<seq<byte>>)

  /** Where the main thread is: in `open_files`, the first `send_work`, `wait_readers`, the
      `send_work` of the loop, `process_writer`, after `work`, or in `drop`. */
  datatype MainPc =
    | Opening(i: nat)
    | Prefetching(i: nat)
    | Waiting(done: nat)
    | Sending(i: nat)
    | Visiting(i: nat)
    | Returned
    | Finishing(i: nat)
    | Joining(i: nat)
    | Ended

  /** `round` counts completed calls of `process_writer`; `visits[i]` records the bank of
      reader `i` as each of them saw it. */
  datatype State = State(pc: MainPc, offset: nat, bankRead: nat, round: nat,
                         readers: seq<Reader>, acks: seq<Job>, visits: seq<seq<Bank>>)

  datatype Action = Main | Recv(i: nat) | Fill(i: nat, k: nat) | Ack(i: nat)

  // ----- shape of a state -----

  predicate ReaderShaped(c: Config, r: Reader) {
    && |r.banks| == 2
    && r.banks[0].Sized(c.capacity) && r.banks[1].Sized(c.capacity)
    && (r.file.Some? ==> r.file.value.id < |c.files| && r.file.value.pos <= |c.files[r.file.value.id]|)
    && (r.pc.Filling? || r.pc.Acking? ==> r.file.Some?)
    && (forall n :: 0 <= n < |r.queue| && r.queue[n].filename.Some? ==> r.queue[n].filename.value < |c.files|)
  }

  predicate PcShaped(c: Config, pc: MainPc) {
    match pc
    case Opening(i) => i < c.nr
    case Prefetching(i) => i < c.nr
    case Waiting(done) => done < c.nr
    case Sending(i) => i < c.nr
    case Visiting(i) => i < c.nr
    case Finishing(i) => i < c.nr
    case Joining(i) => i < c.nr
    case Returned => true
    case Ended => true
  }

  predicate Shaped(c: Config, s: State) {
    && c.Valid()
    && PcShaped(c, s.pc)
    && |s.readers| == c.nr && |s.visits| == c.nr
    && s.bankRead < 2
    && forall i :: 0 <= i < c.nr ==> ReaderShaped(c, s.readers[i])
  }

  // ----- reader steps -----

  function Remaining(c: Config, r: Reader): nat
    requires ReaderShaped(c, r) && r.file.Some?
  {
    |c.files[r.file.value.id]| - r.file.value.pos
  }

  /** `read` returns a piece no longer than the buffer, and none only at the end of the file. */
  predicate ReadReturns(c: Config, r: Reader, k: nat)
    requires ReaderShaped(c, r) && r.file.Some?
  {
    && k <= Min(c.capacity, Remaining(c, r))
    && (k == 0 ==> Remaining(c, r) == 0)
    && (c.fullReads ==> k == Min(c.capacity, Remaining(c, r)))
  }

  /** `j.recv()` and the tests up to the read. */
  function ReaderRecv(c: Config, r: Reader): (r': Reader)
    requires c.Valid() && ReaderShaped(c, r) && r.pc.Receiving? && r.queue != []
    ensures ReaderShaped(c, r')
  {
    var job, r1 := r.queue[0], r.(queue := r.queue[1..]);
    if job.finished then r1.(pc := Exited)
    else
      var file := if job.filename.Some? then Some(OpenFile(job.filename.value, 0)) else r.file;
      var r2 := r1.(file := file);
      if job.len == 0 || file.None? then r2 else r2.(pc := Filling(job))
  }

  /** The read into bank `first_bank & 1`, under its lock. */
  function ReaderFill(c: Config, r: Reader, k: nat): (r': Reader)
    requires ReaderShaped(c, r) && r.pc.Filling? && ReadReturns(c, r, k)
    ensures ReaderShaped(c, r')
  {
    var f := r.file.value;
    var data := c.files[f.id][f.pos..f.pos + k];
    var b := r.firstBank % 2;
    r.(pc := Acking(r.pc.job.(len := k)),
       file := Some(OpenFile(f.id, f.pos + k)),
       banks := r.banks[b := r.banks[b].Filled(data)],
       chunks := r.chunks + [data])
  }

  /** The acknowledgement, which carries nothing that names the reader, and `first_bank += 1`. */
  function ReaderAck(r: Reader): Reader
    requires r.pc.Acking?
  {
    r.(pc := Receiving, firstBank := r.firstBank + 1)
  }

  // ----- main steps -----

  /** Main sends `job` on the channel of reader `i`. */
  function Post(c: Config, s: State, i: nat, job: Job): (s': State)
    requires Shaped(c, s) && i < c.nr && (job.filename.Some? ==> job.filename.value < |c.files|)
    ensures Shaped(c, s')
  {
    s.(readers := s.readers[i := s.readers[i].(queue := s.readers[i].queue + [job])])
  }

  predicate MainEnabled(c: Config, s: State)
    requires Shaped(c, s)
  {
    match s.pc
    case Waiting(_) => s.acks != []
    case Joining(i) => s.readers[i].pc.Exited?
    case Ended => false
    case _ => true
  }

  function ReadJob(c: Config, offset: nat): Job {
    Job(offset, c.capacity, false, None)
  }

  /** The bank that `process_writer` looks at in reader `i`. */
  function VisitedBank(c: Config, s: State, i: nat): Bank
    requires Shaped(c, s) && i < c.nr
  {
    s.readers[i].banks[s.bankRead % 2]
  }

  /** Main is in the middle of `open_files` or of a `send_work`. */
  predicate Posting(pc: MainPc) {
    pc.Opening? || pc.Prefetching? || pc.Sending? || pc.Finishing?
  }

  function JobToPost(c: Config, s: State): Job
    requires Posting(s.pc)
  {
    match s.pc
    case Opening(i) => Job(0, 0, false, Some(i))
    case Finishing(_) => ReadJob(c, s.offset).(finished := true)
    case _ => ReadJob(c, s.offset)
  }

  /** On to the next reader, or past the end of the loop. */
  function AfterPost(c: Config, pc: MainPc): MainPc
    requires Posting(pc)
  {
    match pc
    case Opening(i) => if i + 1 < c.nr then Opening(i + 1) else Prefetching(0)
    case Prefetching(i) => if i + 1 < c.nr then Prefetching(i + 1) else Waiting(0)
    case Sending(i) => if i + 1 < c.nr then Sending(i + 1) else Visiting(0)
    case Finishing(i) => if i + 1 < c.nr then Finishing(i + 1) else Joining(0)
  }

  /** One send of `open_files` or `send_work`, which advances `offset` at its end. */
  function PostStep(c: Config, s: State): (s': State)
    requires Shaped(c, s) && Posting(s.pc)
    ensures Shaped(c, s')
  {
    var sent := Post(c, s, s.pc.i, JobToPost(c, s));
    sent.(pc := AfterPost(c, s.pc),
          offset := if (s.pc.Prefetching? || s.pc.Sending?) && s.pc.i + 1 == c.nr then s.offset + c.capacity
                    else s.offset)
  }

  /** One acknowledgement taken by `wait_readers`. */
  function WaitStep(c: Config, s: State): (s': State)
    requires Shaped(c, s) && s.pc.Waiting? && s.acks != []
    ensures Shaped(c, s')
  {
    s.(acks := s.acks[1..], pc := if s.pc.done + 1 < c.nr then Waiting(s.pc.done + 1) else Sending(0))
  }

  /** One bank seen by `process_writer`; after the last one the loop of `work` goes on, or ends
      because that bank was not full. */
  function VisitStep(c: Config, s: State): (s': State)
    requires Shaped(c, s) && s.pc.Visiting?
    ensures Shaped(c, s')
  {
    var i, bank := s.pc.i, VisitedBank(c, s, s.pc.i);
    var seen := s.(visits := s.visits[i := s.visits[i] + [bank]]);
    if i + 1 < c.nr then seen.(pc := Visiting(i + 1))
    else seen.(pc := if bank.len < c.capacity then Returned else Waiting(0),
               bankRead := (s.bankRead + 1) % 2, round := s.round + 1)
  }

  /** `drop` begins, or one `join` returns. */
  function QuietStep(c: Config, s: State): (s': State)
    requires Shaped(c, s) && (s.pc.Returned? || s.pc.Joining?)
    ensures Shaped(c, s')
  {
    if s.pc.Returned? then s.(pc := Finishing(0), offset := 0)
    else s.(pc := if s.pc.i + 1 < c.nr then Joining(s.pc.i + 1) else Ended)
  }

  function MainStep(c: Config, s: State): (s': State)
    requires Shaped(c, s) && MainEnabled(c, s)
    ensures Shaped(c, s')
  {
    if Posting(s.pc) then PostStep(c, s)
    else if s.pc.Waiting? then WaitStep(c, s)
    else if s.pc.Visiting? then VisitStep(c, s)
    else QuietStep(c, s)
  }

  // ----- the step system -----

  predicate Enabled(c: Config, s: State, a: Action)
    requires Shaped(c, s)
  {
    match a
    case Main => MainEnabled(c, s)
    case Recv(i) => i < c.nr && s.readers[i].pc.Receiving? && s.readers[i].queue != []
    case Fill(i, k) => i < c.nr && s.readers[i].pc.Filling? && ReadReturns(c, s.readers[i], k)
    case Ack(i) => i < c.nr && s.readers[i].pc.Acking?
  }

  function Apply(c: Config, s: State, a: Action): (s': State)
    requires Shaped(c, s) && Enabled(c, s, a)
    ensures Shaped(c, s')
  {
    match a
    case Main => MainStep(c, s)
    case Recv(i) => s.(readers := s.readers[i := ReaderRecv(c, s.readers[i])])
    case Fill(i, k) => s.(readers := s.readers[i := ReaderFill(c, s.readers[i], k)])
    case Ack(i) =>
      s.(readers := s.readers[i := ReaderAck(s.readers[i])], acks := s.acks + [s.readers[i].pc.job])
  }

  function FreshReader(c: Config): Reader {
    var empty := Bank(seq(c.capacity, _ => 0), 0);
    Reader([], Receiving, None, 0, [empty, empty], [])
  }

  /** A fresh worker on which `work` has just been called. */
  function Init(c: Config): (s: State)
    requires c.Valid()
    ensures Shaped(c, s)
  {
    State(Opening(0), 0, 0, 0, seq(c.nr, _ => FreshReader(c)), [], seq(c.nr, _ => []))
  }

  /** `actions` lead from `s` to `t`, in some interleaving of the threads. */
  predicate Executes(c: Config, s: State, actions: seq<Action>, t: State)
    requires Shaped(c, s)
    decreases |actions|
  {
    if actions == [] then s == t
    else Enabled(c, s, actions[0]) && Executes(c, Apply(c, s, actions[0]), actions[1..], t)
  }

  ghost predicate Reachable(c: Config, s: State)
    requires c.Valid()
  {
    exists actions :: Executes(c, Init(c), actions, s)
  }
}
