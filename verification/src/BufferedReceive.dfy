/**
 The buffered receive: a reader and a handler thread that exchange a fixed pool of buffers over
 two bounded single-producer single-consumer rings.  A schedule says which thread moves next, so
 a statement about every schedule is a statement about every interleaving.
 */
module BufferedReceive {
  import opened Bytes
  import opened Frames
  import opened ReadStream

  const MIN_BUF := 0x1_0000

  /** What travels to the handler thread: a command id, the end of the data, and the buffer. */
  datatype Item = Item(command: nat, end: nat, buf: bytes) {
    predicate Valid() {
      CMD_HEADER <= end <= |buf| && |buf| >= MIN_BUF
    }

    function Frame(): Frame {
      Frames.Frame(command, if CMD_HEADER <= end <= |buf| then buf[CMD_HEADER..end] else [])
    }
  }

  /** What travels back: a buffer to be reused, or the error that stopped the handler. */
  datatype Free = Buf(buf: bytes) | Failure(error: Error) {
    predicate IsBuf() {
      Buf? && |buf| >= MIN_BUF
    }
  }

  /** A ring is everything ever pushed and the number of entries popped. */
  datatype Ring<T> = Ring(log: seq<T>, head: nat) {
    predicate Empty() {
      head >= |log|
    }

    function Count(): int {
      |log| - head
    }
  }

  /** Where the reader is; a panic of the reader is a returned Panic. */
  datatype Main = AtLoop | Sending | Waiting | Checking | Returned(result: Result<()>)

  /** Where the handler thread is; `Dead` is a thread whose handler panicked. */
  datatype Worker = Popping | Probing | Handling(item: Item) | Giving(free: Free) | Exited | Dead

  datatype Thread = TheMain | TheWorker

  datatype State<S> = State(
    main: Main, worker: Worker,
    input: bytes, command: nat, end: nat, buf: bytes, pos: nat, published: Option<nat>,
    data: Ring<Item>, free: Ring<Free>,
    hstate: S, handled: seq<Frame>)

  /**
   One receive of what follows the header.  `cell` is the caller's progress cell.  With `atomic` an empty pop and the check for an abandoned ring are one step, as
   if the other thread could not move between them; the program does not have that.
   */
  datatype Config<!S> = Config(
    nbuf: nat, h: CmdHandler<S>, start: S, version: nat, input: bytes, buf: bytes, cell: Option<nat>, atomic: bool)
  {
    predicate Valid() {
      nbuf >= 2 && |buf| >= MIN_BUF
    }
  }

  function Gone(w: Worker): bool {
    w == Exited || w == Dead
  }

  function Init<S>(c: Config<S>): State<S> {
    State(AtLoop, Popping, c.input, 0, 0, c.buf, 0, c.cell,
          Ring([], 0), Ring(seq(if c.nbuf == 0 then 0 else c.nbuf - 1, _ => Buf(c.buf)), 0),
          c.start, [])
  }

  function MainStep<S>(c: Config<S>, s: State<S>): State<S> {
    match s.main
    case AtLoop =>
      if s.command == END then s.(main := Returned(Ok(())), published := StoreFinal(s.published, s.pos))
      else if |s.buf| < CMD_HEADER then s.(main := Returned(Panic))
      else (
        match ReadFrame(s.input)
        case Ok((f, rest)) =>
          s.(main := Sending, input := rest, command := f.command, end := f.Size(),
             buf := FilledBuffer(s.buf, f), pos := s.pos + f.Size(),
             published := Publish(s.published, s.pos, s.pos + f.Size()))
        case Err(e) => s.(main := Returned(Err(e)))
        case Panic => s.(main := Returned(Panic)))
    case Sending =>
      if s.data.Count() >= c.nbuf then s.(main := Returned(Panic))
      else s.(main := Waiting, buf := [],
              data := s.data.(log := s.data.log + [Item(s.command, s.end, s.buf)]))
    case Waiting =>
      if !s.free.Empty() then
        var free' := s.free.(head := s.free.head + 1);
        match s.free.log[s.free.head]
        case Buf(b) => s.(main := AtLoop, buf := b, free := free')
        case Failure(e) => s.(main := Returned(Err(e)), free := free')
      else if !c.atomic then s.(main := Checking)
      else if Gone(s.worker) then s.(main := Returned(Panic))
      else s
    case Checking => if Gone(s.worker) then s.(main := Returned(Panic)) else s.(main := Waiting)
    case Returned(_) => s
  }

  function WorkerStep<S>(c: Config<S>, s: State<S>): State<S> {
    match s.worker
    case Popping =>
      if !s.data.Empty() then
        s.(worker := Handling(s.data.log[s.data.head]), data := s.data.(head := s.data.head + 1))
      else if !c.atomic then s.(worker := Probing)
      else if s.main.Returned? then s.(worker := Exited)
      else s
    case Probing => s.(worker := if s.main.Returned? then Exited else Popping)
    case Handling(item) =>
      if !item.Valid() then s.(worker := Dead)
      else
        var (hstate', reply) := c.h(s.hstate, item.Frame(), c.version);
        s.(hstate := hstate', handled := s.handled + [item.Frame()],
           worker := match reply
                     case Failed(e) => Giving(Failure(e))
                     case Panicked => Dead
                     case _ => Giving(Buf(item.buf)))
    case Giving(entry) =>
      var room := s.free.Count() < c.nbuf;
      s.(free := if room then s.free.(log := s.free.log + [entry]) else s.free,
         worker := if room && entry.Buf? then Popping else Exited)
    case Exited => s
    case Dead => s
  }

  function Step<S>(c: Config<S>, s: State<S>, t: Thread): State<S> {
    if t == TheMain then MainStep(c, s) else WorkerStep(c, s)
  }

  /** The state after the threads moved in the order `schedule` says. */
  function Exec<S>(c: Config<S>, schedule: seq<Thread>): State<S>
    decreases |schedule|
  {
    if schedule == [] then Init(c)
    else Step(c, Exec(c, schedule[..|schedule| - 1]), schedule[|schedule| - 1])
  }

  /** The call is over when the reader has returned and the handler thread is joined. */
  predicate Finished<S>(s: State<S>) {
    s.main.Returned? && Gone(s.worker)
  }

  /** What the caller of a finished receive gets: joining a panicked thread panics. */
  function CallResult<S>(s: State<S>): Result<()>
    requires Finished(s)
  {
    if s.worker == Dead then Panic else s.main.result
  }

  // ---------------------------------------------------------------------------------------
  // Replies

  predicate Failing(r: Reply) {
    r.Failed? || r.Panicked?
  }

  /** The handler's reply to the last of `fs`. */
  function ReplyTo<S>(c: Config<S>, fs: seq<Frame>): Reply
    requires fs != []
  {
    c.h(StateAfter(c.h, c.start, c.version, fs[..|fs| - 1]), fs[|fs| - 1], c.version).1
  }

  /** The handler fails on none of `fs`. */
  ghost predicate AllOk<S>(c: Config<S>, fs: seq<Frame>) {
    forall k :: 0 < k <= |fs| ==> !Failing(ReplyTo(c, fs[..k]))
  }

  ghost predicate Broken<S>(c: Config<S>, fs: seq<Frame>) {
    fs != [] && Failing(ReplyTo(c, fs))
  }

  lemma {:induction false} StateAfterAppend<S>(h: CmdHandler<S>, s: S, version: nat, fs: seq<Frame>, f: Frame)
    ensures StateAfter(h, s, version, fs + [f]) == h(StateAfter(h, s, version, fs), f, version).0
    decreases |fs|
  {
    if fs == [] {
      assert (fs + [f])[1..] == [];
    } else {
      assert (fs + [f])[1..] == fs[1..] + [f];
      StateAfterAppend(h, h(s, fs[0], version).0, version, fs[1..], f);
    }
  }

  // ---------------------------------------------------------------------------------------
  // The invariant of every interleaving

  predicate ValidItems(items: seq<Item>) {
    forall i :: 0 <= i < |items| ==> items[i].Valid()
  }

  /** The commands pushed so far, in order. */
  function Sent(items: seq<Item>): (fs: seq<Frame>)
    ensures |fs| == |items|
    ensures forall i :: 0 <= i < |items| ==> fs[i] == items[i].Frame()
  {
    seq(|items|, i requires 0 <= i < |items| => items[i].Frame())
  }

  /** Entry `i` of the free ring: a primed buffer, or the answer to the matching command. */
  ghost predicate Answer<S>(c: Config<S>, handled: seq<Frame>, i: nat, entry: Free)
    requires c.Valid() && i < c.nbuf - 1 + |handled|
  {
    if i < c.nbuf - 1 then entry.IsBuf()
    else
      match ReplyTo(c, handled[..i - c.nbuf + 2])
      case Failed(e) => entry == Failure(e)
      case Panicked => false
      case _ => entry.IsBuf()
  }

  /** Handled commands whose answer is not (or never will be) in the free ring. */
  function Owed<S>(s: State<S>): nat {
    if s.worker.Giving? || s.worker == Dead then 1 else 0
  }

  ghost predicate WorkerInv<S>(c: Config<S>, s: State<S>) {
    && (s.handled != [] ==> AllOk(c, s.handled[..|s.handled| - 1]))
    && (match s.worker
        case Giving(Buf(b)) => !Broken(c, s.handled) && s.handled != [] && Buf(b).IsBuf()
        case Giving(Failure(e)) => s.handled != [] && ReplyTo(c, s.handled) == Failed(e)
        case Dead => s.handled != [] && ReplyTo(c, s.handled) == Panicked
        case Exited =>
          if Broken(c, s.handled) then ReplyTo(c, s.handled).Failed?
          else s.main.Returned? && (c.atomic ==> s.data.Empty())
        case _ => !Broken(c, s.handled))
    && (c.atomic ==> s.worker != Probing)
  }

  ghost predicate DataInv<S>(s: State<S>) {
    && ValidItems(s.data.log)
    && s.data.head == |s.handled| + (if s.worker.Handling? then 1 else 0)
    && s.data.head <= |s.data.log|
    && s.handled == Sent(s.data.log)[..|s.handled|]
    && (s.worker.Handling? ==> s.worker.item == s.data.log[|s.handled|])
  }

  ghost predicate FreeInv<S>(c: Config<S>, s: State<S>)
    requires c.Valid()
  {
    && |s.free.log| == c.nbuf - 1 + |s.handled| - Owed(s)
    && s.free.head <= |s.free.log|
    && (forall i :: 0 <= i < |s.free.log| ==> Answer(c, s.handled, i, s.free.log[i]))
  }

  ghost predicate MainInv<S>(c: Config<S>, s: State<S>) {
    var sent, got := Sent(s.data.log), s.free.head;
    && got <= |s.free.log|
    && (forall i :: 0 <= i < |sent| - 1 ==> sent[i].command != END)
    && (match s.main
        case AtLoop => got == |sent| && |s.buf| >= MIN_BUF && s.command == Last(sent)
        case Sending =>
          got == |sent| && Item(s.command, s.end, s.buf).Valid() && Last(sent) != END
        case Waiting => got + 1 == |sent| && s.command == Last(sent)
        case Checking => got + 1 == |sent| && s.command == Last(sent) && !c.atomic
        case Returned(Ok(u)) => u == () && got == |sent| && Last(sent) == END
        case Returned(Err(e)) =>
          && got == |sent|
          && ((ReadFrame(s.input) == Err(e) && Last(sent) != END)
              || (got > 0 && s.free.log[got - 1] == Failure(e)))
        case Returned(Panic) =>
          && got + 1 == |sent| && Gone(s.worker) && Broken(c, s.handled)
          && (c.atomic ==> s.worker == Dead))
    && (forall i :: 0 <= i < got ==>
          s.free.log[i].IsBuf()
          || (s.free.log[i].Failure? && i == got - 1 && s.main == Returned(Err(s.free.log[i].error))))
  }

  /** The command id of the last of `fs`. */
  function Last(fs: seq<Frame>): nat {
    if fs == [] then 0 else fs[|fs| - 1].command
  }

  /** Everything read from the stream so far. */
  function AllRead<S>(s: State<S>): seq<Frame> {
    Sent(s.data.log) + if s.main == Sending then [Item(s.command, s.end, s.buf).Frame()] else []
  }

  ghost predicate InputInv<S>(c: Config<S>, s: State<S>) {
    AllValid(AllRead(s)) && c.input == FramesBytes(AllRead(s)) + s.input
  }

  ghost predicate Inv<S>(c: Config<S>, s: State<S>) {
    && c.Valid()
    && DataInv(s)
    && s.hstate == StateAfter(c.h, c.start, c.version, s.handled)
    && WorkerInv(c, s)
    && FreeInv(c, s)
    && MainInv(c, s)
    && InputInv(c, s)
  }

  lemma InitInv<S>(c: Config<S>)
    requires c.Valid()
    ensures Inv(c, Init(c))
  {
    var s := Init(c);
    assert Sent(s.data.log)[..0] == [];
    assert AllRead(s) == [];
    assert FramesBytes([]) + c.input == c.input;
  }

  /** The reader takes a command off the stream, or finds that it cannot. */
  lemma ReadKeepsInv<S>(c: Config<S>, s: State<S>)
    requires Inv(c, s) && s.main == AtLoop
    ensures Inv(c, MainStep(c, s))
  {
    hide ReadFrame, FilledBuffer, StateAfter, ReplyTo, FrameBytes, FramesBytes, Answer, AllOk, Broken;
    var s' := MainStep(c, s);
    if s.command == END {
    } else if ReadFrame(s.input).Ok? {
      var (f, rest) := ReadFrame(s.input).value;
      BytesOfReadFrame(s.input);
      var sent := Sent(s.data.log);
      FramesBytesAppend(sent, f);
      assert AllRead(s) == sent && AllRead(s') == sent + [f];
      assert FramesBytes(sent) + (FrameBytes(f) + rest) == FramesBytes(sent) + FrameBytes(f) + rest;
    } else {
      assert AllRead(s') == AllRead(s);
    }
  }

  lemma SentAppend(items: seq<Item>, item: Item)
    requires ValidItems(items) && item.Valid()
    ensures ValidItems(items + [item])
    ensures Sent(items + [item]) == Sent(items) + [item.Frame()]
  {
  }

  /** The push never finds the data ring full: that would take more buffers than there are. */
  lemma DataRingNotFull<S>(c: Config<S>, s: State<S>)
    requires Inv(c, s) && s.main == Sending
    ensures s.data.Count() < c.nbuf
  {
  }

  lemma SendKeepsInv<S>(c: Config<S>, s: State<S>)
    requires Inv(c, s) && s.main == Sending
    ensures Inv(c, MainStep(c, s))
  {
    hide StateAfter, ReplyTo, FramesBytes;
    var s' := MainStep(c, s);
    DataRingNotFull(c, s);
    var item := Item(s.command, s.end, s.buf);
    SentAppend(s.data.log, item);
    assert AllRead(s') == AllRead(s);
  }

  lemma TakeKeepsInv<S>(c: Config<S>, s: State<S>)
    requires Inv(c, s) && s.main == Waiting && !s.free.Empty()
    ensures Inv(c, MainStep(c, s))
  {
    hide StateAfter, ReplyTo, FramesBytes, ReadFrame, AllOk, AllValid, Broken;
    var s' := MainStep(c, s);
    assert AllRead(s') == AllRead(s);
    assert Answer(c, s.handled, s.free.head, s.free.log[s.free.head]);
  }

  /** While the reader waits, a handler thread that has left without a panic left an error behind. */
  lemma GoneMeansBroken<S>(c: Config<S>, s: State<S>)
    requires Inv(c, s) && (s.main == Waiting || s.main == Checking) && Gone(s.worker)
    ensures Broken(c, s.handled)
    ensures s.free.Empty() ==> s.worker == Dead
  {
    hide StateAfter, ReplyTo, InputInv, AllOk;
    if s.worker == Exited {
      var last := c.nbuf - 2 + |s.handled|;
      assert s.handled[..|s.handled|] == s.handled;
      assert Answer(c, s.handled, last, s.free.log[last]);
    }
  }

  lemma WaitKeepsInv<S>(c: Config<S>, s: State<S>)
    requires Inv(c, s) && (s.main == Checking || (s.main == Waiting && s.free.Empty()))
    ensures Inv(c, MainStep(c, s))
  {
    hide StateAfter, ReplyTo, FramesBytes, ReadFrame, AllOk, AllValid, Answer, Broken;
    var s' := MainStep(c, s);
    assert AllRead(s') == AllRead(s);
    if Gone(s.worker) {
      GoneMeansBroken(c, s);
    }
  }

  lemma MainKeepsInv<S>(c: Config<S>, s: State<S>)
    requires Inv(c, s)
    ensures Inv(c, MainStep(c, s))
  {
    hide Inv;
    match s.main
    case AtLoop => ReadKeepsInv(c, s);
    case Sending => SendKeepsInv(c, s);
    case Waiting =>
      if s.free.Empty() {
        WaitKeepsInv(c, s);
      } else {
        TakeKeepsInv(c, s);
      }
    case Checking => WaitKeepsInv(c, s);
    case Returned(_) =>
  }

  /** The reader's part of the invariant does not notice what the handler thread does. */
  lemma WorkerKeepsMainInv<S>(c: Config<S>, s: State<S>)
    requires Inv(c, s) && (s.worker.Giving? ==> s.free.Count() < c.nbuf)
    ensures MainInv(c, WorkerStep(c, s)) && InputInv(c, WorkerStep(c, s))
  {
    hide StateAfter, ReplyTo, FramesBytes, ReadFrame, Answer, AllOk, Broken, AllValid, DataInv, Sent, Last;
    assert AllRead(WorkerStep(c, s)) == AllRead(s);
  }

  lemma PopKeepsInv<S>(c: Config<S>, s: State<S>)
    requires Inv(c, s) && (s.worker == Popping || s.worker == Probing)
    ensures Inv(c, WorkerStep(c, s))
  {
    hide StateAfter, ReplyTo, Answer, AllOk, Broken, MainInv, InputInv;
    WorkerKeepsMainInv(c, s);
  }

  lemma AllOkWhole<S>(c: Config<S>, fs: seq<Frame>)
    requires fs != [] ==> AllOk(c, fs[..|fs| - 1])
    requires !Broken(c, fs)
    ensures AllOk(c, fs)
  {
    hide ReplyTo;
    forall k | 0 < k <= |fs|
      ensures !Failing(ReplyTo(c, fs[..k]))
    {
      if k == |fs| {
        assert fs[..k] == fs;
      } else {
        assert fs[..|fs| - 1][..k] == fs[..k];
      }
    }
  }

  /** Answers do not change when another command is handled. */
  lemma AnswerStable<S>(c: Config<S>, handled: seq<Frame>, f: Frame, i: nat, entry: Free)
    requires c.Valid() && i < c.nbuf - 1 + |handled| && Answer(c, handled, i, entry)
    ensures Answer(c, handled + [f], i, entry)
  {
    hide ReplyTo;
    if i >= c.nbuf - 1 {
      var k := i - c.nbuf + 2;
      assert (handled + [f])[..k] == handled[..k];
    }
  }

  lemma HandleKeepsInv<S>(c: Config<S>, s: State<S>)
    requires Inv(c, s) && s.worker.Handling?
    ensures Inv(c, WorkerStep(c, s))
  {
    hide StateAfter, Answer, AllOk, MainInv, InputInv;
    WorkerKeepsMainInv(c, s);
    var s' := WorkerStep(c, s);
    var f := s.worker.item.Frame();
    StateAfterAppend(c.h, c.start, c.version, s.handled, f);
    assert s'.handled[..|s.handled|] == s.handled;
    AllOkWhole(c, s.handled);
    forall i | 0 <= i < |s.free.log|
      ensures Answer(c, s'.handled, i, s'.free.log[i])
    {
      AnswerStable(c, s.handled, f, i, s.free.log[i]);
    }
  }

  /** Nor is the free ring ever full. */
  lemma FreeRingNotFull<S>(c: Config<S>, s: State<S>)
    requires Inv(c, s) && s.worker.Giving?
    ensures s.free.Count() < c.nbuf
  {
  }

  lemma GiveKeepsInv<S>(c: Config<S>, s: State<S>)
    requires Inv(c, s) && s.worker.Giving?
    ensures Inv(c, WorkerStep(c, s))
  {
    hide StateAfter, ReplyTo, AllOk, MainInv, InputInv, Sent;
    FreeRingNotFull(c, s);
    WorkerKeepsMainInv(c, s);
    assert s.handled[..|s.handled|] == s.handled;
  }

  lemma WorkerKeepsInv<S>(c: Config<S>, s: State<S>)
    requires Inv(c, s)
    ensures Inv(c, WorkerStep(c, s))
  {
    hide Inv;
    match s.worker
    case Handling(_) => HandleKeepsInv(c, s);
    case Giving(_) => GiveKeepsInv(c, s);
    case Exited =>
    case Dead =>
    case _ => PopKeepsInv(c, s);
  }

  /** Every state of every interleaving satisfies the invariant. */
  lemma {:induction false} ExecInv<S>(c: Config<S>, schedule: seq<Thread>)
    requires c.Valid()
    ensures Inv(c, Exec(c, schedule))
    decreases |schedule|
  {
    hide Inv, MainStep, WorkerStep;
    if schedule == [] {
      InitInv(c);
    } else {
      var before := schedule[..|schedule| - 1];
      ExecInv(c, before);
      MainKeepsInv(c, Exec(c, before));
      WorkerKeepsInv(c, Exec(c, before));
    }
  }
}
