/**
 The race between an empty pop and the check for an abandoned ring: exactly which commands a buffered
 receive can lose to it, and exactly when a handler's error becomes a panic of the reader.
 */
module BufferedRaces {
  import opened Bytes
  import opened Frames
  import opened ReadStream
  import opened BufferedReceive
  import opened BufferedProperties
  import opened BufferedProgress

  // ---------------------------------------------------------------------------------------
  // What can be read of an input

  /** The commands up to and including the first END, or up to what cannot be read. */
  function Readable(input: bytes): seq<Frame>
    decreases |input|
  {
    match ReadFrame(input)
    case Ok((f, rest)) => [f] + if f.command == END then [] else Readable(rest)
    case _ => []
  }

  /** What follows them. */
  function Beyond(input: bytes): bytes
    decreases |input|
  {
    match ReadFrame(input)
    case Ok((f, rest)) => if f.command == END then rest else Beyond(rest)
    case _ => input
  }

  ghost predicate EndOnlyLast(fs: seq<Frame>) {
    forall i :: 0 <= i < |fs| - 1 ==> fs[i].command != END
  }

  lemma {:induction false} ReadableSplits(input: bytes)
    ensures AllValid(Readable(input)) && EndOnlyLast(Readable(input))
    ensures input == FramesBytes(Readable(input)) + Beyond(input)
    decreases |input|
  {
    hide ReadFrame, FrameBytes;
    if !ReadFrame(input).Ok? {
      assert FramesBytes([]) + input == input;
    } else {
      var (f, rest) := ReadFrame(input).value;
      BytesOfReadFrame(input);
      if f.command == END {
        assert FramesBytes([f]) == FrameBytes(f) + FramesBytes([]);
      } else {
        ReadableSplits(rest);
        var more := Readable(rest);
        assert ([f] + more)[1..] == more;
        assert FramesBytes([f] + more) == FrameBytes(f) + FramesBytes(more);
        assert FrameBytes(f) + (FramesBytes(more) + Beyond(rest)) == (FrameBytes(f) + FramesBytes(more)) + Beyond(rest);
      }
    }
  }

  /** Whatever was read without passing an END is readable. */
  lemma {:induction false} ReadIsReadable(fs: seq<Frame>, rest: bytes)
    requires AllValid(fs) && EndOnlyLast(fs)
    ensures fs <= Readable(FramesBytes(fs) + rest)
    decreases |fs|
  {
    hide ReadFrame, FrameBytes;
    if fs == [] {
    } else {
      var more := FramesBytes(fs[1..]) + rest;
      ReadFrameOfBytes(fs[0], more);
      assert FramesBytes(fs) + rest == FrameBytes(fs[0]) + more;
      if |fs| > 1 {
        ReadIsReadable(fs[1..], rest);
      }
      assert fs == [fs[0]] + fs[1..];
    }
  }

  lemma SentIsReadable<S>(c: Config<S>, s: State<S>)
    requires Inv(c, s)
    ensures Sent(s.data.log) <= Readable(c.input) && s.handled <= Readable(c.input)
  {
    hide ReadFrame, FramesBytes, Sent, AllRead, StateAfter, WorkerInv, FreeInv, Readable;
    AllReadParts(s);
    var sent := Sent(s.data.log);
    assert EndOnlyLast(AllRead(s));
    ReadIsReadable(AllRead(s), s.input);
    assert sent <= AllRead(s);
    assert s.handled <= sent;
  }

  // ---------------------------------------------------------------------------------------
  // Where a receive is, as long as nothing failed

  ghost predicate Spot<S>(c: Config<S>, s: State<S>, sent: nat, got: nat, handled: nat, main: Main, worker: Worker) {
    var fs := Readable(c.input);
    && s.main == main && s.worker == worker
    && |s.data.log| == sent <= |fs| && Sent(s.data.log) == fs[..sent]
    && s.free.head == got && |s.handled| == handled
    && s.input == FramesBytes(fs[sent..]) + Beyond(c.input)
  }

  lemma SpotStart<S>(c: Config<S>)
    ensures Spot(c, Init(c), 0, 0, 0, AtLoop, Popping)
  {
    hide Readable, Beyond, FramesBytes;
    ReadableSplits(c.input);
    var fs := Readable(c.input);
    assert fs[0..] == fs && fs[..0] == [] && Sent([]) == [];
  }

  /** What the invariant adds. */
  lemma SpotFacts<S>(c: Config<S>, s: State<S>, sent: nat, got: nat, handled: nat, main: Main, worker: Worker)
    requires Inv(c, s) && Spot(c, s, sent, got, handled, main, worker)
    ensures handled <= sent && s.handled == Readable(c.input)[..handled]
    ensures s.hstate == StateAfter(c.h, c.start, c.version, s.handled)
    ensures s.data.head == handled + if worker.Handling? then 1 else 0
    ensures worker == Popping || worker == Probing ==> |s.free.log| == c.nbuf - 1 + handled
    ensures main == AtLoop ==> |s.buf| >= MIN_BUF && s.command == Last(Sent(s.data.log))
    ensures ValidItems(s.data.log)
  {
    hide StateAfter, WorkerInv, InputInv, Readable, Beyond, FramesBytes, Answer, Last;
    assert s.handled == Sent(s.data.log)[..handled];
  }

  /** The reader reads a command and pushes it. */
  lemma SendOne<S>(c: Config<S>, schedule: seq<Thread>, n: nat, h: nat, w: Worker) returns (next: seq<Thread>)
    requires c.Valid() && Spot(c, Exec(c, schedule), n, n, h, AtLoop, w) && n < |Readable(c.input)|
    ensures Spot(c, Exec(c, next), n + 1, n, h, Waiting, w)
  {
    hide Inv, MainStep, WorkerStep, Exec, Readable, Beyond, FramesBytes, FrameBytes, ReadFrame, StateAfter;
    var s := Exec(c, schedule);
    ExecInv(c, schedule);
    SpotFacts(c, s, n, n, h, AtLoop, w);
    ReadableSplits(c.input);
    var fs := Readable(c.input);
    NextRead(fs, n, Beyond(c.input));
    var s1 := MainStep(c, s);
    ReadStep(c, s, fs[n], FramesBytes(fs[n + 1..]) + Beyond(c.input));
    MainKeepsInv(c, s);
    PushStep(c, s1);
    next := schedule + [TheMain] + [TheMain];
    ExecAppend(c, schedule, TheMain);
    ExecAppend(c, schedule + [TheMain], TheMain);
    assert fs[..n] + [fs[n]] == fs[..n + 1];
  }

  lemma NextRead(fs: seq<Frame>, n: nat, rest: bytes)
    requires AllValid(fs) && EndOnlyLast(fs) && n < |fs|
    ensures ReadFrame(FramesBytes(fs[n..]) + rest) == Ok((fs[n], FramesBytes(fs[n + 1..]) + rest))
    ensures Last(fs[..n]) != END
  {
    hide ReadFrame, FrameBytes;
    var more := FramesBytes(fs[n + 1..]) + rest;
    assert fs[n..][1..] == fs[n + 1..];
    assert FramesBytes(fs[n..]) + rest == FrameBytes(fs[n]) + more;
    ReadFrameOfBytes(fs[n], more);
  }

  lemma ReadStep<S>(c: Config<S>, s: State<S>, f: Frame, rest: bytes)
    requires s.main == AtLoop && s.command != END && |s.buf| >= MIN_BUF && ReadFrame(s.input) == Ok((f, rest))
    ensures var s' := MainStep(c, s);
            && s'.main == Sending && s'.input == rest && Item(s'.command, s'.end, s'.buf).Frame() == f
            && s'.worker == s.worker && s'.data == s.data && s'.free == s.free && s'.handled == s.handled
  {
    hide ReadFrame;
  }

  lemma PushStep<S>(c: Config<S>, s: State<S>)
    requires Inv(c, s) && s.main == Sending
    ensures var s' := MainStep(c, s);
            && s'.main == Waiting && s'.input == s.input
            && Sent(s'.data.log) == Sent(s.data.log) + [Item(s.command, s.end, s.buf).Frame()]
            && s'.worker == s.worker && s'.free == s.free && s'.handled == s.handled
  {
    hide StateAfter, WorkerInv, FreeInv, InputInv, Last;
    DataRingNotFull(c, s);
    SentAppend(s.data.log, Item(s.command, s.end, s.buf));
  }

  /** The reader finds a buffer in the free ring. */
  lemma TakeOne<S>(c: Config<S>, schedule: seq<Thread>, n: nat, h: nat, w: Worker) returns (next: seq<Thread>)
    requires c.Valid() && Spot(c, Exec(c, schedule), n + 1, n, h, Waiting, w)
    requires (w == Popping || w == Probing) && n < c.nbuf - 1 + h
    requires h <= |Readable(c.input)| && AllOk(c, Readable(c.input)[..h])
    ensures Spot(c, Exec(c, next), n + 1, n + 1, h, AtLoop, w)
  {
    hide Inv, Exec, Readable, Beyond, FramesBytes, StateAfter, ReplyTo, Sent;
    var s := Exec(c, schedule);
    ExecInv(c, schedule);
    SpotFacts(c, s, n + 1, n, h, Waiting, w);
    FreeIsBuf(c, s, n);
    next := schedule + [TheMain];
    ExecAppend(c, schedule, TheMain);
  }

  lemma FreeIsBuf<S>(c: Config<S>, s: State<S>, i: nat)
    requires Inv(c, s) && i < |s.free.log| && AllOk(c, s.handled)
    ensures s.free.log[i].Buf?
  {
    hide StateAfter, WorkerInv, InputInv, MainInv, DataInv;
    assert Answer(c, s.handled, i, s.free.log[i]);
  }

  /** The handler thread handles a command that does not fail. */
  lemma WorkOne<S>(c: Config<S>, schedule: seq<Thread>, n: nat, g: nat, h: nat, m: Main) returns (next: seq<Thread>)
    requires c.Valid() && Spot(c, Exec(c, schedule), n, g, h, m, Popping) && h < n
    requires !Failing(ReplyTo(c, Readable(c.input)[..h + 1]))
    ensures Spot(c, Exec(c, next), n, g, h + 1, m, Popping)
  {
    hide Inv, Exec, Readable, Beyond, FramesBytes, StateAfter, ReplyTo, WorkerStep, Sent;
    var s := Exec(c, schedule);
    ExecInv(c, schedule);
    HandleSteps(c, s, n, g, h, m);
    next := schedule + [TheWorker] + [TheWorker] + [TheWorker];
    ExecAppend(c, schedule, TheWorker);
    ExecAppend(c, schedule + [TheWorker], TheWorker);
    ExecAppend(c, schedule + [TheWorker] + [TheWorker], TheWorker);
  }

  /** Three turns of the handler thread: pop, handle, give back. */
  lemma HandleSteps<S>(c: Config<S>, s: State<S>, n: nat, g: nat, h: nat, m: Main)
    requires Inv(c, s) && Spot(c, s, n, g, h, m, Popping) && h < n
    ensures var s' := WorkerStep(c, WorkerStep(c, WorkerStep(c, s)));
            match ReplyTo(c, Readable(c.input)[..h + 1])
            case Failed(_) => Spot(c, s', n, g, h + 1, m, Exited)
            case Panicked => true
            case _ => Spot(c, s', n, g, h + 1, m, Popping)
  {
    hide Inv, Readable, Beyond, FramesBytes, StateAfter, WorkerStep, Sent;
    SpotFacts(c, s, n, g, h, m, Popping);
    var fs := Readable(c.input);
    var item := s.data.log[h];
    assert Sent(s.data.log)[h] == item.Frame() == fs[h];
    assert fs[..h + 1][..h] == fs[..h];
    assert ReplyTo(c, fs[..h + 1]) == c.h(s.hstate, item.Frame(), c.version).1;
    PopStep(c, s);
    var s1 := WorkerStep(c, s);
    WorkerKeepsInv(c, s);
    HandleStep(c, s1, item);
    var s2 := WorkerStep(c, s1);
    WorkerKeepsInv(c, s1);
    if !ReplyTo(c, fs[..h + 1]).Panicked? {
      GiveStep(c, s2);
    }
  }

  lemma PopStep<S>(c: Config<S>, s: State<S>)
    requires s.worker == Popping && !s.data.Empty()
    ensures var s' := WorkerStep(c, s);
            && s'.worker == Handling(s.data.log[s.data.head]) && s'.data.log == s.data.log && s'.hstate == s.hstate
            && s'.main == s.main && s'.free == s.free && s'.handled == s.handled && s'.input == s.input
  {
  }

  lemma HandleStep<S>(c: Config<S>, s: State<S>, item: Item)
    requires s.worker == Handling(item) && item.Valid()
    ensures var s' := WorkerStep(c, s);
            && s'.handled == s.handled + [item.Frame()] && s'.data == s.data
            && s'.main == s.main && s'.free == s.free && s'.input == s.input
            && s'.worker == match c.h(s.hstate, item.Frame(), c.version).1
                            case Failed(e) => Giving(Failure(e))
                            case Panicked => Dead
                            case _ => Giving(Buf(item.buf))
  {
  }

  lemma GiveStep<S>(c: Config<S>, s: State<S>)
    requires Inv(c, s) && s.worker.Giving?
    ensures var s' := WorkerStep(c, s);
            && s'.worker == (if s.worker.free.Buf? then Popping else Exited) && s'.data == s.data
            && s'.main == s.main && s'.free.head == s.free.head && s'.handled == s.handled && s'.input == s.input
  {
    hide Inv;
    FreeRingNotFull(c, s);
  }

  // ---------------------------------------------------------------------------------------
  // Many turns

  lemma AllOkShorter<S>(c: Config<S>, fs: seq<Frame>, m: nat, k: nat)
    requires k <= m <= |fs| && AllOk(c, fs[..m])
    ensures AllOk(c, fs[..k])
    ensures k < m ==> !Failing(ReplyTo(c, fs[..k + 1]))
  {
    hide ReplyTo;
    AllOkPrefix(c, fs[..m], k);
    assert fs[..m][..k] == fs[..k];
    if k < m {
      assert fs[..m][..k + 1] == fs[..k + 1];
    }
  }

  /** Command by command, each handled before the next one is read. */
  lemma {:induction false} Lockstep<S>(c: Config<S>, k: nat) returns (schedule: seq<Thread>)
    requires c.Valid() && k <= |Readable(c.input)| && AllOk(c, Readable(c.input)[..k])
    ensures Spot(c, Exec(c, schedule), k, k, k, AtLoop, Popping)
    decreases k
  {
    hide Readable, Spot, AllOk, ReplyTo, Exec;
    if k == 0 {
      schedule := [];
      SpotStart(c);
      ExecNothing(c);
    } else {
      var fs := Readable(c.input);
      AllOkShorter(c, fs, k, k - 1);
      schedule := Lockstep(c, k - 1);
      schedule := SendOne(c, schedule, k - 1, k - 1, Popping);
      schedule := WorkOne(c, schedule, k, k - 1, k - 1, Waiting);
      schedule := TakeOne(c, schedule, k - 1, k, Popping);
    }
  }

  lemma ExecNothing<S>(c: Config<S>)
    ensures Exec(c, []) == Init(c)
  {
  }

  /** The reader alone, as long as there are buffers. */
  lemma {:induction false} SendMany<S>(c: Config<S>, before: seq<Thread>, n: nat, m: nat, h: nat, w: Worker)
    returns (schedule: seq<Thread>)
    requires c.Valid() && Spot(c, Exec(c, before), n, n, h, AtLoop, w) && (w == Popping || w == Probing)
    requires n <= m <= |Readable(c.input)| && m <= c.nbuf - 1 + h
    requires h <= |Readable(c.input)| && AllOk(c, Readable(c.input)[..h])
    ensures Spot(c, Exec(c, schedule), m, m, h, AtLoop, w)
    decreases m - n
  {
    hide Readable, Spot, AllOk, Exec;
    if n == m {
      schedule := before;
    } else {
      schedule := SendOne(c, before, n, h, w);
      schedule := TakeOne(c, schedule, n, h, w);
      schedule := SendMany(c, schedule, n + 1, m, h, w);
    }
  }

  /** The handler thread alone, as long as there are commands and none fails. */
  lemma {:induction false} WorkMany<S>(c: Config<S>, before: seq<Thread>, n: nat, g: nat, h: nat, k: nat, m: Main)
    returns (schedule: seq<Thread>)
    requires c.Valid() && Spot(c, Exec(c, before), n, g, h, m, Popping)
    requires h <= k <= n <= |Readable(c.input)| && AllOk(c, Readable(c.input)[..k])
    ensures Spot(c, Exec(c, schedule), n, g, k, m, Popping)
    decreases k - h
  {
    hide Readable, Spot, AllOk, Exec, ReplyTo;
    if h == k {
      schedule := before;
    } else {
      AllOkShorter(c, Readable(c.input), k, h);
      schedule := WorkOne(c, before, n, g, h, m);
      schedule := WorkMany(c, schedule, n, g, h + 1, k, m);
    }
  }

  // ---------------------------------------------------------------------------------------
  // Without the race

  /** The handler asks for no more after END. */
  ghost predicate StopsAtEnd<S(!new)>(c: Config<S>) {
    forall s: S, f: Frame :: f.command == END ==> c.h(s, f, c.version).1 != More
  }

  /** At the end, what was pushed but not handled is exactly what is left in the data ring. */
  lemma LostCommands<S>(c: Config<S>, schedule: seq<Thread>)
    requires c.Valid() && Finished(Exec(c, schedule)) && !Broken(c, Exec(c, schedule).handled)
    ensures var s := Exec(c, schedule);
            && (s.handled == Sent(s.data.log) <==> s.data.Empty())
            && (c.atomic ==> s.data.Empty())
  {
    hide ReplyTo, InputInv;
    ExecInv(c, schedule);
  }

  /**
   If popping and checking were one step, a finished receive without failures would have run
   the handler on exactly the commands of the sequential receive, with the same final state.
   */
  lemma AtomicIsSequential<S(!new)>(c: Config<S>, schedule: seq<Thread>)
    requires c.Valid() && c.atomic && StopsOnlyAtEnd(c) && Sequential(c).result.Ok?
    requires StopsAtEnd(c)
    requires Finished(Exec(c, schedule))
    ensures var s := Exec(c, schedule);
            s.handled == Sequential(c).handled && s.hstate == Sequential(c).state
  {
    hide Inv, ReadFrame, Sequential, FrameBytes, Step, Exec, ReplyTo;
    ExecInv(c, schedule);
    var s := Exec(c, schedule);
    if Broken(c, s.handled) {
      BrokenStopsSequential(c, s);
    }
    AcceptsWhatSequentialAccepts(c, schedule);
    LostCommands(c, schedule);
    EndIsLast(c, s);
    var rest := SequentialReaches(c, s);
    var init, f := s.handled[..|s.handled| - 1], s.handled[|s.handled| - 1];
    ReadFrameOfBytes(f, rest);
    assert s.handled == init + [f];
    StateAfterAppend(c.h, c.start, c.version, init, f);
  }

  lemma EndIsLast<S>(c: Config<S>, s: State<S>)
    requires Inv(c, s) && s.main == Returned(Ok(())) && s.handled == Sent(s.data.log)
    ensures s.handled != [] && s.handled[|s.handled| - 1].command == END
    ensures s.hstate == StateAfter(c.h, c.start, c.version, s.handled)
  {
    hide ReplyTo, InputInv, FreeInv, WorkerInv;
  }

  /** If popping and checking were one step, the reader would panic only after the handler did. */
  lemma AtomicPanicsOnlyWithHandler<S>(c: Config<S>, schedule: seq<Thread>)
    requires c.Valid() && c.atomic && Exec(c, schedule).main == Returned(Panic)
    ensures Exec(c, schedule).worker == Dead
  {
    ExecInv(c, schedule);
  }

  // ---------------------------------------------------------------------------------------
  // What is lost

  lemma {:induction false} AllOkCons<S>(c: Config<S>, f: Frame, more: seq<Frame>)
    requires !Failing(c.h(c.start, f, c.version).1)
    requires AllOk(c.(start := c.h(c.start, f, c.version).0), more)
    ensures AllOk(c, [f] + more)
  {
    hide Failing;
    var d := c.(start := c.h(c.start, f, c.version).0);
    var fs := [f] + more;
    forall k | 0 < k <= |fs| ensures !Failing(ReplyTo(c, fs[..k])) {
      assert fs[..k][..k - 1] == fs[..k - 1];
      if k > 1 {
        assert more[..k - 1][..k - 2] == more[..k - 2];
        assert fs[..k - 1][0] == f && fs[..k - 1][1..] == more[..k - 2];
        assert ReplyTo(c, fs[..k]) == ReplyTo(d, more[..k - 1]);
      }
    }
  }

  /** An accepted stream is handled up to its first END, without failures. */
  lemma {:induction false} AcceptedIsReadable<S(!new)>(c: Config<S>)
    requires StopsOnlyAtEnd(c) && StopsAtEnd(c) && Sequential(c).result.Ok?
    ensures Sequential(c).handled == Readable(c.input)
    ensures Readable(c.input) != [] && Last(Readable(c.input)) == END && AllOk(c, Readable(c.input))
    decreases |c.input|
  {
    hide ReadFrame, AllOk, ReplyTo;
    var (f, rest) := ReadFrame(c.input).value;
    var (s', reply) := c.h(c.start, f, c.version);
    var d := c.(start := s', input := rest);
    if reply == More {
      AcceptedIsReadable(d);
      AllOkInput(c, s', rest, Readable(rest));
      AllOkCons(c, f, Readable(rest));
    } else {
      AllOkNothing(c.(start := s'));
      AllOkCons(c, f, []);
      assert [f] + [] == [f];
    }
  }

  lemma AllOkNothing<S>(c: Config<S>)
    ensures AllOk(c, [])
  {
  }

  lemma AllOkInput<S>(c: Config<S>, s: S, input: bytes, fs: seq<Frame>)
    ensures AllOk(c.(start := s, input := input), fs) == AllOk(c.(start := s), fs)
  {
    hide Failing;
    forall k | 0 < k <= |fs| ensures ReplyTo(c.(start := s, input := input), fs[..k]) == ReplyTo(c.(start := s), fs[..k]) {
    }
  }

  /** The reader has returned, and the handler thread finds that out. */
  lemma Leave<S>(c: Config<S>, before: seq<Thread>, n: nat, h: nat) returns (schedule: seq<Thread>)
    requires c.Valid() && h <= n && 0 < n == |Readable(c.input)| && Last(Readable(c.input)) == END
    requires Spot(c, Exec(c, before), n, n, h, AtLoop, Probing)
    ensures var s := Exec(c, schedule);
            && Finished(s) && CallResult(s) == Ok(()) && Sent(s.data.log) == Readable(c.input)
            && s.handled == Readable(c.input)[..h]
  {
    hide Inv, Exec, Readable, Beyond, FramesBytes, StateAfter, Sent, Last;
    var s := Exec(c, before);
    ExecInv(c, before);
    SpotFacts(c, s, n, n, h, AtLoop, Probing);
    assert Readable(c.input)[..n] == Readable(c.input);
    schedule := before + [TheMain] + [TheWorker];
    ExecAppend(c, before, TheMain);
    ExecAppend(c, before + [TheMain], TheWorker);
  }

  lemma FindEmpty<S>(c: Config<S>, before: seq<Thread>, n: nat) returns (schedule: seq<Thread>)
    requires c.Valid() && !c.atomic && Spot(c, Exec(c, before), n, n, n, AtLoop, Popping)
    ensures Spot(c, Exec(c, schedule), n, n, n, AtLoop, Probing)
  {
    hide Inv, Exec, Readable, Beyond, FramesBytes, StateAfter, Sent;
    ExecInv(c, before);
    SpotFacts(c, Exec(c, before), n, n, n, AtLoop, Popping);
    schedule := before + [TheWorker];
    ExecAppend(c, before, TheWorker);
  }

  /**
   The handler thread finds the ring empty; the reader pushes the last commands, END included, takes as
   many spare buffers and returns Ok; and the thread leaves with those commands in the ring.
   */
  lemma EndMayBeLost<S>(c: Config<S>, lost: nat) returns (schedule: seq<Thread>)
    requires c.Valid() && !c.atomic
    requires Readable(c.input) != [] && Last(Readable(c.input)) == END
    requires lost <= c.nbuf - 1 && lost <= |Readable(c.input)|
    requires AllOk(c, Readable(c.input)[..|Readable(c.input)| - lost])
    ensures var s := Exec(c, schedule);
            && Finished(s) && CallResult(s) == Ok(())
            && Sent(s.data.log) == Readable(c.input)
            && s.handled == Readable(c.input)[..|Readable(c.input)| - lost]
  {
    hide Inv, Exec, Readable, Spot, AllOk, Last, Finished;
    var n := |Readable(c.input)|;
    schedule := Lockstep(c, n - lost);
    schedule := FindEmpty(c, schedule, n - lost);
    schedule := SendMany(c, schedule, n - lost, n, n - lost, Probing);
    schedule := Leave(c, schedule, n, n - lost);
  }

  /** So many of the last commands were not handled. */
  ghost predicate Loses<S>(c: Config<S>, schedule: seq<Thread>, lost: nat) {
    && Finished(Exec(c, schedule)) && lost <= |Readable(c.input)|
    && Exec(c, schedule).handled == Readable(c.input)[..|Readable(c.input)| - lost]
  }

  /**
   On a stream that the sequential receive accepts, any number of last commands up to one less than there
   are buffers can be lost, and no more; and none could be if popping and checking were one step.
   */
  lemma LostExactly<S(!new)>(c: Config<S>, lost: nat)
    requires c.Valid() && StopsOnlyAtEnd(c) && StopsAtEnd(c) && Sequential(c).result.Ok?
    requires lost <= |Readable(c.input)|
    ensures (exists schedule :: Loses(c, schedule, lost)) <==> lost == 0 || (!c.atomic && lost <= c.nbuf - 1)
  {
    hide Exec, Readable, AllOk, Last, Finished, Sequential;
    AcceptedIsReadable(c);
    var fs := Readable(c.input);
    forall schedule | Loses(c, schedule, lost) ensures lost == 0 || (!c.atomic && lost <= c.nbuf - 1) {
      AtMostLost(c, schedule);
    }
    if lost == 0 || (!c.atomic && lost <= c.nbuf - 1) {
      assert fs[..|fs|] == fs;
      AllOkShorter(c, fs, |fs|, |fs| - lost);
      var schedule;
      if c.atomic {
        schedule := CanFinish(c, []);
        assert [] + schedule == schedule;
        AtomicIsSequential(c, schedule);
      } else {
        schedule := EndMayBeLost(c, lost);
      }
      assert Loses(c, schedule, lost);
    }
  }

  lemma AtMostLost<S(!new)>(c: Config<S>, schedule: seq<Thread>)
    requires c.Valid() && StopsOnlyAtEnd(c) && StopsAtEnd(c) && Sequential(c).result.Ok?
    requires Finished(Exec(c, schedule))
    ensures var handled, fs := Exec(c, schedule).handled, Readable(c.input);
            && |fs| - (c.nbuf - 1) <= |handled| && (c.atomic ==> handled == fs)
  {
    hide Exec, Inv, AllOk, Last, Sequential, Readable, FramesBytes;
    AcceptsWhatSequentialAccepts(c, schedule);
    OkMeansHandled(c, schedule);
    ExecInv(c, schedule);
    SentIsAll(c, Exec(c, schedule));
    AcceptedIsReadable(c);
    if c.atomic {
      AtomicIsSequential(c, schedule);
    }
  }

  /** A reader that returned Ok has sent all that is readable. */
  lemma SentIsAll<S>(c: Config<S>, s: State<S>)
    requires Inv(c, s) && s.main == Returned(Ok(()))
    ensures Sent(s.data.log) == Readable(c.input)
  {
    hide ReadFrame, FramesBytes, Sent, AllRead, StateAfter, WorkerInv, FreeInv, DataInv, Readable;
    var sent := Sent(s.data.log);
    SentIsReadable(c, s);
    ReadableSplits(c.input);
    assert Last(sent) == END && sent[|sent| - 1] == Readable(c.input)[|sent| - 1];
  }

  /** Every schedule of an accepted stream handles it all exactly if popping and checking are one step. */
  lemma RaceExactly<S(!new)>(c: Config<S>)
    requires c.Valid() && StopsOnlyAtEnd(c) && StopsAtEnd(c) && Sequential(c).result.Ok?
    ensures c.atomic <==>
            forall schedule :: Finished(Exec(c, schedule)) ==> Exec(c, schedule).handled == Sequential(c).handled
  {
    hide Exec, Readable, Finished, Sequential;
    AcceptedIsReadable(c);
    forall schedule | c.atomic && Finished(Exec(c, schedule))
      ensures Exec(c, schedule).handled == Sequential(c).handled
    {
      AtomicIsSequential(c, schedule);
    }
    if !c.atomic {
      LostExactly(c, 1);
      var schedule :| Loses(c, schedule, 1);
      assert |Exec(c, schedule).handled| < |Readable(c.input)|;
    }
  }

  // ---------------------------------------------------------------------------------------
  // When an error becomes a panic

  /** A reader that found the free ring empty has taken all the buffers it started with. */
  ghost predicate RanDry<S>(c: Config<S>, s: State<S>) {
    s.main == Checking || s.main == Returned(Panic) ==> s.free.head >= c.nbuf - 1
  }

  lemma StepRanDry<S>(c: Config<S>, s: State<S>, t: Thread)
    requires Inv(c, s) && RanDry(c, s)
    ensures RanDry(c, Step(c, s, t))
  {
    hide ReplyTo, InputInv, Answer, StateAfter, AllOk, Broken, Sent, Last, ReadFrame, FilledBuffer, Publish;
    if t == TheMain && s.main == Sending {
      DataRingNotFull(c, s);
    }
  }

  lemma {:induction false} ExecRanDry<S>(c: Config<S>, schedule: seq<Thread>)
    requires c.Valid()
    ensures RanDry(c, Exec(c, schedule))
    decreases |schedule|
  {
    hide Inv, Step;
    if schedule == [] {
    } else {
      var before := schedule[..|schedule| - 1];
      ExecInv(c, before);
      ExecRanDry(c, before);
      StepRanDry(c, Exec(c, before), schedule[|schedule| - 1]);
    }
  }

  ghost predicate Panics<S>(c: Config<S>, schedule: seq<Thread>) {
    Finished(Exec(c, schedule)) && CallResult(Exec(c, schedule)) == Panic
  }

  /** The `i`-th command is the first the handler fails on, with an error. */
  ghost predicate FirstFailure<S>(c: Config<S>, i: nat) {
    && 0 < i <= |Readable(c.input)|
    && AllOk(c, Readable(c.input)[..i - 1]) && ReplyTo(c, Readable(c.input)[..i]).Failed?
  }

  lemma FailedOnce<S>(c: Config<S>, s: State<S>, i: nat)
    requires Inv(c, s) && FirstFailure(c, i) && Broken(c, s.handled)
    ensures s.handled == Readable(c.input)[..i]
  {
    hide Inv, ReplyTo, Readable;
    SentIsReadable(c, s);
    var fs, n := Readable(c.input), |s.handled|;
    assert s.handled == fs[..n];
    if n < i {
      AllOkShorter(c, fs, i - 1, n - 1);
    } else if n > i {
      HandledOk(c, s);
      assert fs[..n - 1] == s.handled[..n - 1];
      AllOkShorter(c, fs, n - 1, i - 1);
    }
  }

  lemma HandledOk<S>(c: Config<S>, s: State<S>)
    requires Inv(c, s)
    ensures s.handled != [] ==> AllOk(c, s.handled[..|s.handled| - 1])
  {
    hide DataInv, FreeInv, MainInv, InputInv, StateAfter, AllOk;
  }

  lemma PanicState<S>(c: Config<S>, s: State<S>)
    requires Inv(c, s) && RanDry(c, s) && Finished(s) && CallResult(s) == Panic
    ensures Broken(c, s.handled)
    ensures s.worker == Dead ==> ReplyTo(c, s.handled) == Panicked
    ensures s.worker != Dead ==> !c.atomic && |Sent(s.data.log)| >= c.nbuf
  {
    hide InputInv, StateAfter, AllOk, FreeInv;
  }

  /** The reader goes ahead until no buffer comes back, and sees none just before the error arrives. */
  lemma ErrorMayBecomePanic<S>(c: Config<S>, i: nat) returns (schedule: seq<Thread>)
    requires c.Valid() && !c.atomic && FirstFailure(c, i) && |Readable(c.input)| >= c.nbuf
    ensures Panics(c, schedule)
  {
    hide Inv, Exec, Readable, Spot, AllOk, ReplyTo;
    var fs := Readable(c.input);
    var ahead := if i > c.nbuf then i - c.nbuf else 0;
    var sent := ahead + c.nbuf;
    AllOkShorter(c, fs, i - 1, ahead);
    schedule := Lockstep(c, ahead);
    schedule := SendMany(c, schedule, ahead, sent - 1, ahead, Popping);
    schedule := SendOne(c, schedule, sent - 1, ahead, Popping);
    schedule := FindDry(c, schedule, sent, ahead);
    schedule := WorkMany(c, schedule, sent, sent - 1, ahead, i - 1, Checking);
    schedule := FailAndCheck(c, schedule, sent, sent - 1, i);
  }

  lemma FindDry<S>(c: Config<S>, before: seq<Thread>, n: nat, h: nat) returns (schedule: seq<Thread>)
    requires c.Valid() && !c.atomic && n == h + c.nbuf && Spot(c, Exec(c, before), n, n - 1, h, Waiting, Popping)
    ensures Spot(c, Exec(c, schedule), n, n - 1, h, Checking, Popping)
  {
    hide Inv, Exec, Readable, Beyond, FramesBytes, StateAfter, Sent;
    ExecInv(c, before);
    SpotFacts(c, Exec(c, before), n, n - 1, h, Waiting, Popping);
    schedule := before + [TheMain];
    ExecAppend(c, before, TheMain);
  }

  lemma FailAndCheck<S>(c: Config<S>, before: seq<Thread>, n: nat, g: nat, i: nat) returns (schedule: seq<Thread>)
    requires c.Valid() && FirstFailure(c, i) && i <= n && Spot(c, Exec(c, before), n, g, i - 1, Checking, Popping)
    ensures Panics(c, schedule)
  {
    hide Inv, Exec, Readable, Beyond, FramesBytes, StateAfter, Sent, ReplyTo, WorkerStep, AllOk;
    ExecInv(c, before);
    HandleSteps(c, Exec(c, before), n, g, i - 1, Checking);
    schedule := before + [TheWorker] + [TheWorker] + [TheWorker] + [TheMain];
    ExecAppend(c, before, TheWorker);
    ExecAppend(c, before + [TheWorker], TheWorker);
    ExecAppend(c, before + [TheWorker] + [TheWorker], TheWorker);
    ExecAppend(c, before + [TheWorker] + [TheWorker] + [TheWorker], TheMain);
  }

  /**
   The error of the first command the handler fails on can become a panic of the call exactly if popping
   and checking are two steps and the input has at least as many readable commands, up to and including its
   first END, as there are buffers.
   */
  lemma PanicExactly<S>(c: Config<S>, i: nat)
    requires c.Valid() && FirstFailure(c, i)
    ensures (exists schedule :: Panics(c, schedule)) <==> !c.atomic && |Readable(c.input)| >= c.nbuf
  {
    hide Inv, Exec, Readable, AllOk, ReplyTo, Finished, Sent;
    forall schedule | Panics(c, schedule) ensures !c.atomic && |Readable(c.input)| >= c.nbuf {
      var s := Exec(c, schedule);
      ExecInv(c, schedule);
      ExecRanDry(c, schedule);
      PanicState(c, s);
      FailedOnce(c, s, i);
      SentIsReadable(c, s);
    }
    if !c.atomic && |Readable(c.input)| >= c.nbuf {
      var schedule := ErrorMayBecomePanic(c, i);
    }
  }
}
