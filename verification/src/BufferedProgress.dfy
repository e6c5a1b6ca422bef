/**
 The progress a buffered receive publishes, and that it comes to its end whenever both threads go on
 taking turns.
 */
module BufferedProgress {
  import opened Bytes
  import opened Frames
  import opened ReadStream
  import opened BufferedReceive
  import opened BufferedProperties

  // ---------------------------------------------------------------------------------------
  // Published progress

  /** The position is that of the commands read, and the cell holds what was published on the way. */
  ghost predicate ProgressInv<S>(c: Config<S>, s: State<S>) {
    && s.pos == TotalSize(AllRead(s))
    && s.published == if s.main == Returned(Ok(())) then StoreFinal(c.cell, s.pos)
                      else PublishedAfter(c.cell, 0, AllRead(s))
  }

  /** What reading a command, or finding that there is none, does to the progress. */
  lemma ReadMoves<S>(c: Config<S>, s: State<S>)
    requires s.main == AtLoop && |s.buf| >= MIN_BUF
    ensures var s' := MainStep(c, s);
            && s'.data == s.data
            && (s.command != END && ReadFrame(s.input).Ok? ==>
                  var f := ReadFrame(s.input).value.0;
                  && s'.main == Sending && Item(s'.command, s'.end, s'.buf).Frame() == f
                  && s'.pos == s.pos + f.Size() && s'.published == Publish(s.published, s.pos, s.pos + f.Size()))
            && (!(s.command != END && ReadFrame(s.input).Ok?) ==>
                  && s'.main.Returned? && s'.pos == s.pos
                  && s'.published == if s'.main == Returned(Ok(())) then StoreFinal(s.published, s.pos) else s.published)
  {
    hide ReadFrame, Publish, FilledBuffer, StoreFinal;
  }

  /** At the top of its loop the reader holds a buffer, and the command it last sent. */
  lemma TopOfLoop<S>(c: Config<S>, s: State<S>)
    requires Inv(c, s) && s.main == AtLoop
    ensures |s.buf| >= MIN_BUF && s.command == Last(Sent(s.data.log)) && s.free.head == |s.data.log|
  {
    hide WorkerInv, FreeInv, DataInv, InputInv, Last, StateAfter;
  }

  lemma AllReadParts<S>(s: State<S>)
    ensures s.main == Sending ==> AllRead(s) == Sent(s.data.log) + [Item(s.command, s.end, s.buf).Frame()]
    ensures s.main != Sending ==> AllRead(s) == Sent(s.data.log)
  {
    hide Sent;
    assert Sent(s.data.log) + [] == Sent(s.data.log);
  }

  lemma ReadKeepsProgress<S>(c: Config<S>, s: State<S>)
    requires Inv(c, s) && ProgressInv(c, s) && s.main == AtLoop
    ensures ProgressInv(c, MainStep(c, s))
    ensures AllRead(s) <= AllRead(MainStep(c, s)) && |AllRead(MainStep(c, s))| <= |AllRead(s)| + 1
  {
    hide Inv, MainStep, ReadFrame, TotalSize, PublishedAfter, Publish, Sent, AllRead;
    TopOfLoop(c, s);
    ReadMoves(c, s);
    var s' := MainStep(c, s);
    AllReadParts(s);
    AllReadParts(s');
    var sent := Sent(s.data.log);
    if s.command != END && ReadFrame(s.input).Ok? {
      var f := ReadFrame(s.input).value.0;
      FramesBytesAppend(sent, f);
      PublishedAppend(c.cell, 0, sent, f);
    }
  }

  lemma SendKeepsProgress<S>(c: Config<S>, s: State<S>)
    requires Inv(c, s) && ProgressInv(c, s) && s.main == Sending
    ensures ProgressInv(c, MainStep(c, s)) && AllRead(MainStep(c, s)) == AllRead(s)
  {
    hide StateAfter, TotalSize, PublishedAfter, WorkerInv, FreeInv, InputInv, Last;
    DataRingNotFull(c, s);
    SentAppend(s.data.log, Item(s.command, s.end, s.buf));
    assert AllRead(MainStep(c, s)) == AllRead(s);
  }

  lemma MoveKeepsProgress<S>(c: Config<S>, s: State<S>, t: Thread)
    requires ProgressInv(c, s) && (t == TheMain ==> s.main != AtLoop && s.main != Sending)
    ensures ProgressInv(c, Step(c, s, t)) && AllRead(Step(c, s, t)) == AllRead(s)
  {
    hide TotalSize, PublishedAfter, Sent, AllRead;
    AllReadParts(s);
    AllReadParts(Step(c, s, t));
  }

  lemma {:induction false} ExecProgress<S>(c: Config<S>, schedule: seq<Thread>)
    requires c.Valid()
    ensures ProgressInv(c, Exec(c, schedule))
    decreases |schedule|
  {
    hide Inv, ProgressInv, Step;
    if schedule == [] {
      StartProgress(c);
    } else {
      var before := schedule[..|schedule| - 1];
      ExecInv(c, before);
      ExecProgress(c, before);
      StepProgress(c, Exec(c, before), schedule[|schedule| - 1]);
    }
  }

  lemma StartProgress<S>(c: Config<S>)
    ensures ProgressInv(c, Init(c)) && AllRead(Init(c)) == []
  {
    assert AllRead(Init(c)) == [];
    assert TotalSize([]) == 0;
  }

  lemma StepProgress<S>(c: Config<S>, s: State<S>, t: Thread)
    requires Inv(c, s) && ProgressInv(c, s)
    ensures var s' := Step(c, s, t);
            ProgressInv(c, s') && AllRead(s) <= AllRead(s') && |AllRead(s')| <= |AllRead(s)| + 1
  {
    hide Inv, ProgressInv, MainStep, WorkerStep, AllRead;
    if t == TheMain && s.main == AtLoop {
      ReadKeepsProgress(c, s);
    } else if t == TheMain && s.main == Sending {
      SendKeepsProgress(c, s);
    } else {
      MoveKeepsProgress(c, s, t);
    }
  }

  /**
   In every state of every interleaving the reader's position is the input consumed, and the cell, started
   at 0, holds the length of some of the commands read, in the same block as the position and so less than
   a block behind it; when the reader has returned Ok it holds the length of all of them.
   */
  lemma PublishedProgress<S>(c: Config<S>, schedule: seq<Thread>)
    requires c.Valid() && c.cell == Some(0)
    ensures var s := Exec(c, schedule);
            && s.pos == |c.input| - |s.input| == TotalSize(AllRead(s))
            && s.published.Some? && var p := s.published.value;
            && p <= s.pos < p + BLOCK && p / BLOCK == s.pos / BLOCK
            && (exists k :: 0 <= k <= |AllRead(s)| && p == TotalSize(AllRead(s)[..k]))
            && (s.main != Returned(Ok(())) ==>
                  exists k :: 0 <= k <= |AllRead(s)| && p == TotalSize(AllRead(s)[..k])
                              && (k > 0 ==> TotalSize(AllRead(s)[..k - 1]) / BLOCK != p / BLOCK))
            && (s.main == Returned(Ok(())) ==> p == s.pos == TotalSize(Sent(s.data.log)))
  {
    hide ReplyTo, FramesBytes, Exec, PublishedAfter, StateAfter, WorkerInv, FreeInv, MainInv, DataInv;
    ExecInv(c, schedule);
    ExecProgress(c, schedule);
    var s := Exec(c, schedule);
    var read := AllRead(s);
    PublishedTrails(read);
    if s.main == Returned(Ok(())) {
      assert read == Sent(s.data.log);
      assert read[..|read|] == read;
    }
  }

  /** What is published never goes back. */
  lemma PublishedMonotone<S>(c: Config<S>, schedule: seq<Thread>, t: Thread)
    requires c.Valid() && c.cell == Some(0)
    ensures var now, next := Exec(c, schedule).published, Exec(c, schedule + [t]).published;
            now.Some? && next.Some? && now.value <= next.value
  {
    hide Inv, ProgressInv, Exec, Step, PublishedAfter, AllRead, TotalSize;
    var s, s' := Exec(c, schedule), Exec(c, schedule + [t]);
    ExecAppend(c, schedule, t);
    ExecInv(c, schedule);
    ExecProgress(c, schedule);
    ExecProgress(c, schedule + [t]);
    StepProgress(c, s, t);
    PublishedTrails(AllRead(s'));
    PublishedTrails(AllRead(s));
    SameOrOneMore(AllRead(s), AllRead(s'));
    PublishedCases(c, s);
    PublishedCases(c, s');
    ReturnedStays(c, s, t);
  }

  lemma SameOrOneMore(a: seq<Frame>, b: seq<Frame>)
    requires a <= b && |b| <= |a| + 1
    ensures b == a || (b != [] && b[..|b| - 1] == a)
  {
  }

  lemma PublishedCases<S>(c: Config<S>, s: State<S>)
    requires ProgressInv(c, s) && c.cell == Some(0)
    ensures s.published == Some(if s.main == Returned(Ok(())) then TotalSize(AllRead(s))
                                else PublishedAfter(Some(0), 0, AllRead(s)).value)
  {
    hide AllRead, TotalSize;
  }

  lemma ReturnedStays<S>(c: Config<S>, s: State<S>, t: Thread)
    ensures s.main.Returned? ==> Step(c, s, t).main == s.main && AllRead(Step(c, s, t)) == AllRead(s)
  {
    if s.main.Returned? {
      assert AllRead(Step(c, s, t)) == AllRead(s);
    }
  }

  lemma ExecAppend<S>(c: Config<S>, schedule: seq<Thread>, t: Thread)
    ensures Exec(c, schedule + [t]) == Step(c, Exec(c, schedule), t)
  {
    assert (schedule + [t])[..|schedule|] == schedule;
  }

  // ---------------------------------------------------------------------------------------
  // Termination

  /** The work that is left; waiting does not change it. */
  function Work<S>(s: State<S>): int {
    20 * |s.input|
    + (match s.main
       case AtLoop => 2
       case Sending => 12
       case Waiting => 4
       case Checking => 4
       case Returned(_) => 0)
    + (match s.worker
       case Popping => 2
       case Probing => 2
       case Handling(_) => 5
       case Giving(_) => 4
       case Exited => 0
       case Dead => 0)
    + 6 * s.data.Count()
  }

  /** The thread has something to do, and nothing the other one does takes that away. */
  predicate Busy<S>(s: State<S>, t: Thread) {
    if t == TheMain then
      s.main == AtLoop || s.main == Sending || (!s.main.Returned? && (!s.free.Empty() || Gone(s.worker)))
    else
      s.worker.Handling? || s.worker.Giving? || (!Gone(s.worker) && (!s.data.Empty() || s.main.Returned?))
  }

  /** How many of its turns a busy thread needs at most to get some work done. */
  function Turns<S>(s: State<S>, t: Thread): nat {
    if t == TheMain then
      if (s.main == Waiting && s.free.Empty()) || (s.main == Checking && !Gone(s.worker)) then 2 else 1
    else
      if (s.worker == Popping && s.data.Empty()) || (s.worker == Probing && !s.main.Returned?) then 2 else 1
  }

  lemma WorkNatural<S>(c: Config<S>, s: State<S>)
    requires Inv(c, s)
    ensures Work(s) >= 0
  {
    hide ReplyTo, InputInv, FreeInv, WorkerInv, MainInv;
  }

  /** As long as the receive is not over, a thread is busy. */
  lemma SomeBusy<S>(c: Config<S>, s: State<S>) returns (t: Thread)
    requires Inv(c, s) && !Finished(s)
    ensures Busy(s, t)
  {
    hide ReplyTo, InputInv, Answer, StateAfter, AllOk, Broken;
    t := if Busy(s, TheMain) then TheMain else TheWorker;
  }

  lemma BusyMain<S>(c: Config<S>, s: State<S>)
    requires Inv(c, s) && Busy(s, TheMain)
    ensures var s' := MainStep(c, s);
            Work(s') < Work(s) || (Work(s') == Work(s) && Busy(s', TheMain) && Turns(s', TheMain) < Turns(s, TheMain))
  {
    hide ReplyTo, ReadFrame, AllOk, Answer, InputInv, WorkerInv, FilledBuffer, StateAfter, Sent, Last, Publish;
  }

  lemma BusyWorker<S>(c: Config<S>, s: State<S>)
    requires Inv(c, s) && Busy(s, TheWorker)
    ensures var s' := WorkerStep(c, s);
            Work(s') < Work(s) || (Work(s') == Work(s) && Busy(s', TheWorker) && Turns(s', TheWorker) < Turns(s, TheWorker))
  {
    hide ReplyTo, ReadFrame, AllOk, Answer, InputInv, WorkerInv, MainInv, StateAfter, Sent, Last;
  }

  /** A turn of a busy thread gets work done, or brings it nearer to that. */
  lemma BusyTurn<S>(c: Config<S>, s: State<S>, t: Thread)
    requires Inv(c, s) && Busy(s, t)
    ensures var s' := Step(c, s, t);
            Work(s') < Work(s) || (Work(s') == Work(s) && Busy(s', t) && Turns(s', t) < Turns(s, t))
  {
    hide Inv, MainStep, WorkerStep, Work, Busy, Turns;
    if t == TheMain {
      BusyMain(c, s);
    } else {
      BusyWorker(c, s);
    }
  }

  lemma MainLeavesBusy<S>(c: Config<S>, s: State<S>)
    requires Inv(c, s) && Busy(s, TheWorker)
    ensures var s' := MainStep(c, s);
            Work(s') < Work(s) || (Work(s') == Work(s) && Busy(s', TheWorker) && Turns(s', TheWorker) <= Turns(s, TheWorker))
  {
    hide ReplyTo, ReadFrame, AllOk, Answer, InputInv, WorkerInv, FilledBuffer, StateAfter, Sent, Last, Publish;
  }

  lemma WorkerLeavesBusy<S>(c: Config<S>, s: State<S>)
    requires Inv(c, s) && Busy(s, TheMain)
    ensures var s' := WorkerStep(c, s);
            Work(s') < Work(s) || (Work(s') == Work(s) && Busy(s', TheMain) && Turns(s', TheMain) <= Turns(s, TheMain))
  {
    hide ReplyTo, ReadFrame, AllOk, Answer, InputInv, WorkerInv, MainInv, StateAfter, Sent, Last;
  }

  /** A turn of the other thread gets work done, or leaves the busy thread at least as near to that. */
  lemma OtherTurn<S>(c: Config<S>, s: State<S>, t: Thread, u: Thread)
    requires Inv(c, s) && Busy(s, t) && u != t
    ensures var s' := Step(c, s, u);
            Work(s') < Work(s) || (Work(s') == Work(s) && Busy(s', t) && Turns(s', t) <= Turns(s, t))
  {
    hide Inv, MainStep, WorkerStep, Work, Busy, Turns;
    if t == TheMain {
      WorkerLeavesBusy(c, s);
    } else {
      MainLeavesBusy(c, s);
    }
  }

  /** The first `n` turns of an endless schedule. */
  function Prefix(turns: nat -> Thread, n: nat): (schedule: seq<Thread>)
    ensures |schedule| == n
    ensures forall i :: 0 <= i < n ==> schedule[i] == turns(i)
  {
    seq(n, i requires 0 <= i < n => turns(i))
  }

  lemma PrefixNext(turns: nat -> Thread, n: nat)
    ensures Prefix(turns, n + 1) == Prefix(turns, n) + [turns(n)]
  {
  }

  ghost predicate Later(turns: nat -> Thread, n: nat, t: Thread) {
    exists m: nat :: n <= m && turns(m) == t
  }

  /** Both threads go on taking turns for ever. */
  ghost predicate Fair(turns: nat -> Thread) {
    forall n: nat, t :: Later(turns, n, t)
  }

  /** Under a fair schedule some work gets done before long. */
  lemma {:induction false} SomeWorkDone<S>(c: Config<S>, turns: nat -> Thread, n: nat, t: Thread, due: nat) returns (m: nat)
    requires c.Valid() && Fair(turns) && Busy(Exec(c, Prefix(turns, n)), t)
    requires n <= due && turns(due) == t
    ensures n < m && Work(Exec(c, Prefix(turns, m))) < Work(Exec(c, Prefix(turns, n)))
    decreases Turns(Exec(c, Prefix(turns, n)), t), due - n
  {
    hide Inv, Step, Exec, Work, Busy, Turns, Prefix;
    var schedule := Prefix(turns, n);
    var s := Exec(c, schedule);
    ExecInv(c, schedule);
    PrefixNext(turns, n);
    ExecAppend(c, schedule, turns(n));
    if turns(n) == t {
      BusyTurn(c, s, t);
    } else {
      OtherTurn(c, s, t, turns(n));
    }
    m := n + 1;
    if Work(Exec(c, Prefix(turns, m))) >= Work(s) {
      var next := due;
      if turns(n) == t {
        assert Later(turns, m, t);
        next :| m <= next && turns(next) == t;
      }
      m := SomeWorkDone(c, turns, m, t, next);
    }
  }

  lemma {:induction false} EndsAfter<S>(c: Config<S>, turns: nat -> Thread, n: nat) returns (m: nat)
    requires c.Valid() && Fair(turns)
    ensures n <= m && Finished(Exec(c, Prefix(turns, m)))
    decreases Work(Exec(c, Prefix(turns, n)))
  {
    hide Inv, Step, Exec, Work, Busy, Turns, Prefix, Finished;
    var s := Exec(c, Prefix(turns, n));
    ExecInv(c, Prefix(turns, n));
    if Finished(s) {
      m := n;
    } else {
      var t := SomeBusy(c, s);
      assert Later(turns, n, t);
      var due: nat :| n <= due && turns(due) == t;
      var next := SomeWorkDone(c, turns, n, t, due);
      WorkNatural(c, s);
      m := EndsAfter(c, turns, next);
    }
  }

  /** However the threads take turns, as long as both go on doing so, the receive comes to its end. */
  lemma FairEnds<S>(c: Config<S>, turns: nat -> Thread)
    requires c.Valid() && Fair(turns)
    ensures exists n: nat :: Finished(Exec(c, Prefix(turns, n)))
  {
    hide Exec, Prefix, Finished;
    var n := EndsAfter(c, turns, 0);
  }

  /** From every state any interleaving can reach, the receive can still be brought to its end. */
  lemma CanFinish<S>(c: Config<S>, schedule: seq<Thread>) returns (more: seq<Thread>)
    requires c.Valid()
    ensures Finished(Exec(c, schedule + more))
  {
    hide Exec, Finished;
    var n := |schedule|;
    var turns: nat -> Thread :=
      (i: nat) => if i < |schedule| then schedule[i] else if i % 2 == 0 then TheMain else TheWorker;
    forall k: nat, t ensures Later(turns, k, t) {
      var m := 2 * (k + n) + if t == TheMain then 0 else 1;
      assert k <= m && turns(m) == t;
    }
    assert Prefix(turns, n) == schedule;
    var m := EndsAfter(c, turns, n);
    more := Prefix(turns, m)[n..];
    assert Prefix(turns, m) == schedule + more;
  }
}
