/** What every interleaving of the buffered receive promises, and what only some of them do. */
module BufferedProperties {
  import opened Bytes
  import opened Frames
  import opened ReadStream
  import opened BufferedReceive

  // ---------------------------------------------------------------------------------------
  // Buffers

  function MainHolds<S>(s: State<S>): nat {
    if s.main == Waiting || s.main == Checking then 0 else 1
  }

  function WorkerHolds<S>(s: State<S>): nat {
    if s.worker.Handling? || s.worker.Giving? then 1 else 0
  }

  lemma AllOkAt<S>(c: Config<S>, fs: seq<Frame>, k: nat)
    ensures 0 < k < |fs| && AllOk(c, fs[..|fs| - 1]) ==> !Failing(ReplyTo(c, fs[..k]))
  {
    if 0 < k < |fs| {
      assert fs[..|fs| - 1][..k] == fs[..k];
    }
  }

  /** An error in the free ring, or taken from it, is the answer to the last handled command. */
  lemma FailureIsLast<S>(c: Config<S>, s: State<S>, i: nat)
    requires Inv(c, s) && i < |s.free.log| && s.free.log[i].Failure?
    ensures s.handled != [] && i == c.nbuf - 2 + |s.handled| && ReplyTo(c, s.handled) == Failed(s.free.log[i].error)
    ensures s.worker == Exited
  {
    hide ReplyTo, InputInv, AllOk;
    assert Answer(c, s.handled, i, s.free.log[i]);
    assert s.handled[..|s.handled|] == s.handled;
    AllOkAt(c, s.handled, if i < c.nbuf - 1 then 0 else i - c.nbuf + 2);
  }

  /** Until the handler fails no buffer is lost and none is made. */
  lemma Conservation<S>(c: Config<S>, schedule: seq<Thread>)
    requires c.Valid() && !Broken(c, Exec(c, schedule).handled)
    ensures var s := Exec(c, schedule);
            MainHolds(s) + s.data.Count() + WorkerHolds(s) + s.free.Count() == c.nbuf
  {
    hide ReplyTo, InputInv;
    ExecInv(c, schedule);
    var s := Exec(c, schedule);
    if s.main.Returned? && s.free.head > 0 && s.free.log[s.free.head - 1].Failure? {
      FailureIsLast(c, s, s.free.head - 1);
    }
  }

  /** Neither ring is ever full when something is pushed, so no push ever fails. */
  lemma RingsNeverFull<S>(c: Config<S>, schedule: seq<Thread>)
    requires c.Valid()
    ensures var s := Exec(c, schedule);
            && (s.main == Sending ==> s.data.Count() < c.nbuf)
            && (s.worker.Giving? ==> s.free.Count() < c.nbuf)
  {
    ExecInv(c, schedule);
    var s := Exec(c, schedule);
    if s.main == Sending {
      DataRingNotFull(c, s);
    }
    if s.worker.Giving? {
      FreeRingNotFull(c, s);
    }
  }

  predicate MainWaits<S>(s: State<S>) {
    (s.main == Waiting || s.main == Checking) && s.free.Empty()
  }

  predicate WorkerWaits<S>(s: State<S>) {
    (s.worker == Popping || s.worker == Probing) && s.data.Empty()
  }

  /** The two live threads never both wait on empty rings. */
  lemma NoDeadlock<S>(c: Config<S>, schedule: seq<Thread>)
    requires c.Valid()
    ensures var s := Exec(c, schedule); !(MainWaits(s) && WorkerWaits(s))
  {
    hide ReplyTo, InputInv;
    ExecInv(c, schedule);
  }

  // ---------------------------------------------------------------------------------------
  // Refinement of the sequential receive

  /** The handler stops a stream only at its END command. */
  ghost predicate StopsOnlyAtEnd<S(!new)>(c: Config<S>) {
    forall s, f :: c.h(s, f, c.version).1 == Done ==> f.command == END
  }

  function Sequential<S>(c: Config<S>): Run<S> {
    Receive(c.h, c.start, c.version, c.input)
  }

  lemma {:induction false} AllMoreAppend<S>(h: CmdHandler<S>, s: S, version: nat, fs: seq<Frame>, f: Frame)
    requires AllMore(h, s, version, fs) && h(StateAfter(h, s, version, fs), f, version).1 == More
    ensures AllMore(h, s, version, fs + [f])
    decreases |fs|
  {
    if fs == [] {
    } else {
      assert (fs + [f])[1..] == fs[1..] + [f];
      AllMoreAppend(h, h(s, fs[0], version).0, version, fs[1..], f);
    }
  }

  lemma {:induction false} AllMoreOfOk<S(!new)>(c: Config<S>, fs: seq<Frame>)
    requires StopsOnlyAtEnd(c) && AllOk(c, fs) && forall f :: f in fs ==> f.command != END
    ensures AllMore(c.h, c.start, c.version, fs)
    decreases |fs|
  {
    if fs == [] {
    } else {
      var init, f := fs[..|fs| - 1], fs[|fs| - 1];
      assert forall k :: 0 < k <= |init| ==> fs[..k] == init[..k];
      AllMoreOfOk(c, init);
      assert fs[..|fs|] == fs && !Failing(ReplyTo(c, fs));
      assert c.h(StateAfter(c.h, c.start, c.version, init), f, c.version).1 == ReplyTo(c, fs);
      AllMoreAppend(c.h, c.start, c.version, init, f);
      assert init + [f] == fs;
    }
  }

  lemma SplitFrames(fs: seq<Frame>, n: nat)
    requires 0 < n <= |fs|
    ensures FramesBytes(fs) == FramesBytes(fs[..n - 1]) + (FrameBytes(fs[n - 1]) + FramesBytes(fs[n..]))
  {
    hide FrameBytes, FramesBytes;
    var a, f, b := fs[..n - 1], fs[n - 1], fs[n..];
    SplitAt(fs, n - 1);
    FramesBytesConcat(a + [f], b);
    FramesBytesAppend(a, f);
    ConcatAssociative(FramesBytes(a), FrameBytes(f), FramesBytes(b));
    assert FramesBytes(fs) == (FramesBytes(a) + FrameBytes(f)) + FramesBytes(b);
  }

  lemma ConcatAssociative(a: bytes, b: bytes, c: bytes)
    ensures (a + b) + c == a + (b + c)
  {
  }

  lemma HandledOfRead<S>(c: Config<S>, s: State<S>)
    requires Inv(c, s)
    ensures |s.handled| <= |AllRead(s)| && s.handled == AllRead(s)[..|s.handled|]
    ensures forall i :: 0 <= i < |s.handled| - 1 ==> s.handled[i].command != END
  {
    hide StateAfter, WorkerInv, FreeInv, InputInv;
    var sent := Sent(s.data.log);
    assert forall i :: 0 <= i < |s.handled| ==> s.handled[i] == sent[i];
  }

  /** The stream splits around the last handled command. */
  lemma InputSplit<S>(c: Config<S>, s: State<S>) returns (rest: bytes)
    requires Inv(c, s) && s.handled != []
    ensures var init := s.handled[..|s.handled| - 1];
            var f := s.handled[|s.handled| - 1];
            && AllValid(init) && f.Valid() && (forall g :: g in init ==> g.command != END)
            && c.input == FramesBytes(init) + (FrameBytes(f) + rest)
  {
    hide StateAfter, WorkerInv, FreeInv, DataInv, MainInv, FrameBytes, FramesBytes, AllRead;
    var n, read := |s.handled|, AllRead(s);
    HandledOfRead(c, s);
    SplitFrames(read, n);
    assert read[..n - 1] == s.handled[..n - 1];
    rest := FramesBytes(read[n..]) + s.input;
  }

  /** The sequential receive gets as far as the last command the buffered one handled. */
  lemma SequentialReaches<S(!new)>(c: Config<S>, s: State<S>) returns (rest: bytes)
    requires Inv(c, s) && StopsOnlyAtEnd(c) && s.handled != []
    ensures var init := s.handled[..|s.handled| - 1];
            var f := s.handled[|s.handled| - 1];
            && f.Valid()
            && Sequential(c) == Prepend(init, Receive(c.h, StateAfter(c.h, c.start, c.version, init), c.version,
                                                      FrameBytes(f) + rest))
  {
    hide StateAfter, ReplyTo, AllOk, AllMore, Receive, FrameBytes, FramesBytes, DataInv, FreeInv, MainInv, InputInv;
    rest := InputSplit(c, s);
    var init, f := s.handled[..|s.handled| - 1], s.handled[|s.handled| - 1];
    AllMoreOfOk(c, init);
    ReceivePrefix(c.h, c.start, c.version, init, FrameBytes(f) + rest);
  }

  /**
   In every interleaving the handler is run on a prefix of the commands the sequential receive
   runs it on: same commands, same payloads, same order.
   */
  lemma Refines<S(!new)>(c: Config<S>, schedule: seq<Thread>)
    requires c.Valid() && StopsOnlyAtEnd(c)
    ensures Exec(c, schedule).handled <= Sequential(c).handled
  {
    hide Inv, ReadFrame, Sequential, FrameBytes;
    ExecInv(c, schedule);
    var s := Exec(c, schedule);
    if s.handled != [] {
      var rest := SequentialReaches(c, s);
      var f := s.handled[|s.handled| - 1];
      ReadFrameOfBytes(f, rest);
      assert s.handled == s.handled[..|s.handled| - 1] + [f];
    }
  }

  /** A handler failure stops the sequential receive too. */
  lemma BrokenStopsSequential<S(!new)>(c: Config<S>, s: State<S>)
    requires Inv(c, s) && StopsOnlyAtEnd(c) && Broken(c, s.handled)
    ensures !Sequential(c).result.Ok?
  {
    hide Inv, ReadFrame, Sequential, FrameBytes;
    var rest := SequentialReaches(c, s);
    ReadFrameOfBytes(s.handled[|s.handled| - 1], rest);
  }

  /** A stream that becomes unreadable before its END fails the sequential receive. */
  lemma {:induction false} UnreadableStopsSequential<S(!new)>(c: Config<S>, s: S, fs: seq<Frame>, rest: bytes)
    requires StopsOnlyAtEnd(c) && AllValid(fs) && !ReadFrame(rest).Ok?
    requires forall f :: f in fs ==> f.command != END
    ensures !Receive(c.h, s, c.version, FramesBytes(fs) + rest).result.Ok?
    decreases |fs|
  {
    hide ReadFrame, FrameBytes;
    if fs == [] {
      assert FramesBytes(fs) + rest == rest;
    } else {
      ReadFrameOfBytes(fs[0], FramesBytes(fs[1..]) + rest);
      assert FramesBytes(fs) + rest == FrameBytes(fs[0]) + (FramesBytes(fs[1..]) + rest);
      UnreadableStopsSequential(c, c.h(s, fs[0], c.version).0, fs[1..], rest);
    }
  }

  /** The buffered receive never fails, in any interleaving, on a stream the sequential accepts. */
  lemma AcceptsWhatSequentialAccepts<S(!new)>(c: Config<S>, schedule: seq<Thread>)
    requires c.Valid() && StopsOnlyAtEnd(c) && Sequential(c).result.Ok?
    ensures var s := Exec(c, schedule);
            && (s.main.Returned? ==> s.main == Returned(Ok(())))
            && s.worker != Dead
            && (Finished(s) ==> CallResult(s) == Ok(()))
  {
    hide ReplyTo, Receive, ReadFrame, Inv;
    ExecInv(c, schedule);
    var s := Exec(c, schedule);
    if Broken(c, s.handled) {
      BrokenStopsSequential(c, s);
    }
    ReturnsOk(c, s);
  }

  lemma ReturnsOk<S(!new)>(c: Config<S>, s: State<S>)
    requires Inv(c, s) && StopsOnlyAtEnd(c) && Sequential(c).result.Ok? && !Broken(c, s.handled)
    ensures s.main.Returned? ==> s.main == Returned(Ok(()))
    ensures s.worker != Dead
  {
    hide ReplyTo, Receive, ReadFrame, FramesBytes, StateAfter;
    if s.main.Returned? && s.main.result.Err? {
      var sent := Sent(s.data.log);
      if s.free.head > 0 && s.free.log[s.free.head - 1].Failure? {
        FailureIsLast(c, s, s.free.head - 1);
      } else {
        assert AllRead(s) == sent;
        assert forall f :: f in sent ==> f.command != END;
        UnreadableStopsSequential(c, c.start, sent, s.input);
      }
    }
  }

  // ---------------------------------------------------------------------------------------
  // Lag

  /**
   After the handler failed on a command the reader pushes at most nbuf - 1 further commands;
   it returns Ok only if the command is among the last nbuf - 1.
   */
  lemma ErrorLag<S>(c: Config<S>, schedule: seq<Thread>)
    requires c.Valid() && Broken(c, Exec(c, schedule).handled)
    ensures var s := Exec(c, schedule);
            var later := |s.data.log| - |s.handled|;
            && 0 <= later <= c.nbuf - 1
            && (s.main == Returned(Ok(())) ==> later + 1 <= c.nbuf - 1)
            && (s.main.Returned? && s.main.result.Err? ==>
                  || ReadFrame(s.input) == Err(s.main.result.error)
                  || ReplyTo(c, s.handled) == Failed(s.main.result.error))
  {
    hide ReplyTo, ReadFrame, InputInv;
    ExecInv(c, schedule);
    var s := Exec(c, schedule);
    var n, got := |s.handled|, s.free.head;
    if s.worker == Exited {
      var last := c.nbuf - 2 + n;
      assert s.handled[..n] == s.handled;
      assert Answer(c, s.handled, last, s.free.log[last]);
    }
    if got > 0 && s.free.log[got - 1].Failure? {
      FailureIsLast(c, s, got - 1);
    }
  }

  lemma AllOkPrefix<S>(c: Config<S>, fs: seq<Frame>, k: nat)
    requires k <= |fs| && AllOk(c, fs)
    ensures AllOk(c, fs[..k])
  {
    hide ReplyTo;
    assert forall m :: 0 < m <= k ==> fs[..k][..m] == fs[..m];
  }

  /**
   When the buffered receive returns Ok, the stream was read up to its first END, and all its
   commands but the last nbuf - 1 have been handled without failing.
   */
  lemma OkMeansHandled<S>(c: Config<S>, schedule: seq<Thread>)
    requires c.Valid() && Exec(c, schedule).main == Returned(Ok(()))
    ensures var s := Exec(c, schedule);
            var sent := Sent(s.data.log);
            var sure := |sent| - (c.nbuf - 1);
            && c.input == FramesBytes(sent) + s.input
            && Last(sent) == END && (forall i :: 0 <= i < |sent| - 1 ==> sent[i].command != END)
            && sure <= |s.handled| <= |sent|
            && s.handled == sent[..|s.handled|]
            && (sure >= 0 ==> AllOk(c, sent[..sure]))
  {
    hide ReplyTo, FramesBytes, AllOk, Answer, Last, Broken, WorkerInv, FreeInv, Exec;
    ExecInv(c, schedule);
    OkMeansNotBroken(c, schedule);
    assert AllRead(Exec(c, schedule)) == Sent(Exec(c, schedule).data.log);
  }

  lemma OkCount<S>(c: Config<S>, s: State<S>)
    requires Inv(c, s) && s.main == Returned(Ok(()))
    ensures |s.data.log| - (c.nbuf - 1) <= |s.handled|
  {
    hide InputInv, WorkerInv, Answer, Last;
  }

  lemma OkMeansNotBroken<S>(c: Config<S>, schedule: seq<Thread>)
    requires c.Valid() && Exec(c, schedule).main == Returned(Ok(()))
    ensures var s := Exec(c, schedule);
            var sure := |s.data.log| - (c.nbuf - 1);
            && sure <= |s.handled| && s.handled <= Sent(s.data.log)
            && (sure >= 0 ==> AllOk(c, Sent(s.data.log)[..sure]))
  {
    hide ReplyTo, FramesBytes, AllOk, Answer, Last, InputInv, FreeInv, Exec;
    ExecInv(c, schedule);
    var s := Exec(c, schedule);
    var sure, n := |s.data.log| - (c.nbuf - 1), |s.handled|;
    OkCount(c, s);
    if sure >= 0 {
      if Broken(c, s.handled) {
        ErrorLag(c, schedule);
        AllOkPrefix(c, s.handled[..n - 1], sure);
        assert s.handled[..n - 1][..sure] == Sent(s.data.log)[..sure];
      } else {
        AllOkWhole(c, s.handled);
        AllOkPrefix(c, s.handled, sure);
        assert s.handled[..sure] == Sent(s.data.log)[..sure];
      }
    }
  }

  lemma BrokenIsFinal<S>(c: Config<S>, s: State<S>, t: Thread)
    requires Inv(c, s) && Broken(c, s.handled)
    ensures Step(c, s, t).handled == s.handled
  {
    hide ReplyTo, InputInv;
  }

  /** After the handler failed on a command no later command is ever handled. */
  lemma {:induction false} NothingAfterFailure<S>(c: Config<S>, schedule: seq<Thread>, more: seq<Thread>)
    requires c.Valid() && Broken(c, Exec(c, schedule).handled)
    ensures Exec(c, schedule + more).handled == Exec(c, schedule).handled
    decreases |more|
  {
    hide Inv, Step;
    if more == [] {
      assert schedule + more == schedule;
    } else {
      var init := more[..|more| - 1];
      NothingAfterFailure(c, schedule, init);
      ExecInv(c, schedule + init);
      assert (schedule + more)[..|schedule + more| - 1] == schedule + init;
      BrokenIsFinal(c, Exec(c, schedule + init), more[|more| - 1]);
    }
  }

  // ---------------------------------------------------------------------------------------
  // The result of the call

  /**
   A finished call panics exactly if the reader did or the handler did on the last command it handled;
   otherwise it returns what the reader returned.
   */
  lemma CallMeans<S>(c: Config<S>, schedule: seq<Thread>)
    requires c.Valid() && Finished(Exec(c, schedule))
    ensures var s := Exec(c, schedule);
            var handlerPanicked := s.handled != [] && ReplyTo(c, s.handled) == Panicked;
            && (CallResult(s) == Panic <==> s.main == Returned(Panic) || handlerPanicked)
            && (CallResult(s) != Panic ==> s.main == Returned(CallResult(s)))
  {
    hide ReplyTo, InputInv, FreeInv, DataInv, AllOk;
    ExecInv(c, schedule);
  }
}
