/** From the bytes of a stream to the strings given to the system: the reader, the parser and the handler together. */
module ReceiveFull {
  import opened Bytes
  import opened Frames
  import opened ReadStream
  import opened Commands
  import opened HandleFull

  const ALL_WORK := Sys(first := true, second := true, rest := true, noXattrAt := false)

  /** The handler's memory, and every call it made so far. */
  datatype Log = Log(state: State, calls: seq<seq<bytes>>)

  function ReplyOf(o: Outcome): Reply {
    match o
    case More => Reply.More
    case Finished => Done
    case Failed(_) => Reply.Failed(Frames.Error.Handler(0))
    case Panicked => Reply.Panicked
  }

  /** The handler on a file system whose calls may fail, depending on the command and the calls made before. */
  function Under(mount: bytes, sys: (seq<seq<bytes>>, Command) -> Sys): Methods<Log> {
    (log: Log, c: Command) =>
      var e := Handle(log.state, mount, c, sys(log.calls, c));
      (Log(e.state, log.calls + e.calls), ReplyOf(e.outcome))
  }

  /** The handler on a file system where every call succeeds. */
  function Applied(mount: bytes): Methods<Log> {
    Under(mount, AllWork)
  }

  function AllWork(calls: seq<seq<bytes>>, c: Command): Sys {
    ALL_WORK
  }

  lemma AppliedStep(mount: bytes, log: Log, c: Command)
    ensures var e := Handle(log.state, mount, c, ALL_WORK);
            Applied(mount)(log, c) == (Log(e.state, log.calls + e.calls), ReplyOf(e.outcome))
  {
    hide Handle;
    assert AllWork(log.calls, c) == ALL_WORK;
  }

  /**
   The first command that does not simply succeed ends the receive, with nothing behind it read: the receive
   is Ok exactly if that command ends the stream, an error exactly if it fails, and a panic if it panics.
   */
  lemma FirstFailureEnds(mount: bytes, sys: (seq<seq<bytes>>, Command) -> Sys, version: nat, log: Log,
                         fs: seq<Frame>, f: Frame, c: Command, rest: bytes)
    requires AllValid(fs) && f.Valid() && AllMore(Dispatch(Under(mount, sys)), log, version, fs)
    requires ParseCommand(f.command, f.payload, version) == Ok(c)
    ensures var before := StateAfter(Dispatch(Under(mount, sys)), log, version, fs);
            var e := Handle(before.state, mount, c, sys(before.calls, c));
            var run := Receive(Dispatch(Under(mount, sys)), log, version, FramesBytes(fs) + (FrameBytes(f) + rest));
            e.outcome != Outcome.More ==>
              && run.state == Log(e.state, before.calls + e.calls) && run.handled == fs + [f] && run.rest == rest
              && (run.result == Ok(()) <==> e.outcome == Finished)
              && (run.result.Err? <==> e.outcome.Failed?)
              && (run.result == Panic <==> e.outcome == Outcome.Panicked)
  {
    hide Handle, ParseCommand, FramesBytes, FrameBytes, Receive, StateAfter, AllMore;
    var h := Dispatch(Under(mount, sys));
    var before := StateAfter(h, log, version, fs);
    if Handle(before.state, mount, c, sys(before.calls, c)).outcome != Outcome.More {
      EndsAtReply(h, log, version, fs, f, rest);
    }
  }

  /** A command for the middle of a stream whose paths leave room for the subvolume in front of them. */
  predicate Applicable(s: State, c: Command) {
    && !c.Subvol? && !c.End? && !c.Snapshot?
    && (forall p <- Named(c) :: |s.current| + |p| < PATH_MAX)
    && (c.Clone? ==> c.cloneUuid == s.uuid)
    && (c.SetXattr? || c.RemoveXattr? ==> |c.xattrName| <= XATTR_NAME_MAX)
  }

  function Calls(s: State, mount: bytes, cs: seq<Command>): seq<seq<bytes>> {
    if cs == [] then [] else Handle(s, mount, cs[0], ALL_WORK).calls + Calls(s, mount, cs[1..])
  }

  lemma ApplicableSucceeds(s: State, mount: bytes, c: Command)
    requires s.current != [] && Applicable(s, c)
    ensures var e := Handle(s, mount, c, ALL_WORK); e.outcome == Outcome.More && e.state == s
  {
    hide CStr, OnSubvol, OnEnd;
    KeptInside(s, mount, c, ALL_WORK);
  }

  lemma {:induction false} BodyWants(log: Log, mount: bytes, body: seq<Command>, final: Log)
    requires log.state.current != [] && (forall c <- body :: Applicable(log.state, c))
    requires Wants(Applied(mount), log.(calls := log.calls + Calls(log.state, mount, body)), [End], final)
    ensures Wants(Applied(mount), log, body + [End], final)
    decreases |body|
  {
    hide Handle, Applicable;
    if body == [] {
      assert log.calls + [] == log.calls && body + [End] == [End];
    } else {
      ApplicableSucceeds(log.state, mount, body[0]);
      AppliedStep(mount, log, body[0]);
      var here := Handle(log.state, mount, body[0], ALL_WORK).calls;
      assert log.calls + (here + Calls(log.state, mount, body[1..])) == (log.calls + here) + Calls(log.state, mount, body[1..]);
      assert (body + [End])[1..] == body[1..] + [End];
      BodyWants(log.(calls := log.calls + here), mount, body[1..], final);
    }
  }

  lemma EndWants(log: Log, mount: bytes)
    requires log.state.current != [] && |log.state.current| < PATH_MAX
    ensures Wants(Applied(mount), log, [End],
                  Log(State([], NO_UUID, 0), log.calls + [[CStr(log.state.current)]]))
  {
    hide CStr;
    assert [] + log.state.current == log.state.current;
    AppliedStep(mount, log, End);
  }

  lemma SubvolWants(start: Log, mount: bytes, c: Command, more: seq<Command>, final: Log)
    requires c.Subvol? && more != [] && start.state.current == [] && Creatable(c.path)
    requires Wants(Applied(mount), Log(State(Slashed(c.path), c.uuid, c.ctransid), start.calls + [[c.path]]), more, final)
    ensures Wants(Applied(mount), start, [c] + more, final)
  {
    assert ([c] + more)[1..] == more;
    AppliedStep(mount, start, c);
  }

  /**
   A stream that sends a subvolume that can be created, any applicable commands and the end, received on a file system where
   calls succeed, makes exactly the calls of those commands inside that subvolume, in order, then opens
   the subvolume's path for the end; the handler is then as good as new and the reader just after END.
   */
  lemma BytesToCalls(version: nat, mount: bytes, c: Command, body: seq<Command>, rest: bytes)
    requires c.Subvol? && Creatable(c.path)
    requires Stream([c] + (body + [End]), version)
    requires forall b <- body :: Applicable(State(Slashed(c.path), c.uuid, c.ctransid), b)
    ensures var idle := State([], NO_UUID, 0);
            var inside := State(Slashed(c.path), c.uuid, c.ctransid);
            var run := ReceiveStream(Dispatch(Applied(mount)), Log(idle, []),
                                     StreamBytes([c] + (body + [End]), version) + rest);
            && run.result == Ok(()) && run.rest == rest
            && run.state == Log(idle, [[c.path]] + Calls(inside, mount, body) + [[Slashed(c.path)]])
  {
    hide Wants, Applicable, Calls, Stream, StreamBytes, StreamFrames, CStr, Applied, Slashed;
    var idle := State([], NO_UUID, 0);
    var inside := State(Slashed(c.path), c.uuid, c.ctransid);
    var log := Log(inside, [[c.path]]);
    var after := log.(calls := log.calls + Calls(inside, mount, body));
    var final := Log(idle, after.calls + [[CStr(Slashed(c.path))]]);
    SlashedLength(c.path);
    CStrWhole(Slashed(c.path));
    EndWants(after, mount);
    BodyWants(log, mount, body, final);
    assert [] + [[c.path]] == [[c.path]];
    SubvolWants(Log(idle, []), mount, c, body + [End], final);
    EndToEnd(Applied(mount), Log(idle, []), version, [c] + (body + [End]), final, rest);
  }

  lemma RefusedReply(mount: bytes, c: Command)
    requires c.Subvol? && !Creatable(c.path)
    ensures var (log, reply) := Applied(mount)(Log(State([], NO_UUID, 0), []), c);
            log.calls == []
            && reply == if |Slashed(c.path)| > PATH_MAX then Reply.Panicked else Reply.Failed(Frames.Error.Handler(0))
  {
    hide Slashed;
    AppliedStep(mount, Log(State([], NO_UUID, 0), []), c);
  }

  /**
   Otherwise, with a NUL in the subvolume's path or too long a one, the receive ends right there: nothing
   was asked of the system, and it is an error, or a panic if not even the path buffers hold the path.
   */
  lemma RefusedSubvol(version: nat, mount: bytes, c: Command, more: seq<Command>, rest: bytes)
    requires c.Subvol? && !Creatable(c.path) && Stream([c] + more, version)
    ensures var run := ReceiveStream(Dispatch(Applied(mount)), Log(State([], NO_UUID, 0), []),
                                     StreamBytes([c] + more, version) + rest);
            && run.result == (if |Slashed(c.path)| > PATH_MAX then Panic else Err(Frames.Error.Handler(0)))
            && run.state.calls == [] && run.handled == [FrameOf(c, version)]
  {
    hide StreamFrames, Applied, Slashed, Creatable, FrameBytes, ReadFrame, Frames.ReadHeader, HeaderBytes, Sendable, Payload, ParseCommand;
    var cs := [c] + more;
    FirstFrame(cs, version);
    var f := FrameOf(c, version);
    var frames := StreamFrames(cs, version);
    var tail := FramesBytes(frames[1..]) + rest;
    assert FramesBytes(frames) == FrameBytes(f) + FramesBytes(frames[1..]);
    assert StreamBytes(cs, version) + rest == HeaderBytes(version) + (FrameBytes(f) + tail);
    HeaderAccepted(StreamBytes(cs, version) + rest, version, FrameBytes(f) + tail);
    ReadFrameOfBytes(f, tail);
    ParseCommandOfPayload(c, version);
    RefusedReply(mount, c);
  }

  lemma FirstFrame(cs: seq<Command>, version: nat)
    requires Stream(cs, version)
    ensures version <= SUPPORTED_VERSION && Sendable(cs[0], version) && |Payload(cs[0], version)| < 0x1_0000_0000
    ensures StreamFrames(cs, version) != [] && StreamFrames(cs, version)[0] == FrameOf(cs[0], version)
    ensures Key(cs[0]) < 0x1_0000
  {
    hide Sendable, Payload;
  }
}
