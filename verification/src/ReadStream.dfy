/** The sequential receive loop over a send stream, and the progress it publishes. */
module ReadStream {
  import opened Bytes
  import opened Crc
  import opened Frames

  /** What a handler says after a command: Ok(Some), Ok(None), Err, or no answer at all. */
  datatype Reply = More | Done | Failed(error: Error) | Panicked

  /** A stream handler: the new handler state and the reply, for a frame and a stream version. */
  type CmdHandler<!S> = (S, Frame, nat) -> (S, Reply)

  /** A whole receive: how it ended, the handler state, the frames handled, the unread input. */
  datatype Run<S> = Run(result: Result<()>, state: S, handled: seq<Frame>, rest: bytes)

  /** Read one frame, handle it, and go on until the handler is done or something fails. */
  function Receive<S>(h: CmdHandler<S>, s: S, version: nat, input: bytes): Run<S>
    decreases |input|
  {
    match ReadFrame(input)
    case Err(e) => Run(Err(e), s, [], input)
    case Panic => Run(Panic, s, [], input)
    case Ok((f, rest)) =>
      var (s', reply) := h(s, f, version);
      match reply
      case More =>
        var run := Receive(h, s', version, rest);
        run.(handled := [f] + run.handled)
      case Done => Run(Ok(()), s', [f], rest)
      case Failed(e) => Run(Err(e), s', [f], rest)
      case Panicked => Run(Panic, s', [f], rest)
  }

  /** A receive from the very start of a stream. */
  function ReceiveStream<S>(h: CmdHandler<S>, s: S, input: bytes): Run<S> {
    match ReadHeader(input)
    case Ok((version, rest)) => Receive(h, s, version, rest)
    case Err(e) => Run(Err(e), s, [], input)
    case Panic => Run(Panic, s, [], input)
  }

  function Prepend<S>(fs: seq<Frame>, run: Run<S>): Run<S> {
    run.(handled := fs + run.handled)
  }

  /** The result of a receive whose handler does not want more. */
  function Verdict(reply: Reply): Result<()> {
    match reply
    case Failed(e) => Err(e)
    case Panicked => Panic
    case _ => Ok(())
  }

  /** One turn of the loop, with `sofar` handled before it. */
  lemma ReceiveTurn<S>(h: CmdHandler<S>, s: S, version: nat, input: bytes, sofar: seq<Frame>)
    ensures var read := ReadFrame(input);
            var here := Prepend(sofar, Receive(h, s, version, input));
            && (read.Err? ==> here == Run(Err(read.error), s, sofar, input))
            && (read.Ok? ==>
                  var (f, rest) := read.value;
                  var (s', reply) := h(s, f, version);
                  && (reply == More ==> here == Prepend(sofar + [f], Receive(h, s', version, rest)))
                  && (reply != More ==> here == Run(Verdict(reply), s', sofar + [f], rest)))
  {
    hide ReadFrame;
    match ReadFrame(input)
    case Ok((f, rest)) =>
      var (s', reply) := h(s, f, version);
      if reply == More {
        var run := Receive(h, s', version, rest);
        assert sofar + ([f] + run.handled) == sofar + [f] + run.handled;
      }
    case Err(_) =>
      assert sofar + [] == sofar;
  }

  /** The handler state after `fs`, if the handler asks for more after each of them. */
  ghost predicate AllMore<S>(h: CmdHandler<S>, s: S, version: nat, fs: seq<Frame>)
    decreases |fs|
  {
    fs == [] || (h(s, fs[0], version).1 == More && AllMore(h, h(s, fs[0], version).0, version, fs[1..]))
  }

  function StateAfter<S>(h: CmdHandler<S>, s: S, version: nat, fs: seq<Frame>): S
    decreases |fs|
  {
    if fs == [] then s else StateAfter(h, h(s, fs[0], version).0, version, fs[1..])
  }

  predicate AllValid(fs: seq<Frame>) {
    forall f :: f in fs ==> f.Valid()
  }

  /** Frames the handler wants more after are handled one by one, whatever follows them. */
  lemma {:induction false} ReceivePrefix<S>(h: CmdHandler<S>, s: S, version: nat, fs: seq<Frame>, rest: bytes)
    requires AllValid(fs) && AllMore(h, s, version, fs)
    ensures var run := Receive(h, StateAfter(h, s, version, fs), version, rest);
            Receive(h, s, version, FramesBytes(fs) + rest) == run.(handled := fs + run.handled)
    decreases |fs|
  {
    hide ReadFrame, FrameBytes;
    if fs == [] {
      assert FramesBytes(fs) + rest == rest;
      var run := Receive(h, s, version, rest);
      assert fs + run.handled == run.handled;
    } else {
      var more := FramesBytes(fs[1..]) + rest;
      ReadFrameOfBytes(fs[0], more);
      assert FramesBytes(fs) + rest == FrameBytes(fs[0]) + more;
      var s' := h(s, fs[0], version).0;
      ReceivePrefix(h, s', version, fs[1..], rest);
      var run := Receive(h, StateAfter(h, s, version, fs), version, rest);
      assert [fs[0]] + (fs[1..] + run.handled) == fs + run.handled;
    }
  }

  /** A receive ends at the first frame after which the handler does not want more, with what it said there. */
  lemma EndsAtReply<S>(h: CmdHandler<S>, s: S, version: nat, fs: seq<Frame>, f: Frame, rest: bytes)
    requires AllValid(fs) && f.Valid() && AllMore(h, s, version, fs)
    requires h(StateAfter(h, s, version, fs), f, version).1 != More
    ensures var run := Receive(h, s, version, FramesBytes(fs) + (FrameBytes(f) + rest));
            var (s', reply) := h(StateAfter(h, s, version, fs), f, version);
            && run.state == s' && run.handled == fs + [f] && run.rest == rest
            && (reply == Done <==> run.result == Ok(()))
            && (reply == Panicked <==> run.result == Panic)
            && (forall e :: reply == Failed(e) <==> run.result == Err(e))
  {
    hide FrameBytes, FramesBytes, ReadFrame, StateAfter, AllMore;
    ReceivePrefix(h, s, version, fs, FrameBytes(f) + rest);
    ReadFrameOfBytes(f, rest);
  }

  /** A receive that meets something else than a frame ends there, with the reading error. */
  lemma EndsUnreadable<S>(h: CmdHandler<S>, s: S, version: nat, fs: seq<Frame>, rest: bytes, e: Error)
    requires AllValid(fs) && AllMore(h, s, version, fs) && ReadFrame(rest) == Err(e)
    ensures Receive(h, s, version, FramesBytes(fs) + rest) == Run(Err(e), StateAfter(h, s, version, fs), fs, rest)
  {
    hide FramesBytes, ReadFrame, StateAfter, AllMore;
    ReceivePrefix(h, s, version, fs, rest);
    assert fs + [] == fs;
  }

  /** A stream whose header is refused is not handled at all. */
  lemma EndsAtHeader<S>(h: CmdHandler<S>, s: S, input: bytes, e: Error)
    requires Frames.ReadHeader(input) == Err(e)
    ensures ReceiveStream(h, s, input).result == Err(e)
    ensures ReceiveStream(h, s, input).handled == [] && ReceiveStream(h, s, input).state == s
  {
    hide Frames.ReadHeader;
  }

  // ---------------------------------------------------------------------------------------
  // Published progress

  /** The position is published when it enters another block of this many bytes. */
  const BLOCK := 0x40_0000

  /** The progress cell, if there is one, after the position moved from `before` to `after`. */
  function Publish(cell: Option<nat>, before: nat, after: nat): Option<nat> {
    if cell.Some? && before / BLOCK != after / BLOCK then Some(after) else cell
  }

  /** The progress cell after reading `fs` from position `pos`. */
  function PublishedAfter(cell: Option<nat>, pos: nat, fs: seq<Frame>): (r: Option<nat>)
    ensures r.Some? <==> cell.Some?
    decreases |fs|
  {
    if fs == [] then cell
    else
      var init := fs[..|fs| - 1];
      Publish(PublishedAfter(cell, pos, init), pos + TotalSize(init), pos + TotalSize(fs))
  }

  lemma PublishSteps(cell: Option<nat>, before: nat, after: nat)
    ensures Publish(cell, before, after)
            == if cell.Some? then (if before / BLOCK != after / BLOCK then Some(after) else cell) else cell
  {
  }

  /** At a successful end the exact position is stored. */
  function StoreFinal(cell: Option<nat>, pos: nat): Option<nat> {
    if cell.Some? then Some(pos) else None
  }

  // Bitwise operations on integers of so many bits, digit by digit.

  function And(x: nat, y: nat, width: nat): nat {
    if width == 0 then 0 else Put(Odd(x) && Odd(y), And(Half(x), Half(y), width - 1))
  }

  function Complement(x: nat, width: nat): nat {
    if width == 0 then 0 else Put(!Odd(x), Complement(Half(x), width - 1))
  }

  function Pow2(n: nat): (p: nat)
    ensures p > 0
  {
    if n == 0 then 1 else 2 * Pow2(n - 1)
  }

  lemma {:induction false} MaskNothing(x: nat, width: nat)
    requires x < Pow2(width)
    ensures And(x, Complement(0, width), width) == x
  {
    if width == 0 {
    } else {
      Halving(x);
      Doubling(true, Complement(0, width - 1));
      MaskNothing(Half(x), width - 1);
    }
  }

  lemma HalfDivides(x: nat, p: nat)
    requires p > 0
    ensures Half(x) / p == x / (2 * p)
  {
    var q, r := Half(x) / p, Half(x) % p;
    Halving(x);
    var d := x - 2 * Half(x);
    assert x == (2 * p) * q + (2 * r + d) by {
      assert Half(x) == p * q + r;
    }
    Quotient(x, 2 * p, q, 2 * r + d);
  }

  lemma Quotient(x: nat, p: nat, q: nat, r: nat)
    requires x == p * q + r && r < p
    ensures x / p == q
  {
    var d := x / p - q;
    assert p * d == r - x % p;
    Scaled(p, d);
  }

  lemma Scaled(p: nat, d: int)
    ensures (d > 0 ==> p * d >= p) && (d < 0 ==> p * d <= -(p as int))
  {
  }

  /** Masking off the low bits leaves the multiple of their block that a number is in. */
  lemma {:induction false} MaskLow(x: nat, bits: nat, width: nat)
    requires bits <= width && x < Pow2(width)
    ensures And(x, Complement(Pow2(bits) - 1, width), width) == Pow2(bits) * (x / Pow2(bits))
    decreases bits
  {
    hide Odd, Half;
    if bits == 0 {
      MaskNothing(x, width);
      assert x / 1 == x;
    } else {
      var low := Pow2(bits) - 1;
      assert low == Put(true, Pow2(bits - 1) - 1);
      Doubling(true, Pow2(bits - 1) - 1);
      Halving(x);
      Doubling(false, Complement(Half(low), width - 1));
      MaskLow(Half(x), bits - 1, width - 1);
      HalfDivides(x, Pow2(bits - 1));
      var q := x / Pow2(bits);
      assert 2 * (Pow2(bits - 1) * q) == Pow2(bits) * q;
    }
  }

  lemma BlockIsPow2()
    ensures Pow2(22) == BLOCK && Pow2(64) == 0x1_0000_0000_0000_0000
  {
    assert Pow2(8) == 0x100;
    assert Pow2(16) == 0x1_0000;
    assert Pow2(24) == 0x100_0000;
    assert Pow2(32) == 0x1_0000_0000;
    assert Pow2(40) == 0x100_0000_0000;
    assert Pow2(48) == 0x1_0000_0000_0000;
    assert Pow2(56) == 0x100_0000_0000_0000;
  }

  /** The reader's mask, all 64 bits but the low 22, compares the block numbers of two positions. */
  lemma MaskComparesBlocks(x: nat, y: nat)
    requires x < 0x1_0000_0000_0000_0000 && y < 0x1_0000_0000_0000_0000
    ensures var mask := Complement(0x3F_FFFF, 64);
            And(x, mask, 64) == And(y, mask, 64) <==> x / BLOCK == y / BLOCK
  {
    BlockIsPow2();
    hide And, Complement, Pow2;
    MaskLow(x, 22, 64);
    MaskLow(y, 22, 64);
  }

  /**
   After every command of a fresh receive the published position is where some command ended, the first one
   to end in the block of the true position; so it trails that by less than a block and never goes back.
   */
  lemma {:induction false} PublishedTrails(fs: seq<Frame>)
    ensures var p := PublishedAfter(Some(0), 0, fs).value;
            && (exists k :: 0 <= k <= |fs| && p == TotalSize(fs[..k])
                            && (k > 0 ==> TotalSize(fs[..k - 1]) / BLOCK != p / BLOCK))
            && p / BLOCK == TotalSize(fs) / BLOCK
            && p <= TotalSize(fs) < p + BLOCK
            && (fs != [] ==> PublishedAfter(Some(0), 0, fs[..|fs| - 1]).value <= p)
    decreases |fs|
  {
    hide FrameBytes;
    if fs == [] {
      assert TotalSize(fs[..0]) == 0;
    } else {
      var init := fs[..|fs| - 1];
      assert fs == init + [fs[|fs| - 1]];
      FramesBytesAppend(init, fs[|fs| - 1]);
      PublishedTrails(init);
      if TotalSize(init) / BLOCK != TotalSize(fs) / BLOCK {
        assert fs[..|fs|] == fs;
      } else {
        var p := PublishedAfter(Some(0), 0, init).value;
        var k :| 0 <= k <= |init| && p == TotalSize(init[..k])
                 && (k > 0 ==> TotalSize(init[..k - 1]) / BLOCK != p / BLOCK);
        assert fs[..k] == init[..k];
        if k > 0 {
          assert fs[..k - 1] == init[..k - 1];
        }
      }
    }
  }

  lemma PublishedAppend(cell: Option<nat>, pos: nat, fs: seq<Frame>, f: Frame)
    ensures PublishedAfter(cell, pos, fs + [f])
            == Publish(PublishedAfter(cell, pos, fs), pos + TotalSize(fs), pos + TotalSize(fs) + f.Size())
  {
    hide TotalSize, Publish, FramesBytes, FrameBytes;
    assert (fs + [f])[..|fs|] == fs;
    FramesBytesAppend(fs, f);
  }

  // ---------------------------------------------------------------------------------------
  // The reader

  function Zeros(n: nat): (b: bytes)
    ensures |b| == n
  {
    seq(n, _ => 0)
  }

  /** The reader's buffer after a frame was read into it: bytes beyond the frame are stale. */
  function FilledBuffer(buf: bytes, f: Frame): (b: bytes)
    ensures |b| >= f.Size() && |b| >= |buf| && b[CMD_HEADER..f.Size()] == f.payload
  {
    Unsigned(f) + if f.Size() < |buf| then buf[f.Size()..] else []
  }

  lemma HeaderInBuffer(input: bytes, buf: bytes, b: bytes)
    requires |input| >= CMD_HEADER && |buf| >= CMD_HEADER && b == input[..CMD_HEADER] + buf[CMD_HEADER..]
    ensures b[..4] == input[..4] == input[..6][..4] && b[4..6] == input[4..6] == input[..6][4..]
    ensures b[6..10] == input[6..10]
    ensures b[..6] + [0, 0, 0, 0] + b[CMD_HEADER..] == input[..6] + [0, 0, 0, 0] + buf[CMD_HEADER..]
  {
  }

  lemma PrependNothing<S>(run: Run<S>)
    ensures Prepend([], run) == run
  {
    assert [] + run.handled == run.handled;
  }

  lemma NothingRead(cell: Option<nat>, pos: nat)
    ensures TotalSize([]) == 0 && PublishedAfter(cell, pos, []) == cell
  {
  }

  /** The reader's three buffer updates for one frame amount to filling the buffer with it. */
  lemma FillSteps(buf: bytes, head: bytes, f: Frame, zeroed: bytes, grown: bytes)
    requires |buf| >= CMD_HEADER && |head| == 6 && f.Valid()
    requires FromLe(head[..4]) == |f.payload| && FromLe(head[4..]) == f.command
    requires zeroed == head + [0, 0, 0, 0] + buf[CMD_HEADER..]
    requires grown == if f.Size() > |zeroed| then zeroed + Zeros(f.Size() - |zeroed|) else zeroed
    ensures grown[..CMD_HEADER] + f.payload + grown[f.Size()..] == FilledBuffer(buf, f)
    ensures FilledBuffer(buf, f)[..f.Size()] == head + [0, 0, 0, 0] + f.payload
  {
    hide FromLe, Le, Checksum;
    LeOfFromLe(head[..4]);
    LeOfFromLe(head[4..]);
    assert head == head[..4] + head[4..];
    assert Unsigned(f) == head + [0, 0, 0, 0] + f.payload;
    assert grown[..CMD_HEADER] == head + [0, 0, 0, 0];
    if f.Size() < |buf| {
      assert grown[f.Size()..] == buf[f.Size()..];
    } else {
      assert grown[f.Size()..] == [];
    }
  }

  lemma NoFrame(input: bytes)
    ensures |input| < CMD_HEADER ==> ReadFrame(input) == Err(UnexpectedEof)
  {
  }

  /** Reading a frame, with the fields of its header and the checksum at hand. */
  lemma ReadFrameParts(input: bytes, rest: bytes, f: Frame, sum: bv32)
    requires |input| >= CMD_HEADER && rest == input[CMD_HEADER..] && f.command == FromLe(input[4..6])
    ensures |rest| < FromLe(input[..4]) ==> ReadFrame(input) == Err(UnexpectedEof)
    ensures |rest| >= FromLe(input[..4]) && f.payload == rest[..FromLe(input[..4])]
            && sum == Checksum(input[..6] + [0, 0, 0, 0] + f.payload) ==>
              ReadFrame(input) == if Word(input[6..10]) != sum then Err(CrcMismatch) else Ok((f, rest[|f.payload|..]))
  {
    hide Checksum, Word, FromLe, Le;
    var length := FromLe(input[..4]);
    if |rest| >= length {
      assert input[CMD_HEADER..CMD_HEADER + length] == rest[..length];
      assert input[CMD_HEADER + length..] == rest[length..];
    }
  }

  class SendStream {
    var version: nat
    var command: nat
    /** What the underlying reader has not delivered yet. */
    var input: bytes
    var buf: bytes
    /** The data is buf[CMD_HEADER..dataEnd]. */
    var dataEnd: nat
    var streamPos: nat
    /** The shared progress cell, if the caller gave one. */
    var published: Option<nat>

    const BUF_SZ_V1 := 0x1_0000

    ghost predicate Valid()
      reads this
    {
      |buf| >= BUF_SZ_V1
    }

    constructor (reader: bytes, progress: Option<nat>)
      ensures Valid() && input == reader && published == progress
      ensures version == 0 && command == 0 && streamPos == 0 && dataEnd == 0
      ensures buf == Zeros(BUF_SZ_V1)
    {
      version, command, streamPos, dataEnd := 0, 0, 0, 0;
      input, published, buf := reader, progress, Zeros(0x1_0000);
    }

    method ReadHeader() returns (r: Result<()>)
      requires Valid()
      modifies this
      ensures Valid() && streamPos == old(streamPos) && published == old(published) && command == old(command)
      ensures match Frames.ReadHeader(old(input))
              case Ok((v, rest)) => r == Ok(()) && version == v && input == rest
              case Err(e) => r == Err(e) && version == old(version)
              case Panic => false
    {
      if |input| < STREAM_HEADER {
        input := [];
        return Err(UnexpectedEof);
      }
      buf, input := input[..STREAM_HEADER] + buf[STREAM_HEADER..], input[STREAM_HEADER..];
      assert buf[..13] == old(input)[..13] && buf[13..17] == old(input)[13..17];
      if buf[..13] != MAGIC {
        return Err(UnexpectedHeader);
      }
      var v := FromLe(buf[13..17]);
      if v > SUPPORTED_VERSION {
        return Err(UnsupportedVersion);
      }
      version := v;
      return Ok(());
    }

    method ReadCmd() returns (r: Result<()>)
      requires Valid()
      modifies this
      ensures Valid() && version == old(version)
      ensures match ReadFrame(old(input))
              case Ok((f, rest)) =>
                && r == Ok(()) && input == rest && command == f.command
                && buf == FilledBuffer(old(buf), f) && dataEnd == f.Size()
                && streamPos == old(streamPos) + f.Size()
                && published == Publish(old(published), old(streamPos), streamPos)
              case Err(e) =>
                && r == Err(e) && command == old(command)
                && streamPos == old(streamPos) && published == old(published)
              case Panic => false
    {
      hide ReadFrame, Checksum, Word, FromLe, Le, FilledBuffer, Zeros, Publish, Unsigned, FrameBytes;
      dataEnd := 0;
      if |input| < CMD_HEADER {
        NoFrame(input);
        input := [];
        return Err(UnexpectedEof);
      }
      buf, input := input[..CMD_HEADER] + buf[CMD_HEADER..], input[CMD_HEADER..];
      HeaderInBuffer(old(input), old(buf), buf);
      var length, cmd, sum := FromLe(buf[..4]), FromLe(buf[4..6]), Word(buf[6..10]);
      buf := buf[..6] + [0, 0, 0, 0] + buf[CMD_HEADER..];
      ghost var zeroed := buf;
      dataEnd := CMD_HEADER + length;
      if dataEnd > |buf| {
        buf := buf + Zeros(dataEnd - |buf|);
      }
      if |input| < length {
        ReadFrameParts(old(input), input, Frame(cmd, []), 0);
        input := [];
        return Err(UnexpectedEof);
      }
      ghost var f := Frame(cmd, input[..length]);
      ReadFrameParts(old(input), input, f, Checksum(old(input)[..6] + [0, 0, 0, 0] + f.payload));
      assert f.Size() == dataEnd;
      Widths();
      FromLeBound(old(input)[..4]);
      FromLeBound(old(input)[4..6]);
      FillSteps(old(buf), old(input)[..6], f, zeroed, buf);
      buf, input := buf[..CMD_HEADER] + input[..length] + buf[dataEnd..], input[length..];
      if sum != Checksum(buf[..dataEnd]) {
        return Err(CrcMismatch);
      }
      var before := streamPos;
      streamPos := streamPos + dataEnd;
      if published.Some? {
        if before / BLOCK != streamPos / BLOCK {
          published := Some(streamPos);
        }
      }
      PublishSteps(old(published), before, streamPos);
      command := cmd;
      return Ok(());
    }

    /** Read and handle commands until the handler is done. */
    method ReadAndHandle<S>(h: CmdHandler<S>, s0: S) returns (r: Result<()>, s: S, ghost handled: seq<Frame>)
      requires Valid()
      modifies this
      ensures Valid()
      ensures var run := ReceiveStream(h, s0, old(input));
              && r == run.result && s == run.state && handled == run.handled
              && (r.Ok? ==> input == run.rest)
      ensures streamPos == old(streamPos) + TotalSize(handled)
      ensures r.Ok? ==> published == StoreFinal(old(published), streamPos)
      ensures !r.Ok? ==> published == PublishedAfter(old(published), old(streamPos), handled)
    {
      hide ReadFrame, FrameBytes, FramesBytes, Frames.ReadHeader, FilledBuffer, TotalSize, PublishedAfter, Publish, Receive, Prepend;
      s, handled := s0, [];
      r := ReadHeader();
      ghost var start, p0, pos0 := input, old(published), old(streamPos);
      NothingRead(p0, pos0);
      if !r.Ok? {
        return;
      }
      PrependNothing(Receive(h, s0, version, input));
      while true
        invariant Valid() && version == old(Frames.ReadHeader(input).value.0)
        invariant Receive(h, s0, version, start) == Prepend(handled, Receive(h, s, version, input))
        invariant streamPos == pos0 + TotalSize(handled)
        invariant published == PublishedAfter(p0, pos0, handled)
        decreases |input|
      {
        ReceiveTurn(h, s, version, input, handled);
        r := ReadCmd();
        if !r.Ok? {
          return;
        }
        var f := Frame(command, buf[CMD_HEADER..dataEnd]);
        FramesBytesAppend(handled, f);
        PublishedAppend(p0, pos0, handled, f);
        handled := handled + [f];
        var (s', reply) := h(s, f, version);
        s := s';
        match reply {
          case More =>
          case Done =>
            break;
          case Failed(e) =>
            return Err(e), s, handled;
          case Panicked =>
            return Panic, s, handled;
        }
      }
      if published.Some? {
        published := Some(streamPos);
      }
      return Ok(()), s, handled;
    }
  }
}
