/** The framing of a send stream: one header, then length/command/checksum frames. */
module Frames {
  import opened Bytes
  import opened Crc

  /** Everything a receive can fail with; `Handler` stands for an error of the handler's own. */
  datatype Error =
    | UnexpectedEof
    | UnexpectedHeader
    | UnsupportedVersion
    | CrcMismatch
    | Truncated
    | InvalidLength
    | MissingAttributes
    | UnexpectedCommand
    | Handler(code: int)

  /** A Rust result; `Panic` stands for a panic of the code that should have produced it. */
  datatype Result<+T> = Ok(value: T) | Err(error: Error) | Panic

  /** "btrfs-stream" and its terminating NUL. */
  const MAGIC: bytes :=
    [0x62, 0x74, 0x72, 0x66, 0x73, 0x2D, 0x73, 0x74, 0x72, 0x65, 0x61, 0x6D, 0x00]

  const SUPPORTED_VERSION := 2

  const STREAM_HEADER := 17

  /** Length, command and checksum. */
  const CMD_HEADER := 10

  /** The id of the command that ends a stream. */
  const END := 21

  /** A command as it crosses the wire: its id and its encoded attributes. */
  datatype Frame = Frame(command: nat, payload: bytes) {
    predicate Valid() {
      command < 0x1_0000 && |payload| < 0x1_0000_0000
    }

    function Size(): nat {
      CMD_HEADER + |payload|
    }
  }

  /** The frame with a zero checksum: what the checksum is computed over. */
  function Unsigned(f: Frame): (b: bytes)
    ensures |b| == f.Size()
  {
    Le(|f.payload|, 4) + Le(f.command, 2) + [0, 0, 0, 0] + f.payload
  }

  /** The one byte string that encodes `f`. */
  function FrameBytes(f: Frame): (b: bytes)
    ensures |b| == f.Size()
  {
    Le(|f.payload|, 4) + Le(f.command, 2) + WordBytes(Checksum(Unsigned(f))) + f.payload
  }

  function FramesBytes(fs: seq<Frame>): bytes {
    if fs == [] then [] else FrameBytes(fs[0]) + FramesBytes(fs[1..])
  }

  function HeaderBytes(version: nat): (b: bytes)
    ensures |b| == STREAM_HEADER
  {
    MAGIC + Le(version, 4)
  }

  /** Reading the stream header: the version and what follows the header. */
  function ReadHeader(input: bytes): (r: Result<(nat, bytes)>)
    ensures !r.Panic?
  {
    if |input| < STREAM_HEADER then Err(UnexpectedEof)
    else if input[..13] != MAGIC then Err(UnexpectedHeader)
    else if FromLe(input[13..17]) > SUPPORTED_VERSION then Err(UnsupportedVersion)
    else Ok((FromLe(input[13..17]), input[17..]))
  }

  /** Reading one frame: the frame and what follows it. */
  function ReadFrame(input: bytes): (r: Result<(Frame, bytes)>)
    ensures !r.Panic?
    ensures r.Ok? ==> |r.value.1| + CMD_HEADER <= |input|
  {
    if |input| < CMD_HEADER then Err(UnexpectedEof)
    else
      var end := CMD_HEADER + FromLe(input[..4]);
      if |input| < end then Err(UnexpectedEof)
      else
        var f := Frame(FromLe(input[4..6]), input[10..end]);
        if Word(input[6..10]) != Checksum(input[..6] + [0, 0, 0, 0] + f.payload) then Err(CrcMismatch)
        else Ok((f, input[end..]))
  }

  lemma HeaderAccepted(input: bytes, version: nat, rest: bytes)
    ensures ReadHeader(input) == Ok((version, rest))
            <==> version <= SUPPORTED_VERSION && input == HeaderBytes(version) + rest
  {
    hide Le, FromLe;
    Widths();
    if version <= SUPPORTED_VERSION {
      FromLeOfLe(version, 4);
      var i := HeaderBytes(version) + rest;
      assert i[..13] == MAGIC && i[13..17] == Le(version, 4) && i[17..] == rest;
    }
    if ReadHeader(input) == Ok((version, rest)) {
      LeOfFromLe(input[13..17]);
      assert input == input[..13] + input[13..17] + input[17..];
    }
  }

  lemma FrameParts(f: Frame, rest: bytes)
    requires f.Valid()
    ensures var i := FrameBytes(f) + rest;
            && FromLe(i[..4]) == |f.payload| && FromLe(i[4..6]) == f.command
            && i[6..10] == WordBytes(Checksum(Unsigned(f)))
            && i[10..f.Size()] == f.payload && i[f.Size()..] == rest
            && i[..6] + [0, 0, 0, 0] + f.payload == Unsigned(f)
  {
    hide Checksum, Word, WordBytes, Le, FromLe;
    var i := FrameBytes(f) + rest;
    Widths();
    FromLeOfLe(|f.payload|, 4);
    FromLeOfLe(f.command, 2);
    assert i[..4] == Le(|f.payload|, 4) && i[4..6] == Le(f.command, 2);
    assert i[..6] == Le(|f.payload|, 4) + Le(f.command, 2);
  }

  /** A frame, once written, is read back and nothing after it is consumed. */
  lemma ReadFrameOfBytes(f: Frame, rest: bytes)
    requires f.Valid()
    ensures ReadFrame(FrameBytes(f) + rest) == Ok((f, rest))
  {
    hide Checksum, Word, WordBytes, Le, FromLe;
    FrameParts(f, rest);
    WordOfWordBytes(Checksum(Unsigned(f)));
  }

  lemma BytesOfReadFrame(input: bytes)
    requires ReadFrame(input).Ok?
    ensures var (f, rest) := ReadFrame(input).value; f.Valid() && input == FrameBytes(f) + rest
  {
    hide Checksum, Word, WordBytes, Le, FromLe;
    var (f, rest) := ReadFrame(input).value;
    Widths();
    LeOfFromLe(input[..4]);
    LeOfFromLe(input[4..6]);
    FromLeBound(input[..4]);
    FromLeBound(input[4..6]);
    assert input[..6] == input[..4] + input[4..6];
    assert Unsigned(f) == input[..6] + [0, 0, 0, 0] + f.payload;
    WordBytesOfWord(input[6..10]);
    assert input == input[..6] + input[6..10] + f.payload + rest;
  }

  /** Reading accepts exactly the canonical frames and consumes exactly one. */
  lemma FrameAccepted(input: bytes, f: Frame, rest: bytes)
    ensures ReadFrame(input) == Ok((f, rest)) <==> f.Valid() && input == FrameBytes(f) + rest
  {
    if f.Valid() {
      ReadFrameOfBytes(f, rest);
    }
    if ReadFrame(input).Ok? {
      BytesOfReadFrame(input);
    }
  }

  /** Why a header is refused: too short, not "btrfs-stream" and a NUL, or a version above 2. */
  lemma HeaderRefused(input: bytes)
    ensures var magic: bytes := [0x62, 0x74, 0x72, 0x66, 0x73, 0x2D, 0x73, 0x74, 0x72, 0x65, 0x61, 0x6D, 0x00];
            && (ReadHeader(input) == Err(UnexpectedEof) <==> |input| < 17)
            && (ReadHeader(input) == Err(UnexpectedHeader) <==> |input| >= 17 && !(magic <= input))
            && (ReadHeader(input) == Err(UnsupportedVersion) <==>
                  |input| >= 17 && magic <= input && FromLe(input[13..17]) > 2)
  {
    hide FromLe;
    if |input| >= 17 {
      assert MAGIC <= input <==> input[..13] == MAGIC;
    }
  }

  /** Why a frame is refused: too short for its header or for the payload announced there, or else its checksum. */
  lemma FrameRefused(input: bytes)
    ensures ReadFrame(input) == Err(UnexpectedEof) <==> |input| < 10 || |input| < 10 + FromLe(input[..4])
    ensures ReadFrame(input) == Err(CrcMismatch) <==>
            |input| >= 10 && |input| >= 10 + FromLe(input[..4])
            && !exists f: Frame, rest: bytes :: f.Valid() && input == FrameBytes(f) + rest
  {
    hide Checksum, Word, WordBytes, FrameBytes, FromLe;
    if ReadFrame(input).Ok? {
      var (f, rest) := ReadFrame(input).value;
      BytesOfReadFrame(input);
      assert f.Valid() && input == FrameBytes(f) + rest;
    }
    forall f: Frame, rest: bytes | f.Valid() && input == FrameBytes(f) + rest ensures ReadFrame(input).Ok? {
      ReadFrameOfBytes(f, rest);
    }
  }

  // ---------------------------------------------------------------------------------------
  // Corruption

  lemma ChecksumByteChanged(w: bv32, k: nat, b: byte)
    requires k < 4 && WordBytes(w)[k] != b
    ensures Word(WordBytes(w)[k := b]) != w
  {
    hide Word, WordBytes;
    WordBytesOfWord(WordBytes(w)[k := b]);
  }

  /** A frame whose checksum field does not match its other fields is rejected. */
  lemma Mismatch(head: bytes, sum: bytes, payload: bytes, rest: bytes)
    requires |head| == 6 && |sum| == 4 && FromLe(head[..4]) == |payload|
    requires Word(sum) != Checksum(head + [0, 0, 0, 0] + payload)
    ensures ReadFrame(head + sum + payload + rest) == Err(CrcMismatch)
  {
    hide Checksum, Word, FromLe, Le;
    var i := head + sum + payload + rest;
    var end := CMD_HEADER + |payload|;
    assert i[..4] == head[..4] && i[..6] == head && i[6..10] == sum && i[10..end] == payload;
  }

  lemma FrameFields(f: Frame)
    requires f.Valid()
    ensures var i := FrameBytes(f);
            && i == i[..6] + i[6..10] + f.payload && |f.payload| == f.Size() - 10
            && FromLe(i[..6][..4]) == |f.payload| && i[6..10] == WordBytes(Checksum(Unsigned(f)))
            && Unsigned(f) == i[..6] + [0, 0, 0, 0] + f.payload
  {
    hide Checksum, Word, WordBytes, Le, FromLe;
    FrameParts(f, []);
    var i := FrameBytes(f);
    assert i + [] == i;
    assert i[..6][..4] == i[..4];
    assert i[10..] == f.payload;
    assert i == i[..6] + i[6..10] + i[10..];
  }

  lemma CorruptCommandByte(f: Frame, rest: bytes, i: nat, b: byte)
    requires f.Valid() && 4 <= i < 6 && b != FrameBytes(f)[i]
    ensures ReadFrame(FrameBytes(f)[i := b] + rest) == Err(CrcMismatch)
  {
    hide Checksum, Word, WordBytes, Unsigned, Le, FromLe;
    FrameFields(f);
    var g, u := FrameBytes(f), Unsigned(f);
    var head, sum := g[..6], g[6..10];
    WordOfWordBytes(Checksum(u));
    var zero: bytes := [0, 0, 0, 0];
    assert u == u[..i] + [head[i]] + u[i + 1..];
    assert head[i := b] + zero + f.payload == u[..i] + [b] + u[i + 1..];
    ByteChangesChecksum(u[..i], head[i], b, u[i + 1..]);
    assert head[i := b][..4] == head[..4];
    Mismatch(head[i := b], sum, f.payload, rest);
    assert g[i := b] == head[i := b] + sum + f.payload;
  }

  lemma CorruptChecksumByte(f: Frame, rest: bytes, i: nat, b: byte)
    requires f.Valid() && 6 <= i < 10 && b != FrameBytes(f)[i]
    ensures ReadFrame(FrameBytes(f)[i := b] + rest) == Err(CrcMismatch)
  {
    hide Checksum, Word, WordBytes, Unsigned, Le, FromLe;
    FrameFields(f);
    var g, u := FrameBytes(f), Unsigned(f);
    var head, sum := g[..6], g[6..10];
    ChecksumByteChanged(Checksum(u), i - 6, b);
    Mismatch(head, sum[i - 6 := b], f.payload, rest);
    assert g[i := b] == head + sum[i - 6 := b] + f.payload;
  }

  lemma CorruptPayloadByte(f: Frame, rest: bytes, i: nat, b: byte)
    requires f.Valid() && 10 <= i < f.Size() && b != FrameBytes(f)[i]
    ensures ReadFrame(FrameBytes(f)[i := b] + rest) == Err(CrcMismatch)
  {
    hide Checksum, Word, WordBytes, Unsigned, Le, FromLe;
    FrameFields(f);
    var g, u := FrameBytes(f), Unsigned(f);
    var head, sum := g[..6], g[6..10];
    WordOfWordBytes(Checksum(u));
    var zero: bytes := [0, 0, 0, 0];
    var p := f.payload[i - 10 := b];
    assert u == u[..i] + [f.payload[i - 10]] + u[i + 1..];
    assert head + zero + p == u[..i] + [b] + u[i + 1..];
    ByteChangesChecksum(u[..i], f.payload[i - 10], b, u[i + 1..]);
    Mismatch(head, sum, p, rest);
    assert g[i := b] == head + sum + p;
  }

  /** Changing one byte of the command id, the checksum or the payload is always noticed. */
  lemma CorruptByteRejected(f: Frame, rest: bytes, i: nat, b: byte)
    requires f.Valid() && 4 <= i < f.Size() && b != FrameBytes(f)[i]
    ensures ReadFrame(FrameBytes(f)[i := b] + rest) == Err(CrcMismatch)
  {
    hide FrameBytes, ReadFrame;
    if i < 6 {
      CorruptCommandByte(f, rest, i, b);
    } else if i < 10 {
      CorruptChecksumByte(f, rest, i, b);
    } else {
      CorruptPayloadByte(f, rest, i, b);
    }
  }

  /** Changing a payload inside any window of four bytes is always noticed. */
  lemma CorruptBurstRejected(f: Frame, rest: bytes, i: nat, burst: bytes)
    requires f.Valid() && i + 4 <= |f.payload|
    requires |burst| == 4 && burst != f.payload[i..i + 4]
    ensures var k := CMD_HEADER + i;
            ReadFrame(FrameBytes(f)[..k] + burst + FrameBytes(f)[k + 4..] + rest) == Err(CrcMismatch)
  {
    hide Checksum, Word, WordBytes, Unsigned, Le, FromLe;
    FrameFields(f);
    var g := FrameBytes(f);
    var head, sum, u := g[..6], g[6..10], Unsigned(f);
    var zero: bytes := [0, 0, 0, 0];
    WordOfWordBytes(Checksum(u));
    var was := f.payload[i..i + 4];
    var pre, post := head + zero + f.payload[..i], f.payload[i + 4..];
    var p := f.payload[..i] + burst + post;
    assert u == pre + was + post;
    assert head + zero + p == pre + burst + post;
    BurstChangesChecksum(pre, was, burst, post);
    Mismatch(head, sum, p, rest);
    assert g[..CMD_HEADER + i] + burst + g[CMD_HEADER + i + 4..] == head + sum + p;
  }

  // ---------------------------------------------------------------------------------------
  // Frame lists

  function TotalSize(fs: seq<Frame>): nat {
    |FramesBytes(fs)|
  }

  lemma {:induction false} FramesBytesConcat(a: seq<Frame>, b: seq<Frame>)
    ensures FramesBytes(a + b) == FramesBytes(a) + FramesBytes(b)
  {
    hide FrameBytes;
    if a == [] {
      assert a + b == b;
    } else {
      assert (a + b)[1..] == a[1..] + b;
      FramesBytesConcat(a[1..], b);
    }
  }

  lemma FramesBytesAppend(fs: seq<Frame>, f: Frame)
    ensures FramesBytes(fs + [f]) == FramesBytes(fs) + FrameBytes(f)
    ensures TotalSize(fs + [f]) == TotalSize(fs) + f.Size()
  {
    hide FrameBytes;
    FramesBytesConcat(fs, [f]);
    assert FramesBytes([f]) == FrameBytes(f);
  }
}
