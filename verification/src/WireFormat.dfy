/**
 The wire format of every command, written out with its numbers: which command ids there are, and which
 attribute ids give which arguments.
 */
module WireFormat {
  import opened Bytes
  import opened Crc
  import opened Frames
  import opened ReadStream
  import opened Tlv
  import opened Commands

  // ---------------------------------------------------------------------------------------
  // What records say of one attribute

  /** The attribute occurs, and its last value is `b`. */
  ghost predicate HasBytes(rs: seq<Record>, id: nat, b: bytes) {
    var vs := Occurrences(rs, id);
    vs != [] && vs[|vs| - 1] == b
  }

  /** The attribute occurs, always with this width, and its last value is the little-endian number `n`. */
  ghost predicate HasNumber(rs: seq<Record>, id: nat, width: nat, n: nat) {
    var vs := Occurrences(rs, id);
    vs != [] && (forall v <- vs :: |v| == width) && FromLe(vs[|vs| - 1]) == n
  }

  ghost predicate HasUuid(rs: seq<Record>, id: nat, uuid: bytes) {
    HasBytes(rs, id, uuid) && forall v <- Occurrences(rs, id) :: |v| == 16
  }

  /** The attribute occurs, always with 12 bytes: the last one's seconds, in two's complement, and nanoseconds. */
  ghost predicate HasTime(rs: seq<Record>, id: nat, t: Timespec) {
    var vs := Occurrences(rs, id);
    && vs != [] && (forall v <- vs :: |v| == 12)
    && |vs[|vs| - 1]| == 12 && var last := vs[|vs| - 1];
    && FromLe(last[..8]) == (if t.sec < 0 then t.sec + 0x1_0000_0000_0000_0000 else t.sec)
    && -0x8000_0000_0000_0000 <= t.sec < 0x8000_0000_0000_0000
    && FromLe(last[8..]) == t.nsec
  }

  /** The attribute need not occur. */
  ghost predicate MayHaveNumber(rs: seq<Record>, id: nat, width: nat, n: Option<nat>) {
    if n.None? then Occurrences(rs, id) == [] else HasNumber(rs, id, width, n.value)
  }

  // ---------------------------------------------------------------------------------------
  // What records say for each command

  /** What the records of a payload with lengths throughout must say for command id `key` to be `c`. */
  ghost predicate Says(key: nat, rs: seq<Record>, c: Command) {
    match c
    case Subvol(path, ctransid, uuid) =>
      key == 1 && HasBytes(rs, 15, path) && HasNumber(rs, 2, 8, ctransid) && HasUuid(rs, 1, uuid)
    case Snapshot(path, uuid, ctransid, cloneUuid, cloneCtransid) =>
      key == 2 && HasBytes(rs, 15, path) && HasUuid(rs, 1, uuid) && HasNumber(rs, 2, 8, ctransid)
      && HasUuid(rs, 20, cloneUuid) && HasNumber(rs, 21, 8, cloneCtransid)
    case Mkfile(path, ino) => key == 3 && HasBytes(rs, 15, path) && HasNumber(rs, 3, 8, ino)
    case Mkdir(path, ino) => key == 4 && HasBytes(rs, 15, path) && HasNumber(rs, 3, 8, ino)
    case Mknod(path, mode, rdev) =>
      key == 5 && HasBytes(rs, 15, path) && HasNumber(rs, 5, 8, mode) && HasNumber(rs, 8, 8, rdev)
    case Mkfifo(path, ino) => key == 6 && HasBytes(rs, 15, path) && HasNumber(rs, 3, 8, ino)
    case Mksock(path, ino) => key == 7 && HasBytes(rs, 15, path) && HasNumber(rs, 3, 8, ino)
    case Symlink(path, ino, pathLink) =>
      key == 8 && HasBytes(rs, 15, path) && HasNumber(rs, 3, 8, ino) && HasBytes(rs, 17, pathLink)
    case Rename(path, pathTo) => key == 9 && HasBytes(rs, 15, path) && HasBytes(rs, 16, pathTo)
    case Link(path, pathLink) => key == 10 && HasBytes(rs, 15, path) && HasBytes(rs, 17, pathLink)
    case Unlink(path) => key == 11 && HasBytes(rs, 15, path)
    case Rmdir(path) => key == 12 && HasBytes(rs, 15, path)
    case SetXattr(path, name, data) =>
      key == 13 && HasBytes(rs, 15, path) && HasBytes(rs, 13, name) && HasBytes(rs, 14, data)
    case RemoveXattr(path, name) => key == 14 && HasBytes(rs, 15, path) && HasBytes(rs, 13, name)
    case Write(path, offset, data) =>
      key == 15 && HasBytes(rs, 15, path) && HasNumber(rs, 18, 8, offset) && HasBytes(rs, 19, data)
    case Clone(path, offset, len, uuid, ctransid, from, at) =>
      key == 16 && HasBytes(rs, 15, path) && HasNumber(rs, 18, 8, offset) && HasNumber(rs, 24, 8, len)
      && HasUuid(rs, 20, uuid) && HasNumber(rs, 21, 8, ctransid) && HasBytes(rs, 22, from) && HasNumber(rs, 23, 8, at)
    case Truncate(path, size) => key == 17 && HasBytes(rs, 15, path) && HasNumber(rs, 4, 8, size)
    case Chmod(path, mode) => key == 18 && HasBytes(rs, 15, path) && HasNumber(rs, 5, 8, mode)
    case Chown(path, uid, gid) =>
      key == 19 && HasBytes(rs, 15, path) && HasNumber(rs, 6, 8, uid) && HasNumber(rs, 7, 8, gid)
    case Utimes(path, atime, mtime, ctime) =>
      key == 20 && HasBytes(rs, 15, path) && HasTime(rs, 11, atime) && HasTime(rs, 10, mtime) && HasTime(rs, 9, ctime)
    case End => false
    case UpdateExtent(path, offset, size) =>
      key == 22 && HasBytes(rs, 15, path) && HasNumber(rs, 18, 8, offset) && HasNumber(rs, 4, 8, size)
    case Fallocate(path, mode, offset, size) =>
      key == 23 && HasBytes(rs, 15, path) && HasNumber(rs, 25, 4, mode) && HasNumber(rs, 18, 8, offset)
      && HasNumber(rs, 4, 8, size)
    case Fileattr(path, attr) => key == 24 && HasBytes(rs, 15, path) && HasNumber(rs, 26, 8, attr)
    case EncodedWrite(_, _, _, _, _, _, _, _) => false
  }

  /** The same for the records in front of the data of a version 2 write. */
  ghost predicate SaysWrite(key: nat, rs: seq<Record>, c: Command) {
    match c
    case Write(path, offset, _) => key == 15 && HasBytes(rs, 15, path) && HasNumber(rs, 18, 8, offset)
    case EncodedWrite(path, offset, fileLen, len, at, compression, encryption, _) =>
      key == 25 && HasBytes(rs, 15, path) && HasNumber(rs, 18, 8, offset) && HasNumber(rs, 27, 8, fileLen)
      && HasNumber(rs, 28, 8, len) && HasNumber(rs, 29, 8, at)
      && MayHaveNumber(rs, 30, 4, compression) && MayHaveNumber(rs, 31, 4, encryption)
    case _ => false
  }

  // ---------------------------------------------------------------------------------------
  // The parsers' tables say the same

  ghost predicate SaysAttr(rs: seq<Record>, a: Attr, v: Value) {
    match a.ty
    case U32 => v.Number? && HasNumber(rs, a.id, 4, v.n)
    case U64 => v.Number? && HasNumber(rs, a.id, 8, v.n)
    case Data => v.Blob? && HasBytes(rs, a.id, v.data)
    case Uuid => v.Id? && HasUuid(rs, a.id, v.uuid)
    case TimeSpec => v.Time? && HasTime(rs, a.id, Timespec(v.sec, v.nsec))
  }

  lemma SaysValue(rs: seq<Record>, a: Attr, v: Value)
    ensures SaysAttr(rs, a, v) <==>
            && Occurrences(rs, a.id) != [] && Some(v) == LastOr(a.ty, Occurrences(rs, a.id), None)
            && forall b <- Occurrences(rs, a.id) :: Fits(a.ty, b)
  {
    hide Occurrences, FromLe;
    var vs := Occurrences(rs, a.id);
    if vs != [] {
      var last := vs[|vs| - 1];
      assert last in vs;
      if a.ty == TimeSpec && |last| == 12 {
        Widths();
        FromLeBound(last[..8]);
      }
    }
  }

  ghost predicate SaysAll(rs: seq<Record>, schema: Schema, vs: seq<Value>) {
    |vs| == |schema| && forall i :: 0 <= i < |schema| ==> SaysAttr(rs, schema[i], vs[i])
  }

  lemma SaysValues(rs: seq<Record>, schema: Schema, vs: seq<Value>)
    ensures SaysAll(rs, schema, vs) <==>
            && WidthsOk(schema, rs) && |vs| == |schema|
            && forall i :: 0 <= i < |schema| ==>
                 Occurrences(rs, schema[i].id) != []
                 && Some(vs[i]) == LastOr(schema[i].ty, Occurrences(rs, schema[i].id), None)
  {
    hide Occurrences, SaysAttr, Fits, LastOr;
    if |vs| == |schema| {
      forall i | 0 <= i < |schema|
        ensures SaysAttr(rs, schema[i], vs[i]) <==>
                && Occurrences(rs, schema[i].id) != []
                && Some(vs[i]) == LastOr(schema[i].ty, Occurrences(rs, schema[i].id), None)
                && forall b <- Occurrences(rs, schema[i].id) :: Fits(schema[i].ty, b)
      {
        SaysValue(rs, schema[i], vs[i]);
      }
    }
  }

  lemma ParseSays(schema: Schema, payload: bytes, vs: seq<Value>)
    requires Distinct(schema)
    ensures Parse(schema, payload) == Ok(vs) <==>
            Split(payload).Some? && SaysAll(Split(payload).value, schema, vs)
  {
    hide Parse, Split, Occurrences, LastOr, SaysAll, WidthsOk;
    ParseMeaning(schema, payload);
    if Split(payload).Some? {
      SaysValues(Split(payload).value, schema, vs);
      if SaysAll(Split(payload).value, schema, vs) {
        var ws := Parse(schema, payload).value;
        forall i | 0 <= i < |schema| ensures ws[i] == vs[i] {
          assert Some(ws[i]) == Some(vs[i]);
        }
        assert ws == vs;
      } else if Parse(schema, payload).Ok? {
        assert Parse(schema, payload).value != vs;
      }
    }
  }

  lemma SaysTable(key: nat, rs: seq<Record>, c: Command)
    requires !c.End? && !c.EncodedWrite?
    ensures Says(key, rs, c) <==>
            Key(c) == key && SchemaOf(key).Some? && SaysAll(rs, SchemaOf(key).value, Fields(c))
  {
    hide HasBytes, HasNumber, HasUuid, HasTime;
    BuildOfFields(c);
  }

  // ---------------------------------------------------------------------------------------
  // Decoding

  /**
   Outside the version 2 writes, a payload is decoded to a command exactly if it splits into records that
   say so, number by number; END is decoded from any payload.
   */
  lemma CommandMeans(key: nat, payload: bytes, version: nat, c: Command)
    requires !(version == 2 && (key == 15 || key == 25))
    ensures ParseCommand(key, payload, version) == Ok(c) <==>
            (key == 21 && c == End) || (Split(payload).Some? && Says(key, Split(payload).value, c))
  {
    hide Parse, Parse2, Split, SchemaOf, Build, Fields, Distinct, Says, SaysAll, Sendable, Occurrences, LastOr;
    if c == End || c.EncodedWrite? || key == 21 {
      SaysEnds(key, Split(payload), c);
      AcceptedKind(key, payload, version, c);
    } else {
      SchemasDistinct(key);
      BuildOfFields(c);
      if Split(payload).Some? {
        SaysTable(key, Split(payload).value, c);
      }
      if SchemaOf(key).Some? {
        ParseSays(SchemaOf(key).value, payload, Fields(c));
      }
      if ParseCommand(key, payload, version) == Ok(c) {
        ValuesAreFields(key, payload, version, c);
      }
    }
  }

  lemma SaysEnds(key: nat, split: Option<seq<Record>>, c: Command)
    ensures split.Some? && (c == End || c.EncodedWrite? || key == 21) ==> !Says(key, split.value, c)
  {
  }

  lemma AcceptedKind(key: nat, payload: bytes, version: nat, c: Command)
    requires !(version == 2 && (key == 15 || key == 25))
    ensures key != 21 && ParseCommand(key, payload, version) == Ok(c) ==> c != End && !c.EncodedWrite?
  {
    hide Parse, Parse2, Split, SchemaOf, Fields, Occurrences, LastOr, Sendable;
    if key != 21 && ParseCommand(key, payload, version) == Ok(c) {
      AcceptedMeans(key, payload, version, c);
      KeyOfKind(c);
    }
  }

  lemma KeyOfKind(c: Command)
    ensures (c == End <==> Key(c) == 21) && (c.EncodedWrite? <==> Key(c) == 25) && SchemaOf(25).None?
  {
  }

  /** The values a command was built from are its fields. */
  lemma ValuesAreFields(key: nat, payload: bytes, version: nat, c: Command)
    requires !(version == 2 && (key == 15 || key == 25)) && key != 21
    requires ParseCommand(key, payload, version) == Ok(c)
    ensures Key(c) == key && SchemaOf(key).Some? && Parse(SchemaOf(key).value, payload) == Ok(Fields(c))
  {
    hide Parse, Parse2, Split, SchemaOf, Fields, Build, Distinct, Occurrences, LastOr, Sendable;
    AcceptedMeans(key, payload, version, c);
    SchemasDistinct(key);
    var schema := SchemaOf(key).value;
    ParseMeaning(schema, payload);
    var vs := Parse(schema, payload).value;
    forall i | 0 <= i < |schema| ensures vs[i] == Fields(c)[i] {
      assert Some(vs[i]) == Some(Fields(c)[i]);
    }
    assert vs == Fields(c);
  }

  /** What a slot must be for the records to say so; nothing is said of an attribute that does not occur. */
  ghost predicate SaysMaybe(rs: seq<Record>, a: Attr, slot: Option<Value>) {
    if slot.None? then Occurrences(rs, a.id) == [] else SaysAttr(rs, a, slot.value)
  }

  lemma SaysSlots(rs: seq<Record>, schema: Schema, slots: Slots)
    requires |slots| == |schema|
    ensures SlotsOf(schema, rs, slots) && WidthsOk(schema, rs) <==>
            forall i :: 0 <= i < |schema| ==> SaysMaybe(rs, schema[i], slots[i])
  {
    hide LastOr, Occurrences, Fits, SaysMaybe;
    forall i | 0 <= i < |schema|
      ensures SaysMaybe(rs, schema[i], slots[i]) <==>
              slots[i] == LastOr(schema[i].ty, Occurrences(rs, schema[i].id), None)
              && forall b <- Occurrences(rs, schema[i].id) :: Fits(schema[i].ty, b)
    {
      SaysSlot(rs, schema[i], slots[i]);
    }
  }

  lemma SaysWriteTable(key: nat, rs: seq<Record>, c: Command)
    requires (key == 15 && c.Write?) || (key == 25 && c.EncodedWrite?)
    ensures SaysWrite(key, rs, c) <==> SlotsOf(Schema2(c), rs, Slots2(c)) && WidthsOk(Schema2(c), rs)
  {
    hide HasBytes, HasNumber, Occurrences, SlotsOf, WidthsOk;
    var schema, slots := Schema2(c), Slots2(c);
    SaysSlots(rs, schema, slots);
    if c.Write? {
      assert SaysWrite(key, rs, c) <==> SaysMaybe(rs, schema[0], slots[0]) && SaysMaybe(rs, schema[1], slots[1]);
    } else {
      assert SaysWrite(key, rs, c) <==>
             && SaysMaybe(rs, schema[0], slots[0]) && SaysMaybe(rs, schema[1], slots[1])
             && SaysMaybe(rs, schema[2], slots[2]) && SaysMaybe(rs, schema[3], slots[3])
             && SaysMaybe(rs, schema[4], slots[4]) && SaysMaybe(rs, schema[5], slots[5])
             && SaysMaybe(rs, schema[6], slots[6]);
    }
  }

  lemma SaysSlot(rs: seq<Record>, a: Attr, slot: Option<Value>)
    ensures SaysMaybe(rs, a, slot) <==>
            slot == LastOr(a.ty, Occurrences(rs, a.id), None) && forall b <- Occurrences(rs, a.id) :: Fits(a.ty, b)
  {
    hide Occurrences, SaysAttr, Fits;
    if slot.Some? {
      SaysValue(rs, a, slot.value);
    } else if Occurrences(rs, a.id) != [] {
      var vs := Occurrences(rs, a.id);
      assert vs[|vs| - 1] in vs;
    }
  }

  /** The records of a version 2 write: none of them is attribute 19, whose id and data follow them. */
  ghost predicate Before(payload: bytes, rs: seq<Record>, data: bytes) {
    ValidRecords(rs) && (forall r <- rs :: r.id != 19) && payload == RecordsBytes(rs) + Le(19, 2) + data
  }

  /** In version 2 a write is decoded to a command exactly if records that say so precede its data. */
  lemma WriteMeans(key: nat, payload: bytes, c: Command)
    requires key == 15 || key == 25
    ensures ParseCommand(key, payload, 2) == Ok(c) <==>
            (c.Write? || c.EncodedWrite?) && exists rs :: Before(payload, rs, c.data) && SaysWrite(key, rs, c)
  {
    hide Parse2, Before, SaysWrite, SlotsOf, WidthsOk, Distinct;
    SchemasDistinct(0);
    if ParseCommand(key, payload, 2) == Ok(c) {
      var rs := WriteRecords(key, payload, c);
      assert Before(payload, rs, c.data) && SaysWrite(key, rs, c);
    }
    if c.Write? || c.EncodedWrite? {
      if rs :| Before(payload, rs, c.data) && SaysWrite(key, rs, c) {
        DecodesWrite(key, payload, rs, c);
      }
    }
  }

  lemma DecodesWrite(key: nat, payload: bytes, rs: seq<Record>, c: Command)
    requires (key == 15 || key == 25) && (c.Write? || c.EncodedWrite?)
    requires Before(payload, rs, c.data) && SaysWrite(key, rs, c)
    ensures ParseCommand(key, payload, 2) == Ok(c)
  {
    hide Parse2, Before, SaysWrite, SlotsOf, WidthsOk, Distinct, DataPayload, Complete;
    SchemasDistinct(0);
    SaysWriteKind(key, rs, c);
    SaysWriteTable(key, rs, c);
    BeforeIs(payload, rs, c.data);
    SlotsFull(c);
    Parse2Meaning(Schema2(c), if key == 15 then 2 else 5, payload, Slots2(c), c.data);
  }

  lemma SaysWriteKind(key: nat, rs: seq<Record>, c: Command)
    requires SaysWrite(key, rs, c)
    ensures (key == 15 && c.Write?) || (key == 25 && c.EncodedWrite?)
  {
  }

  lemma BeforeIs(payload: bytes, rs: seq<Record>, data: bytes)
    ensures Before(payload, rs, data) <==> DataPayload(payload, rs, data)
  {
    hide RecordsBytes, Le;
    ConcatThree(RecordsBytes(rs), Le(19, 2), data);
  }

  lemma ConcatThree(a: bytes, b: bytes, c: bytes)
    ensures (a + b) + c == a + (b + c)
  {
  }

  lemma SlotsFull(c: Command)
    requires c.Write? || c.EncodedWrite?
    ensures Complete(Slots2(c), if c.Write? then 2 else 5)
  {
  }

  lemma WriteRecords(key: nat, payload: bytes, c: Command) returns (rs: seq<Record>)
    requires (key == 15 || key == 25) && ParseCommand(key, payload, 2) == Ok(c)
    ensures (c.Write? || c.EncodedWrite?) && Before(payload, rs, c.data) && SaysWrite(key, rs, c)
  {
    hide Parse2, Before, SaysWrite, SlotsOf, WidthsOk, Distinct, DataPayload;
    SchemasDistinct(0);
    var schema, required := if key == WRITE then WRITE_SCHEMA else ENCODED_WRITE_SCHEMA, if key == WRITE then 2 else 5;
    var (slots, data) := Parse2(schema, required, payload).value;
    Parse2Meaning(schema, required, payload, slots, data);
    rs :| DataPayload(payload, rs, data) && WidthsOk(schema, rs) && SlotsOf(schema, rs, slots);
    SlotsLength(schema, rs, slots);
    forall i | 0 <= i < |schema| && slots[i].Some?
      ensures i == 0 ==> slots[i].value.Blob?
      ensures i > 0 ==> slots[i].value.Number?
    {
      SlotShape(schema, rs, slots, i);
    }
    assert Slots2(c) == slots;
    SaysWriteTable(key, rs, c);
    BeforeIs(payload, rs, data);
  }

  /** Which ids are no command's. */
  lemma UnknownCommand(key: nat, payload: bytes, version: nat)
    ensures ParseCommand(key, payload, version) == Err(UnexpectedCommand) <==> key == 0 || key > 25
  {
    hide Parse, Parse2, Distinct;
    SchemasDistinct(key);
    if SchemaOf(key).Some? {
      ParseErrors(SchemaOf(key).value, payload);
    }
    Parse2Errors(WRITE_SCHEMA, 2, payload);
    Parse2Errors(ENCODED_WRITE_SCHEMA, 5, payload);
  }

  // ---------------------------------------------------------------------------------------
  // Malformed commands

  /** A command that cannot be decoded ends the receive, with no handler method called. */
  lemma MalformedEnds<S>(h: Methods<S>, s: S, version: nat, f: Frame, rest: bytes)
    requires f.Valid() && !ParseCommand(f.command, f.payload, version).Ok?
    ensures var run := Receive(Dispatch(h), s, version, FrameBytes(f) + rest);
            var parsed := ParseCommand(f.command, f.payload, version);
            && run.state == s && run.rest == rest
            && (parsed == Panic <==> run.result == Panic)
            && (forall e :: parsed == Err(e) <==> run.result == Err(e))
  {
    hide ReadFrame, FrameBytes, ParseCommand;
    ReadFrameOfBytes(f, rest);
  }

  // ---------------------------------------------------------------------------------------
  // One stream, byte by byte

  lemma FirstSteps()
    ensures Feed(0x0000_0000, 0x11) == 0xE235_446C
    ensures Feed(0xE235_446C, 0x00) == 0x2C67_69F6
    ensures Feed(0x2C67_69F6, 0x00) == 0xD5E3_EFF4
    ensures Feed(0xD5E3_EFF4, 0x00) == 0x3421_1B85
    ensures Feed(0x3421_1B85, 0x11) == 0x5506_4A13
    ensures Feed(0x5506_4A13, 0x00) == 0x035B_32D1
    ensures Feed(0x035B_32D1, 0x00) == 0x21BB_399A
    ensures Feed(0x21BB_399A, 0x00) == 0xF96B_6F16
    ensures Feed(0xF96B_6F16, 0x00) == 0x3606_4BE8
  {
  }

  lemma FirstSum()
    ensures Update(0x0000_0000, [0x11, 0x00, 0x00, 0x00, 0x11, 0x00, 0x00, 0x00, 0x00]) == 0x3606_4BE8
  {
    hide Feed, Update;
    var u: bytes := [0x11, 0x00, 0x00, 0x00, 0x11, 0x00, 0x00, 0x00, 0x00];
    FirstSteps();
    UpdateAt(u, 0, 0x0000_0000);
    UpdateAt(u, 1, 0xE235_446C);
    UpdateAt(u, 2, 0x2C67_69F6);
    UpdateAt(u, 3, 0xD5E3_EFF4);
    UpdateAt(u, 4, 0x3421_1B85);
    UpdateAt(u, 5, 0x5506_4A13);
    UpdateAt(u, 6, 0x035B_32D1);
    UpdateAt(u, 7, 0x21BB_399A);
    UpdateAt(u, 8, 0xF96B_6F16);
    assert u[0..] == u && u[9..] == [];
    UpdateNothing(0x3606_4BE8);
  }

  lemma SecondSteps()
    ensures Feed(0x3606_4BE8, 0x00) == 0x69DF_F69E
    ensures Feed(0x69DF_F69E, 0x0F) == 0x60AA_A0E2
    ensures Feed(0x60AA_A0E2, 0x00) == 0x026B_724D
    ensures Feed(0x026B_724D, 0x01) == 0x0C3A_B91E
    ensures Feed(0x0C3A_B91E, 0x00) == 0xBC2A_42F1
    ensures Feed(0xBC2A_42F1, 0x61) == 0x9214_D655
    ensures Feed(0x9214_D655, 0x04) == 0xA3DC_4D06
    ensures Feed(0xA3DC_4D06, 0x00) == 0x2602_3BA5
    ensures Feed(0x2602_3BA5, 0x08) == 0x1D45_FB4E
  {
  }

  lemma SecondSum()
    ensures Update(0x3606_4BE8, [0x00, 0x0F, 0x00, 0x01, 0x00, 0x61, 0x04, 0x00, 0x08]) == 0x1D45_FB4E
  {
    hide Feed, Update;
    var u: bytes := [0x00, 0x0F, 0x00, 0x01, 0x00, 0x61, 0x04, 0x00, 0x08];
    SecondSteps();
    UpdateAt(u, 0, 0x3606_4BE8);
    UpdateAt(u, 1, 0x69DF_F69E);
    UpdateAt(u, 2, 0x60AA_A0E2);
    UpdateAt(u, 3, 0x026B_724D);
    UpdateAt(u, 4, 0x0C3A_B91E);
    UpdateAt(u, 5, 0xBC2A_42F1);
    UpdateAt(u, 6, 0x9214_D655);
    UpdateAt(u, 7, 0xA3DC_4D06);
    UpdateAt(u, 8, 0x2602_3BA5);
    assert u[0..] == u && u[9..] == [];
    UpdateNothing(0x1D45_FB4E);
  }

  lemma ThirdSteps()
    ensures Feed(0x1D45_FB4E, 0x00) == 0xED1E_E760
    ensures Feed(0xED1E_E760, 0x02) == 0x8010_FD72
    ensures Feed(0x8010_FD72, 0x01) == 0x6248_B704
    ensures Feed(0x6248_B704, 0x00) == 0xC7F8_DFA8
    ensures Feed(0xC7F8_DFA8, 0x00) == 0x2855_15B6
    ensures Feed(0x2855_15B6, 0x00) == 0x949C_C034
    ensures Feed(0x949C_C034, 0x00) == 0xF7ED_426E
    ensures Feed(0xF7ED_426E, 0x00) == 0xCD49_C107
    ensures Feed(0xCD49_C107, 0x00) == 0xD407_2D2A
  {
  }

  lemma ThirdSum()
    ensures Update(0x1D45_FB4E, [0x00, 0x02, 0x01, 0x00, 0x00, 0x00, 0x00, 0x00, 0x00]) == 0xD407_2D2A
  {
    hide Feed, Update;
    var u: bytes := [0x00, 0x02, 0x01, 0x00, 0x00, 0x00, 0x00, 0x00, 0x00];
    ThirdSteps();
    UpdateAt(u, 0, 0x1D45_FB4E);
    UpdateAt(u, 1, 0xED1E_E760);
    UpdateAt(u, 2, 0x8010_FD72);
    UpdateAt(u, 3, 0x6248_B704);
    UpdateAt(u, 4, 0xC7F8_DFA8);
    UpdateAt(u, 5, 0x2855_15B6);
    UpdateAt(u, 6, 0x949C_C034);
    UpdateAt(u, 7, 0xF7ED_426E);
    UpdateAt(u, 8, 0xCD49_C107);
    assert u[0..] == u && u[9..] == [];
    UpdateNothing(0xD407_2D2A);
  }

  lemma TruncateSum()
    ensures Checksum([0x11, 0x00, 0x00, 0x00, 0x11, 0x00, 0x00, 0x00, 0x00] + [0x00, 0x0F, 0x00, 0x01, 0x00, 0x61, 0x04, 0x00, 0x08] + [0x00, 0x02, 0x01, 0x00, 0x00, 0x00, 0x00, 0x00, 0x00]) == 0xD407_2D2A
  {
    hide Update;
    var a, b, c: bytes := [0x11, 0x00, 0x00, 0x00, 0x11, 0x00, 0x00, 0x00, 0x00], [0x00, 0x0F, 0x00, 0x01, 0x00, 0x61, 0x04, 0x00, 0x08], [0x00, 0x02, 0x01, 0x00, 0x00, 0x00, 0x00, 0x00, 0x00];
    FirstSum();
    SecondSum();
    ThirdSum();
    UpdateConcat(0, a + b, c);
    UpdateConcat(0, a, b);
  }

  lemma EndSteps()
    ensures Feed(0x0000_0000, 0x00) == 0x0000_0000
    ensures Feed(0x0000_0000, 0x15) == 0x25AF_D373
    ensures Feed(0x25AF_D373, 0x00) == 0x62ED_082A
    ensures Feed(0x62ED_082A, 0x00) == 0x4B3D_4BEE
    ensures Feed(0x4B3D_4BEE, 0x00) == 0x4F03_2A76
    ensures Feed(0x4F03_2A76, 0x00) == 0x5776_B0CF
    ensures Feed(0x5776_B0CF, 0x00) == 0x9DC9_6C50
  {
  }

  lemma EndSumStart()
    ensures Update(0x0000_0000, [0x00, 0x00, 0x00, 0x00, 0x15]) == 0x25AF_D373
  {
    hide Feed, Update;
    var u: bytes := [0x00, 0x00, 0x00, 0x00, 0x15];
    EndSteps();
    UpdateAt(u, 0, 0x0000_0000);
    UpdateAt(u, 1, 0x0000_0000);
    UpdateAt(u, 2, 0x0000_0000);
    UpdateAt(u, 3, 0x0000_0000);
    UpdateAt(u, 4, 0x0000_0000);
    assert u[0..] == u && u[5..] == [];
    UpdateNothing(0x25AF_D373);
  }

  lemma EndSumRest()
    ensures Update(0x25AF_D373, [0x00, 0x00, 0x00, 0x00, 0x00]) == 0x9DC9_6C50
  {
    hide Feed, Update;
    var u: bytes := [0x00, 0x00, 0x00, 0x00, 0x00];
    EndSteps();
    UpdateAt(u, 0, 0x25AF_D373);
    UpdateAt(u, 1, 0x62ED_082A);
    UpdateAt(u, 2, 0x4B3D_4BEE);
    UpdateAt(u, 3, 0x4F03_2A76);
    UpdateAt(u, 4, 0x5776_B0CF);
    assert u[0..] == u && u[5..] == [];
    UpdateNothing(0x9DC9_6C50);
  }

  lemma EndSum()
    ensures Checksum([0x00, 0x00, 0x00, 0x00, 0x15] + [0x00, 0x00, 0x00, 0x00, 0x00]) == 0x9DC9_6C50
  {
    hide Update;
    var a, b: bytes := [0x00, 0x00, 0x00, 0x00, 0x15], [0x00, 0x00, 0x00, 0x00, 0x00];
    EndSumStart();
    EndSumRest();
    UpdateConcat(0, a, b);
  }

  /** Truncating "a" to 0x102 bytes, and END, in version 1. */
  const LITERAL: bytes :=
    [0x62, 0x74, 0x72, 0x66, 0x73, 0x2D, 0x73, 0x74, 0x72, 0x65, 0x61, 0x6D, 0x00, 0x01, 0x00, 0x00, 0x00]
    + [0x11, 0x00, 0x00, 0x00, 0x11, 0x00, 0x2A, 0x2D, 0x07, 0xD4]
    + [0x0F, 0x00, 0x01, 0x00, 0x61, 0x04, 0x00, 0x08, 0x00, 0x02, 0x01, 0x00, 0x00, 0x00, 0x00, 0x00, 0x00]
    + [0x00, 0x00, 0x00, 0x00, 0x15, 0x00, 0x50, 0x6C, 0xC9, 0x9D]

  lemma LowIs(n: nat, b0: bool, b1: bool, b2: bool, b3: bool, b4: bool, b5: bool, b6: bool, b7: bool, q: nat)
    requires n == Put(b0, Put(b1, Put(b2, Put(b3, Put(b4, Put(b5, Put(b6, Put(b7, q))))))))
    ensures Low(n) == Pack(b0, b1, b2, b3, b4, b5, b6, b7)
  {
    hide Pack, Put, Odd, Half;
    var n7 := Put(b7, q);
    var n6 := Put(b6, n7);
    var n5 := Put(b5, n6);
    var n4 := Put(b4, n5);
    var n3 := Put(b3, n4);
    var n2 := Put(b2, n3);
    var n1 := Put(b1, n2);
    Doubling(b7, q);
    Doubling(b6, n7);
    Doubling(b5, n6);
    Doubling(b4, n5);
    Doubling(b3, n4);
    Doubling(b2, n3);
    Doubling(b1, n2);
    Doubling(b0, n1);
  }

  lemma PackValues()
    ensures Pack(false, false, false, false, false, false, false, false) == 0x00
    ensures Pack(true, false, false, false, false, false, false, false) == 0x01
    ensures Pack(false, true, false, false, false, false, false, false) == 0x02
    ensures Pack(false, false, true, false, false, false, false, false) == 0x04
    ensures Pack(false, false, false, true, false, false, false, false) == 0x08
    ensures Pack(true, true, true, true, false, false, false, false) == 0x0F
    ensures Pack(true, false, false, false, true, false, false, false) == 0x11
    ensures Pack(true, false, true, false, true, false, false, false) == 0x15
  {
  }

  lemma LowSteps()
    ensures Low(0) == 0 && Low(1) == 1 && Low(2) == 2 && Low(4) == 4 && Low(8) == 8 && Low(15) == 15
    ensures Low(17) == 17 && Low(21) == 21 && Low(0x102) == 2
  {
    hide Low, Pack;
    LowIs(0, false, false, false, false, false, false, false, false, 0);
    LowIs(1, true, false, false, false, false, false, false, false, 0);
    LowIs(2, false, true, false, false, false, false, false, false, 0);
    LowIs(4, false, false, true, false, false, false, false, false, 0);
    LowIs(8, false, false, false, true, false, false, false, false, 0);
    LowIs(15, true, true, true, true, false, false, false, false, 0);
    LowIs(17, true, false, false, false, true, false, false, false, 0);
    LowIs(21, true, false, true, false, true, false, false, false, 0);
    LowIs(258, false, true, false, false, false, false, false, false, 1);
    PackValues();
  }

  lemma LeZero(width: nat)
    ensures width > 0 ==> Le(0, width) == [Low(0)] + Le(0, width - 1)
    ensures width == 0 ==> Le(0, width) == []
  {
    hide Low;
  }

  lemma LeStep(n: nat, width: nat)
    requires width > 0
    ensures Le(n, width) == [Low(n)] + Le(n / 256, width - 1)
  {
    hide Low;
  }

  lemma LeSmall(n: nat)
    requires n < 256
    ensures Le(n, 2) == [Low(n), 0] && Le(n, 4) == [Low(n), 0, 0, 0]
  {
    hide Low, Le;
    LowSteps();
    LeStep(n, 2);
    LeStep(n, 4);
    LeZero(3);
    LeZero(2);
    LeZero(1);
    LeZero(0);
  }

  lemma LeSize()
    ensures Le(0x102, 8) == [2, 1, 0, 0, 0, 0, 0, 0]
  {
    hide Low, Le;
    LowSteps();
    LeStep(0x102, 8);
    LeStep(1, 7);
    LeZero(6);
    LeZero(5);
    LeZero(4);
    LeZero(3);
    LeZero(2);
    LeZero(1);
    LeZero(0);
  }

  const CUT := Truncate([0x61], 0x102)

  lemma CutPayloadBytes()
    ensures Sendable(CUT, 1)
    ensures Payload(CUT, 1) == [0x0F, 0x00, 0x01, 0x00, 0x61] + [0x04, 0x00, 0x08, 0x00] + [0x02, 0x01, 0x00, 0x00, 0x00, 0x00, 0x00, 0x00]
  {
    hide Le, Low;
    LeSmall(15);
    LeSmall(1);
    LeSmall(4);
    LeSmall(8);
    LeSize();
    LowSteps();
    var schema, vs := SchemaOf(17).value, Fields(CUT);
    assert |schema| == |vs| == 2;
    assert ValueBytes(schema[0].ty, vs[0]) == [0x61] && ValueBytes(schema[1].ty, vs[1]) == Le(0x102, 8);
    var rs := Attributes(schema, vs);
    assert rs == [Record(15, [0x61]), Record(4, Le(0x102, 8))];
    TwoRecords(rs[0], rs[1]);
  }

  lemma TwoRecords(r: Record, q: Record)
    ensures RecordsBytes([r, q]) == RecordBytes(r) + RecordBytes(q)
  {
    hide RecordBytes;
    assert [r, q][1..] == [q] && [q][1..] == [];
    assert RecordsBytes([q]) == RecordBytes(q) + RecordsBytes([]);
  }

  lemma Sums()
    ensures WordBytes(0xD407_2D2A) == [0x2A, 0x2D, 0x07, 0xD4] && WordBytes(0x9DC9_6C50) == [0x50, 0x6C, 0xC9, 0x9D]
  {
  }

  lemma CutUnsigned()
    requires Sendable(CUT, 1)
    ensures FrameOf(CUT, 1).command == 17 && |FrameOf(CUT, 1).payload| == 17
    ensures Unsigned(FrameOf(CUT, 1)) ==
            [0x11, 0x00, 0x00, 0x00, 0x11, 0x00, 0x00, 0x00, 0x00] + [0x00, 0x0F, 0x00, 0x01, 0x00, 0x61, 0x04, 0x00, 0x08]
            + [0x00, 0x02, 0x01, 0x00, 0x00, 0x00, 0x00, 0x00, 0x00]
  {
    hide Le, Low, Payload, Sendable;
    CutPayloadBytes();
    LeSmall(17);
    LowSteps();
  }

  lemma CutFrame()
    requires Sendable(CUT, 1)
    ensures FrameBytes(FrameOf(CUT, 1)) ==
            [0x11, 0x00, 0x00, 0x00, 0x11, 0x00, 0x2A, 0x2D, 0x07, 0xD4]
            + [0x0F, 0x00, 0x01, 0x00, 0x61, 0x04, 0x00, 0x08, 0x00, 0x02, 0x01, 0x00, 0x00, 0x00, 0x00, 0x00, 0x00]
  {
    hide Le, Low, Checksum, WordBytes, Payload, Sendable, Unsigned;
    CutUnsigned();
    CutPayloadBytes();
    LeSmall(17);
    LowSteps();
    TruncateSum();
    Sums();
  }

  lemma EndUnsigned()
    requires Sendable(End, 1)
    ensures FrameOf(End, 1) == Frame(21, [])
    ensures Unsigned(FrameOf(End, 1)) == [0x00, 0x00, 0x00, 0x00, 0x15] + [0x00, 0x00, 0x00, 0x00, 0x00]
  {
    hide Le, Low;
    LeSmall(0);
    LeSmall(21);
    LowSteps();
  }

  lemma EndFrame()
    requires Sendable(End, 1)
    ensures FrameBytes(FrameOf(End, 1)) == [0x00, 0x00, 0x00, 0x00, 0x15, 0x00, 0x50, 0x6C, 0xC9, 0x9D]
  {
    hide Le, Low, Checksum, WordBytes, Unsigned;
    EndUnsigned();
    LeSmall(0);
    LeSmall(21);
    LowSteps();
    EndSum();
    Sums();
  }

  /** These very bytes are received as these very calls. */
  lemma LiteralReceived()
    ensures var run := ReceiveStream(Dispatch(Recorder), [], LITERAL);
            run.result == Ok(()) && run.state == [Truncate([0x61], 0x102), End] && run.rest == []
  {
    hide Le, Low, FrameBytes, Sendable, Payload;
    CutPayloadBytes();
    EndSends();
    CutFrame();
    EndFrame();
    LeSmall(1);
    LowSteps();
    var cs := [CUT, End];
    var fs := StreamFrames(cs, 1);
    TwoFrames(fs);
    assert LITERAL == StreamBytes(cs, 1);
    assert LITERAL + [] == LITERAL;
    DeliversExactly(1, cs, []);
  }

  lemma EndSends()
    ensures Sendable(End, 1) && Payload(End, 1) == []
  {
  }

  lemma TwoFrames(fs: seq<Frame>)
    requires |fs| == 2
    ensures FramesBytes(fs) == FrameBytes(fs[0]) + FrameBytes(fs[1])
  {
    hide FrameBytes;
    assert fs[1..][1..] == [];
    assert FramesBytes(fs[1..]) == FrameBytes(fs[1]) + FramesBytes([]);
  }
}
