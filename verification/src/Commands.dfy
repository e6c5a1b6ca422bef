/** The send commands, their attributes, and the dispatch of a frame to a handler method. */
module Commands {
  import opened Bytes
  import opened Frames
  import opened ReadStream
  import opened Tlv

  datatype Timespec = Timespec(sec: int, nsec: nat)

  /** One constructor per handler method, with the attributes the method is given. */
  datatype Command =
    | Subvol(path: bytes, ctransid: nat, uuid: bytes)
    | Snapshot(path: bytes, uuid: bytes, ctransid: nat, cloneUuid: bytes, cloneCtransid: nat)
    | Mkfile(path: bytes, ino: nat)
    | Mkdir(path: bytes, ino: nat)
    | Mknod(path: bytes, mode: nat, rdev: nat)
    | Mkfifo(path: bytes, ino: nat)
    | Mksock(path: bytes, ino: nat)
    | Symlink(path: bytes, ino: nat, pathLink: bytes)
    | Rename(path: bytes, pathTo: bytes)
    | Link(path: bytes, pathLink: bytes)
    | Unlink(path: bytes)
    | Rmdir(path: bytes)
    | SetXattr(path: bytes, xattrName: bytes, xattrData: bytes)
    | RemoveXattr(path: bytes, xattrName: bytes)
    | Write(path: bytes, fileOffset: nat, data: bytes)
    | Clone(path: bytes, fileOffset: nat, cloneLen: nat, cloneUuid: bytes, cloneCtransid: nat,
            clonePath: bytes, cloneOffset: nat)
    | Truncate(path: bytes, size: nat)
    | Chmod(path: bytes, mode: nat)
    | Chown(path: bytes, uid: nat, gid: nat)
    | Utimes(path: bytes, atime: Timespec, mtime: Timespec, ctime: Timespec)
    | End
    | UpdateExtent(path: bytes, fileOffset: nat, size: nat)
    | Fallocate(path: bytes, fallocateMode: nat, fileOffset: nat, size: nat)
    | Fileattr(path: bytes, fileattr: nat)
    | EncodedWrite(path: bytes, fileOffset: nat, unencodedFileLen: nat, unencodedLen: nat,
                   unencodedOffset: nat, compression: Option<nat>, encryption: Option<nat>, data: bytes)

  const WRITE := 15
  const ENCODED_WRITE := 25

  // Attribute ids
  const UUID := 1
  const CTRANSID := 2
  const INO := 3
  const SIZE := 4
  const MODE := 5
  const UID := 6
  const GID := 7
  const RDEV := 8
  const CTIME := 9
  const MTIME := 10
  const ATIME := 11
  const XATTR_NAME := 13
  const XATTR_DATA := 14
  const PATH := 15
  const PATH_TO := 16
  const PATH_LINK := 17
  const FILE_OFFSET := 18
  const CLONE_UUID := 20
  const CLONE_CTRANSID := 21
  const CLONE_PATH := 22
  const CLONE_OFFSET := 23
  const CLONE_LEN := 24
  const FALLOCATE_MODE := 25
  const FILEATTR := 26
  const UNENCODED_FILE_LEN := 27
  const UNENCODED_LEN := 28
  const UNENCODED_OFFSET := 29
  const COMPRESSION := 30
  const ENCRYPTION := 31

  /** The attributes of the commands the version 1 parser handles. */
  function SchemaOf(key: nat): Option<Schema> {
    match key
    case 1 => Some([Attr(PATH, Data), Attr(CTRANSID, U64), Attr(UUID, Uuid)])
    case 2 => Some([Attr(PATH, Data), Attr(UUID, Uuid), Attr(CTRANSID, U64), Attr(CLONE_UUID, Uuid),
                    Attr(CLONE_CTRANSID, U64)])
    case 3 => Some([Attr(PATH, Data), Attr(INO, U64)])
    case 4 => Some([Attr(PATH, Data), Attr(INO, U64)])
    case 5 => Some([Attr(PATH, Data), Attr(MODE, U64), Attr(RDEV, U64)])
    case 6 => Some([Attr(PATH, Data), Attr(INO, U64)])
    case 7 => Some([Attr(PATH, Data), Attr(INO, U64)])
    case 8 => Some([Attr(PATH, Data), Attr(INO, U64), Attr(PATH_LINK, Data)])
    case 9 => Some([Attr(PATH, Data), Attr(PATH_TO, Data)])
    case 10 => Some([Attr(PATH, Data), Attr(PATH_LINK, Data)])
    case 11 => Some([Attr(PATH, Data)])
    case 12 => Some([Attr(PATH, Data)])
    case 13 => Some([Attr(PATH, Data), Attr(XATTR_NAME, Data), Attr(XATTR_DATA, Data)])
    case 14 => Some([Attr(PATH, Data), Attr(XATTR_NAME, Data)])
    case 15 => Some([Attr(PATH, Data), Attr(FILE_OFFSET, U64), Attr(DATA, Data)])
    case 16 => Some([Attr(PATH, Data), Attr(FILE_OFFSET, U64), Attr(CLONE_LEN, U64), Attr(CLONE_UUID, Uuid),
                     Attr(CLONE_CTRANSID, U64), Attr(CLONE_PATH, Data), Attr(CLONE_OFFSET, U64)])
    case 17 => Some([Attr(PATH, Data), Attr(SIZE, U64)])
    case 18 => Some([Attr(PATH, Data), Attr(MODE, U64)])
    case 19 => Some([Attr(PATH, Data), Attr(UID, U64), Attr(GID, U64)])
    case 20 => Some([Attr(PATH, Data), Attr(ATIME, TimeSpec), Attr(MTIME, TimeSpec),
                     Attr(CTIME, TimeSpec)])
    case 22 => Some([Attr(PATH, Data), Attr(FILE_OFFSET, U64), Attr(SIZE, U64)])
    case 23 => Some([Attr(PATH, Data), Attr(FALLOCATE_MODE, U32), Attr(FILE_OFFSET, U64), Attr(SIZE, U64)])
    case 24 => Some([Attr(PATH, Data), Attr(FILEATTR, U64)])
    case _ => None
  }

  const WRITE_SCHEMA: Schema := [Attr(PATH, Data), Attr(FILE_OFFSET, U64)]

  /** The last two attributes are optional. */
  const ENCODED_WRITE_SCHEMA: Schema :=
    [Attr(PATH, Data), Attr(FILE_OFFSET, U64), Attr(UNENCODED_FILE_LEN, U64), Attr(UNENCODED_LEN, U64),
     Attr(UNENCODED_OFFSET, U64), Attr(COMPRESSION, U32), Attr(ENCRYPTION, U32)]

  function Num(v: Value): nat {
    if v.Number? then v.n else 0
  }

  function Raw(v: Value): bytes {
    if v.Blob? then v.data else if v.Id? then v.uuid else []
  }

  function Stamp(v: Value): Timespec {
    if v.Time? then Timespec(v.sec, v.nsec) else Timespec(0, 0)
  }

  /** The command with the id `key` and the values of its attributes. */
  function Build(key: nat, vs: seq<Value>): Command
    requires SchemaOf(key).Some? && |vs| == |SchemaOf(key).value|
  {
    match key
    case 1 => Subvol(Raw(vs[0]), Num(vs[1]), Raw(vs[2]))
    case 2 => Snapshot(Raw(vs[0]), Raw(vs[1]), Num(vs[2]), Raw(vs[3]), Num(vs[4]))
    case 3 => Mkfile(Raw(vs[0]), Num(vs[1]))
    case 4 => Mkdir(Raw(vs[0]), Num(vs[1]))
    case 5 => Mknod(Raw(vs[0]), Num(vs[1]), Num(vs[2]))
    case 6 => Mkfifo(Raw(vs[0]), Num(vs[1]))
    case 7 => Mksock(Raw(vs[0]), Num(vs[1]))
    case 8 => Symlink(Raw(vs[0]), Num(vs[1]), Raw(vs[2]))
    case 9 => Rename(Raw(vs[0]), Raw(vs[1]))
    case 10 => Link(Raw(vs[0]), Raw(vs[1]))
    case 11 => Unlink(Raw(vs[0]))
    case 12 => Rmdir(Raw(vs[0]))
    case 13 => SetXattr(Raw(vs[0]), Raw(vs[1]), Raw(vs[2]))
    case 14 => RemoveXattr(Raw(vs[0]), Raw(vs[1]))
    case 15 => Write(Raw(vs[0]), Num(vs[1]), Raw(vs[2]))
    case 16 => Clone(Raw(vs[0]), Num(vs[1]), Num(vs[2]), Raw(vs[3]), Num(vs[4]), Raw(vs[5]), Num(vs[6]))
    case 17 => Truncate(Raw(vs[0]), Num(vs[1]))
    case 18 => Chmod(Raw(vs[0]), Num(vs[1]))
    case 19 => Chown(Raw(vs[0]), Num(vs[1]), Num(vs[2]))
    case 20 => Utimes(Raw(vs[0]), Stamp(vs[1]), Stamp(vs[2]), Stamp(vs[3]))
    case 22 => UpdateExtent(Raw(vs[0]), Num(vs[1]), Num(vs[2]))
    case 23 => Fallocate(Raw(vs[0]), Num(vs[1]), Num(vs[2]), Num(vs[3]))
    case _ => Fileattr(Raw(vs[0]), Num(vs[1]))
  }

  function MapNum(v: Option<Value>): Option<nat> {
    if v.Some? then Some(Num(v.value)) else None
  }

  /** Decoding a frame: which handler method is called, with which arguments. */
  function ParseCommand(key: nat, payload: bytes, version: nat): Result<Command> {
    if key == END then Ok(End)
    else if key == WRITE && version == 2 then
      match Parse2(WRITE_SCHEMA, 2, payload)
      case Ok((slots, data)) => Ok(Write(Raw(slots[0].value), Num(slots[1].value), data))
      case Err(e) => Err(e)
      case Panic => Panic
    else if key == ENCODED_WRITE then
      if version != 2 then Panic
      else
        match Parse2(ENCODED_WRITE_SCHEMA, 5, payload)
        case Ok((slots, data)) =>
          Ok(EncodedWrite(Raw(slots[0].value), Num(slots[1].value), Num(slots[2].value), Num(slots[3].value),
                          Num(slots[4].value), MapNum(slots[5]), MapNum(slots[6]), data))
        case Err(e) => Err(e)
        case Panic => Panic
    else if SchemaOf(key).None? then Err(UnexpectedCommand)
    else
      match Parse(SchemaOf(key).value, payload)
      case Ok(vs) => Ok(Build(key, vs))
      case Err(e) => Err(e)
      case Panic => Panic
  }

  /** The handler methods, seen as one function of the handler's state and the command. */
  type Methods<!S> = (S, Command) -> (S, Reply)

  /** The default dispatch: decode, then call the matching method. */
  function Dispatch<S>(h: Methods<S>): CmdHandler<S> {
    (s: S, f: Frame, version: nat) =>
      match ParseCommand(f.command, f.payload, version)
      case Ok(c) => h(s, c)
      case Err(e) => (s, Failed(e))
      case Panic => (s, Panicked)
  }

  // ---------------------------------------------------------------------------------------
  // Encoding

  function Key(c: Command): nat {
    match c
    case Subvol(_, _, _) => 1
    case Snapshot(_, _, _, _, _) => 2
    case Mkfile(_, _) => 3
    case Mkdir(_, _) => 4
    case Mknod(_, _, _) => 5
    case Mkfifo(_, _) => 6
    case Mksock(_, _) => 7
    case Symlink(_, _, _) => 8
    case Rename(_, _) => 9
    case Link(_, _) => 10
    case Unlink(_) => 11
    case Rmdir(_) => 12
    case SetXattr(_, _, _) => 13
    case RemoveXattr(_, _) => 14
    case Write(_, _, _) => 15
    case Clone(_, _, _, _, _, _, _) => 16
    case Truncate(_, _) => 17
    case Chmod(_, _) => 18
    case Chown(_, _, _) => 19
    case Utimes(_, _, _, _) => 20
    case End => 21
    case UpdateExtent(_, _, _) => 22
    case Fallocate(_, _, _, _) => 23
    case Fileattr(_, _) => 24
    case EncodedWrite(_, _, _, _, _, _, _, _) => 25
  }

  function Moment(t: Timespec): Value {
    Time(t.sec, t.nsec)
  }

  /** The attribute values of a command, in the order of its schema. */
  function Fields(c: Command): seq<Value> {
    match c
    case Subvol(path, ctransid, uuid) => [Blob(path), Number(ctransid), Id(uuid)]
    case Snapshot(path, uuid, ctransid, cu, cc) => [Blob(path), Id(uuid), Number(ctransid), Id(cu), Number(cc)]
    case Mkfile(path, ino) => [Blob(path), Number(ino)]
    case Mkdir(path, ino) => [Blob(path), Number(ino)]
    case Mknod(path, mode, rdev) => [Blob(path), Number(mode), Number(rdev)]
    case Mkfifo(path, ino) => [Blob(path), Number(ino)]
    case Mksock(path, ino) => [Blob(path), Number(ino)]
    case Symlink(path, ino, link) => [Blob(path), Number(ino), Blob(link)]
    case Rename(path, to) => [Blob(path), Blob(to)]
    case Link(path, link) => [Blob(path), Blob(link)]
    case Unlink(path) => [Blob(path)]
    case Rmdir(path) => [Blob(path)]
    case SetXattr(path, name, data) => [Blob(path), Blob(name), Blob(data)]
    case RemoveXattr(path, name) => [Blob(path), Blob(name)]
    case Write(path, offset, data) => [Blob(path), Number(offset), Blob(data)]
    case Clone(path, offset, len, uuid, ctransid, from, at) =>
      [Blob(path), Number(offset), Number(len), Id(uuid), Number(ctransid), Blob(from), Number(at)]
    case Truncate(path, size) => [Blob(path), Number(size)]
    case Chmod(path, mode) => [Blob(path), Number(mode)]
    case Chown(path, uid, gid) => [Blob(path), Number(uid), Number(gid)]
    case Utimes(path, atime, mtime, ctime) => [Blob(path), Moment(atime), Moment(mtime), Moment(ctime)]
    case UpdateExtent(path, offset, size) => [Blob(path), Number(offset), Number(size)]
    case Fallocate(path, mode, offset, size) => [Blob(path), Number(mode), Number(offset), Number(size)]
    case Fileattr(path, attr) => [Blob(path), Number(attr)]
    case _ => []
  }

  function Slot(n: Option<nat>): Option<Value> {
    if n.Some? then Some(Number(n.value)) else None
  }

  /** The slots the version 2 parser fills for a write command. */
  function Slots2(c: Command): Slots
    requires c.Write? || c.EncodedWrite?
  {
    if c.Write? then [Some(Blob(c.path)), Some(Number(c.fileOffset))]
    else [Some(Blob(c.path)), Some(Number(c.fileOffset)), Some(Number(c.unencodedFileLen)),
          Some(Number(c.unencodedLen)), Some(Number(c.unencodedOffset)), Slot(c.compression), Slot(c.encryption)]
  }

  function Schema2(c: Command): Schema {
    if c.Write? then WRITE_SCHEMA else ENCODED_WRITE_SCHEMA
  }

  /** In version 2 the data attribute of the write commands has no length. */
  predicate DataLast(c: Command, version: nat) {
    version == 2 && (c.Write? || c.EncodedWrite?)
  }

  /** The commands a stream of this version can carry. */
  predicate Sendable(c: Command, version: nat) {
    if c.End? then true
    else if DataLast(c, version) then Encodable2(Schema2(c), Slots2(c))
    else !c.EncodedWrite? && Encodable(SchemaOf(Key(c)).value, Fields(c))
  }

  function Payload(c: Command, version: nat): bytes
    requires Sendable(c, version)
  {
    if c.End? then []
    else if DataLast(c, version) then RecordsBytes(Present(Schema2(c), Slots2(c))) + DataBytes(c.data)
    else RecordsBytes(Attributes(SchemaOf(Key(c)).value, Fields(c)))
  }

  lemma SchemasDistinct(key: nat)
    ensures SchemaOf(key).Some? ==> Distinct(SchemaOf(key).value)
    ensures Distinct(WRITE_SCHEMA) && Distinct(ENCODED_WRITE_SCHEMA)
  {
  }

  lemma BuildOfFields(c: Command)
    requires !c.End? && !c.EncodedWrite?
    ensures SchemaOf(Key(c)).Some? && |Fields(c)| == |SchemaOf(Key(c)).value|
    ensures Build(Key(c), Fields(c)) == c
  {
  }

  lemma ParseDataCommand(c: Command)
    requires Sendable(c, 2) && DataLast(c, 2)
    ensures ParseCommand(Key(c), Payload(c, 2), 2) == Ok(c)
  {
    hide Parse, Parse2, RecordsBytes, Present, Encodable2, Distinct, DataBytes;
    SchemasDistinct(0);
    Parse2OfBytes(Schema2(c), if c.Write? then 2 else 5, Slots2(c), c.data);
  }

  lemma ParsePlainCommand(c: Command, version: nat)
    requires Sendable(c, version) && !DataLast(c, version) && !c.End?
    ensures ParseCommand(Key(c), Payload(c, version), version) == Ok(c)
  {
    hide Parse, Parse2, RecordsBytes, Attributes, Encodable, Distinct, Build, Fields, SchemaOf;
    SchemasDistinct(Key(c));
    BuildOfFields(c);
    var schema, vs := SchemaOf(Key(c)).value, Fields(c);
    ParseOfBytes(schema, vs, []);
    assert RecordsBytes(Attributes(schema, vs)) + [] == RecordsBytes(Attributes(schema, vs));
  }

  /** Every sendable command is decoded to itself. */
  lemma ParseCommandOfPayload(c: Command, version: nat)
    requires Sendable(c, version)
    ensures ParseCommand(Key(c), Payload(c, version), version) == Ok(c)
  {
    if DataLast(c, version) {
      ParseDataCommand(c);
    } else if !c.End? {
      ParsePlainCommand(c, version);
    }
  }

  /** A plain write whose data fits a 16-bit length means the same in both versions. */
  lemma WriteVersionsAgree(path: bytes, offset: nat, data: bytes)
    requires Sendable(Write(path, offset, data), 1)
    ensures var c := Write(path, offset, data);
            && Sendable(c, 2)
            && ParseCommand(WRITE, Payload(c, 1), 1) == ParseCommand(WRITE, Payload(c, 2), 2) == Ok(c)
  {
    hide ParseCommand, Payload, ValueBytes;
    var c := Write(path, offset, data);
    assert Fields(c)[0] == Blob(path) && Fields(c)[1] == Number(offset);
    var schema := SchemaOf(WRITE).value;
    assert schema[0] == WRITE_SCHEMA[0] && schema[1] == WRITE_SCHEMA[1];
    ParseCommandOfPayload(c, 1);
    ParseCommandOfPayload(c, 2);
  }

  // ---------------------------------------------------------------------------------------
  // What an accepted payload says

  ghost predicate Typed(schema: Schema, vs: seq<Value>) {
    |vs| == |schema| && forall i :: 0 <= i < |schema| ==> HasType(vs[i], schema[i].ty)
  }

  predicate Shaped(ty: AttrType, v: Value) {
    match ty
    case U32 => v.Number?
    case U64 => v.Number?
    case Data => v.Blob?
    case Uuid => v.Id?
    case TimeSpec => v.Time?
  }

  lemma FieldsOfBuild(key: nat, vs: seq<Value>)
    requires SchemaOf(key).Some? && Typed(SchemaOf(key).value, vs)
    ensures var c := Build(key, vs);
            Key(c) == key && !c.End? && !c.EncodedWrite? && Fields(c) == vs
  {
    hide HasType;
    var schema := SchemaOf(key).value;
    forall i | 0 <= i < |schema| ensures Shaped(schema[i].ty, vs[i]) {
      TypedShaped(vs[i], schema[i].ty);
    }
  }

  lemma TypedShaped(v: Value, ty: AttrType)
    ensures HasType(v, ty) ==> Shaped(ty, v)
  {
  }

  lemma LastIn(rs: seq<Record>, id: nat)
    requires ValidRecords(rs) && Occurrences(rs, id) != []
    ensures var vs := Occurrences(rs, id); |vs[|vs| - 1]| < 0x1_0000
    decreases |rs|
  {
    assert rs[0].Valid();
    if Occurrences(rs[1..], id) != [] {
      LastIn(rs[1..], id);
    }
  }

  /** The last occurrences in a valid record list have the types of the schema and can be sent again. */
  lemma LastValuesTyped(schema: Schema, rs: seq<Record>, vs: seq<Value>)
    requires ValidRecords(rs) && |vs| == |schema|
    requires forall i :: 0 <= i < |schema| ==>
               Occurrences(rs, schema[i].id) != []
               && Some(vs[i]) == LastOr(schema[i].ty, Occurrences(rs, schema[i].id), None)
    ensures Typed(schema, vs)
    ensures (forall a <- schema :: a.id < 0x1_0000) ==> Encodable(schema, vs)
  {
    hide ParseValue, ValueBytes, HasType, Occurrences, ValidRecords;
    forall i | 0 <= i < |schema|
      ensures HasType(vs[i], schema[i].ty) && |ValueBytes(schema[i].ty, vs[i])| < 0x1_0000
    {
      var all := Occurrences(rs, schema[i].id);
      LastIn(rs, schema[i].id);
      ParsedValueFits(schema[i].ty, all[|all| - 1]);
    }
  }

  lemma SchemaIds(key: nat)
    ensures SchemaOf(key).Some? ==> forall a <- SchemaOf(key).value :: a.id < 0x1_0000
  {
  }

  /**
   A command the version 1 parser accepts has, for each attribute of its kind, the last value the payload
   gives it, and could itself be sent.
   */
  lemma AcceptedMeans(key: nat, payload: bytes, version: nat, c: Command)
    requires ParseCommand(key, payload, version) == Ok(c) && key != END
    requires !(version == 2 && (key == WRITE || key == ENCODED_WRITE))
    ensures Key(c) == key && SchemaOf(key).Some? && Split(payload).Some? && Sendable(c, version)
    ensures var schema := SchemaOf(key).value;
            && |Fields(c)| == |schema|
            && forall i :: 0 <= i < |schema| ==>
                 Some(Fields(c)[i]) == LastOr(schema[i].ty, Occurrences(Split(payload).value, schema[i].id), None)
  {
    hide Parse, Split, SchemaOf, Build, Fields, Distinct, Occurrences, LastOr, Encodable, Typed, WidthsOk;
    var schema := SchemaOf(key).value;
    SchemasDistinct(key);
    SchemaIds(key);
    ParseMeaning(schema, payload);
    var vs, rs := Parse(schema, payload).value, Split(payload).value;
    SplitExact(payload, rs);
    LastValuesTyped(schema, rs, vs);
    FieldsOfBuild(key, vs);
  }

  lemma SlotShape(schema: Schema, rs: seq<Record>, slots: Slots, i: nat)
    requires SlotsOf(schema, rs, slots) && i < |schema| && slots[i].Some?
    ensures Shaped(schema[i].ty, slots[i].value)
  {
    hide Occurrences;
  }

  /**
   A write command the version 2 parser accepts is whole records and then a data attribute; the data is all
   that follows, and the other attributes have the last values the records give them.
   */
  lemma AcceptedWriteMeans(key: nat, payload: bytes, c: Command)
    requires (key == WRITE || key == ENCODED_WRITE) && ParseCommand(key, payload, 2) == Ok(c)
    ensures (key == WRITE && c.Write?) || (key == ENCODED_WRITE && c.EncodedWrite?)
    ensures exists rs :: DataPayload(payload, rs, c.data) && SlotsOf(Schema2(c), rs, Slots2(c))
  {
    hide Distinct, Parse2, DataPayload, SlotsOf, WidthsOk;
    SchemasDistinct(0);
    var schema, required := if key == WRITE then WRITE_SCHEMA else ENCODED_WRITE_SCHEMA, if key == WRITE then 2 else 5;
    var (slots, data) := Parse2(schema, required, payload).value;
    Parse2Meaning(schema, required, payload, slots, data);
    var rs :| DataPayload(payload, rs, data) && WidthsOk(schema, rs) && SlotsOf(schema, rs, slots);
    SlotsLength(schema, rs, slots);
    forall i | 0 <= i < |schema| && slots[i].Some?
      ensures i == 0 ==> slots[i].value.Blob?
      ensures i > 0 ==> slots[i].value.Number?
    {
      SlotShape(schema, rs, slots, i);
    }
    assert Slots2(c) == slots;
  }

  lemma SlotsLength(schema: Schema, rs: seq<Record>, slots: Slots)
    requires SlotsOf(schema, rs, slots)
    ensures |slots| == |schema|
  {
  }

  /** Version 1 parsing never panics. */
  lemma ParsePanicsNever(schema: Schema, payload: bytes)
    ensures !Parse(schema, payload).Panic?
  {
    ScanIsFold(schema, payload, Empty(schema));
  }

  /**
   When decoding panics: exactly for an encoded write outside version 2, and for a version 2 write whose
   payload is whole records followed by an attribute cut off before its length.
   */
  lemma PanicsExactly(key: nat, payload: bytes, version: nat)
    ensures ParseCommand(key, payload, version).Panic? <==>
            || (key == ENCODED_WRITE && version != 2)
            || (version == 2 && (key == WRITE || key == ENCODED_WRITE)
                && exists rs, tail :: CutPayload(payload, rs, tail)
                                      && WidthsOk(if key == WRITE then WRITE_SCHEMA else ENCODED_WRITE_SCHEMA, rs))
  {
    hide Distinct, Parse, Parse2, CutPayload, WidthsOk;
    SchemasDistinct(key);
    Parse2Panics(WRITE_SCHEMA, 2, payload);
    Parse2Panics(ENCODED_WRITE_SCHEMA, 5, payload);
    if SchemaOf(key).Some? {
      ParsePanicsNever(SchemaOf(key).value, payload);
    }
  }

  /** The smallest such inputs: no payload at all in version 1, and two bytes in version 2. */
  lemma PanicExamples()
    ensures ParseCommand(ENCODED_WRITE, [], 1) == Panic
    ensures ParseCommand(WRITE, Le(PATH, 2), 2) == Panic
  {
    hide Le, FromLe;
    Widths();
    FromLeOfLe(PATH, 2);
    assert Le(PATH, 2)[..2] == Le(PATH, 2);
  }

  // ---------------------------------------------------------------------------------------
  // Whole streams

  function FrameOf(c: Command, version: nat): Frame
    requires Sendable(c, version)
  {
    Frame(Key(c), Payload(c, version))
  }

  /** A list of commands a stream of this version can carry, with END last and nowhere else. */
  predicate Stream(cs: seq<Command>, version: nat) {
    && cs != [] && version <= SUPPORTED_VERSION
    && (forall i :: 0 <= i < |cs| ==> Sendable(cs[i], version) && |Payload(cs[i], version)| < 0x1_0000_0000)
    && (forall i :: 0 <= i < |cs| ==> (cs[i] == End <==> i == |cs| - 1))
  }

  function StreamFrames(cs: seq<Command>, version: nat): (fs: seq<Frame>)
    requires forall i :: 0 <= i < |cs| ==> Sendable(cs[i], version)
    ensures |fs| == |cs| && forall i :: 0 <= i < |cs| ==> fs[i] == FrameOf(cs[i], version)
  {
    seq(|cs|, i requires 0 <= i < |cs| => FrameOf(cs[i], version))
  }

  /** The bytes that send `cs`. */
  function StreamBytes(cs: seq<Command>, version: nat): bytes
    requires Stream(cs, version)
  {
    HeaderBytes(version) + FramesBytes(StreamFrames(cs, version))
  }

  /** Runs the methods on `cs`: the final state, if they want more after all but the last. */
  ghost predicate Wants<S>(h: Methods<S>, s: S, cs: seq<Command>, final: S)
    decreases |cs|
  {
    cs != [] &&
    var (s', reply) := h(s, cs[0]);
    if |cs| == 1 then reply == Done && s' == final else reply == More && Wants(h, s', cs[1..], final)
  }

  lemma {:induction false} ReceiveCommands<S>(h: Methods<S>, s: S, version: nat, cs: seq<Command>, final: S, rest: bytes)
    requires Stream(cs, version) && Wants(h, s, cs, final)
    ensures Receive(Dispatch(h), s, version, FramesBytes(StreamFrames(cs, version)) + rest)
            == Run(Ok(()), final, StreamFrames(cs, version), rest)
    decreases |cs|
  {
    hide ReadFrame, FrameBytes, ParseCommand, Payload, Sendable;
    var fs, f := StreamFrames(cs, version), FrameOf(cs[0], version);
    ParseCommandOfPayload(cs[0], version);
    assert Key(cs[0]) < 0x1_0000;
    var more := FramesBytes(fs[1..]) + rest;
    assert FramesBytes(fs) + rest == FrameBytes(f) + more;
    ReadFrameOfBytes(f, more);
    var (s', reply) := h(s, cs[0]);
    if |cs| == 1 {
      assert fs == [f] && more == rest;
    } else {
      assert fs[1..] == StreamFrames(cs[1..], version);
      ReceiveCommands(h, s', version, cs[1..], final, rest);
      assert [f] + fs[1..] == fs;
    }
  }

  /**
   Sending a list of commands and receiving the bytes calls the handler methods with exactly
   that list and leaves the reader just after END.
   */
  lemma EndToEnd<S>(h: Methods<S>, s: S, version: nat, cs: seq<Command>, final: S, rest: bytes)
    requires Stream(cs, version) && Wants(h, s, cs, final)
    ensures ReceiveStream(Dispatch(h), s, StreamBytes(cs, version) + rest)
            == Run(Ok(()), final, StreamFrames(cs, version), rest)
  {
    hide Receive, Frames.ReadHeader, HeaderBytes, FramesBytes, Wants, StreamFrames, Sendable, Payload;
    var body := FramesBytes(StreamFrames(cs, version)) + rest;
    assert StreamBytes(cs, version) + rest == HeaderBytes(version) + body;
    HeaderAccepted(StreamBytes(cs, version) + rest, version, body);
    ReceiveCommands(h, s, version, cs, final, rest);
  }

  /** A handler that remembers its calls. */
  function Recorder(log: seq<Command>, c: Command): (seq<Command>, Reply) {
    (log + [c], if c == End then Done else More)
  }

  lemma {:induction false} RecorderWants(log: seq<Command>, cs: seq<Command>)
    requires cs != [] && forall i :: 0 <= i < |cs| ==> (cs[i] == End <==> i == |cs| - 1)
    ensures Wants(Recorder, log, cs, log + cs)
    decreases |cs|
  {
    if |cs| == 1 {
      assert cs == [cs[0]];
    } else {
      assert (log + [cs[0]]) + cs[1..] == log + cs;
      assert cs[1..] != [];
      RecorderWants(log + [cs[0]], cs[1..]);
    }
  }

  /** The calls a recording handler sees are the commands that were sent. */
  lemma DeliversExactly(version: nat, cs: seq<Command>, rest: bytes)
    requires Stream(cs, version)
    ensures var run := ReceiveStream(Dispatch(Recorder), [], StreamBytes(cs, version) + rest);
            run.result == Ok(()) && run.state == cs && run.rest == rest
  {
    RecorderWants([], cs);
    assert [] + cs == cs;
    hide Stream, StreamBytes, StreamFrames;
    EndToEnd(Recorder, [], version, cs, cs, rest);
  }
}
