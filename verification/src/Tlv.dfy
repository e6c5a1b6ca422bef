/** Type-length-value payloads: the attribute parser every send command shares. */
module Tlv {
  import opened Bytes
  import opened Frames

  datatype AttrType = U32 | U64 | Data | Uuid | TimeSpec

  datatype Value = Number(n: nat) | Blob(data: bytes) | Id(uuid: bytes) | Time(sec: int, nsec: nat)

  /** An attribute of a command: its id on the wire and its type. */
  datatype Attr = Attr(id: nat, ty: AttrType)

  /** The attributes a command's parser has a local variable for, in declaration order. */
  type Schema = seq<Attr>

  type Slots = seq<Option<Value>>

  /** One attribute occurrence of a payload. */
  datatype Record = Record(id: nat, val: bytes) {
    predicate Valid() {
      id < 0x1_0000 && |val| < 0x1_0000
    }
  }

  /** The id of the `data` attribute. */
  const DATA := 19

  predicate Distinct(schema: Schema) {
    forall i, j :: 0 <= i < j < |schema| ==> schema[i].id != schema[j].id
  }

  // ---------------------------------------------------------------------------------------
  // Values

  /** The width an attribute value must have, if its type fixes one. */
  function Width(ty: AttrType): Option<nat> {
    match ty
    case U32 => Some(4)
    case U64 => Some(8)
    case Uuid => Some(16)
    case TimeSpec => Some(12)
    case Data => None
  }

  predicate Fits(ty: AttrType, val: bytes) {
    Width(ty).Some? ==> |val| == Width(ty).value
  }

  /** A 64-bit pattern as the signed seconds of a timespec. */
  function Signed64(n: nat): int {
    if n < 0x8000_0000_0000_0000 then n else n - 0x1_0000_0000_0000_0000
  }

  function ParseValue(ty: AttrType, val: bytes): (v: Option<Value>)
    ensures v.Some? <==> Fits(ty, val)
  {
    if !Fits(ty, val) then None
    else
      match ty
      case U32 => Some(Number(FromLe(val)))
      case U64 => Some(Number(FromLe(val)))
      case Data => Some(Blob(val))
      case Uuid => Some(Id(val))
      case TimeSpec => Some(Time(Signed64(FromLe(val[..8])), FromLe(val[8..])))
  }

  predicate HasType(v: Value, ty: AttrType) {
    match ty
    case U32 => v.Number? && v.n < 0x1_0000_0000
    case U64 => v.Number? && v.n < 0x1_0000_0000_0000_0000
    case Data => v.Blob?
    case Uuid => v.Id? && |v.uuid| == 16
    case TimeSpec =>
      v.Time? && -0x8000_0000_0000_0000 <= v.sec < 0x8000_0000_0000_0000 && v.nsec < 0x1_0000_0000
  }

  function ValueBytes(ty: AttrType, v: Value): bytes
    requires HasType(v, ty)
  {
    match ty
    case U32 => Le(v.n, 4)
    case U64 => Le(v.n, 8)
    case Data => v.data
    case Uuid => v.uuid
    case TimeSpec => Le(if v.sec < 0 then v.sec + 0x1_0000_0000_0000_0000 else v.sec, 8) + Le(v.nsec, 4)
  }

  lemma ParseValueOfBytes(ty: AttrType, v: Value)
    requires HasType(v, ty)
    ensures ParseValue(ty, ValueBytes(ty, v)) == Some(v)
  {
    hide Le, FromLe;
    Widths();
    match ty
    case U32 => FromLeOfLe(v.n, 4);
    case U64 => FromLeOfLe(v.n, 8);
    case Data =>
    case Uuid =>
    case TimeSpec =>
      var n := if v.sec < 0 then v.sec + 0x1_0000_0000_0000_0000 else v.sec;
      FromLeOfLe(n, 8);
      FromLeOfLe(v.nsec, 4);
      var b := ValueBytes(ty, v);
      assert b[..8] == Le(n, 8) && b[8..] == Le(v.nsec, 4);
  }

  lemma ParsedValueFits(ty: AttrType, val: bytes)
    requires Fits(ty, val)
    ensures var v := ParseValue(ty, val).value;
            HasType(v, ty) && |ValueBytes(ty, v)| == |val|
  {
    hide FromLe, Le;
    Widths();
    FromLeBound(val);
    if ty == TimeSpec {
      FromLeBound(val[..8]);
      FromLeBound(val[8..]);
    }
  }

  // ---------------------------------------------------------------------------------------
  // The version 1 parser

  /** The position of attribute `id`, or the length of the schema if it has no such attribute. */
  function Find(schema: Schema, id: nat): (i: nat)
    ensures i <= |schema|
    ensures i < |schema| ==> schema[i].id == id
    ensures forall j :: 0 <= j < i ==> schema[j].id != id
  {
    if schema == [] then 0
    else if schema[0].id == id then 0
    else Find(schema[1..], id) + 1
  }

  /** Record one occurrence; None if its width is wrong. */
  function Store(schema: Schema, slots: Slots, id: nat, val: bytes): (r: Option<Slots>)
    requires |slots| == |schema|
    ensures r.Some? ==> |r.value| == |schema|
  {
    var i := Find(schema, id);
    if i == |schema| then Some(slots)
    else if Fits(schema[i].ty, val) then Some(slots[i := ParseValue(schema[i].ty, val)])
    else None
  }

  function Scan(schema: Schema, payload: bytes, slots: Slots): (r: Result<Slots>)
    requires |slots| == |schema|
    ensures r.Ok? ==> |r.value| == |schema|
    decreases |payload|
  {
    if |payload| < 4 then Ok(slots)
    else
      var end := 4 + FromLe(payload[2..4]);
      if end > |payload| then Err(Truncated)
      else
        match Store(schema, slots, FromLe(payload[..2]), payload[4..end])
        case None => Err(InvalidLength)
        case Some(slots') => Scan(schema, payload[end..], slots')
  }

  function Empty(schema: Schema): (s: Slots)
    ensures |s| == |schema|
  {
    seq(|schema|, _ => None)
  }

  /** All values, if the first `required` slots are filled. */
  predicate Complete(slots: Slots, required: nat) {
    required <= |slots| && forall i :: 0 <= i < required ==> slots[i].Some?
  }

  function Values(slots: Slots): (vs: seq<Value>)
    requires Complete(slots, |slots|)
    ensures |vs| == |slots| && forall i :: 0 <= i < |slots| ==> vs[i] == slots[i].value
  {
    seq(|slots|, i requires 0 <= i < |slots| => slots[i].value)
  }

  function Parse(schema: Schema, payload: bytes): Result<seq<Value>> {
    match Scan(schema, payload, Empty(schema))
    case Err(e) => Err(e)
    case Panic => Panic
    case Ok(slots) => if Complete(slots, |schema|) then Ok(Values(slots)) else Err(MissingAttributes)
  }

  /** The parser the command macro generates for a command with these attributes. */
  method ParseTlv(schema: Schema, payload: bytes) returns (r: Result<seq<Value>>)
    ensures r == Parse(schema, payload)
  {
    hide FromLe;
    var slots := Empty(schema);
    var start, end := 0, 4;
    assert payload[0..] == payload;
    while end <= |payload|
      invariant 0 <= start <= |payload| && end == start + 4
      invariant |slots| == |schema|
      invariant Scan(schema, payload, Empty(schema)) == Scan(schema, payload[start..], slots)
      decreases |payload| - start
    {
      var here := payload[start..];
      var id, len := FromLe(payload[start..start + 2]), FromLe(payload[start + 2..end]);
      assert here[..2] == payload[start..start + 2] && here[2..4] == payload[start + 2..end];
      if end + len > |payload| {
        return Err(Truncated);
      }
      var val := payload[end..end + len];
      assert here[4..4 + len] == val && here[4 + len..] == payload[end + len..];
      var i := Find(schema, id);
      if i < |schema| {
        if !Fits(schema[i].ty, val) {
          return Err(InvalidLength);
        }
        slots := slots[i := ParseValue(schema[i].ty, val)];
      }
      start := end + len;
      end := start + 4;
    }
    if Complete(slots, |schema|) {
      return Ok(Values(slots));
    } else {
      return Err(MissingAttributes);
    }
  }

  // ---------------------------------------------------------------------------------------
  // What a payload means

  function RecordBytes(r: Record): (b: bytes)
    ensures |b| == 4 + |r.val|
  {
    Le(r.id, 2) + Le(|r.val|, 2) + r.val
  }

  function RecordsBytes(rs: seq<Record>): bytes {
    if rs == [] then [] else RecordBytes(rs[0]) + RecordsBytes(rs[1..])
  }

  predicate ValidRecords(rs: seq<Record>) {
    forall r :: r in rs ==> r.Valid()
  }

  /** The records of a payload; None if the last one is cut off. Up to 3 stray bytes may follow. */
  function Split(payload: bytes): Option<seq<Record>>
    decreases |payload|
  {
    if |payload| < 4 then Some([])
    else
      var end := 4 + FromLe(payload[2..4]);
      if end > |payload| then None
      else
        match Split(payload[end..])
        case None => None
        case Some(rs) => Some([Record(FromLe(payload[..2]), payload[4..end])] + rs)
  }

  /** The values attribute `id` takes, in order. */
  function Occurrences(rs: seq<Record>, id: nat): (vs: seq<bytes>)
  {
    if rs == [] then []
    else (if rs[0].id == id then [rs[0].val] else []) + Occurrences(rs[1..], id)
  }

  /** Every occurrence of every known attribute has the width of its type. */
  ghost predicate WidthsOk(schema: Schema, rs: seq<Record>) {
    forall i, v :: 0 <= i < |schema| && v in Occurrences(rs, schema[i].id) ==> Fits(schema[i].ty, v)
  }

  /** The slot of an attribute: its last occurrence, or what was there before. */
  function LastOr(ty: AttrType, vs: seq<bytes>, before: Option<Value>): Option<Value> {
    if vs == [] then before else ParseValue(ty, vs[|vs| - 1])
  }

  function Fold(schema: Schema, slots: Slots, rs: seq<Record>): (r: Option<Slots>)
    requires |slots| == |schema|
    ensures r.Some? ==> |r.value| == |schema|
    decreases |rs|
  {
    if rs == [] then Some(slots)
    else
      match Store(schema, slots, rs[0].id, rs[0].val)
      case None => None
      case Some(slots') => Fold(schema, slots', rs[1..])
  }

  lemma {:induction false} ScanIsFold(schema: Schema, payload: bytes, slots: Slots)
    requires |slots| == |schema|
    ensures !Scan(schema, payload, slots).Panic?
    ensures Split(payload).None? ==>
              Scan(schema, payload, slots) == Err(Truncated) || Scan(schema, payload, slots) == Err(InvalidLength)
    ensures Split(payload).Some? ==>
              var fold := Fold(schema, slots, Split(payload).value);
              Scan(schema, payload, slots) == if fold.Some? then Ok(fold.value) else Err(InvalidLength)
    decreases |payload|
  {
    hide FromLe, Store;
    if |payload| >= 4 {
      var end := 4 + FromLe(payload[2..4]);
      if end <= |payload| {
        var next := Store(schema, slots, FromLe(payload[..2]), payload[4..end]);
        if next.Some? {
          ScanIsFold(schema, payload[end..], next.value);
        }
      }
    }
  }

  lemma {:induction false} FoldMeaning(schema: Schema, slots: Slots, rs: seq<Record>)
    requires |slots| == |schema| && Distinct(schema)
    ensures Fold(schema, slots, rs).Some? <==> WidthsOk(schema, rs)
    ensures Fold(schema, slots, rs).Some? ==>
              forall i :: 0 <= i < |schema| ==>
                Fold(schema, slots, rs).value[i] == LastOr(schema[i].ty, Occurrences(rs, schema[i].id), slots[i])
    decreases |rs|
  {
    if rs == [] {
    } else {
      var r := rs[0];
      var k := Find(schema, r.id);
      forall i | 0 <= i < |schema|
        ensures schema[i].id == r.id <==> i == k
        ensures Occurrences(rs, schema[i].id)
                == (if i == k then [r.val] else []) + Occurrences(rs[1..], schema[i].id)
      {
      }
      if k == |schema| || Fits(schema[k].ty, r.val) {
        var slots' := Store(schema, slots, r.id, r.val).value;
        FoldMeaning(schema, slots', rs[1..]);
        assert WidthsOk(schema, rs) <==> WidthsOk(schema, rs[1..]);
      } else {
        assert r.val in Occurrences(rs, schema[k].id);
      }
    }
  }

  /**
   What parsing means: it succeeds exactly if the payload splits into whole records, every
   occurrence of a known fixed-width attribute has the right width and every attribute occurs;
   each attribute then has the value of its last occurrence.
   */
  lemma ParseMeaning(schema: Schema, payload: bytes)
    requires Distinct(schema)
    ensures Parse(schema, payload).Ok? <==>
              && Split(payload).Some? && WidthsOk(schema, Split(payload).value)
              && forall i :: 0 <= i < |schema| ==> Occurrences(Split(payload).value, schema[i].id) != []
    ensures Parse(schema, payload).Ok? ==>
              var vs, rs := Parse(schema, payload).value, Split(payload).value;
              && |vs| == |schema|
              && forall i :: 0 <= i < |schema| ==>
                   Some(vs[i]) == LastOr(schema[i].ty, Occurrences(rs, schema[i].id), None)
  {
    ScanIsFold(schema, payload, Empty(schema));
    if Split(payload).Some? {
      var rs := Split(payload).value;
      FoldMeaning(schema, Empty(schema), rs);
      if WidthsOk(schema, rs) {
        forall i | 0 <= i < |schema| && Occurrences(rs, schema[i].id) != []
          ensures LastOr(schema[i].ty, Occurrences(rs, schema[i].id), None).Some?
        {
          var vs := Occurrences(rs, schema[i].id);
          assert vs[|vs| - 1] in vs;
        }
      }
    }
  }

  /** Which errors there are, and that a missing attribute is reported exactly if nothing else is wrong. */
  lemma ParseErrors(schema: Schema, payload: bytes)
    requires Distinct(schema)
    ensures var r := Parse(schema, payload);
            && (r.Err? ==> r.error == Truncated || r.error == InvalidLength || r.error == MissingAttributes)
            && (r == Err(MissingAttributes) <==>
                  Split(payload).Some? && WidthsOk(schema, Split(payload).value) && !r.Ok?)
            && (r == Err(Truncated) ==> Split(payload).None?)
            && (r == Err(InvalidLength) <== Split(payload).Some? && !WidthsOk(schema, Split(payload).value))
  {
    hide WidthsOk;
    ScanIsFold(schema, payload, Empty(schema));
    if Split(payload).Some? {
      FoldMeaning(schema, Empty(schema), Split(payload).value);
    }
  }

  /** Two payloads with the same occurrences of every known attribute parse alike. */
  lemma ParseDependsOnOccurrences(schema: Schema, p: bytes, q: bytes)
    requires Distinct(schema) && Split(p).Some? && Split(q).Some?
    requires forall i :: 0 <= i < |schema| ==>
               Occurrences(Split(p).value, schema[i].id) == Occurrences(Split(q).value, schema[i].id)
    ensures Parse(schema, p).Ok? <==> Parse(schema, q).Ok?
    ensures Parse(schema, p).Ok? ==> Parse(schema, p) == Parse(schema, q)
  {
    hide Parse, Split;
    ParseMeaning(schema, p);
    ParseMeaning(schema, q);
    if Parse(schema, p).Ok? {
      var vs, ws := Parse(schema, p).value, Parse(schema, q).value;
      forall i | 0 <= i < |schema|
        ensures vs[i] == ws[i]
      {
        assert Some(vs[i]) == Some(ws[i]);
      }
      assert vs == ws;
    }
  }

  // ---------------------------------------------------------------------------------------
  // Records and bytes

  lemma RecordParts(r: Record, rest: bytes)
    requires r.Valid()
    ensures var b := RecordBytes(r) + rest;
            && FromLe(b[..2]) == r.id && FromLe(b[2..4]) == |r.val|
            && b[4..4 + |r.val|] == r.val && b[4 + |r.val|..] == rest
  {
    hide Le, FromLe;
    var b := RecordBytes(r) + rest;
    Widths();
    FromLeOfLe(r.id, 2);
    FromLeOfLe(|r.val|, 2);
    assert b[..2] == Le(r.id, 2) && b[2..4] == Le(|r.val|, 2);
  }

  lemma RecordOfParts(b: bytes)
    requires |b| >= 4 && |b| >= 4 + FromLe(b[2..4])
    ensures var r := Record(FromLe(b[..2]), b[4..4 + FromLe(b[2..4])]);
            r.Valid() && RecordBytes(r) == b[..4 + |r.val|]
  {
    hide Le, FromLe;
    Widths();
    LeOfFromLe(b[..2]);
    LeOfFromLe(b[2..4]);
    FromLeBound(b[..2]);
    FromLeBound(b[2..4]);
  }

  lemma {:induction false} SplitOfBytes(rs: seq<Record>, tail: bytes)
    requires ValidRecords(rs) && |tail| < 4
    ensures Split(RecordsBytes(rs) + tail) == Some(rs)
    decreases |rs|
  {
    hide FromLe, RecordBytes;
    if rs == [] {
      assert RecordsBytes(rs) + tail == tail;
    } else {
      var more := RecordsBytes(rs[1..]) + tail;
      assert RecordsBytes(rs) + tail == RecordBytes(rs[0]) + more;
      RecordParts(rs[0], more);
      SplitOfBytes(rs[1..], tail);
      assert [rs[0]] + rs[1..] == rs;
    }
  }

  lemma {:induction false} BytesOfSplit(p: bytes)
    requires Split(p).Some?
    ensures var rs := Split(p).value;
            ValidRecords(rs) && RecordsBytes(rs) <= p && |p| < |RecordsBytes(rs)| + 4
    decreases |p|
  {
    hide FromLe, RecordBytes;
    if |p| >= 4 {
      var end := 4 + FromLe(p[2..4]);
      RecordOfParts(p);
      BytesOfSplit(p[end..]);
      assert p == p[..end] + p[end..];
      var rs := Split(p).value;
      assert RecordsBytes(rs) == RecordBytes(rs[0]) + RecordsBytes(rs[1..]);
    }
  }

  /** A payload splits into `rs` exactly if it is their encoding and fewer than four more bytes. */
  lemma SplitExact(p: bytes, rs: seq<Record>)
    ensures Split(p) == Some(rs) <==> ValidRecords(rs) && RecordsBytes(rs) <= p && |p| < |RecordsBytes(rs)| + 4
  {
    hide Split;
    if Split(p).Some? {
      BytesOfSplit(p);
    }
    if ValidRecords(rs) && RecordsBytes(rs) <= p && |p| < |RecordsBytes(rs)| + 4 {
      var tail := p[|RecordsBytes(rs)|..];
      assert p == RecordsBytes(rs) + tail;
      SplitOfBytes(rs, tail);
    }
  }

  lemma {:induction false} OccurrencesConcat(a: seq<Record>, b: seq<Record>, id: nat)
    ensures Occurrences(a + b, id) == Occurrences(a, id) + Occurrences(b, id)
    decreases |a|
  {
    if a == [] {
      assert a + b == b;
    } else {
      assert (a + b)[1..] == a[1..] + b;
      OccurrencesConcat(a[1..], b, id);
    }
  }

  lemma OccurrencesOne(r: Record, id: nat)
    ensures Occurrences([r], id) == if r.id == id then [r.val] else []
  {
  }

  lemma OccurrencesAround(a: seq<Record>, m: seq<Record>, b: seq<Record>, id: nat)
    ensures Occurrences(a + m + b, id) == Occurrences(a, id) + Occurrences(m, id) + Occurrences(b, id)
  {
    hide Occurrences;
    OccurrencesConcat(a + m, b, id);
    OccurrencesConcat(a, m, id);
  }

  lemma OccurrencesTwo(x: Record, y: Record, id: nat)
    ensures Occurrences([x, y], id) == Occurrences([x], id) + Occurrences([y], id)
  {
    hide Occurrences;
    OccurrencesConcat([x], [y], id);
    assert [x] + [y] == [x, y];
  }

  /** Replacing `m` by `n` inside a payload is harmless if no known attribute can tell them apart. */
  lemma MiddleIrrelevant(schema: Schema, a: seq<Record>, m: seq<Record>, n: seq<Record>, b: seq<Record>)
    requires Distinct(schema) && ValidRecords(a + m + b) && ValidRecords(n)
    requires forall i :: 0 <= i < |schema| ==> Occurrences(m, schema[i].id) == Occurrences(n, schema[i].id)
    ensures var p, q := RecordsBytes(a + m + b), RecordsBytes(a + n + b);
            && (Parse(schema, p).Ok? <==> Parse(schema, q).Ok?)
            && (Parse(schema, p).Ok? ==> Parse(schema, p) == Parse(schema, q))
  {
    hide Parse, Split, Occurrences;
    SplitPlain(a + m + b);
    assert forall r :: r in a || r in b ==> r in a + m + b;
    SplitPlain(a + n + b);
    forall i | 0 <= i < |schema|
      ensures Occurrences(a + m + b, schema[i].id) == Occurrences(a + n + b, schema[i].id)
    {
      OccurrencesAround(a, m, b, schema[i].id);
      OccurrencesAround(a, n, b, schema[i].id);
    }
    ParseDependsOnOccurrences(schema, RecordsBytes(a + m + b), RecordsBytes(a + n + b));
  }

  /** An attribute the command does not know changes nothing, wherever it is inserted. */
  lemma UnknownIgnored(schema: Schema, a: seq<Record>, x: Record, b: seq<Record>)
    requires Distinct(schema) && ValidRecords(a + [x] + b) && Find(schema, x.id) == |schema|
    ensures var p, q := RecordsBytes(a + [x] + b), RecordsBytes(a + b);
            && (Parse(schema, p).Ok? <==> Parse(schema, q).Ok?)
            && (Parse(schema, p).Ok? ==> Parse(schema, p) == Parse(schema, q))
  {
    hide Parse, RecordsBytes;
    MiddleIrrelevant(schema, a, [x], [], b);
    assert a + [] + b == a + b;
  }

  /** Neighbouring occurrences of different attributes can change places. */
  lemma OrderIrrelevant(schema: Schema, a: seq<Record>, x: Record, y: Record, b: seq<Record>)
    requires Distinct(schema) && ValidRecords(a + [x, y] + b) && x.id != y.id
    ensures var p, q := RecordsBytes(a + [x, y] + b), RecordsBytes(a + [y, x] + b);
            && (Parse(schema, p).Ok? <==> Parse(schema, q).Ok?)
            && (Parse(schema, p).Ok? ==> Parse(schema, p) == Parse(schema, q))
  {
    hide Parse, RecordsBytes, Occurrences;
    assert x in a + [x, y] + b && y in a + [x, y] + b;
    forall i | 0 <= i < |schema|
      ensures Occurrences([x, y], schema[i].id) == Occurrences([y, x], schema[i].id)
    {
      OccurrencesTwo(x, y, schema[i].id);
      OccurrencesTwo(y, x, schema[i].id);
      OccurrencesOne(x, schema[i].id);
      OccurrencesOne(y, schema[i].id);
    }
    MiddleIrrelevant(schema, a, [x, y], [y, x], b);
  }

  lemma SplitPlain(rs: seq<Record>)
    requires ValidRecords(rs)
    ensures Split(RecordsBytes(rs)) == Some(rs)
  {
    SplitOfBytes(rs, []);
    assert RecordsBytes(rs) + [] == RecordsBytes(rs);
  }

  // ---------------------------------------------------------------------------------------
  // Round trip

  /** Values that fit a schema and whose encodings fit 16-bit lengths. */
  predicate Encodable(schema: Schema, vs: seq<Value>) {
    && |vs| == |schema|
    && forall i :: 0 <= i < |schema| ==>
         HasType(vs[i], schema[i].ty) && schema[i].id < 0x1_0000 && |ValueBytes(schema[i].ty, vs[i])| < 0x1_0000
  }

  function Attributes(schema: Schema, vs: seq<Value>): (rs: seq<Record>)
    requires Encodable(schema, vs)
    ensures |rs| == |vs| && ValidRecords(rs)
    ensures forall i :: 0 <= i < |vs| ==>
              rs[i] == Record(schema[i].id, ValueBytes(schema[i].ty, vs[i]))
  {
    seq(|vs|, i requires 0 <= i < |vs| => Record(schema[i].id, ValueBytes(schema[i].ty, vs[i])))
  }

  lemma {:induction false} NoOccurrence(rs: seq<Record>, id: nat)
    requires forall i :: 0 <= i < |rs| ==> rs[i].id != id
    ensures Occurrences(rs, id) == []
  {
    if rs == [] {
    } else {
      NoOccurrence(rs[1..], id);
    }
  }

  lemma OneOccurrence(rs: seq<Record>, i: nat)
    requires i < |rs| && forall j, k :: 0 <= j < k < |rs| ==> rs[j].id != rs[k].id
    ensures Occurrences(rs, rs[i].id) == [rs[i].val]
  {
    hide Occurrences;
    var id := rs[i].id;
    SplitAt(rs, i);
    OccurrencesConcat(rs[..i] + [rs[i]], rs[i + 1..], id);
    OccurrencesConcat(rs[..i], [rs[i]], id);
    OccurrencesOne(rs[i], id);
    NoOccurrence(rs[..i], id);
    NoOccurrence(rs[i + 1..], id);
  }

  lemma AttributesOccur(schema: Schema, vs: seq<Value>)
    requires Distinct(schema) && Encodable(schema, vs)
    ensures forall i :: 0 <= i < |schema| ==>
              Occurrences(Attributes(schema, vs), schema[i].id) == [ValueBytes(schema[i].ty, vs[i])]
    ensures WidthsOk(schema, Attributes(schema, vs))
  {
    hide Occurrences, ValueBytes, ParseValue;
    var rs := Attributes(schema, vs);
    forall i | 0 <= i < |schema|
      ensures Occurrences(rs, schema[i].id) == [ValueBytes(schema[i].ty, vs[i])]
      ensures Fits(schema[i].ty, ValueBytes(schema[i].ty, vs[i]))
    {
      OneOccurrence(rs, i);
      ParseValueOfBytes(schema[i].ty, vs[i]);
    }
  }

  /** Parsing an encoded command yields its values, whatever stray bytes follow. */
  lemma ParseOfBytes(schema: Schema, vs: seq<Value>, tail: bytes)
    requires Distinct(schema) && Encodable(schema, vs) && |tail| < 4
    ensures Parse(schema, RecordsBytes(Attributes(schema, vs)) + tail) == Ok(vs)
  {
    hide Parse, Split, ValueBytes, ParseValue, Occurrences, WidthsOk;
    var rs := Attributes(schema, vs);
    var p := RecordsBytes(rs) + tail;
    SplitOfBytes(rs, tail);
    AttributesOccur(schema, vs);
    ParseMeaning(schema, p);
    var ws := Parse(schema, p).value;
    forall i | 0 <= i < |schema|
      ensures ws[i] == vs[i]
    {
      ParseValueOfBytes(schema[i].ty, vs[i]);
    }
    assert ws == vs;
  }

  // ---------------------------------------------------------------------------------------
  // The version 2 parser of the commands with a data attribute

  /** The slots, and the data if a data attribute was reached. */
  function Scan2(schema: Schema, payload: bytes, slots: Slots): (r: Result<(Slots, Option<bytes>)>)
    requires |slots| == |schema|
    ensures r.Ok? ==> |r.value.0| == |schema|
    decreases |payload|
  {
    if |payload| < 2 then Ok((slots, None))
    else if FromLe(payload[..2]) == DATA then Ok((slots, Some(payload[2..])))
    else if |payload| < 4 then Panic
    else
      var end := 4 + FromLe(payload[2..4]);
      if end > |payload| then Ok((slots, None))
      else
        match Store(schema, slots, FromLe(payload[..2]), payload[4..end])
        case None => Err(InvalidLength)
        case Some(slots') => Scan2(schema, payload[end..], slots')
  }

  /** The first `required` attributes and the data must be there; the others are optional. */
  function Parse2(schema: Schema, required: nat, payload: bytes): Result<(Slots, bytes)> {
    match Scan2(schema, payload, Empty(schema))
    case Err(e) => Err(e)
    case Panic => Panic
    case Ok((slots, data)) =>
      if Complete(slots, required) && data.Some? then Ok((slots, data.value)) else Err(MissingAttributes)
  }

  method ParseTlv2(schema: Schema, required: nat, payload: bytes) returns (r: Result<(Slots, bytes)>)
    ensures r == Parse2(schema, required, payload)
  {
    hide FromLe;
    var slots, data := Empty(schema), None;
    var start, end := 0, 2;
    assert payload[0..] == payload;
    while end <= |payload|
      invariant 0 <= start && end == start + 2
      invariant |slots| == |schema| && data == None
      invariant Scan2(schema, payload, Empty(schema))
                == if start <= |payload| then Scan2(schema, payload[start..], slots) else Ok((slots, None))
      decreases |payload| - start
    {
      ghost var here := payload[start..];
      var ty := FromLe(payload[start..end]);
      assert here[..2] == payload[start..end];
      if ty == DATA {
        data := Some(payload[end..]);
        assert here[2..] == payload[end..];
        break;
      }
      start, end := start + 2, end + 2;
      if end > |payload| {
        return Panic;
      }
      var len := FromLe(payload[start..end]);
      assert here[2..4] == payload[start..end];
      if end + len <= |payload| {
        var val := payload[end..end + len];
        assert here[4..4 + len] == val && here[4 + len..] == payload[end + len..];
        var i := Find(schema, ty);
        if i < |schema| {
          if !Fits(schema[i].ty, val) {
            return Err(InvalidLength);
          }
          slots := slots[i := ParseValue(schema[i].ty, val)];
        }
      }
      start := end + len;
      end := start + 2;
    }
    if Complete(slots, required) && data.Some? {
      return Ok((slots, data.value));
    } else {
      return Err(MissingAttributes);
    }
  }

  /** The data attribute of version 2: its id, then data up to the end of the payload. */
  function DataBytes(data: bytes): bytes {
    Le(DATA, 2) + data
  }

  predicate NoData(rs: seq<Record>) {
    forall r :: r in rs ==> r.id != DATA
  }

  /** The scan runs through the records before the data attribute and stops there. */
  lemma {:induction false} Scan2OfBytes(schema: Schema, slots: Slots, rs: seq<Record>, data: bytes)
    requires |slots| == |schema| && ValidRecords(rs) && NoData(rs)
    ensures var fold := Fold(schema, slots, rs);
            Scan2(schema, RecordsBytes(rs) + DataBytes(data), slots)
            == if fold.Some? then Ok((fold.value, Some(data))) else Err(InvalidLength)
    decreases |rs|
  {
    hide FromLe, Le, RecordBytes, Store;
    if rs == [] {
      Widths();
      FromLeOfLe(DATA, 2);
      var p := RecordsBytes(rs) + DataBytes(data);
      assert p == DataBytes(data) && p[..2] == Le(DATA, 2) && p[2..] == data;
    } else {
      var more := RecordsBytes(rs[1..]) + DataBytes(data);
      assert RecordsBytes(rs) + DataBytes(data) == RecordBytes(rs[0]) + more;
      RecordParts(rs[0], more);
      var next := Store(schema, slots, rs[0].id, rs[0].val);
      if next.Some? {
        Scan2OfBytes(schema, next.value, rs[1..], data);
      }
    }
  }

  /** A scan that reached a data attribute ran through whole records before it. */
  lemma {:induction false} BytesOfScan2(schema: Schema, slots: Slots, p: bytes) returns (rs: seq<Record>)
    requires |slots| == |schema| && Scan2(schema, p, slots).Ok? && Scan2(schema, p, slots).value.1.Some?
    ensures ValidRecords(rs) && NoData(rs) && p == RecordsBytes(rs) + DataBytes(Scan2(schema, p, slots).value.1.value)
    ensures Fold(schema, slots, rs) == Some(Scan2(schema, p, slots).value.0)
    decreases |p|
  {
    hide FromLe, Le, RecordBytes, Store;
    if FromLe(p[..2]) == DATA {
      rs := [];
      LeOfFromLe(p[..2]);
      assert p == p[..2] + p[2..];
    } else {
      var end := 4 + FromLe(p[2..4]);
      var r := Record(FromLe(p[..2]), p[4..end]);
      RecordOfParts(p);
      var more := BytesOfScan2(schema, Store(schema, slots, r.id, r.val).value, p[end..]);
      rs := [r] + more;
      assert rs[1..] == more;
      assert p == p[..end] + p[end..];
    }
  }

  /** The slots a record list leaves behind: the last occurrence of each attribute. */
  ghost predicate SlotsOf(schema: Schema, rs: seq<Record>, slots: Slots) {
    && |slots| == |schema|
    && forall i :: 0 <= i < |schema| ==>
         slots[i] == LastOr(schema[i].ty, Occurrences(rs, schema[i].id), None)
  }

  /** `payload` is whole records, none of them data, and then the data attribute. */
  ghost predicate DataPayload(payload: bytes, rs: seq<Record>, data: bytes) {
    ValidRecords(rs) && NoData(rs) && payload == RecordsBytes(rs) + DataBytes(data)
  }

  /**
   What version 2 parsing means: it succeeds exactly if the payload is whole records followed by
   a data attribute, widths are right and the required attributes occur; the data is everything
   after the data attribute's id.
   */
  lemma Parse2Meaning(schema: Schema, required: nat, payload: bytes, slots: Slots, data: bytes)
    requires Distinct(schema) && required <= |schema|
    ensures Parse2(schema, required, payload) == Ok((slots, data)) <==>
            && Complete(slots, required)
            && exists rs :: DataPayload(payload, rs, data) && WidthsOk(schema, rs) && SlotsOf(schema, rs, slots)
  {
    hide Scan2, WidthsOk;
    if Parse2(schema, required, payload) == Ok((slots, data)) {
      var rs := BytesOfScan2(schema, Empty(schema), payload);
      FoldMeaning(schema, Empty(schema), rs);
      assert DataPayload(payload, rs, data) && SlotsOf(schema, rs, slots);
    }
    if rs :| DataPayload(payload, rs, data) && WidthsOk(schema, rs) && SlotsOf(schema, rs, slots) {
      Scan2OfBytes(schema, Empty(schema), rs, data);
      FoldMeaning(schema, Empty(schema), rs);
      assert Fold(schema, Empty(schema), rs).value == slots;
    }
  }

  /** `payload` is whole records, none of them data, and then an attribute cut off before its length. */
  ghost predicate CutPayload(payload: bytes, rs: seq<Record>, tail: bytes) {
    && ValidRecords(rs) && NoData(rs) && payload == RecordsBytes(rs) + tail
    && 2 <= |tail| < 4 && FromLe(tail[..2]) != DATA
  }

  /** A scan that panics ran through whole records before the attribute that is cut off. */
  lemma {:induction false} BytesOfCut(schema: Schema, slots: Slots, p: bytes) returns (rs: seq<Record>, tail: bytes)
    requires |slots| == |schema| && Scan2(schema, p, slots).Panic?
    ensures CutPayload(p, rs, tail) && Fold(schema, slots, rs).Some?
    decreases |p|
  {
    hide FromLe, Le, RecordBytes, Store;
    if |p| < 4 {
      rs, tail := [], p;
      assert p == RecordsBytes([]) + p;
    } else {
      var end := 4 + FromLe(p[2..4]);
      var r := Record(FromLe(p[..2]), p[4..end]);
      RecordOfParts(p);
      var more;
      more, tail := BytesOfCut(schema, Store(schema, slots, r.id, r.val).value, p[end..]);
      rs := [r] + more;
      assert rs[1..] == more;
      assert p == p[..end] + p[end..];
      assert RecordsBytes(rs) == RecordBytes(r) + RecordsBytes(more);
    }
  }

  /** A scan that runs through whole records and meets an attribute that is cut off panics. */
  lemma {:induction false} CutOfBytes(schema: Schema, slots: Slots, rs: seq<Record>, tail: bytes)
    requires |slots| == |schema| && CutPayload(RecordsBytes(rs) + tail, rs, tail) && Fold(schema, slots, rs).Some?
    ensures Scan2(schema, RecordsBytes(rs) + tail, slots).Panic?
    decreases |rs|
  {
    hide FromLe, Le, RecordBytes, Store;
    if rs == [] {
      assert RecordsBytes(rs) + tail == tail;
    } else {
      var more := RecordsBytes(rs[1..]) + tail;
      assert RecordsBytes(rs) + tail == RecordBytes(rs[0]) + more;
      RecordParts(rs[0], more);
      CutOfBytes(schema, Store(schema, slots, rs[0].id, rs[0].val).value, rs[1..], tail);
    }
  }

  /**
   When version 2 parsing panics: exactly on whole records of right widths, none of them data, followed by
   an attribute other than data that ends before its two-byte length does.
   */
  lemma Parse2Panics(schema: Schema, required: nat, payload: bytes)
    requires Distinct(schema)
    ensures Parse2(schema, required, payload).Panic? <==>
            exists rs, tail :: CutPayload(payload, rs, tail) && WidthsOk(schema, rs)
  {
    hide Scan2, WidthsOk, CutPayload;
    if Parse2(schema, required, payload).Panic? {
      var rs, tail := BytesOfCut(schema, Empty(schema), payload);
      FoldMeaning(schema, Empty(schema), rs);
      assert CutPayload(payload, rs, tail) && WidthsOk(schema, rs);
    }
    if rs, tail :| CutPayload(payload, rs, tail) && WidthsOk(schema, rs) {
      FoldMeaning(schema, Empty(schema), rs);
      CutIs(payload, rs, tail);
      CutOfBytes(schema, Empty(schema), rs, tail);
    }
  }

  lemma CutIs(payload: bytes, rs: seq<Record>, tail: bytes)
    requires CutPayload(payload, rs, tail)
    ensures payload == RecordsBytes(rs) + tail
  {
  }

  /** The errors of version 2: a cut-off value is none of its own, the attribute just counts as missing. */
  lemma {:induction false} Scan2Errors(schema: Schema, payload: bytes, slots: Slots)
    requires |slots| == |schema|
    ensures Scan2(schema, payload, slots).Err? ==> Scan2(schema, payload, slots).error == InvalidLength
    decreases |payload|
  {
    hide FromLe, Store;
    if |payload| >= 4 && FromLe(payload[..2]) != DATA && 4 + FromLe(payload[2..4]) <= |payload| {
      var end := 4 + FromLe(payload[2..4]);
      var next := Store(schema, slots, FromLe(payload[..2]), payload[4..end]);
      if next.Some? {
        Scan2Errors(schema, payload[end..], next.value);
      }
    }
  }

  lemma Parse2Errors(schema: Schema, required: nat, payload: bytes)
    ensures var r := Parse2(schema, required, payload);
            r.Err? ==> r.error == InvalidLength || r.error == MissingAttributes
  {
    hide Scan2;
    Scan2Errors(schema, payload, Empty(schema));
  }

  /** Slots that fit a schema without a data attribute and whose encodings fit 16-bit lengths. */
  predicate Encodable2(schema: Schema, slots: Slots) {
    && |slots| == |schema|
    && forall i :: 0 <= i < |schema| ==>
         && schema[i].id < 0x1_0000 && schema[i].id != DATA
         && (slots[i].Some? ==>
               HasType(slots[i].value, schema[i].ty) && |ValueBytes(schema[i].ty, slots[i].value)| < 0x1_0000)
  }

  /** One record for each filled slot. */
  function Present(schema: Schema, slots: Slots): (rs: seq<Record>)
    requires Encodable2(schema, slots)
    ensures ValidRecords(rs) && NoData(rs)
    decreases |schema|
  {
    if schema == [] then []
    else
      var more := Present(schema[1..], slots[1..]);
      if slots[0].None? then more
      else [Record(schema[0].id, ValueBytes(schema[0].ty, slots[0].value))] + more
  }

  lemma {:induction false} PresentOccurs(schema: Schema, slots: Slots, id: nat)
    requires Distinct(schema) && Encodable2(schema, slots)
    ensures var i := Find(schema, id);
            Occurrences(Present(schema, slots), id)
            == if i < |schema| && slots[i].Some? then [ValueBytes(schema[i].ty, slots[i].value)] else []
    decreases |schema|
  {
    hide ValueBytes;
    if schema == [] {
    } else {
      PresentOccurs(schema[1..], slots[1..], id);
    }
  }

  /** The version 2 parser inverts the version 2 encoding, for data of any length. */
  lemma Parse2OfBytes(schema: Schema, required: nat, slots: Slots, data: bytes)
    requires Distinct(schema) && Encodable2(schema, slots) && Complete(slots, required)
    ensures Parse2(schema, required, RecordsBytes(Present(schema, slots)) + DataBytes(data)) == Ok((slots, data))
  {
    hide Occurrences, ValueBytes, ParseValue, Parse2;
    var rs := Present(schema, slots);
    forall i | 0 <= i < |schema|
      ensures Find(schema, schema[i].id) == i
      ensures slots[i] == LastOr(schema[i].ty, Occurrences(rs, schema[i].id), None)
      ensures forall v :: v in Occurrences(rs, schema[i].id) ==> Fits(schema[i].ty, v)
    {
      PresentOccurs(schema, slots, schema[i].id);
      if slots[i].Some? {
        ParseValueOfBytes(schema[i].ty, slots[i].value);
      }
    }
    assert DataPayload(RecordsBytes(rs) + DataBytes(data), rs, data) && SlotsOf(schema, rs, slots);
    Parse2Meaning(schema, required, RecordsBytes(rs) + DataBytes(data), slots, data);
  }
}
