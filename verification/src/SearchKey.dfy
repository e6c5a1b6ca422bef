/** The keys a tree search is sorted by, and the functions that step to a following key. */
module SearchKey {
  import opened Bytes

  const U64 := 0x1_0000_0000_0000_0000
  const U32 := 0x1_0000_0000
  const U8 := 0x100

  datatype Key = Key(objectid: nat, ty: nat, offset: nat)

  /** What fits the search key's fields; the type field is 32 bits wide. */
  predicate Fits(k: Key) {
    k.objectid < U64 && k.ty < U32 && k.offset < U64
  }

  /** What keys in a tree look like; types are 8 bits wide. */
  predicate Stored(k: Key) {
    k.objectid < U64 && k.ty < U8 && k.offset < U64
  }

  /** The order of the tree: by objectid, then type, then offset. */
  predicate Less(a: Key, b: Key) {
    || a.objectid < b.objectid
    || (a.objectid == b.objectid && a.ty < b.ty)
    || (a.objectid == b.objectid && a.ty == b.ty && a.offset < b.offset)
  }

  predicate AtMost(a: Key, b: Key) {
    a == b || Less(a, b)
  }

  function NextObjectid(k: Key): Key {
    if k.objectid + 1 < U64 then Key(k.objectid + 1, 0, 0) else k
  }

  /** The result if the function returns within so many calls of itself. */
  function NextTypeCalls(k: Key, calls: nat): Option<Key> {
    if calls == 0 then None
    else if k.ty % U8 + 1 < U8 then Some(Key(k.objectid, k.ty % U8 + 1, 0))
    else NextTypeCalls(k, calls - 1)
  }

  /** None where the function never returns. */
  function NextType(k: Key): Option<Key> {
    if k.ty % U8 == U8 - 1 then None else Some(Key(k.objectid, k.ty % U8 + 1, 0))
  }

  function NextOffset(k: Key): Option<Key> {
    if k.offset + 1 < U64 then Some(k.(offset := k.offset + 1)) else NextType(k)
  }

  /** At type 255 the function calls itself with the same key for ever; otherwise once is enough. */
  lemma {:induction false} NextTypeReturns(k: Key, calls: nat)
    ensures NextTypeCalls(k, calls) == if calls == 0 then None else NextType(k)
  {
    if calls > 1 {
      NextTypeReturns(k, calls - 1);
    }
  }

  /** `n` is the least key above `k`. */
  ghost predicate Successor(k: Key, n: Key) {
    Fits(n) && Less(k, n) && forall m :: Fits(m) && Less(k, m) ==> AtMost(n, m)
  }

  /** `n` is the least of the keys that trees hold above `k`. */
  ghost predicate StoredSuccessor(k: Key, n: Key) {
    Stored(n) && Less(k, n) && forall m :: Stored(m) && Less(k, m) ==> AtMost(n, m)
  }

  /** The next offset is the next key exactly if the offset or the type still has room. */
  lemma NextOffsetExact(k: Key)
    requires Fits(k)
    ensures (NextOffset(k).Some? && Successor(k, NextOffset(k).value)) <==> k.offset < U64 - 1 || k.ty < U8 - 1
  {
  }

  /** For a key that a tree holds, it is the next such key unless both are exhausted; then it never returns. */
  lemma NextOffsetStored(k: Key)
    requires Stored(k)
    ensures NextOffset(k).None? <==> k.ty == U8 - 1 && k.offset == U64 - 1
    ensures NextOffset(k).Some? ==> StoredSuccessor(k, NextOffset(k).value)
  {
  }

  /** The next objectid is the least key above all keys with this one, unless it is the last: then nothing moves. */
  lemma NextObjectidSkips(k: Key, m: Key)
    requires Fits(k) && Fits(m)
    ensures k.objectid < U64 - 1 ==> (m.objectid > k.objectid <==> AtMost(NextObjectid(k), m))
    ensures k.objectid == U64 - 1 ==> NextObjectid(k) == k
  {
  }

  /** `m` comes after every key with the objectid and type of `k`. */
  predicate PastType(k: Key, m: Key) {
    m.objectid > k.objectid || (m.objectid == k.objectid && m.ty > k.ty)
  }

  /** `n` separates the keys past the objectid and type of `k` from those up to them. */
  ghost predicate SkipsType(k: Key, n: Key) {
    forall m :: Fits(m) ==> (AtMost(n, m) <==> PastType(k, m))
  }

  /** The next type skips the keys up to this objectid and type, and only them, exactly for types below 255. */
  lemma NextTypeSkips(k: Key)
    requires Fits(k)
    ensures (NextType(k).Some? && SkipsType(k, NextType(k).value)) <==> k.ty < U8 - 1
  {
    if k.ty >= U8 {
      var m := Key(k.objectid, k.ty, 0);
      assert Fits(m) && !PastType(k, m);
      assert NextType(k).Some? ==> AtMost(NextType(k).value, m);
    }
  }
}
