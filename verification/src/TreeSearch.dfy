/**
 Tree searches: a packed page of items, the cursor over it, and the drop that moves the lower bound past
 the last item taken, so that the next search goes on from there.
 */
module TreeSearch {
  import opened Bytes
  import opened SearchKey

  // ---------------------------------------------------------------------------------------
  // Items and pages

  datatype Item = Item(transid: nat, key: Key, data: bytes)

  const HEADER := 32

  predicate ItemFits(i: Item) {
    i.transid < U64 && Fits(i.key) && |i.data| < U32
  }

  /** An item as the kernel packs it: a fixed header, then the data. */
  function ItemBytes(i: Item): (b: bytes)
    ensures |b| == HEADER + |i.data|
  {
    Le(i.transid, 8) + Le(i.key.objectid, 8) + Le(i.key.offset, 8) + Le(i.key.ty, 4) + Le(|i.data|, 4) + i.data
  }

  function PageBytes(items: seq<Item>): bytes {
    if items == [] then [] else ItemBytes(items[0]) + PageBytes(items[1..])
  }

  /** Where item `n` of a page starts. */
  function Start(items: seq<Item>, n: nat): nat
    requires n <= |items|
  {
    |PageBytes(items[..n])|
  }

  /** The key in the header at an offset, whatever the bytes there are. */
  function KeyAt(buf: bytes, at: nat): Key
    requires at + HEADER <= |buf|
  {
    Key(FromLe(buf[at + 8..at + 16]), FromLe(buf[at + 24..at + 28]), FromLe(buf[at + 16..at + 24]))
  }

  function LenAt(buf: bytes, at: nat): nat
    requires at + HEADER <= |buf|
  {
    FromLe(buf[at + 28..at + 32])
  }

  function ItemAt(buf: bytes, at: nat): Item
    requires at + HEADER <= |buf| && at + HEADER + LenAt(buf, at) <= |buf|
  {
    Item(FromLe(buf[at..at + 8]), KeyAt(buf, at), buf[at + HEADER..at + HEADER + LenAt(buf, at)])
  }

  lemma ItemParts(i: Item)
    requires ItemFits(i)
    ensures LenAt(ItemBytes(i), 0) == |i.data| && ItemAt(ItemBytes(i), 0) == i
  {
    hide Le, FromLe;
    Widths();
    FromLeOfLe(i.transid, 8);
    FromLeOfLe(i.key.objectid, 8);
    FromLeOfLe(i.key.offset, 8);
    FromLeOfLe(i.key.ty, 4);
    FromLeOfLe(|i.data|, 4);
    var b := ItemBytes(i);
    assert b[0..8] == Le(i.transid, 8) && b[8..16] == Le(i.key.objectid, 8) && b[16..24] == Le(i.key.offset, 8);
    assert b[24..28] == Le(i.key.ty, 4) && b[28..32] == Le(|i.data|, 4) && b[32..] == i.data;
  }

  lemma {:induction false} PageConcat(a: seq<Item>, b: seq<Item>)
    ensures PageBytes(a + b) == PageBytes(a) + PageBytes(b)
  {
    hide ItemBytes;
    if a == [] {
      assert a + b == b;
    } else {
      assert (a + b)[1..] == a[1..] + b;
      PageConcat(a[1..], b);
    }
  }

  lemma Window(buf: bytes, at: nat, b: bytes, from: nat, to: nat)
    requires from <= to <= |b| && at + |b| <= |buf| && buf[at..at + |b|] == b
    ensures buf[at + from..at + to] == b[from..to]
  {
    forall i | from <= i < to ensures buf[at + i] == b[i] {
      assert buf[at..at + |b|][i] == b[i];
    }
  }

  /** A window of a buffer decides what is read there. */
  lemma ItemAtWindow(buf: bytes, at: nat, i: Item)
    requires ItemFits(i) && at + HEADER + |i.data| <= |buf| && buf[at..at + HEADER + |i.data|] == ItemBytes(i)
    ensures LenAt(buf, at) == |i.data| && ItemAt(buf, at) == i
  {
    hide Le, FromLe, ItemBytes;
    ItemParts(i);
    var b := ItemBytes(i);
    Window(buf, at, b, 0, 8);
    Window(buf, at, b, 8, 16);
    Window(buf, at, b, 16, 24);
    Window(buf, at, b, 24, 28);
    Window(buf, at, b, 28, 32);
    Window(buf, at, b, 32, |b|);
  }

  lemma PageOne(i: Item)
    ensures PageBytes([i]) == ItemBytes(i) && PageBytes([]) == []
  {
    hide ItemBytes;
    assert [i][1..] == [];
  }

  lemma PageSplit(items: seq<Item>, n: nat)
    requires n < |items|
    ensures PageBytes(items[..n + 1]) == PageBytes(items[..n]) + ItemBytes(items[n])
    ensures PageBytes(items[..n + 1]) <= PageBytes(items)
    ensures PageBytes(items[..0]) == []
  {
    hide ItemBytes, PageBytes;
    PageOne(items[n]);
    assert items[..0] == [];
    SplitAt(items, n);
    PageConcat(items[..n], [items[n]]);
    PageConcat(items[..n + 1], items[n + 1..]);
  }

  /** Reading where item `n` starts gives item `n`, and its total length leads to the next one. */
  lemma ItemAtStart(buf: bytes, items: seq<Item>, n: nat)
    requires n < |items| && (forall i <- items :: ItemFits(i)) && PageBytes(items) <= buf
    ensures Start(items, n + 1) == Start(items, n) + HEADER + |items[n].data| <= |buf|
    ensures LenAt(buf, Start(items, n)) == |items[n].data| && ItemAt(buf, Start(items, n)) == items[n]
    ensures Start(items, 0) == 0
  {
    hide ItemBytes, LenAt, ItemAt, PageBytes, ItemFits;
    PageSplit(items, n);
    assert PageBytes(items[..n + 1]) <= buf;
    ItemAtWindow(buf, Start(items, n), items[n]);
  }

  // ---------------------------------------------------------------------------------------
  // What the kernel answers

  datatype Bounds = Bounds(min: Key, max: Key, nrItems: nat)

  predicate Sorted(tree: seq<Item>) {
    forall i, j :: 0 <= i < j < |tree| ==> Less(tree[i].key, tree[j].key)
  }

  ghost predicate Tree(tree: seq<Item>) {
    Sorted(tree) && forall i <- tree :: ItemFits(i) && Stored(i.key)
  }

  /** The items whose keys, compared as a whole, are between `min` and `max`. */
  function Matching(tree: seq<Item>, min: Key, max: Key): seq<Item> {
    if tree == [] then []
    else (if AtMost(min, tree[0].key) && AtMost(tree[0].key, max) then [tree[0]] else []) + Matching(tree[1..], min, max)
  }

  datatype Answer = Failed | Page(count: nat)

  /** A page is the first matching items: some, if any match, at most as many as asked for, and they fit. */
  predicate Possible(tree: seq<Item>, bounds: Bounds, size: nat, answer: Answer) {
    var items := Matching(tree, bounds.min, bounds.max);
    answer.Page? ==>
      && answer.count <= |items|
      && (items != [] ==> answer.count > 0)
      && answer.count <= (if bounds.nrItems > 0 then bounds.nrItems else 1)
      && |PageBytes(items[..answer.count])| <= size
  }

  /** What the caller's function makes of the last key: the new lower bound, nothing, or no return. */
  datatype Update = Move(key: Key) | Stay | Hangs

  /** The successor function used as the caller's function. */
  function ByOffset(k: Key): Update {
    if NextOffset(k).Some? then Move(NextOffset(k).value) else Hangs
  }

  /** The search with its buffer: 3992 bytes inline, or as many as asked for on the heap. */
  class Search {
    var bounds: Bounds
    const buffer: array<byte>

    constructor (bounds: Bounds, size: nat)
      requires size >= HEADER
      ensures this.bounds == bounds && fresh(buffer) && buffer.Length == size
    {
      this.bounds := bounds;
      buffer := new byte[size];
    }

    /** The kernel's part: it fills the front of the buffer and overwrites the item limit with the count. */
    method Ioctl(tree: seq<Item>, answer: Answer) returns (ok: bool)
      requires Possible(tree, bounds, buffer.Length, answer)
      modifies this`bounds, buffer
      ensures ok == answer.Page?
      ensures answer.Failed? ==> bounds == old(bounds) && buffer[..] == old(buffer[..])
      ensures answer.Page? ==> bounds == old(bounds).(nrItems := answer.count)
      ensures answer.Page? ==>
        var page := PageBytes(Matching(tree, bounds.min, bounds.max)[..answer.count]);
        && page <= buffer[..]
        && buffer[|page|..] == old(buffer[|page|..])
    {
      hide Matching, PageBytes;
      ok := answer.Page?;
      if ok {
        var page := PageBytes(Matching(tree, bounds.min, bounds.max)[..answer.count]);
        forall i | 0 <= i < |page| {
          buffer[i] := page[i];
        }
        bounds := bounds.(nrItems := answer.count);
      }
    }

    /** Search; on success the item limit is what it was, and the cursor stands before the page. */
    method Query(tree: seq<Item>, answer: Answer) returns (ok: bool, index: nat)
      requires Possible(tree, bounds, buffer.Length, answer)
      modifies this`bounds, buffer
      ensures bounds == old(bounds)
      ensures ok == answer.Page?
      ensures ok ==> index == answer.count
      ensures ok ==> PageBytes(Matching(tree, bounds.min, bounds.max)[..index]) <= buffer[..]
      ensures ok && index == 0 ==> buffer[..] == old(buffer[..])
    {
      hide Matching;
      var nrItemsIn := bounds.nrItems;
      ok := Ioctl(tree, answer);
      if !ok {
        return false, 0;
      }
      index := bounds.nrItems;
      bounds := bounds.(nrItems := nrItemsIn);
    }
  }

  /** The cursor over one page. */
  class Iter {
    const search: Search
    var index: nat
    var currOffset: nat
    var prevOffset: nat
    ghost const page: seq<Item>

    ghost function Taken(): nat
      reads this
      requires index <= |page|
    {
      |page| - index
    }

    ghost predicate Valid()
      reads this, search, search.buffer
    {
      && search.buffer.Length >= HEADER
      && (forall i <- page :: ItemFits(i))
      && PageBytes(page) <= search.buffer[..]
      && index <= |page|
      && currOffset == Start(page, Taken())
      && prevOffset == if Taken() == 0 then 0 else Start(page, Taken() - 1)
    }

    constructor (search: Search, index: nat, ghost page: seq<Item>)
      requires search.buffer.Length >= HEADER && (forall i <- page :: ItemFits(i))
      requires PageBytes(page) <= search.buffer[..] && index == |page|
      ensures Valid() && this.search == search && this.page == page && Taken() == 0
    {
      this.search, this.page := search, page;
      this.index, currOffset, prevOffset := index, 0, 0;
    }

    method Next() returns (r: Option<Item>)
      requires Valid()
      modifies this
      ensures Valid()
      ensures r.None? <==> old(Taken()) == |page|
      ensures r.None? ==> Taken() == old(Taken())
      ensures r.Some? ==> Taken() == old(Taken()) + 1 && r.value == page[old(Taken())]
    {
      hide PageBytes, ItemAt, LenAt, ItemFits;
      if index == 0 {
        return None;
      }
      ItemAtStart(search.buffer[..], page, Taken());
      index := index - 1;
      var item := ItemAt(search.buffer[..], currOffset);
      prevOffset := currOffset;
      currOffset := currOffset + HEADER + LenAt(search.buffer[..], prevOffset);
      return Some(item);
    }

    /**
     Leaving the page: the caller's function gets the key of the last item taken, or, if none was, the
     key of whatever the buffer starts with, and says where the next search begins.
     */
    method Drop(f: Key -> Update) returns (returned: bool)
      requires Valid()
      modifies search`bounds
      ensures var last := if Taken() > 0 then page[Taken() - 1].key
                          else if page != [] then page[0].key
                          else KeyAt(search.buffer[..], 0);
              && returned == !f(last).Hangs?
              && search.bounds == match f(last)
                                  case Move(key) => old(search.bounds).(min := key)
                                  case _ => old(search.bounds)
    {
      hide PageBytes, LenAt, ItemFits, FromLe;
      if Taken() > 0 {
        ItemAtStart(search.buffer[..], page, Taken() - 1);
      } else if page != [] {
        ItemAtStart(search.buffer[..], page, 0);
      }
      var update := f(KeyAt(search.buffer[..], prevOffset));
      if update.Move? {
        search.bounds := search.bounds.(min := update.key);
      }
      returned := !update.Hangs?;
    }
  }
}
