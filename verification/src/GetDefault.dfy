/** The default subvolume: the first directory item named "default", looked for page by page. */
module GetDefault {
  import opened Bytes
  import opened SearchKey
  import opened TreeSearch
  import Paging

  const ROOT_TREE_DIR := 6
  const DIR_ITEM := 84
  const BUFFER := 3992
  const FIXED := 30

  /** "default" */
  const DEFAULT: bytes := [0x64, 0x65, 0x66, 0x61, 0x75, 0x6C, 0x74]

  /** A directory item: the key it leads to, transaction, data and name lengths, type, and the name. */
  predicate IsDefault(i: Item) {
    && |i.data| >= FIXED
    && FromLe(i.data[27..29]) == |DEFAULT| <= |i.data| - FIXED
    && i.data[FIXED..FIXED + |DEFAULT|] == DEFAULT
  }

  function Location(i: Item): nat {
    if |i.data| >= 8 then FromLe(i.data[..8]) else 0
  }

  /**
   What a directory item is made of: the key it leads to, whose objectid comes first, nine more bytes of it,
   the transaction, the length of the data behind the name, the length of the name, the type, and the name.
   */
  ghost predicate Layout(data: bytes, objectid: nat, name: bytes) {
    && objectid < 0x1_0000_0000_0000_0000 && |name| < 0x1_0000
    && exists between: bytes, ty: bytes, more: bytes ::
         |between| == 19 && |ty| == 1
         && data == Le(objectid, 8) + between + Le(|name|, 2) + ty + name + more
  }

  lemma LayoutRead(data: bytes, objectid: nat, name: bytes)
    requires Layout(data, objectid, name)
    ensures |data| >= FIXED + |name| && FromLe(data[..8]) == objectid && FromLe(data[27..29]) == |name|
    ensures data[FIXED..FIXED + |name|] == name
  {
    hide Le, FromLe;
    var between: bytes, ty: bytes, more: bytes :|
      |between| == 19 && |ty| == 1
      && data == Le(objectid, 8) + between + Le(|name|, 2) + ty + name + more;
    Widths();
    FromLeOfLe(objectid, 8);
    FromLeOfLe(|name|, 2);
    assert data[..8] == Le(objectid, 8);
    assert data[27..29] == Le(|name|, 2);
  }

  /** The name is compared as a whole, and the id found is that of the key the item leads to. */
  lemma DirItemMeans(i: Item)
    ensures forall objectid: nat, name: bytes :: Layout(i.data, objectid, name) ==>
              && (IsDefault(i) <==> name == [0x64, 0x65, 0x66, 0x61, 0x75, 0x6C, 0x74])
              && Location(i) == objectid
    ensures IsDefault(i) ==> Layout(i.data, Location(i), [0x64, 0x65, 0x66, 0x61, 0x75, 0x6C, 0x74])
  {
    hide Le, FromLe, Layout;
    var data := i.data;
    forall objectid: nat, name: bytes | Layout(data, objectid, name)
      ensures (IsDefault(i) <==> name == DEFAULT) && Location(i) == objectid
    {
      LayoutRead(data, objectid, name);
    }
    if IsDefault(i) {
      DefaultLayout(data);
    }
  }

  lemma DefaultLayout(data: bytes)
    requires |data| >= FIXED && FromLe(data[27..29]) == |DEFAULT| <= |data| - FIXED
    requires data[FIXED..FIXED + |DEFAULT|] == DEFAULT
    ensures Layout(data, FromLe(data[..8]), DEFAULT)
  {
    hide Le, FromLe;
    Widths();
    FromLeBound(data[..8]);
    LeOfFromLe(data[..8]);
    LeOfFromLe(data[27..29]);
    assert data == data[..8] + data[8..27] + data[27..29] + data[29..30] + DEFAULT + data[FIXED + |DEFAULT|..];
  }

  /** `Overflow` stands for adding one to the largest offset. */
  datatype Default = Found(id: nat) | NotFound | SearchFailed | Overflow

  const START := Key(ROOT_TREE_DIR, DIR_ITEM, 0)
  const LAST := Key(ROOT_TREE_DIR, DIR_ITEM, U64 - 1)

  function Range(min: Key): Bounds {
    Bounds(min, LAST, U32 - 1)
  }

  /** The first of the items with the name looked for. */
  function First(items: seq<Item>): Option<Item> {
    if items == [] then None else if IsDefault(items[0]) then Some(items[0]) else First(items[1..])
  }

  lemma {:induction false} FirstConcat(a: seq<Item>, b: seq<Item>)
    ensures First(a + b) == if First(a).Some? then First(a) else First(b)
  {
    hide IsDefault;
    if a == [] {
      assert a + b == b;
    } else {
      assert (a + b)[1..] == a[1..] + b;
      FirstConcat(a[1..], b);
    }
  }

  /** First means what it says. */
  lemma {:induction false} FirstExact(items: seq<Item>)
    ensures First(items).None? <==> forall i <- items :: !IsDefault(i)
    ensures First(items).Some? ==>
              exists k :: 0 <= k < |items| && items[k] == First(items).value && IsDefault(items[k])
                          && forall j :: 0 <= j < k ==> !IsDefault(items[j])
  {
    hide IsDefault;
    if items != [] && !IsDefault(items[0]) {
      FirstExact(items[1..]);
      assert items == [items[0]] + items[1..];
      if First(items).Some? {
        var k :| 0 <= k < |items[1..]| && items[1..][k] == First(items).value && IsDefault(items[1..][k])
                 && forall j :: 0 <= j < k ==> !IsDefault(items[1..][j]);
        assert items[k + 1] == First(items).value;
        assert forall j :: 0 < j < k + 1 ==> items[j] == items[1..][j - 1];
      }
    }
  }

  lemma {:induction false} InRange(tree: seq<Item>, min: Key)
    requires Tree(tree) && min.objectid == ROOT_TREE_DIR && min.ty == DIR_ITEM
    ensures forall i <- Matching(tree, min, LAST) :: i.key.objectid == ROOT_TREE_DIR && i.key.ty == DIR_ITEM
    ensures forall i <- Matching(tree, min, LAST) :: ItemFits(i) && Stored(i.key)
  {
    if tree == [] {
    } else {
      Paging.TreeTail(tree);
      InRange(tree[1..], min);
    }
  }

  /** The next page, for the function that adds one to the offset. */
  lemma NextDirItems(tree: seq<Item>, min: Key, n: nat)
    requires Tree(tree) && min.objectid == ROOT_TREE_DIR && min.ty == DIR_ITEM
    requires 0 < n <= |Matching(tree, min, LAST)|
    ensures var items := Matching(tree, min, LAST);
            var k := items[n - 1].key;
            && k.objectid == ROOT_TREE_DIR && k.ty == DIR_ITEM
            && (k.offset < U64 - 1 ==> Matching(tree, k.(offset := k.offset + 1), LAST) == items[n..])
            && (k.offset == U64 - 1 ==> n == |items|)
  {
    hide Matching, Tree, ItemFits;
    var items := Matching(tree, min, LAST);
    var k := items[n - 1].key;
    InRange(tree, min);
    Paging.MatchingSorted(tree, min, LAST);
    LargestIsLast(items, n);
    if k.offset < U64 - 1 {
      Paging.NextPage(tree, min, LAST, n, k.(offset := k.offset + 1));
    }
  }

  lemma OffsetsBelow(tree: seq<Item>, min: Key, n: nat)
    requires Tree(tree) && min.objectid == ROOT_TREE_DIR && min.ty == DIR_ITEM
    requires 0 < n <= |Matching(tree, min, LAST)|
    requires Matching(tree, min, LAST)[n - 1].key.offset < U64 - 1
    ensures forall i <- Matching(tree, min, LAST)[..n] :: i.key.offset < U64 - 1
  {
    hide Matching, Tree, ItemFits;
    var items := Matching(tree, min, LAST);
    InRange(tree, min);
    Paging.MatchingSorted(tree, min, LAST);
    forall i | 0 <= i < n ensures items[i].key.offset < U64 - 1 {
      LargestIsLast(items, i + 1);
    }
  }

  lemma LargestIsLast(items: seq<Item>, n: nat)
    requires Sorted(items) && 0 < n <= |items|
    requires forall i <- items :: i.key.objectid == ROOT_TREE_DIR && i.key.ty == DIR_ITEM && Stored(i.key)
    ensures items[n - 1].key.offset == U64 - 1 ==> n == |items|
  {
    if n < |items| {
      assert Less(items[n - 1].key, items[n].key);
    }
  }

  /** Take items off the page until one has the name. */
  method Find(iter: Iter) returns (r: Option<Item>)
    requires iter.Valid() && iter.Taken() == 0
    modifies iter
    ensures iter.Valid() && r == First(iter.page)
    ensures r.None? ==> iter.Taken() == |iter.page|
    ensures r.Some? ==> iter.Taken() > 0 && r.value == iter.page[iter.Taken() - 1]
  {
    hide IsDefault, ItemFits, PageBytes, Start;
    assert iter.page[0..] == iter.page;
    while true
      invariant iter.Valid() && First(iter.page) == First(iter.page[iter.Taken()..])
      decreases |iter.page| - iter.Taken()
    {
      ghost var n := iter.Taken();
      r := iter.Next();
      if r.None? {
        assert iter.page[n..] == [];
        return;
      }
      assert iter.page[n..][1..] == iter.page[n + 1..];
      if IsDefault(r.value) {
        return;
      }
    }
  }

  /** How the kernel answers the search from each key it may be asked to start from. */
  ghost predicate Kernel(tree: seq<Item>, answers: Key -> Answer) {
    forall min :: Possible(tree, Range(min), BUFFER, answers(min))
  }

  /** The function the caller steps on with: one more than the last offset. */
  function OneMore(k: Key): Update {
    if k.offset + 1 < U64 then Move(k.(offset := k.offset + 1)) else Hangs
  }

  /** What an empty page's header is: the first key of the page before, if there was one. */
  ghost predicate Leftover(search: Search, page: seq<Item>)
    reads search, search.buffer
  {
    page != [] && (forall i <- page :: ItemFits(i) && i.key.offset < U64 - 1) && PageBytes(page) <= search.buffer[..]
  }

  lemma LeftoverMoves(search: Search, page: seq<Item>)
    requires search.buffer.Length >= HEADER && Leftover(search, page)
    ensures OneMore(KeyAt(search.buffer[..], 0)).Move?
  {
    hide PageBytes, ItemFits, LenAt, FromLe;
    ItemAtStart(search.buffer[..], page, 0);
    assert page[0] in page;
  }

  /** The search goes on after a page that is not empty, has no match, and does not end at the largest offset. */
  predicate Continues(items: seq<Item>, answer: Answer) {
    && answer.Page? && 0 < answer.count <= |items|
    && First(items[..answer.count]).None? && items[answer.count - 1].key.offset < U64 - 1
  }

  /** The keys that searches are started from, one page after the other. */
  ghost function Visits(tree: seq<Item>, answers: Key -> Answer, min: Key): seq<Key>
    requires Tree(tree) && min.objectid == ROOT_TREE_DIR && min.ty == DIR_ITEM
    decreases |Matching(tree, min, LAST)|
  {
    var items := Matching(tree, min, LAST);
    if !Continues(items, answers(min)) then [min]
    else
      var n := answers(min).count;
      NextDirItems(tree, min, n);
      [min] + Visits(tree, answers, items[n - 1].key.(offset := items[n - 1].key.offset + 1))
  }

  lemma NoneSoFar(items: seq<Item>, n: nat, i: nat)
    requires n + i < |items|
    ensures items[n..][i] == items[n + i]
    ensures First(items[..n]).None? && First(items[n..][..i + 1]).None? ==> First(items[..n + i + 1]).None?
  {
    hide First;
    FirstConcat(items[..n], items[n..][..i + 1]);
    assert items[..n] + items[n..][..i + 1] == items[..n + i + 1];
  }

  /** Searches start at the beginning of the range, or one past an item before the first match. */
  lemma {:induction false} VisitsBefore(tree: seq<Item>, answers: Key -> Answer, min: Key, k: Key)
    requires Tree(tree) && min.objectid == ROOT_TREE_DIR && min.ty == DIR_ITEM && k in Visits(tree, answers, min)
    ensures var items := Matching(tree, min, LAST);
            k == min || exists i :: 0 <= i < |items| && First(items[..i + 1]).None?
                                    && k == items[i].key.(offset := items[i].key.offset + 1)
    decreases |Matching(tree, min, LAST)|
  {
    hide Matching, Tree, First;
    var items := Matching(tree, min, LAST);
    if k != min {
      var n := answers(min).count;
      NextDirItems(tree, min, n);
      var next := items[n - 1].key.(offset := items[n - 1].key.offset + 1);
      VisitsBefore(tree, answers, next, k);
      if k == next {
        assert items[..n - 1 + 1] == items[..n];
      } else {
        var more := items[n..];
        var i :| 0 <= i < |more| && First(more[..i + 1]).None? && k == more[i].key.(offset := more[i].key.offset + 1);
        NoneSoFar(items, n, i);
      }
    }
  }

  /** The result that fits a non-empty range. */
  predicate Right(items: seq<Item>, r: Default)
    requires items != []
  {
    var first := First(items);
    var last := if first.Some? then first.value else items[|items| - 1];
    r == if last.key.offset == U64 - 1 then Overflow
         else if first.Some? then Found(Location(last))
         else NotFound
  }

  /**
   One page: None if nothing was found on it, and then `n` items are done with.  `before` is the page before,
   if there was one.
   */
  method OnePage(tree: seq<Item>, answer: Answer, search: Search, ghost before: seq<Item>)
    returns (r: Option<Default>, ghost n: nat)
    requires Tree(tree) && search.buffer.Length == BUFFER
    requires search.bounds == Range(search.bounds.min) && Possible(tree, search.bounds, BUFFER, answer)
    requires search.bounds.min.objectid == ROOT_TREE_DIR && search.bounds.min.ty == DIR_ITEM
    requires before == [] || Leftover(search, before)
    modifies search`bounds, search.buffer
    ensures var items := Matching(tree, old(search.bounds.min), LAST);
            && (r == Some(SearchFailed) <==> answer.Failed?)
            && (r.None? <==> Continues(items, answer))
            && (r.Some? && r.value != SearchFailed ==>
                  if items != [] then Right(items, r.value)
                  else r.value == NotFound || (r.value == Overflow && before == []))
            && (r.None? ==>
                  && 0 < n == answer.count <= |items|
                  && First(items) == First(items[n..])
                  && (n == |items| ==> First(items) == None && Right(items, NotFound))
                  && search.bounds == Range(items[n - 1].key.(offset := items[n - 1].key.offset + 1))
                  && search.bounds.min.objectid == ROOT_TREE_DIR && search.bounds.min.ty == DIR_ITEM
                  && Matching(tree, search.bounds.min, LAST) == items[n..]
                  && Leftover(search, items[..n]))
  {
    hide Matching, Tree, IsDefault, Location, First, PageBytes, ItemFits, FromLe, KeyAt, Possible;
    ghost var min := search.bounds.min;
    ghost var items := Matching(tree, min, LAST);
    InRange(tree, min);
    PageSize(tree, min, answer);
    FirstOfNone();
    var ok, index := search.Query(tree, answer);
    n := index;
    if !ok {
      return Some(SearchFailed), 0;
    }
    var iter := new Iter(search, index, items[..index]);
    if index == 0 {
      if before != [] {
        LeftoverMoves(search, before);
      }
      var returned := iter.Drop(OneMore);
      return Some(if returned then NotFound else Overflow), 0;
    }
    var found := Find(iter);
    SplitPage(items, index);
    NextDirItems(tree, min, index - iter.index);
    var returned := iter.Drop(OneMore);
    if !returned {
      return Some(Overflow), 0;
    }
    if found.Some? {
      return Some(Found(Location(found.value))), 0;
    }
    OffsetsBelow(tree, min, index);
    r := None;
  }

  /**
   The item found is the first one in the whole range, however the kernel cuts the range into pages.
   Adding one to an offset fails if the item found, or the last one of the range, has the largest; and if
   the range is empty it may fail on whatever the buffer held before.  The search fails exactly if the
   kernel fails on a key it is started from.
   */
  method GetDefault(tree: seq<Item>, answers: Key -> Answer) returns (r: Default)
    requires Tree(tree) && Kernel(tree, answers)
    ensures var items := Matching(tree, Key(6, 84, 0), Key(6, 84, 0xFFFF_FFFF_FFFF_FFFF));
            && (r == SearchFailed <==> exists min :: min in Visits(tree, answers, START) && answers(min).Failed?)
            && (r != SearchFailed ==> if items != [] then Right(items, r) else r == NotFound || r == Overflow)
  {
    hide Matching, Tree, Location, First, PageBytes, ItemFits, Possible, Leftover, Visits, Continues;
    var search := new Search(Range(START), BUFFER);
    ghost var all := Matching(tree, START, LAST);
    ghost var items := all;
    ghost var before: seq<Item> := [];
    ghost var visited: seq<Key> := [];
    assert [] + Visits(tree, answers, START) == Visits(tree, answers, START);
    while true
      invariant fresh(search) && fresh(search.buffer) && search.buffer.Length == BUFFER
      invariant search.bounds == Range(search.bounds.min)
      invariant search.bounds.min.objectid == ROOT_TREE_DIR && search.bounds.min.ty == DIR_ITEM
      invariant items == Matching(tree, search.bounds.min, LAST)
      invariant before == [] || Leftover(search, before)
      invariant items != [] ==> all != [] && First(all) == First(items) && all[|all| - 1] == items[|items| - 1]
      invariant items == [] && before != [] ==> all != [] && Right(all, NotFound)
      invariant before == [] ==> items == all
      invariant visited + Visits(tree, answers, search.bounds.min) == Visits(tree, answers, START)
      invariant forall min <- visited :: answers(min).Page?
      decreases |items|
    {
      assert Possible(tree, Range(search.bounds.min), BUFFER, answers(search.bounds.min));
      ghost var min := search.bounds.min;
      ghost var n;
      var found;
      found, n := OnePage(tree, answers(search.bounds.min), search, before);
      VisitsStep(tree, answers, min, visited);
      if found.Some? {
        return found.value;
      }
      before := items[..n];
      items := items[n..];
      visited := visited + [min];
    }
  }

  lemma VisitsStep(tree: seq<Item>, answers: Key -> Answer, min: Key, visited: seq<Key>)
    requires Tree(tree) && min.objectid == ROOT_TREE_DIR && min.ty == DIR_ITEM
    ensures var items := Matching(tree, min, LAST);
            var all := Visits(tree, answers, min);
            if Continues(items, answers(min)) then
              var k := items[answers(min).count - 1].key;
              NextDirItems(tree, min, answers(min).count);
              visited + all == (visited + [min]) + Visits(tree, answers, k.(offset := k.offset + 1))
            else visited + all == visited + [min]
  {
    hide Matching, Tree, First;
  }

  lemma PageSize(tree: seq<Item>, min: Key, answer: Answer)
    requires Possible(tree, Range(min), BUFFER, answer)
    ensures var items := Matching(tree, min, LAST);
            answer.Page? ==> answer.count <= |items| && (items != [] ==> answer.count > 0)
  {
    hide Matching, PageBytes;
  }

  lemma FirstOfNone()
    ensures First([]) == None
  {
  }

  lemma SplitPage(items: seq<Item>, n: nat)
    requires n <= |items|
    ensures First(items) == if First(items[..n]).Some? then First(items[..n]) else First(items[n..])
    ensures n == |items| ==> items[n..] == []
  {
    assert items == items[..n] + items[n..];
    FirstConcat(items[..n], items[n..]);
  }
}
