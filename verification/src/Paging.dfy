/** Reading a key range page by page: every item once and in order, whatever the pages are like. */
module Paging {
  import opened Bytes
  import opened SearchKey
  import opened TreeSearch

  /** One page: how many items it has and how many of them are taken before it is dropped. */
  datatype Round = Round(count: nat, taken: nat)

  // ---------------------------------------------------------------------------------------
  // The next page starts where the last one was left

  lemma {:induction false} MatchingAbove(tree: seq<Item>, a: Key, b: Key, max: Key)
    requires forall i <- tree :: AtMost(a, i.key) && AtMost(b, i.key)
    ensures Matching(tree, a, max) == Matching(tree, b, max)
  {
    if tree == [] {
    } else {
      MatchingAbove(tree[1..], a, b, max);
    }
  }

  lemma {:induction false} MatchingFits(tree: seq<Item>, min: Key, max: Key)
    requires Tree(tree)
    ensures forall i <- Matching(tree, min, max) :: i in tree && ItemFits(i) && Stored(i.key) && AtMost(min, i.key)
  {
    hide ItemFits, Stored, Less;
    if tree == [] {
    } else {
      TreeTail(tree);
      MatchingFits(tree[1..], min, max);
    }
  }

  lemma TreeTail(tree: seq<Item>)
    requires Tree(tree) && tree != []
    ensures Tree(tree[1..]) && ItemFits(tree[0]) && Stored(tree[0].key)
    ensures forall i <- tree[1..] :: Less(tree[0].key, i.key) && Stored(i.key)
  {
    hide ItemFits, Stored, Less;
  }

  lemma Beyond(min: Key, k: Key, next: Key, m: Key)
    requires Stored(m) && StoredSuccessor(k, next) && AtMost(min, k)
    ensures AtMost(next, m) <==> Less(k, m)
    ensures AtMost(next, m) ==> AtMost(min, m)
    ensures AtMost(m, k) ==> !Less(k, m)
  {
  }

  lemma MatchingStep(tree: seq<Item>, min: Key, max: Key)
    requires tree != []
    ensures var rest := Matching(tree[1..], min, max);
            Matching(tree, min, max)
            == if AtMost(min, tree[0].key) && AtMost(tree[0].key, max) then [tree[0]] + rest else rest
  {
    hide AtMost;
    var rest := Matching(tree[1..], min, max);
    assert [] + rest == rest;
  }

  /** Searching from the successor of the n-th matching key finds what came after it. */
  lemma {:induction false} NextPage(tree: seq<Item>, min: Key, max: Key, n: nat, next: Key)
    requires Tree(tree) && 0 < n <= |Matching(tree, min, max)|
    requires StoredSuccessor(Matching(tree, min, max)[n - 1].key, next)
    ensures Matching(tree, next, max) == Matching(tree, min, max)[n..]
    decreases |tree|
  {
    hide ItemFits, Less, AtMost, Stored, StoredSuccessor, Matching, Tree;
    MatchingFits(tree, min, max);
    var items := Matching(tree, min, max);
    var k := items[n - 1].key;
    MatchingNonempty(tree, min, max);
    TreeTail(tree);
    MatchingStep(tree, min, max);
    MatchingStep(tree, next, max);
    var first := tree[0];
    Beyond(min, k, next, first.key);
    if AtMost(min, first.key) && AtMost(first.key, max) {
      var rest := Matching(tree[1..], min, max);
      if n == 1 {
        forall i <- tree[1..] ensures AtMost(min, i.key) && AtMost(next, i.key) {
          Beyond(min, k, next, i.key);
        }
        AtMostSelf(k);
        MatchingAbove(tree[1..], min, next, max);
        assert items[1..] == rest;
      } else {
        MatchingFits(tree[1..], min, max);
        assert rest[n - 2] == items[n - 1];
        LessAtMost(first.key, k);
        NextPage(tree[1..], min, max, n - 1, next);
        assert items[n..] == rest[n - 1..];
      }
    } else {
      NextPage(tree[1..], min, max, n, next);
    }
  }

  lemma MatchingNonempty(tree: seq<Item>, min: Key, max: Key)
    ensures Matching(tree, min, max) != [] ==> tree != []
  {
  }

  lemma AtMostSelf(k: Key)
    ensures AtMost(k, k)
  {
  }

  lemma LessAtMost(a: Key, b: Key)
    ensures Less(a, b) ==> AtMost(a, b)
  {
  }

  // ---------------------------------------------------------------------------------------
  // Whole sessions

  /** What the caller's function makes of the last key when `n` items of a page starting at `min` were taken. */
  function Resume(step: Key -> Update, tree: seq<Item>, min: Key, max: Key, n: nat): Update
    requires 0 < n <= |Matching(tree, min, max)|
  {
    step(Matching(tree, min, max)[n - 1].key)
  }

  /**
   A session ends with the first empty page.  Each page before it is one the kernel may answer with a
   buffer of `size` bytes; at least one item of it is taken, and the caller's function then returns a
   key to go on from.
   */
  ghost predicate Session(step: Key -> Update, tree: seq<Item>, bounds: Bounds, size: nat, rounds: seq<Round>)
    decreases |rounds|
  {
    var items := Matching(tree, bounds.min, bounds.max);
    if rounds == [] then items == []
    else
      && items != []
      && Possible(tree, bounds, size, Page(rounds[0].count))
      && 0 < rounds[0].taken <= rounds[0].count
      && Resume(step, tree, bounds.min, bounds.max, rounds[0].taken).Move?
      && Session(step, tree, bounds.(min := Resume(step, tree, bounds.min, bounds.max, rounds[0].taken).key), size, rounds[1..])
  }

  /** What was taken from all the pages of a session, one after the other. */
  function Yielded(step: Key -> Update, tree: seq<Item>, bounds: Bounds, rounds: seq<Round>): seq<Item>
    decreases |rounds|
  {
    var items := Matching(tree, bounds.min, bounds.max);
    if rounds == [] || !(0 < rounds[0].taken <= |items|) then []
    else
      items[..rounds[0].taken] +
      match Resume(step, tree, bounds.min, bounds.max, rounds[0].taken)
      case Move(next) => Yielded(step, tree, bounds.(min := next), rounds[1..])
      case _ => []
  }

  /** A session yields every item of the range once, in key order, and is no longer than the range. */
  lemma {:induction false} PagingExact(tree: seq<Item>, bounds: Bounds, size: nat, rounds: seq<Round>)
    requires Tree(tree) && Session(ByOffset, tree, bounds, size, rounds)
    ensures Yielded(ByOffset, tree, bounds, rounds) == Matching(tree, bounds.min, bounds.max)
    ensures |rounds| <= |Matching(tree, bounds.min, bounds.max)|
    decreases |rounds|
  {
    hide Matching, Tree;
    if rounds == [] {
    } else {
      var n := rounds[0].taken;
      var items := Matching(tree, bounds.min, bounds.max);
      MatchingFits(tree, bounds.min, bounds.max);
      var next := Resume(ByOffset, tree, bounds.min, bounds.max, n).key;
      NextOffsetStored(items[n - 1].key);
      NextPage(tree, bounds.min, bounds.max, n, next);
      PagingExact(tree, bounds.(min := next), size, rounds[1..]);
      assert items == items[..n] + items[n..];
    }
  }

  /** So the inline and the heap buffer, and any two item limits, give the same. */
  lemma SizesAgree(tree: seq<Item>, bounds: Bounds, limit: nat, size: nat, size': nat, rounds: seq<Round>, rounds': seq<Round>)
    requires Tree(tree)
    requires Session(ByOffset, tree, bounds, size, rounds) && Session(ByOffset, tree, bounds.(nrItems := limit), size', rounds')
    ensures Yielded(ByOffset, tree, bounds, rounds) == Yielded(ByOffset, tree, bounds.(nrItems := limit), rounds')
  {
    PagingExact(tree, bounds, size, rounds);
    PagingExact(tree, bounds.(nrItems := limit), size', rounds');
  }

  /** A page can be left behind exactly unless the last key taken has type 255 and the last offset. */
  lemma ResumesUnlessLast(tree: seq<Item>, min: Key, max: Key, n: nat)
    requires Tree(tree) && 0 < n <= |Matching(tree, min, max)|
    ensures var last := Matching(tree, min, max)[n - 1].key;
            Resume(ByOffset, tree, min, max, n).Move? <==> last.ty != U8 - 1 || last.offset != U64 - 1
  {
    hide Matching, Tree;
    MatchingFits(tree, min, max);
    NextOffsetStored(Matching(tree, min, max)[n - 1].key);
  }

  /**
   A page dropped before anything was taken is not searched again: the function gets the first key, so the
   first item is lost.
   */
  lemma UnreadPageLosesFirst(tree: seq<Item>, min: Key, max: Key)
    requires Tree(tree) && Matching(tree, min, max) != []
    requires Resume(ByOffset, tree, min, max, 1).Move?
    ensures Matching(tree, Resume(ByOffset, tree, min, max, 1).key, max) == Matching(tree, min, max)[1..]
  {
    hide Matching, Tree;
    MatchingFits(tree, min, max);
    NextOffsetStored(Matching(tree, min, max)[0].key);
    NextPage(tree, min, max, 1, Resume(ByOffset, tree, min, max, 1).key);
  }

  /** Whoever decides, from the lower bound, how long each page is and how much of it is taken. */
  ghost predicate Follows(tree: seq<Item>, bounds: Bounds, choose: Key -> Round, rounds: seq<Round>)
    decreases |rounds|
  {
    rounds != [] ==>
      && rounds[0] == choose(bounds.min)
      && 0 < rounds[0].taken <= |Matching(tree, bounds.min, bounds.max)|
      && (Resume(ByOffset, tree, bounds.min, bounds.max, rounds[0].taken).Move? ==>
            Follows(tree, bounds.(min := Resume(ByOffset, tree, bounds.min, bounds.max, rounds[0].taken).key), choose, rounds[1..]))
  }

  ghost predicate Chooses(tree: seq<Item>, bounds: Bounds, size: nat, choose: Key -> Round) {
    forall min :: Matching(tree, min, bounds.max) != [] ==>
      && Possible(tree, bounds.(min := min), size, Page(choose(min).count))
      && 0 < choose(min).taken <= choose(min).count
  }

  /** Whatever pages the kernel makes and however much of each is taken, the queries come to an end. */
  lemma {:induction false} EveryChoiceEnds(tree: seq<Item>, bounds: Bounds, size: nat, choose: Key -> Round)
    returns (rounds: seq<Round>)
    requires Tree(tree) && Chooses(tree, bounds, size, choose)
    requires forall i <- Matching(tree, bounds.min, bounds.max) :: i.key.ty != U8 - 1 || i.key.offset != U64 - 1
    ensures Session(ByOffset, tree, bounds, size, rounds) && Follows(tree, bounds, choose, rounds)
    decreases |Matching(tree, bounds.min, bounds.max)|
  {
    hide Matching, Tree, ItemFits, PageBytes;
    var items := Matching(tree, bounds.min, bounds.max);
    if items == [] {
      rounds := [];
    } else {
      var r := choose(bounds.min);
      assert bounds.(min := bounds.min) == bounds;
      assert Possible(tree, bounds, size, Page(r.count)) && 0 < r.taken <= r.count;
      MatchingFits(tree, bounds.min, bounds.max);
      ResumesUnlessLast(tree, bounds.min, bounds.max, r.taken);
      assert items[r.taken - 1] in items;
      NextOffsetStored(items[r.taken - 1].key);
      var next := bounds.(min := Resume(ByOffset, tree, bounds.min, bounds.max, r.taken).key);
      NextPage(tree, bounds.min, bounds.max, r.taken, next.min);
      ChoosesNext(tree, bounds, size, choose, next.min);
      var more := EveryChoiceEnds(tree, next, size, choose);
      rounds := [r] + more;
      assert rounds[1..] == more;
    }
  }

  lemma ChoosesNext(tree: seq<Item>, bounds: Bounds, size: nat, choose: Key -> Round, min: Key)
    requires Chooses(tree, bounds, size, choose)
    ensures Chooses(tree, bounds.(min := min), size, choose)
  {
    hide Matching, Possible;
    assert forall m: Key :: bounds.(min := min).(min := m) == bounds.(min := m);
  }

  /** The range that the last page of a session was taken from. */
  function LastRange(step: Key -> Update, tree: seq<Item>, bounds: Bounds, rounds: seq<Round>): seq<Item>
    decreases |rounds|
  {
    var items := Matching(tree, bounds.min, bounds.max);
    if |rounds| <= 1 || !(0 < rounds[0].taken <= |items|) then items
    else
      match Resume(step, tree, bounds.min, bounds.max, rounds[0].taken)
      case Move(next) => LastRange(step, tree, bounds.(min := next), rounds[1..])
      case _ => items
  }

  lemma SessionStep(step: Key -> Update, tree: seq<Item>, bounds: Bounds, size: nat, rounds: seq<Round>, done: seq<Item>)
    requires rounds != [] && Session(step, tree, bounds, size, rounds)
    ensures var r := rounds[0];
            var items := Matching(tree, bounds.min, bounds.max);
            && Possible(tree, bounds, size, Page(r.count)) && 0 < r.taken <= r.count <= |items|
            && var resume := step(items[r.taken - 1].key);
            && resume.Move?
            && var next := bounds.(min := resume.key);
            && Session(step, tree, next, size, rounds[1..])
            && done + Yielded(step, tree, bounds, rounds) == (done + items[..r.taken]) + Yielded(step, tree, next, rounds[1..])
            && LastRange(step, tree, bounds, rounds)
               == if |rounds| == 1 then items else LastRange(step, tree, next, rounds[1..])
  {
    hide Matching, ByOffset;
  }

  lemma SessionEnd(step: Key -> Update, tree: seq<Item>, bounds: Bounds, size: nat, done: seq<Item>)
    requires Session(step, tree, bounds, size, [])
    ensures Matching(tree, bounds.min, bounds.max) == [] && Possible(tree, bounds, size, Page(0))
    ensures done + Yielded(step, tree, bounds, []) == done
  {
  }

  /** Taking `n` items off a page. */
  method Take(iter: Iter, n: nat) returns (items: seq<Item>)
    requires iter.Valid() && iter.Taken() == 0 && n <= |iter.page|
    modifies iter
    ensures iter.Valid() && iter.Taken() == n && items == iter.page[..n]
  {
    hide ItemFits, PageBytes, Start;
    items := [];
    while |items| < n
      invariant iter.Valid() && |items| == iter.Taken() <= n && items == iter.page[..|items|]
    {
      var item := iter.Next();
      SplitAt(iter.page, |items|);
      items := items + [item.value];
    }
  }

  /**
   The loop that every user of a search writes: search, stop at an empty page, take some of the page,
   drop it.  It takes what the session says; but dropping the last, empty page gives the caller's function
   the first key of the page before it, so the lower bound goes back into that page.
   */
  method ReadAll(step: Key -> Update, tree: seq<Item>, search: Search, rounds: seq<Round>) returns (items: seq<Item>)
    requires Tree(tree) && search.buffer.Length >= HEADER
    requires Session(step, tree, search.bounds, search.buffer.Length, rounds)
    modifies search`bounds, search.buffer
    ensures items == Yielded(step, tree, old(search.bounds), rounds)
    ensures search.bounds.max == old(search.bounds.max) && search.bounds.nrItems == old(search.bounds.nrItems)
    ensures var last := LastRange(step, tree, old(search.bounds), rounds);
            rounds != [] && last != [] && step(last[0].key).Move? ==> search.bounds.min == step(last[0].key).key
  {
    hide Matching, Tree, ItemFits, Session, Yielded, LastRange, PageBytes, Possible, KeyAt, FromLe;
    ghost var start := search.bounds;
    var i := 0;
    items := [];
    ghost var page: seq<Item> := [];
    ghost var lastMin := start.min;
    assert rounds[0..] == rounds;
    assert [] + Yielded(step, tree, start, rounds) == Yielded(step, tree, start, rounds);
    while true
      invariant 0 <= i <= |rounds|
      invariant search.bounds == start.(min := search.bounds.min)
      invariant Session(step, tree, search.bounds, search.buffer.Length, rounds[i..])
      invariant items + Yielded(step, tree, search.bounds, rounds[i..]) == Yielded(step, tree, start, rounds)
      invariant i < |rounds| ==> LastRange(step, tree, search.bounds, rounds[i..]) == LastRange(step, tree, start, rounds)
      invariant i == |rounds| > 0 ==> Matching(tree, lastMin, start.max) == LastRange(step, tree, start, rounds)
      invariant i > 0 ==> page != [] && page <= Matching(tree, lastMin, start.max) && PageBytes(page) <= search.buffer[..]
      decreases |rounds| - i
    {
      var answer := if i < |rounds| then Page(rounds[i].count) else Page(0);
      ghost var here := search.bounds;
      ghost var all := Matching(tree, here.min, here.max);
      MatchingFits(tree, here.min, here.max);
      if i < |rounds| {
        SessionStep(step, tree, here, search.buffer.Length, rounds[i..], items);
        assert rounds[i..][1..] == rounds[i + 1..];
      } else {
        assert rounds[i..] == [];
        SessionEnd(step, tree, here, search.buffer.Length, items);
      }
      var ok, index := search.Query(tree, answer);
      if index == 0 {
        var iter := new Iter(search, 0, []);
        var returned := iter.Drop(step);
        AfterTheEnd(tree, search, start, lastMin, page, i > 0);
        break;
      }
      page, lastMin := all[..index], here.min;
      var iter := new Iter(search, index, page);
      var some := Take(iter, rounds[i].taken);
      items := items + some;
      assert some == all[..rounds[i].taken];
      var returned := iter.Drop(step);
      i := i + 1;
    }
  }

  /** The header that an empty page leaves in the buffer is the first of the page before. */
  lemma AfterTheEnd(tree: seq<Item>, search: Search, start: Bounds, lastMin: Key, page: seq<Item>, any: bool)
    requires Tree(tree) && search.buffer.Length >= HEADER
    requires any ==> page != [] && page <= Matching(tree, lastMin, start.max) && PageBytes(page) <= search.buffer[..]
    ensures any ==> KeyAt(search.buffer[..], 0) == Matching(tree, lastMin, start.max)[0].key
  {
    hide Matching, Tree, ItemFits, PageBytes, LenAt, FromLe;
    if any {
      MatchingFits(tree, lastMin, start.max);
      assert page[0] == Matching(tree, lastMin, start.max)[0];
      ItemAtStart(search.buffer[..], page, 0);
    }
  }

  // ---------------------------------------------------------------------------------------
  // Stepping from objectid to objectid

  /** The next objectid, if it does not overflow. */
  function ByObjectid(k: Key): Update {
    if k.objectid + 1 < U64 then Move(Key(k.objectid + 1, 0, 0)) else Hangs
  }

  /** Searching from a later key finds what is left of the range from there on. */
  lemma {:induction false} MatchingFrom(tree: seq<Item>, min: Key, next: Key, max: Key) returns (m: nat)
    requires Tree(tree) && AtMost(min, next)
    ensures var items := Matching(tree, min, max);
            && m <= |items| && Matching(tree, next, max) == items[m..]
            && (forall i :: 0 <= i < m ==> !AtMost(next, items[i].key))
            && (forall i :: m <= i < |items| ==> AtMost(next, items[i].key))
    decreases |tree|
  {
    hide ItemFits, Less, AtMost, Stored, Matching, Tree;
    if tree == [] {
      NothingMatches(min, max);
      NothingMatches(next, max);
      m := 0;
    } else {
      TreeTail(tree);
      MatchingStep(tree, min, max);
      MatchingStep(tree, next, max);
      var k := tree[0].key;
      StillAbove(min, next, k);
      var n := MatchingFrom(tree[1..], min, next, max);
      if AtMost(next, k) && AtMost(k, max) {
        forall i <- tree[1..] ensures AtMost(min, i.key) && AtMost(next, i.key) {
          LessAtMost(k, i.key);
          Onward(next, k, i.key);
          Onward(min, k, i.key);
        }
        MatchingAbove(tree[1..], min, next, max);
        MatchingFits(tree[1..], next, max);
        m := 0;
        assert Matching(tree, min, max)[0..] == Matching(tree, min, max);
      } else if AtMost(min, k) && AtMost(k, max) {
        m := n + 1;
        assert Matching(tree, min, max)[m..] == Matching(tree[1..], min, max)[n..];
      } else {
        m := n;
      }
    }
  }

  lemma NothingMatches(min: Key, max: Key)
    ensures Matching([], min, max) == []
  {
  }

  lemma StillAbove(min: Key, next: Key, k: Key)
    requires AtMost(min, next)
    ensures AtMost(next, k) ==> AtMost(min, k)
  {
  }

  lemma Onward(a: Key, b: Key, c: Key)
    ensures AtMost(a, b) && AtMost(b, c) ==> AtMost(a, c)
  {
  }

  /** A page that is left behind after `n` items ends with the last item of an objectid. */
  predicate EndsObject(items: seq<Item>, n: nat) {
    0 < n < |items| ==> items[n - 1].key.objectid != items[n].key.objectid
  }

  /** No page of the session is left behind between two items of one objectid. */
  ghost predicate EndsObjects(tree: seq<Item>, bounds: Bounds, rounds: seq<Round>)
    decreases |rounds|
  {
    var items := Matching(tree, bounds.min, bounds.max);
    rounds != [] && 0 < rounds[0].taken <= |items| ==>
      && EndsObject(items, rounds[0].taken)
      && match Resume(ByObjectid, tree, bounds.min, bounds.max, rounds[0].taken)
         case Move(next) => EndsObjects(tree, bounds.(min := next), rounds[1..])
         case _ => true
  }

  /** Stepping past the objectid of the n-th item skips the others that have it, and only them. */
  lemma NextObject(tree: seq<Item>, min: Key, max: Key, n: nat) returns (m: nat)
    requires Tree(tree) && 0 < n <= |Matching(tree, min, max)|
    requires Resume(ByObjectid, tree, min, max, n).Move?
    ensures var items := Matching(tree, min, max);
            && n <= m <= |items| && (m == n <==> EndsObject(items, n))
            && Matching(tree, Resume(ByObjectid, tree, min, max, n).key, max) == items[m..]
  {
    hide Matching, Tree, ItemFits;
    var items := Matching(tree, min, max);
    var k, next := items[n - 1].key, Resume(ByObjectid, tree, min, max, n).key;
    MatchingFits(tree, min, max);
    MatchingSorted(tree, min, max);
    assert items[n - 1] in items;
    Onward(min, k, next);
    m := MatchingFrom(tree, min, next, max);
    forall i | 0 <= i < n ensures !AtMost(next, items[i].key) {
      assert i < n - 1 ==> Less(items[i].key, k);
    }
    if n < |items| {
      assert Less(k, items[n].key);
    }
  }

  lemma {:induction false} MatchingSorted(tree: seq<Item>, min: Key, max: Key)
    requires Tree(tree)
    ensures Sorted(Matching(tree, min, max))
  {
    hide ItemFits, Stored, Less, AtMost, Matching;
    if tree == [] {
      NothingMatches(min, max);
    } else {
      TreeTail(tree);
      MatchingSorted(tree[1..], min, max);
      MatchingFits(tree[1..], min, max);
      MatchingStep(tree, min, max);
    }
  }

  /**
   Stepping from objectid to objectid, the loop yields the whole range exactly if no page is left behind
   between two items of one objectid; the others of that objectid are then lost.
   */
  lemma {:induction false} ObjectsExact(tree: seq<Item>, bounds: Bounds, size: nat, rounds: seq<Round>)
    requires Tree(tree) && Session(ByObjectid, tree, bounds, size, rounds)
    ensures |Yielded(ByObjectid, tree, bounds, rounds)| <= |Matching(tree, bounds.min, bounds.max)|
    ensures Yielded(ByObjectid, tree, bounds, rounds) == Matching(tree, bounds.min, bounds.max)
            <==> EndsObjects(tree, bounds, rounds)
    decreases |rounds|
  {
    hide Matching, Tree, ByObjectid, EndsObject;
    if rounds == [] {
    } else {
      var n := rounds[0].taken;
      var items := Matching(tree, bounds.min, bounds.max);
      var next := Resume(ByObjectid, tree, bounds.min, bounds.max, n).key;
      var m := NextObject(tree, bounds.min, bounds.max, n);
      ObjectsExact(tree, bounds.(min := next), size, rounds[1..]);
      assert items == items[..n] + items[n..];
      var more := Yielded(ByObjectid, tree, bounds.(min := next), rounds[1..]);
      assert (items[..n] + more)[n..] == more;
    }
  }
}
