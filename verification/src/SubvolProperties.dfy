/**
 What callers of the subvolume iterator may rely on: the traversal is complete and duplicate-free, it
 is in the order the flags name, and lookup failures only leave things out.
 */
module SubvolProperties {
  import opened Bytes
  import opened SubvolIter
  import opened SubvolOrder

  // ---------------------------------------------------------------------------------------
  // Which subvolumes there are and what is below what

  function Ids(t: Tree): set<nat>
    decreases Size(t), 0
  {
    {t.id} + IdsF(t.children)
  }

  function IdsF(ts: seq<Tree>): set<nat>
    decreases SizeF(ts), 1
  {
    if ts == [] then {} else Ids(ts[0]) + IdsF(ts[1..])
  }

  /** All pairs of a subvolume and one strictly below it. */
  function Pairs(t: Tree): set<(nat, nat)>
    decreases Size(t), 0
  {
    (set d <- IdsF(t.children) :: (t.id, d)) + PairsF(t.children)
  }

  function PairsF(ts: seq<Tree>): set<(nat, nat)>
    decreases SizeF(ts), 1
  {
    if ts == [] then {} else Pairs(ts[0]) + PairsF(ts[1..])
  }

  /** No two subvolumes have the same id. */
  predicate Unique(t: Tree)
    decreases Size(t), 0
  {
    t.id !in IdsF(t.children) && UniqueF(t.children)
  }

  predicate UniqueF(ts: seq<Tree>)
    decreases SizeF(ts), 1
  {
    ts == [] || (Unique(ts[0]) && Ids(ts[0]) !! IdsF(ts[1..]) && UniqueF(ts[1..]))
  }

  function ItemIds(items: seq<Item>): set<nat> {
    set i | 0 <= i < |items| :: items[i].id
  }

  lemma ItemIdsConcat(a: seq<Item>, b: seq<Item>)
    ensures ItemIds(a + b) == ItemIds(a) + ItemIds(b)
  {
    forall x | x in ItemIds(a) + ItemIds(b) ensures x in ItemIds(a + b) {
      if x in ItemIds(a) {
        var i :| 0 <= i < |a| && a[i].id == x;
        assert (a + b)[i].id == x;
      } else {
        var i :| 0 <= i < |b| && b[i].id == x;
        assert (a + b)[|a| + i].id == x;
      }
    }
  }

  lemma {:induction false} IdsConcat(a: seq<Tree>, b: seq<Tree>)
    ensures IdsF(a + b) == IdsF(a) + IdsF(b) && PairsF(a + b) == PairsF(a) + PairsF(b)
    ensures UniqueF(a + b) <==> UniqueF(a) && UniqueF(b) && IdsF(a) !! IdsF(b)
  {
    if a == [] {
      assert a + b == b;
    } else {
      assert (a + b)[1..] == a[1..] + b;
      IdsConcat(a[1..], b);
    }
  }

  lemma {:induction false} IdsReverse(ts: seq<Tree>)
    ensures IdsF(Reverse(ts)) == IdsF(ts) && PairsF(Reverse(ts)) == PairsF(ts)
    ensures UniqueF(Reverse(ts)) <==> UniqueF(ts)
  {
    if ts == [] {
    } else {
      var one := [ts[0]];
      IdsReverse(ts[1..]);
      IdsConcat(Reverse(ts[1..]), one);
      IdsConcat(one, ts[1..]);
      assert one + ts[1..] == ts;
    }
  }

  lemma {:induction false} PairsInside(t: Tree, a: nat, d: nat)
    ensures (a, d) in Pairs(t) ==> a in Ids(t) && d in IdsF(t.children)
    decreases Size(t), 0
  {
    PairsFInside(t.children, a, d);
  }

  lemma {:induction false} PairsFInside(ts: seq<Tree>, a: nat, d: nat)
    ensures (a, d) in PairsF(ts) ==> a in IdsF(ts) && d in IdsF(ts)
    decreases SizeF(ts), 1
  {
    if ts == [] {
    } else {
      PairsInside(ts[0], a, d);
      PairsFInside(ts[1..], a, d);
    }
  }

  // ---------------------------------------------------------------------------------------
  // Nothing is missing from the traversal, and nothing comes twice or out of order

  /** The two may not follow one another: the same, or an ancestor on the wrong side of a descendant. */
  predicate Wrong(flags: Flags, pairs: set<(nat, nat)>, first: nat, second: nat) {
    first == second || if flags.postOrder then (first, second) in pairs else (second, first) in pairs
  }

  ghost predicate InOrder(flags: Flags, pairs: set<(nat, nat)>, items: seq<Item>) {
    forall i, j :: 0 <= i < j < |items| ==> !Wrong(flags, pairs, items[i].id, items[j].id)
  }

  lemma InOrderConcat(flags: Flags, pairs: set<(nat, nat)>, a: seq<Item>, b: seq<Item>)
    requires InOrder(flags, pairs, a) && InOrder(flags, pairs, b)
    requires forall x, y :: x in ItemIds(a) && y in ItemIds(b) ==> !Wrong(flags, pairs, x, y)
    ensures InOrder(flags, pairs, a + b)
  {
    var c := a + b;
    forall i, j | 0 <= i < j < |c| ensures !Wrong(flags, pairs, c[i].id, c[j].id) {
      if i < |a| <= j {
        assert a[i].id in ItemIds(a) && b[j - |a|].id in ItemIds(b);
      }
    }
  }

  /** Pairs of other subvolumes do not matter. */
  lemma InOrderWiden(flags: Flags, pairs: set<(nat, nat)>, more: set<(nat, nat)>, items: seq<Item>)
    requires InOrder(flags, pairs, items)
    requires forall x, y :: x in ItemIds(items) && y in ItemIds(items) && (x, y) in more ==> (x, y) in pairs
    ensures InOrder(flags, more, items)
  {
    forall i, j | 0 <= i < j < |items| ensures !Wrong(flags, more, items[i].id, items[j].id) {
      assert items[i].id in ItemIds(items) && items[j].id in ItemIds(items);
    }
  }

  /** A subvolume goes after (or before) what is below it. */
  lemma InOrderAround(flags: Flags, t: Tree, me: Item, below: seq<Item>)
    requires Unique(t) && me.id == t.id
    requires ItemIds(below) == IdsF(t.children) && InOrder(flags, PairsF(t.children), below)
    ensures var all := if flags.postOrder then below + [me] else [me] + below;
            ItemIds(all) == Ids(t) && InOrder(flags, Pairs(t), all)
  {
    assert ItemIds([me]) == {t.id} by {
      assert [me][0].id in ItemIds([me]);
    }
    ItemIdsConcat([me], below);
    ItemIdsConcat(below, [me]);
    forall x: nat ensures (x, t.id) !in Pairs(t) {
      PairsInside(t, x, t.id);
    }
    InOrderWiden(flags, PairsF(t.children), Pairs(t), below);
    if flags.postOrder {
      InOrderConcat(flags, Pairs(t), below, [me]);
    } else {
      InOrderConcat(flags, Pairs(t), [me], below);
    }
  }

  lemma {:induction false} WalkOrdered(flags: Flags, t: Tree, parent: nat, chain: seq<bytes>)
    requires Unique(t)
    ensures ItemIds(Walk(flags, t, parent, chain)) == Ids(t)
    ensures InOrder(flags, Pairs(t), Walk(flags, t, parent, chain))
    decreases Size(t), 0
  {
    hide InOrder, Size, SizeF, WalkF, Ids, Pairs, PairsF, IdsF;
    SizeOrder(flags, t);
    IdsReverse(t.children);
    var down := chain + [t.piece];
    WalkFOrdered(flags, Order(flags, t.children), t.id, down);
    var below := WalkF(flags, Order(flags, t.children), t.id, down);
    InOrderAround(flags, t, Item(t.id, parent, FullPath(flags, down)), below);
  }

  lemma {:induction false} WalkFOrdered(flags: Flags, ts: seq<Tree>, parent: nat, chain: seq<bytes>)
    requires UniqueF(ts)
    ensures ItemIds(WalkF(flags, ts, parent, chain)) == IdsF(ts)
    ensures InOrder(flags, PairsF(ts), WalkF(flags, ts, parent, chain))
    decreases SizeF(ts), 1
  {
    if ts == [] {
    } else {
      SizeF1(ts);
      WalkOrdered(flags, ts[0], parent, chain);
      WalkFOrdered(flags, ts[1..], parent, chain);
      var a, b := Walk(flags, ts[0], parent, chain), WalkF(flags, ts[1..], parent, chain);
      ItemIdsConcat(a, b);
      forall x, y | (x, y) in PairsF(ts)
        ensures (x, y) in Pairs(ts[0]) || (x, y) in PairsF(ts[1..])
        ensures (x, y) in Pairs(ts[0]) ==> x in Ids(ts[0]) && y in Ids(ts[0])
        ensures (x, y) in PairsF(ts[1..]) ==> x in IdsF(ts[1..]) && y in IdsF(ts[1..])
      {
        PairsInside(ts[0], x, y);
        PairsFInside(ts[1..], x, y);
      }
      hide Walk, WalkF, Size, SizeF, Ids, Pairs, PairsF;
      InOrderWiden(flags, Pairs(ts[0]), PairsF(ts), a);
      InOrderWiden(flags, PairsF(ts[1..]), PairsF(ts), b);
      InOrderConcat(flags, PairsF(ts), a, b);
    }
  }

  // ---------------------------------------------------------------------------------------
  // Without failures a run is the whole traversal

  /** Every listing, lookup and open succeeds and nothing is missing. */
  ghost predicate NothingFails(env: Env) {
    && (forall id :: env.listOk(id) && env.present(id))
    && (forall parent, id :: env.lookup(parent, id) == Found)
  }

  lemma {:induction false} AllListed(present: nat -> bool, ts: seq<Tree>)
    requires forall id <- IdsF(ts) :: present(id)
    ensures Listed(present, ts) == ts
  {
    if ts == [] {
    } else {
      assert ts[0].id in Ids(ts[0]);
      AllListed(present, ts[1..]);
      assert [ts[0]] + ts[1..] == ts;
    }
  }

  lemma {:induction false} AllFound(env: Env, parent: nat, isRoot: bool, ts: seq<Tree>)
    requires forall a, c :: env.lookup(a, c) == Found
    ensures TakeFound(env, parent, isRoot, ts) == (ts, true)
  {
    if ts == [] {
    } else {
      AllFound(env, parent, isRoot, ts[1..]);
      assert [ts[0]] + ts[1..] == ts;
    }
  }

  lemma AllPushed(flags: Flags, env: Env, t: Tree, isRoot: bool)
    requires NothingFails(env)
    ensures Pushed(flags, env, t, isRoot).1
    ensures Reverse(Pushed(flags, env, t, isRoot).0) == Order(flags, t.children)
  {
    AllListed(env.present, t.children);
    AllFound(env, t.id, isRoot, PushOrder(flags, t.children));
    ReverseReverse(t.children);
  }

  lemma YieldsConcat(a: seq<Item>, b: seq<Item>)
    ensures Yields(a + b) == Yields(a) + Yields(b)
  {
  }

  lemma {:induction false} EmitIsWalk(flags: Flags, env: Env, t: Tree, parent: nat, chain: seq<bytes>)
    requires NothingFails(env)
    ensures Emit(flags, env, t, parent, RootColor(flags), FullPath(flags, chain + [t.piece]))
            == Yields(Walk(flags, t, parent, chain))
    decreases Size(t), 0
  {
    hide Pushed, WalkF, EmitF, Size, SizeF, NothingFails, FullPath, Order;
    AllPushed(flags, env, t, false);
    SizeOrder(flags, t);
    var down := chain + [t.piece];
    EmitFIsWalkF(flags, env, Order(flags, t.children), t.id, down);
    var me := Item(t.id, parent, FullPath(flags, down));
    var below := WalkF(flags, Order(flags, t.children), t.id, down);
    YieldsConcat(below, [me]);
    YieldsConcat([me], below);
    assert Yields([me]) == [Yield(me)];
    assert [] + Yields(below) == Yields(below);
    assert [] + Yields(below) + [Yield(me)] == Yields(below) + [Yield(me)];
  }

  lemma {:induction false} EmitFIsWalkF(flags: Flags, env: Env, ts: seq<Tree>, parent: nat, chain: seq<bytes>)
    requires NothingFails(env)
    ensures EmitF(flags, env, ts, parent, RootColor(flags), BasePath(flags, chain))
            == Yields(WalkF(flags, ts, parent, chain))
    decreases SizeF(ts), 1
  {
    hide Emit, Walk, Entry, BasePath, FullPath, NothingFails, RootColor;
    if ts == [] {
    } else {
      ChildPathJoins(flags, ts[0], parent, RootColor(flags), chain);
      EmitIsWalk(flags, env, ts[0], parent, chain);
      EmitFIsWalkF(flags, env, ts[1..], parent, chain);
      YieldsConcat(Walk(flags, ts[0], parent, chain), WalkF(flags, ts[1..], parent, chain));
    }
  }

  /** Without failures the iterator returns exactly the traversal the flags name. */
  lemma RunIsWalk(flags: Flags, env: Env, t: Tree)
    requires NothingFails(env)
    ensures Run(flags, env, [Root(t)]) == Yields(WalkRoot(flags, t))
  {
    hide EmitF, WalkF, Pushed, Run, NothingFails;
    RunRoot(flags, env, t);
    AllPushed(flags, env, t, true);
    EmitFIsWalkF(flags, env, Order(flags, t.children), t.id, []);
    var below := EmitF(flags, env, Order(flags, t.children), t.id, RootColor(flags), RootPath(flags));
    assert [] + below == below;
  }

  /** The traversal has every strict descendant of the root once, on the right side of its ancestors. */
  lemma WalkRootExact(flags: Flags, t: Tree)
    requires Unique(t)
    ensures ItemIds(WalkRoot(flags, t)) == IdsF(t.children)
    ensures InOrder(flags, Pairs(t), WalkRoot(flags, t))
  {
    hide WalkF, InOrder;
    IdsReverse(t.children);
    WalkFOrdered(flags, Order(flags, t.children), t.id, []);
    InOrderWiden(flags, PairsF(t.children), Pairs(t), WalkRoot(flags, t));
  }

  // ---------------------------------------------------------------------------------------
  // With failures

  lemma {:induction false} SubIds(a: seq<Item>, b: seq<Item>, i: nat)
    requires Sub(a, b) && i < |a|
    ensures a[i].id in ItemIds(b)
    decreases |b|
  {
    ItemIdsConcat([b[0]], b[1..]);
    assert [b[0]] + b[1..] == b;
    if a[0] == b[0] && Sub(a[1..], b[1..]) {
      if i > 0 {
        SubIds(a[1..], b[1..], i - 1);
      } else {
        assert [b[0]][0].id in ItemIds([b[0]]);
      }
    } else {
      SubIds(a, b[1..], i);
    }
  }

  lemma {:induction false} SubInOrder(flags: Flags, pairs: set<(nat, nat)>, a: seq<Item>, b: seq<Item>)
    requires Sub(a, b) && InOrder(flags, pairs, b)
    ensures InOrder(flags, pairs, a)
    decreases |b|
  {
    if a == [] {
    } else {
      assert InOrder(flags, pairs, b[1..]);
      if a[0] == b[0] && Sub(a[1..], b[1..]) {
        SubInOrder(flags, pairs, a[1..], b[1..]);
        forall i, j | 0 <= i < j < |a| ensures !Wrong(flags, pairs, a[i].id, a[j].id) {
          if i == 0 {
            SubIds(a[1..], b[1..], j - 1);
            var k :| 0 <= k < |b[1..]| && b[1..][k].id == a[1..][j - 1].id;
            assert b[k + 1].id == a[j].id;
          } else {
            assert a[i] == a[1..][i - 1] && a[j] == a[1..][j - 1];
          }
        }
      } else {
        SubInOrder(flags, pairs, a, b[1..]);
      }
    }
  }

  /**
   Whatever fails and whatever is missing: only real descendants are returned, none twice, and each
   still on the right side of all its ancestors that are returned.
   */
  lemma FailuresOnlyOmit(flags: Flags, env: Env, t: Tree)
    requires Unique(t)
    ensures var items := Items(Run(flags, env, [Root(t)]));
            && (forall i :: 0 <= i < |items| ==> items[i].id in IdsF(t.children))
            && InOrder(flags, Pairs(t), items)
  {
    hide Run, WalkRoot, InOrder, Sub, IdsF, Pairs, Items;
    var items := Items(Run(flags, env, [Root(t)]));
    RunIsPartOfWalk(flags, env, t);
    WalkRootExact(flags, t);
    SubInOrder(flags, Pairs(t), items, WalkRoot(flags, t));
    forall i | 0 <= i < |items| ensures items[i].id in IdsF(t.children) {
      SubIds(items, WalkRoot(flags, t), i);
    }
  }

  lemma {:induction false} RunLength(flags: Flags, env: Env, stack: seq<Ent>)
    ensures |Run(flags, env, stack)| <= StackWeight(stack)
    decreases StackWeight(stack)
  {
    hide Turn;
    if stack == [] {
    } else {
      TurnLighter(flags, env, stack);
      RunLength(flags, env, Turn(flags, env, stack).0);
    }
  }

  /** Errors included, there are at most two results for each subvolume. */
  lemma RunIsFinite(flags: Flags, env: Env, t: Tree)
    ensures |Run(flags, env, [Root(t)])| <= 2 * Size(t)
  {
    hide Run, Size;
    RunLength(flags, env, [Root(t)]);
    assert [Root(t)] == [] + [Root(t)];
    assert [Root(t)][..0] == [];
    assert StackWeight([Root(t)]) == 2 * Size(t);
  }

  // ---------------------------------------------------------------------------------------
  // Going down is coming back up

  lemma {:induction false} WalkFConcat(flags: Flags, a: seq<Tree>, b: seq<Tree>, parent: nat, chain: seq<bytes>)
    ensures WalkF(flags, a + b, parent, chain) == WalkF(flags, a, parent, chain) + WalkF(flags, b, parent, chain)
  {
    hide Walk;
    if a == [] {
      assert a + b == b;
    } else {
      assert (a + b)[1..] == a[1..] + b;
      WalkFConcat(flags, a[1..], b, parent, chain);
    }
  }

  /** The opposite order of visiting parents and of visiting children. */
  function Opposite(flags: Flags): Flags {
    flags.(postOrder := !flags.postOrder, descending := !flags.descending)
  }

  lemma {:induction false} WalkOpposite(flags: Flags, t: Tree, parent: nat, chain: seq<bytes>)
    ensures Walk(Opposite(flags), t, parent, chain) == Reverse(Walk(flags, t, parent, chain))
    decreases Size(t), 0
  {
    hide WalkF, Size, SizeF;
    SizeOrder(flags, t);
    var down := chain + [t.piece];
    var kids := Order(flags, t.children);
    ReverseReverse(t.children);
    WalkFOpposite(flags, kids, t.id, down);
    var me := [Item(t.id, parent, FullPath(flags, down))];
    ReverseConcat(me, WalkF(flags, kids, t.id, down));
    ReverseConcat(WalkF(flags, kids, t.id, down), me);
    assert Reverse(me) == me;
  }

  lemma {:induction false} WalkFOpposite(flags: Flags, ts: seq<Tree>, parent: nat, chain: seq<bytes>)
    ensures WalkF(Opposite(flags), Reverse(ts), parent, chain) == Reverse(WalkF(flags, ts, parent, chain))
    decreases SizeF(ts), 1
  {
    hide Walk, Opposite;
    if ts == [] {
    } else {
      WalkOpposite(flags, ts[0], parent, chain);
      WalkFOpposite(flags, ts[1..], parent, chain);
      WalkFConcat(Opposite(flags), Reverse(ts[1..]), [ts[0]], parent, chain);
      ReverseConcat(Walk(flags, ts[0], parent, chain), WalkF(flags, ts[1..], parent, chain));
      WalkFOne(Opposite(flags), ts[0], parent, chain);
    }
  }

  lemma WalkFOne(flags: Flags, t: Tree, parent: nat, chain: seq<bytes>)
    ensures WalkF(flags, [t], parent, chain) == Walk(flags, t, parent, chain)
  {
    hide Walk;
  }

  lemma {:induction false} YieldsReverse(items: seq<Item>)
    ensures Yields(Reverse(items)) == Reverse(Yields(items))
  {
    if items == [] {
    } else {
      YieldsReverse(items[1..]);
      YieldsConcat(Reverse(items[1..]), [items[0]]);
      assert Yields([items[0]]) == [Yield(items[0])];
      assert Yields(items)[1..] == Yields(items[1..]);
    }
  }

  /** Without failures, descending pre-order is ascending post-order backwards, and likewise for the other two. */
  lemma OppositeIsReverse(flags: Flags, env: Env, t: Tree)
    requires NothingFails(env)
    ensures Run(Opposite(flags), env, [Root(t)]) == Reverse(Run(flags, env, [Root(t)]))
  {
    hide WalkF, Run, NothingFails;
    RunIsWalk(flags, env, t);
    RunIsWalk(Opposite(flags), env, t);
    ReverseReverse(t.children);
    WalkFOpposite(flags, Order(flags, t.children), t.id, []);
    YieldsReverse(WalkRoot(flags, t));
  }
}
