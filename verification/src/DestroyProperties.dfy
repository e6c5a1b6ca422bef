/**
 What destroying a subvolume and everything below it comes to, whatever listings, lookups and deletions
 fail: what is gone, what is reported, and which paths were tried.
 */
module DestroyProperties {
  import opened Bytes
  import opened SubvolIter
  import opened SubvolOrder
  import opened SubvolPaths
  import opened SubvolProperties
  import opened SubvolFailures
  import opened DestroyAll

  // ---------------------------------------------------------------------------------------
  // What a stack can still lead to

  function EntryIds(e: Ent): set<nat> {
    match e
    case Root(t) => IdsF(t.children)
    case Vol(t, _, color, _) => if color == Black then {t.id} else Ids(t)
  }

  predicate EntryUnique(e: Ent) {
    match e
    case Root(t) => UniqueF(t.children)
    case Vol(t, _, color, _) => color == Black || Unique(t)
  }

  function StackIds(stack: seq<Ent>): set<nat> {
    if stack == [] then {} else StackIds(stack[..|stack| - 1]) + EntryIds(stack[|stack| - 1])
  }

  /** No subvolume can be returned twice. */
  predicate StackUnique(stack: seq<Ent>) {
    stack == []
    || (var below, e := stack[..|stack| - 1], stack[|stack| - 1];
        StackUnique(below) && EntryUnique(e) && StackIds(below) !! EntryIds(e))
  }

  lemma {:induction false} StackConcat(a: seq<Ent>, b: seq<Ent>)
    ensures StackIds(a + b) == StackIds(a) + StackIds(b)
    ensures StackUnique(a + b) <==> StackUnique(a) && StackUnique(b) && StackIds(a) !! StackIds(b)
    decreases |b|
  {
    hide EntryIds, EntryUnique;
    if b == [] {
      assert a + b == a;
    } else {
      assert (a + b)[..|a + b| - 1] == a + b[..|b| - 1];
      StackConcat(a, b[..|b| - 1]);
    }
  }

  lemma StackOne(e: Ent)
    ensures StackIds([e]) == EntryIds(e) && (StackUnique([e]) <==> EntryUnique(e))
  {
    hide EntryIds, EntryUnique;
    assert [e][..0] == [];
  }

  lemma {:induction false} EntriesIds(ts: seq<Tree>, parent: nat, color: Color, path: Option<Option<bytes>>)
    requires color != Black
    ensures StackIds(Entries(ts, parent, color, path)) == IdsF(ts)
    ensures StackUnique(Entries(ts, parent, color, path)) <==> UniqueF(ts)
    decreases |ts|
  {
    hide Ids, Unique;
    if ts == [] {
    } else {
      var init, last := ts[..|ts| - 1], ts[|ts| - 1];
      assert ts == init + [last];
      IdsConcat(init, [last]);
      assert IdsF([last]) == Ids(last) && (UniqueF([last]) <==> Unique(last));
      EntriesIds(init, parent, color, path);
      assert Entries(ts, parent, color, path)[..|ts| - 1] == Entries(init, parent, color, path);
    }
  }

  lemma {:induction false} SubUnique(a: seq<Tree>, b: seq<Tree>)
    requires Sub(a, b) && UniqueF(b)
    ensures IdsF(a) <= IdsF(b) && UniqueF(a)
    decreases |b|
  {
    hide Ids, Unique;
    if a == [] {
    } else if a[0] == b[0] && Sub(a[1..], b[1..]) {
      SubUnique(a[1..], b[1..]);
    } else {
      SubUnique(a, b[1..]);
    }
  }

  lemma KidsIds(env: Env, t: Tree, isRoot: bool)
    requires UniqueF(t.children)
    ensures var kids := Pushed(FLAGS, env, t, isRoot).0; IdsF(kids) <= IdsF(t.children) && UniqueF(kids)
  {
    hide Pushed, Sub, IdsF, UniqueF;
    var kids := Pushed(FLAGS, env, t, isRoot).0;
    PushedSub(FLAGS, env, t, isRoot);
    IdsReverse(t.children);
    SubUnique(Reverse(kids), Order(FLAGS, t.children));
    IdsReverse(kids);
  }

  /** A turn leads to nothing new, and a subvolume that was returned is not led to again. */
  lemma TurnIds(env: Env, stack: seq<Ent>)
    requires stack != [] && StackUnique(stack)
    ensures var (after, out) := Turn(FLAGS, env, stack);
            && StackIds(after) <= StackIds(stack) && StackUnique(after)
            && forall item :: out == Some(Yield(item)) ==> item.id in StackIds(stack) - StackIds(after)
  {
    hide Pushed, Entries, UniqueF, IdsF;
    var below, e := stack[..|stack| - 1], stack[|stack| - 1];
    match e
    case Root(t) =>
      var kids := Pushed(FLAGS, env, t, true).0;
      KidsIds(env, t, true);
      EntriesIds(kids, t.id, RootColor(FLAGS), RootPath(FLAGS));
      StackConcat(below, Entries(kids, t.id, RootColor(FLAGS), RootPath(FLAGS)));
    case Vol(t, parent, color, path) =>
      if color != Black {
        var kids := Pushed(FLAGS, env, t, false).0;
        var pushed := Entries(kids, t.id, color, Wrap(path));
        var black := Vol(t, parent, Black, path);
        KidsIds(env, t, false);
        EntriesIds(kids, t.id, color, Wrap(path));
        StackOne(black);
        StackConcat(below, [black]);
        StackConcat(below + [black], pushed);
        StackConcat(below, pushed);
      }
  }

  lemma {:induction false} NextIds(env: Env, stack: seq<Ent>)
    requires StackUnique(stack)
    ensures var (after, out) := NextOf(FLAGS, env, stack);
            && StackIds(after) <= StackIds(stack) && StackUnique(after)
            && forall item :: out == Some(Yield(item)) ==> item.id in StackIds(stack) - StackIds(after)
    decreases StackWeight(stack)
  {
    hide Turn, StackIds, StackUnique, StackWeight;
    if stack == [] {
    } else {
      TurnIds(env, stack);
      TurnLighter(FLAGS, env, stack);
      var (after, out) := Turn(FLAGS, env, stack);
      if out.None? {
        NextIds(env, after);
      }
    }
  }

  // ---------------------------------------------------------------------------------------
  // Deletions do not disturb the traversal

  /** The same subvolumes out of `ids` are there. */
  ghost predicate Agree(a: set<nat>, b: set<nat>, ids: set<nat>) {
    forall id <- ids :: id in a <==> id in b
  }

  lemma {:induction false} ListedSame(d: Disk, a: set<nat>, b: set<nat>, ts: seq<Tree>)
    requires Agree(a, b, IdsF(ts))
    ensures Listed(EnvOf(d, a).present, ts) == Listed(EnvOf(d, b).present, ts)
  {
    if ts == [] {
    } else {
      assert ts[0].id in Ids(ts[0]);
      ListedSame(d, a, b, ts[1..]);
    }
  }

  lemma {:induction false} TakeSame(d: Disk, a: set<nat>, b: set<nat>, parent: nat, isRoot: bool, refs: seq<Tree>)
    ensures TakeFound(EnvOf(d, a), parent, isRoot, refs) == TakeFound(EnvOf(d, b), parent, isRoot, refs)
  {
    if refs == [] {
    } else {
      TakeSame(d, a, b, parent, isRoot, refs[1..]);
    }
  }

  lemma PushedSame(d: Disk, a: set<nat>, b: set<nat>, t: Tree, isRoot: bool)
    requires Agree(a, b, IdsF(t.children))
    ensures Pushed(FLAGS, EnvOf(d, a), t, isRoot) == Pushed(FLAGS, EnvOf(d, b), t, isRoot)
  {
    hide TakeFound, Listed;
    ListedSame(d, a, b, t.children);
    TakeSame(d, a, b, t.id, isRoot, PushOrder(FLAGS, Listed(EnvOf(d, a).present, t.children)));
  }

  /** Whatever fails: with nothing gone that can still come, the next result is the same as at the start. */
  lemma {:induction false} NextSame(d: Disk, a: set<nat>, b: set<nat>, stack: seq<Ent>)
    requires StackUnique(stack) && Agree(a, b, StackIds(stack))
    ensures NextOf(FLAGS, EnvOf(d, a), stack) == NextOf(FLAGS, EnvOf(d, b), stack)
    decreases StackWeight(stack)
  {
    hide Pushed, EnvOf, IdsF, StackWeight, StackUnique, Entries;
    if stack == [] {
    } else {
      TurnIds(EnvOf(d, b), stack);
      TurnLighter(FLAGS, EnvOf(d, a), stack);
      TurnLighter(FLAGS, EnvOf(d, b), stack);
      assert Turn(FLAGS, EnvOf(d, a), stack) == Turn(FLAGS, EnvOf(d, b), stack) by {
        match stack[|stack| - 1]
        case Root(t) => PushedSame(d, a, b, t, true);
        case Vol(t, _, color, _) =>
          if color != Black {
            PushedSame(d, a, b, t, false);
          }
      }
      hide Turn;
      var (after, out) := Turn(FLAGS, EnvOf(d, b), stack);
      if out.None? {
        NextSame(d, a, b, after);
      }
    }
  }

  // ---------------------------------------------------------------------------------------
  // Where the subvolumes are

  lemma SizeParts(ts: seq<Tree>)
    requires ts != []
    ensures SizeF(ts[0].children) < SizeF(ts) && SizeF(ts[1..]) < SizeF(ts)
  {
    assert Size(ts[0]) == 1 + SizeF(ts[0].children);
  }

  /** Below `prefix`, the pieces down to each subvolume, joined, name it. */
  ghost predicate PlacedF(d: Disk, prefix: bytes, ts: seq<Tree>, chain: seq<bytes>)
    decreases SizeF(ts)
  {
    ts == []
    || (SizeParts(ts);
        var down := chain + [ts[0].piece];
        && d.at(prefix + Join(down)) == Some(ts[0].id)
        && PlacedF(d, prefix, ts[0].children, down)
        && PlacedF(d, prefix, ts[1..], chain))
  }

  /** The joined pieces down to each subvolume: those below a subvolume before its own, lower ids first. */
  function Below(prefix: bytes, ts: seq<Tree>, chain: seq<bytes>): seq<bytes>
    decreases SizeF(ts)
  {
    if ts == [] then []
    else
      SizeParts(ts);
      var down := chain + [ts[0].piece];
      (Below(prefix, ts[0].children, down) + [prefix + Join(down)]) + Below(prefix, ts[1..], chain)
  }

  function Paths(prefix: bytes, items: seq<Item>): (paths: seq<bytes>)
    ensures |paths| == |items| && forall i :: 0 <= i < |items| ==> paths[i] == prefix + PathOf(items[i])
  {
    seq(|items|, i requires 0 <= i < |items| => prefix + PathOf(items[i]))
  }

  lemma PathsConcat(prefix: bytes, a: seq<Item>, b: seq<Item>)
    ensures Paths(prefix, a + b) == Paths(prefix, a) + Paths(prefix, b)
  {
    hide PathOf;
  }

  lemma PathJoined(chain: seq<bytes>, id: nat, parent: nat)
    ensures PathOf(Item(id, parent, FullPath(FLAGS, chain))) == Join(chain)
  {
    var path := Join(chain) + [0];
    assert path[..|path| - 1] == Join(chain);
  }

  ghost predicate Named(d: Disk, prefix: bytes, items: seq<Item>) {
    forall i :: 0 <= i < |items| ==> d.at(prefix + PathOf(items[i])) == Some(items[i].id)
  }

  lemma NamedConcat(d: Disk, prefix: bytes, a: seq<Item>, b: seq<Item>)
    requires Named(d, prefix, a) && Named(d, prefix, b)
    ensures Named(d, prefix, a + b)
  {
  }

  lemma WalkStep(ts: seq<Tree>, parent: nat, chain: seq<bytes>)
    requires ts != []
    ensures var down := chain + [ts[0].piece];
            WalkF(FLAGS, ts, parent, chain)
            == (WalkF(FLAGS, ts[0].children, ts[0].id, down) + [Item(ts[0].id, parent, FullPath(FLAGS, down))])
               + WalkF(FLAGS, ts[1..], parent, chain)
  {
    hide FullPath;
  }

  /** The traversal's paths are the joined pieces, and where subvolumes are where these say, it names them. */
  lemma {:induction false} WalkPaths(d: Disk, prefix: bytes, ts: seq<Tree>, parent: nat, chain: seq<bytes>)
    ensures Paths(prefix, WalkF(FLAGS, ts, parent, chain)) == Below(prefix, ts, chain)
    ensures PlacedF(d, prefix, ts, chain) ==> Named(d, prefix, WalkF(FLAGS, ts, parent, chain))
    decreases SizeF(ts)
  {
    hide WalkF, Walk, FullPath, PathOf, Named;
    if ts == [] {
      WalkNothing(d, prefix, parent, chain);
    } else {
      var down := chain + [ts[0].piece];
      SizeParts(ts);
      WalkStep(ts, parent, chain);
      WalkPaths(d, prefix, ts[0].children, ts[0].id, down);
      WalkPaths(d, prefix, ts[1..], parent, chain);
      var below, rest := WalkF(FLAGS, ts[0].children, ts[0].id, down), WalkF(FLAGS, ts[1..], parent, chain);
      var me := Item(ts[0].id, parent, FullPath(FLAGS, down));
      PathJoined(down, ts[0].id, parent);
      PathsConcat(prefix, below, [me]);
      PathsConcat(prefix, below + [me], rest);
      assert Paths(prefix, [me]) == [prefix + Join(down)];
      if PlacedF(d, prefix, ts, chain) {
        assert Named(d, prefix, [me]) by {
          NamedOne(d, prefix, me);
        }
        NamedConcat(d, prefix, below, [me]);
        NamedConcat(d, prefix, below + [me], rest);
      }
    }
  }

  lemma WalkNothing(d: Disk, prefix: bytes, parent: nat, chain: seq<bytes>)
    ensures WalkF(FLAGS, [], parent, chain) == [] && Named(d, prefix, [])
  {
  }

  lemma NamedOne(d: Disk, prefix: bytes, me: Item)
    ensures Named(d, prefix, [me]) <==> d.at(prefix + PathOf(me)) == Some(me.id)
  {
    hide PathOf;
    assert [me][0] == me;
  }

  // ---------------------------------------------------------------------------------------
  // The sweep handles the results of one undisturbed run

  /** Trying to destroy what a run returns, result by result. */
  function Apply(d: Disk, prefix: bytes, alive: set<nat>, outs: seq<Out>): Swept {
    if outs == [] then Swept(alive, [], [])
    else
      match outs[0]
      case Error => AfterError(Apply(d, prefix, alive, outs[1..]))
      case Yield(item) =>
        var path := prefix + PathOf(item);
        AfterTry(path, Destroyable(d, alive, path), Apply(d, prefix, AfterDestroy(d, alive, path), outs[1..]))
  }

  lemma {:induction false} SweepOn(d: Disk, prefix: bytes, start: set<nat>, alive: set<nat>, stack: seq<Ent>, items: seq<Item>)
    requires StackUnique(stack) && Agree(alive, start, StackIds(stack))
    requires Pending(FLAGS, stack) && Within(FLAGS, stack, set item | item in items) && Named(d, prefix, items)
    ensures Sweep(d, prefix, alive, stack) == Apply(d, prefix, alive, Run(FLAGS, EnvOf(d, start), stack))
    decreases StackWeight(stack)
  {
    hide NextOf, Pending, Within, StackWeight, StackUnique, StackIds, EnvOf, PathOf, Run, AfterError, AfterTry, Named;
    var env := EnvOf(d, start);
    NextSame(d, alive, start, stack);
    NextIds(env, stack);
    NextWithin(FLAGS, env, stack, set item | item in items);
    NextOfRun(FLAGS, EnvOf(d, alive), stack);
    NextOfRun(FLAGS, env, stack);
    var (after, out) := NextOf(FLAGS, env, stack);
    RunEmpty(env);
    if out.Some? {
      var rest := Run(FLAGS, env, after);
      assert ([out.value] + rest)[1..] == rest;
      if out.value.Yield? {
        NamedAt(d, prefix, items, out.value.item);
        SweepOn(d, prefix, start, AfterDestroy(d, alive, prefix + PathOf(out.value.item)), after, items);
      } else {
        SweepOn(d, prefix, start, alive, after, items);
      }
    }
  }

  lemma NamedAt(d: Disk, prefix: bytes, items: seq<Item>, item: Item)
    requires Named(d, prefix, items) && item in items
    ensures d.at(prefix + PathOf(item)) == Some(item.id)
  {
  }

  lemma RunEmpty(env: Env)
    ensures Run(FLAGS, env, []) == []
  {
  }

  /**
   Whatever fails: destroying while the traversal is under way comes to the same as traversing everything
   first, with all subvolumes still there, and destroying what that returned afterwards.
   */
  lemma SweepIsApply(d: Disk, prefix: bytes, t: Tree, alive: set<nat>)
    requires UniqueF(t.children) && PlacedF(d, prefix, t.children, [])
    ensures Sweep(d, prefix, alive, [Root(t)]) == Apply(d, prefix, alive, Run(FLAGS, EnvOf(d, alive), [Root(t)]))
  {
    hide Sweep, Run, Pending, Within, StackUnique, PlacedF, WalkF, UniqueF, Named, EnvOf;
    StackOne(Root(t));
    WalkPaths(d, prefix, t.children, t.id, []);
    StartWithin(FLAGS, t);
    SweepOn(d, prefix, alive, alive, [Root(t)], WalkRoot(FLAGS, t));
  }

  // ---------------------------------------------------------------------------------------
  // What is gone and what is reported, exactly

  /** Returned by the traversal, and so is all that is below. */
  ghost predicate Gone(pairs: set<(nat, nat)>, returned: set<nat>, x: nat) {
    x in returned && forall c :: (x, c) in pairs ==> c in returned
  }

  ghost function Left(pairs: set<(nat, nat)>, returned: set<nat>, alive: set<nat>): set<nat> {
    set x <- alive | !Gone(pairs, returned, x)
  }

  /** One report for each failure of the traversal and for each subvolume below which one was not returned. */
  ghost function ReportsOf(prefix: bytes, pairs: set<(nat, nat)>, returned: set<nat>, outs: seq<Out>): seq<Report> {
    if outs == [] then []
    else
      var rest := ReportsOf(prefix, pairs, returned, outs[1..]);
      match outs[0]
      case Error => [Traversal] + rest
      case Yield(item) => (if Gone(pairs, returned, item.id) then [] else [Undestroyed(prefix + PathOf(item))]) + rest
  }

  /** What the disk says to be below a subvolume of the tree is what is below it in the tree. */
  ghost predicate Describes(d: Disk, t: Tree) {
    forall a, c :: a in Ids(t) ==> ((a, c) in d.under <==> (a, c) in Pairs(t))
  }

  lemma {:induction false} PairsProper(t: Tree, a: nat)
    requires Unique(t)
    ensures (a, a) !in Pairs(t)
    decreases Size(t), 0
  {
    PairsFProper(t.children, a);
  }

  lemma {:induction false} PairsFProper(ts: seq<Tree>, a: nat)
    requires UniqueF(ts)
    ensures (a, a) !in PairsF(ts)
    decreases SizeF(ts), 1
  {
    if ts == [] {
    } else {
      PairsProper(ts[0], a);
      PairsFProper(ts[1..], a);
    }
  }

  lemma {:induction false} PairsTransitive(t: Tree, a: nat, b: nat, c: nat)
    requires Unique(t) && (a, b) in Pairs(t) && (b, c) in Pairs(t)
    ensures (a, c) in Pairs(t)
    decreases Size(t), 0
  {
    PairsInside(t, a, b);
    PairsInside(t, b, c);
    if a != t.id {
      PairsFTransitive(t.children, a, b, c);
    }
  }

  lemma {:induction false} PairsFTransitive(ts: seq<Tree>, a: nat, b: nat, c: nat)
    requires UniqueF(ts) && (a, b) in PairsF(ts) && (b, c) in PairsF(ts)
    ensures (a, c) in PairsF(ts)
    decreases SizeF(ts), 1
  {
    PairsInside(ts[0], a, b);
    PairsInside(ts[0], b, c);
    PairsFInside(ts[1..], a, b);
    PairsFInside(ts[1..], b, c);
    if (a, b) in Pairs(ts[0]) {
      PairsTransitive(ts[0], a, b, c);
    } else {
      PairsFTransitive(ts[1..], a, b, c);
    }
  }

  /** Which subvolumes were returned when, around the one after `done`. */
  lemma AroundItem(t: Tree, done: seq<Item>, item: Item, rest: seq<Item>)
    requires Unique(t) && InOrder(FLAGS, Pairs(t), done + [item] + rest)
    ensures forall x <- ItemIds(done) :: x != item.id && (x, item.id) !in Pairs(t)
    ensures forall x <- ItemIds(rest) :: x != item.id && (item.id, x) !in Pairs(t)
  {
    hide Pairs, Unique;
    var all := done + [item] + rest;
    assert all[|done|] == item;
    forall x <- ItemIds(done) ensures x != item.id && (x, item.id) !in Pairs(t) {
      var i :| 0 <= i < |done| && done[i].id == x;
      assert all[i] == done[i];
      assert !Wrong(FLAGS, Pairs(t), all[i].id, all[|done|].id);
    }
    forall x <- ItemIds(rest) ensures x != item.id && (item.id, x) !in Pairs(t) {
      var i :| 0 <= i < |rest| && rest[i].id == x;
      assert all[|done| + 1 + i] == rest[i];
      assert !Wrong(FLAGS, Pairs(t), all[|done|].id, all[|done| + 1 + i].id);
    }
  }

  lemma ItemIdsOne(item: Item)
    ensures ItemIds([item]) == {item.id}
  {
    assert [item][0].id in ItemIds([item]);
  }

  /** The one step: a subvolume can be destroyed exactly if all below it was returned. */
  lemma DestroyStep(d: Disk, t: Tree, path: bytes, alive: set<nat>, done: seq<Item>, item: Item, rest: seq<Item>)
    requires Unique(t) && Describes(d, t) && IdsF(t.children) <= alive
    requires item.id in IdsF(t.children) && d.at(path) == Some(item.id)
    requires InOrder(FLAGS, Pairs(t), done + [item] + rest)
    ensures var left := Left(Pairs(t), ItemIds(done), alive);
            && (Destroyable(d, left, path) <==> Gone(Pairs(t), ItemIds(done + [item] + rest), item.id))
            && AfterDestroy(d, left, path) == Left(Pairs(t), ItemIds(done + [item]), alive)
  {
    hide Pairs, Unique, ItemIds, IdsF, InOrder;
    var pairs, x, before := Pairs(t), item.id, ItemIds(done);
    var left := Left(pairs, before, alive);
    AroundItem(t, done, item, rest);
    ItemIdsConcat(done + [item], rest);
    ItemIdsConcat(done, [item]);
    ItemIdsOne(item);
    PairsProper(t, x);
    assert x in Ids(t) && x in left;
    assert Gone(pairs, before + {x} + ItemIds(rest), x) <==> Gone(pairs, before + {x}, x);
    assert Gone(pairs, before + {x}, x) <==> forall c :: (x, c) in pairs ==> c in before;
    if Gone(pairs, before + {x}, x) {
      forall c | (x, c) in pairs ensures Gone(pairs, before, c) {
        forall e | (c, e) in pairs ensures e in before {
          PairsTransitive(t, x, c, e);
        }
      }
    } else {
      var c :| (x, c) in pairs && c !in before;
      PairsInside(t, x, c);
      assert c in left;
    }
    forall z <- alive ensures z != x ==> (Gone(pairs, before, z) <==> Gone(pairs, before + {x}, z)) {
    }
  }

  lemma {:induction false} ApplyExact(d: Disk, prefix: bytes, t: Tree, alive: set<nat>, done: seq<Item>, outs: seq<Out>)
    requires Unique(t) && Describes(d, t) && IdsF(t.children) <= alive
    requires ItemIds(Items(outs)) <= IdsF(t.children) && Named(d, prefix, Items(outs))
    requires InOrder(FLAGS, Pairs(t), done + Items(outs))
    ensures var returned := ItemIds(done + Items(outs));
            Apply(d, prefix, Left(Pairs(t), ItemIds(done), alive), outs)
            == Swept(Left(Pairs(t), returned, alive), ReportsOf(prefix, Pairs(t), returned, outs), Paths(prefix, Items(outs)))
    decreases |outs|
  {
    hide Pairs, Unique, ItemIds, IdsF, InOrder, Describes, Left, Gone, PathOf, Destroyable, AfterDestroy, Named;
    if outs == [] {
      assert done + Items(outs) == done;
    } else {
      var rest := Items(outs[1..]);
      match outs[0] {
        case Error =>
          assert [] + rest == rest;
          ApplyExact(d, prefix, t, alive, done, outs[1..]);
        case Yield(item) =>
          assert done + Items(outs) == done + [item] + rest;
          ItemIdsConcat([item], rest);
          ItemIdsOne(item);
          NamedAt(d, prefix, Items(outs), item);
          NamedTail(d, prefix, Items(outs));
          assert Items(outs)[1..] == rest;
          DestroyStep(d, t, prefix + PathOf(item), alive, done, item, rest);
          ApplyExact(d, prefix, t, alive, done + [item], outs[1..]);
          PathsConcat(prefix, [item], rest);
          assert Paths(prefix, [item]) == [prefix + PathOf(item)];
      }
    }
  }

  lemma NamedTail(d: Disk, prefix: bytes, items: seq<Item>)
    requires Named(d, prefix, items) && items != []
    ensures Named(d, prefix, items[1..])
  {
    hide PathOf;
    assert forall i :: 0 <= i < |items[1..]| ==> items[1..][i] == items[i + 1];
  }

  lemma NamedSub(d: Disk, prefix: bytes, a: seq<Item>, b: seq<Item>)
    requires Sub(a, b) && Named(d, prefix, b)
    ensures Named(d, prefix, a)
  {
    hide PathOf, Sub;
    SubIn(a, b);
    forall i | 0 <= i < |a| ensures d.at(prefix + PathOf(a[i])) == Some(a[i].id) {
      NamedAt(d, prefix, b, a[i]);
    }
  }

  /**
   Whatever fails: a subvolume is destroyed exactly if it and all below it are returned by the undisturbed
   traversal; each one returned is tried, in that order, and each failure is reported, and nothing else.
   */
  lemma DestroyedExactly(d: Disk, name: bytes, t: Tree, alive: set<nat>)
    requires Unique(t) && Describes(d, t) && IdsF(t.children) <= alive && PlacedF(d, name + [SLASH], t.children, [])
    ensures var outs := Run(FLAGS, EnvOf(d, alive), [Root(t)]);
            var returned := ItemIds(Items(outs));
            var swept := Sweep(d, name + [SLASH], alive, [Root(t)]);
            && (forall x :: x in swept.alive <==> x in alive && !Gone(Pairs(t), returned, x))
            && swept.reports == ReportsOf(name + [SLASH], Pairs(t), returned, outs)
            && swept.tried == Paths(name + [SLASH], Items(outs))
  {
    hide Sweep, Run, PlacedF, WalkRoot, Named, EnvOf, Pairs, Items, ItemIds, IdsF, InOrder, Describes, Gone, Paths, Sub;
    var prefix := name + [SLASH];
    var outs := Run(FLAGS, EnvOf(d, alive), [Root(t)]);
    SweepIsApply(d, prefix, t, alive);
    FailuresOnlyOmit(FLAGS, EnvOf(d, alive), t);
    RunIsPartOfWalk(FLAGS, EnvOf(d, alive), t);
    WalkPaths(d, prefix, t.children, t.id, []);
    WalkRootPlain(t);
    NamedSub(d, prefix, Items(outs), WalkRoot(FLAGS, t));
    ItemIdsWithin(Items(outs), IdsF(t.children));
    NothingYet(Pairs(t), alive);
    assert [] + Items(outs) == Items(outs);
    ApplyExact(d, prefix, t, alive, [], outs);
  }

  lemma WalkRootPlain(t: Tree)
    ensures WalkRoot(FLAGS, t) == WalkF(FLAGS, t.children, t.id, [])
  {
  }

  lemma ItemIdsWithin(items: seq<Item>, ids: set<nat>)
    requires forall i :: 0 <= i < |items| ==> items[i].id in ids
    ensures ItemIds(items) <= ids
  {
  }

  lemma NothingYet(pairs: set<(nat, nat)>, alive: set<nat>)
    ensures Left(pairs, ItemIds([]), alive) == alive
  {
  }

  // ---------------------------------------------------------------------------------------
  // Everything is destroyed, or it is reported

  lemma {:induction false} ReportsSilent(prefix: bytes, pairs: set<(nat, nat)>, returned: set<nat>, outs: seq<Out>)
    ensures ReportsOf(prefix, pairs, returned, outs) == []
            <==> Clean(outs) && forall i :: 0 <= i < |outs| ==> outs[i].Yield? ==> Gone(pairs, returned, outs[i].item.id)
  {
    hide Gone;
    if outs == [] {
    } else {
      ReportsSilent(prefix, pairs, returned, outs[1..]);
      assert outs == [outs[0]] + outs[1..];
      CleanConcat([outs[0]], outs[1..]);
      assert Clean([outs[0]]) <==> outs[0] != Error by {
        assert [outs[0]][0] == outs[0];
      }
      assert forall i :: 0 <= i < |outs[1..]| ==> outs[1..][i] == outs[i + 1];
    }
  }

  lemma {:induction false} AllowedIds(env: Env, parent: nat, ts: seq<Tree>)
    requires UniqueF(ts)
    ensures var some := Allowed(env, parent, ts);
            && IdsF(some) <= IdsF(ts) && UniqueF(some) && PairsF(some) <= PairsF(ts)
            && (some != ts ==> exists x <- IdsF(ts) :: x !in IdsF(some))
    ensures forall x, c :: (x, c) in PairsF(ts) && x in IdsF(Allowed(env, parent, ts)) ==> c in IdsF(Allowed(env, parent, ts))
  {
    hide Ids, Unique, Pairs;
    if ts == [] {
    } else {
      AllowedIds(env, parent, ts[1..]);
      var rest := Allowed(env, parent, ts[1..]);
      var some := Allowed(env, parent, ts);
      assert ts[0].id in Ids(ts[0]) by {
        OwnId(ts[0]);
      }
      assert ([ts[0]] + rest)[1..] == rest && [] + rest == rest;
      if some != ts {
        assert env.lookup(parent, ts[0].id) != Denied ==> rest != ts[1..] by {
          assert [ts[0]] + ts[1..] == ts;
        }
      }
      forall x, c | (x, c) in PairsF(ts) && x in IdsF(some) ensures c in IdsF(some) {
        PairsStay(ts[0], x, c);
        PairsFInside(ts[1..], x, c);
      }
    }
  }

  lemma OwnId(t: Tree)
    ensures t.id in Ids(t)
  {
  }

  lemma PairsStay(t: Tree, x: nat, c: nat)
    ensures (x, c) in Pairs(t) ==> x in Ids(t) && c in Ids(t)
  {
    PairsInside(t, x, c);
  }

  lemma ItemIdsAt(items: seq<Item>, i: nat)
    ensures i < |items| ==> items[i].id in ItemIds(items)
  {
  }

  /** Where all below some children is returned, all of it is gone, and nothing else. */
  lemma GoneBelow(t: Tree, kids: seq<Tree>)
    requires Unique(t) && IdsF(kids) <= IdsF(t.children)
    requires forall x, c :: (x, c) in PairsF(t.children) && x in IdsF(kids) ==> c in IdsF(kids)
    ensures forall x :: Gone(Pairs(t), IdsF(kids), x) <==> x in IdsF(kids)
  {
    hide IdsF, PairsF, UniqueF;
    forall x <- IdsF(kids) ensures Gone(Pairs(t), IdsF(kids), x) {
      assert x != t.id;
      assert forall c :: (x, c) in Pairs(t) ==> (x, c) in PairsF(t.children);
    }
  }

  /** The base can be destroyed when nothing is left below it, and only then. */
  lemma BaseLast(d: Disk, name: bytes, t: Tree, kids: seq<Tree>, alive: set<nat>)
    requires Unique(t) && Describes(d, t) && Ids(t) <= alive && d.at(name) == Some(t.id)
    requires IdsF(kids) <= IdsF(t.children)
    ensures Destroyable(d, alive - IdsF(kids), name) <==> IdsF(kids) == IdsF(t.children)
  {
    hide IdsF, PairsF, UniqueF;
    forall c ensures (t.id, c) in Pairs(t) <==> c in IdsF(t.children) {
      PairsInside(t, t.id, c);
    }
    if IdsF(kids) != IdsF(t.children) {
      var c :| c in IdsF(t.children) && c !in IdsF(kids);
      assert c in alive - IdsF(kids) && (t.id, c) in d.under;
    }
  }

  /**
   Nothing is reported exactly if every listing and lookup that is needed works, and then all that lies below
   the base is gone, lower ids first and each after what is below it, except for what lies below a lookup
   denied at the base; the base itself can then be destroyed exactly if there was none of those.
   */
  lemma SilentExactly(d: Disk, name: bytes, t: Tree, alive: set<nat>)
    requires Unique(t) && Describes(d, t) && Ids(t) <= alive
    requires PlacedF(d, name + [SLASH], t.children, []) && d.at(name) == Some(t.id)
    ensures var swept := Sweep(d, name + [SLASH], alive, [Root(t)]);
            var kids := Allowed(EnvOf(d, alive), t.id, t.children);
            && (swept.reports == [] <==> WorksRoot(EnvOf(d, alive), t))
            && (swept.reports == [] ==>
                  && swept.alive == alive - IdsF(kids)
                  && swept.tried == Below(name + [SLASH], kids, [])
                  && (Destroyable(d, swept.alive, name) <==> kids == t.children))
  {
    hide Sweep, Run, PlacedF, Named, Items, ItemIds, InOrder, Describes, Paths, Gone, ReportsOf, Allowed, Pairs, PairsF, UniqueF, WorksRoot, Clean, WalkF, Destroyable;
    var prefix, env := name + [SLASH], EnvOf(d, alive);
    var outs := Run(FLAGS, env, [Root(t)]);
    var kids := Allowed(env, t.id, t.children);
    DestroyedExactly(d, name, t, alive);
    NothingUnreported(FLAGS, env, t);
    ReportsSilent(prefix, Pairs(t), ItemIds(Items(outs)), outs);
    AllowedIds(env, t.id, t.children);
    if WorksRoot(env, t) {
      PruneFNothing(env, kids);
      var some := Node(t.id, t.piece, kids);
      var walk := WalkRoot(FLAGS, some);
      assert PruneRoot(env, t) == some;
      WalkRootPlain(some);
      ItemsOfYields(walk);
      assert Unique(some);
      WalkRootExact(FLAGS, some);
      WalkPaths(d, prefix, kids, t.id, []);
      GoneBelow(t, kids);
      forall i | 0 <= i < |outs| ensures outs[i].Yield? ==> Gone(Pairs(t), IdsF(kids), outs[i].item.id) {
        ItemIdsAt(walk, i);
      }
      BaseLast(d, name, t, kids, alive);
    }
  }

  ghost predicate LookupsWork(d: Disk) {
    (forall id :: d.listOk(id)) && forall a, c :: d.lookup(a, c) == Found
  }

  lemma {:induction false} AllWork(d: Disk, alive: set<nat>, t: Tree)
    requires LookupsWork(d)
    ensures Works(EnvOf(d, alive), t)
    decreases Size(t), 0
  {
    AllWorkF(d, alive, t.id, t.children);
  }

  lemma {:induction false} AllWorkF(d: Disk, alive: set<nat>, parent: nat, ts: seq<Tree>)
    requires LookupsWork(d)
    ensures WorksF(EnvOf(d, alive), parent, ts)
    decreases SizeF(ts), 1
  {
    if ts == [] {
    } else {
      AllWork(d, alive, ts[0]);
      AllWorkF(d, alive, parent, ts[1..]);
    }
  }

  /**
   Where looking up does not fail, every destroy of the sweep succeeds, nothing is reported, what is gone is
   exactly what was below the base, and the base itself can then be destroyed.
   */
  lemma EverythingDestroyed(d: Disk, name: bytes, t: Tree, alive: set<nat>)
    requires Unique(t) && Describes(d, t) && Ids(t) <= alive && LookupsWork(d)
    requires PlacedF(d, name + [SLASH], t.children, []) && d.at(name) == Some(t.id)
    ensures Sweep(d, name + [SLASH], alive, [Root(t)])
            == Swept(alive - IdsF(t.children), [], Below(name + [SLASH], t.children, []))
    ensures AfterDestroy(d, alive - IdsF(t.children), name) == alive - Ids(t)
  {
    hide Sweep, PlacedF, Describes, Unique, IdsF, Works, WorksF, Below, Destroyable;
    SilentExactly(d, name, t, alive);
    AllowedAll(EnvOf(d, alive), t.id, t.children);
    AllWork(d, alive, t);
  }

  // ---------------------------------------------------------------------------------------
  // On any disk

  lemma {:induction false} SweepWithin(d: Disk, prefix: bytes, alive: set<nat>, stack: seq<Ent>, items: seq<Item>)
    requires Pending(FLAGS, stack) && Within(FLAGS, stack, set item | item in items)
    ensures var swept := Sweep(d, prefix, alive, stack);
            && swept.alive <= alive
            && (Named(d, prefix, items) ==> alive - ItemIds(items) <= swept.alive)
            && forall path <- swept.tried :: path in Paths(prefix, items)
    decreases StackWeight(stack)
  {
    hide NextOf, Pending, Within, StackWeight, WalkRoot, EnvOf, PathOf, Named, ItemIds;
    NextOfRun(FLAGS, EnvOf(d, alive), stack);
    NextWithin(FLAGS, EnvOf(d, alive), stack, set item | item in items);
    var (after, out) := NextOf(FLAGS, EnvOf(d, alive), stack);
    if out.Some? {
      if out.value.Yield? {
        var i :| 0 <= i < |items| && items[i] == out.value.item;
        ItemIdsAt(items, i);
        assert Paths(prefix, items)[i] == prefix + PathOf(items[i]);
        if Named(d, prefix, items) {
          NamedAt(d, prefix, items, items[i]);
        }
        SweepWithin(d, prefix, AfterDestroy(d, alive, prefix + PathOf(items[i])), after, items);
      } else {
        SweepWithin(d, prefix, alive, after, items);
      }
    }
  }

  /**
   Whatever fails along the way, nothing is destroyed but subvolumes below the base, wherever these are
   what the joined pieces name.
   */
  lemma NothingElseDestroyed(d: Disk, name: bytes, t: Tree, alive: set<nat>)
    requires Unique(t) && PlacedF(d, name + [SLASH], t.children, [])
    ensures alive - IdsF(t.children) <= Sweep(d, name + [SLASH], alive, [Root(t)]).alive <= alive
  {
    hide Sweep, IdsF, WalkF, Named, Unique, Pending, Within, PlacedF, Paths, ItemIds;
    StartWithin(FLAGS, t);
    WalkRootExact(FLAGS, t);
    WalkPaths(d, name + [SLASH], t.children, t.id, []);
    SweepWithin(d, name + [SLASH], alive, [Root(t)], WalkRoot(FLAGS, t));
  }

  ghost predicate PiecesPlain(ts: seq<Tree>)
    decreases SizeF(ts)
  {
    ts == [] || (SizeParts(ts); NUL !in ts[0].piece && PiecesPlain(ts[0].children) && PiecesPlain(ts[1..]))
  }

  lemma {:induction false} BelowPlain(prefix: bytes, ts: seq<Tree>, chain: seq<bytes>)
    requires PiecesPlain(ts) && NUL !in prefix && forall piece <- chain :: NUL !in piece
    ensures forall path <- Below(prefix, ts, chain) :: NUL !in path
    decreases SizeF(ts)
  {
    hide Join;
    if ts == [] {
    } else {
      var down := chain + [ts[0].piece];
      SizeParts(ts);
      JoinNoNul(down);
      BelowPlain(prefix, ts[0].children, down);
      BelowPlain(prefix, ts[1..], chain);
    }
  }

  /**
   On any disk, whatever fails: the only paths tried are the name, a '/' and the joined pieces down to a
   subvolume below the base; so none holds a NUL where neither the name nor a piece does.
   */
  lemma TriedPaths(d: Disk, name: bytes, t: Tree, alive: set<nat>)
    ensures var tried := Sweep(d, name + [SLASH], alive, [Root(t)]).tried;
            && (forall path <- tried :: path in Below(name + [SLASH], t.children, []))
            && (NUL !in name && PiecesPlain(t.children) ==> forall path <- tried :: NUL !in path)
  {
    hide Sweep, WalkF, Named, Pending, Within, PlacedF, Below, PiecesPlain;
    StartWithin(FLAGS, t);
    WalkPaths(d, name + [SLASH], t.children, t.id, []);
    SweepWithin(d, name + [SLASH], alive, [Root(t)], WalkRoot(FLAGS, t));
    if NUL !in name && PiecesPlain(t.children) {
      BelowPlain(name + [SLASH], t.children, []);
    }
  }

  function Undone(reports: seq<Report>): nat {
    if reports == [] then 0 else (if reports[0].Undestroyed? then 1 else 0) + Undone(reports[1..])
  }

  /** On any disk, each path tried took away one subvolume or was reported. */
  lemma {:induction false} TriedOrReported(d: Disk, prefix: bytes, alive: set<nat>, stack: seq<Ent>)
    ensures var swept := Sweep(d, prefix, alive, stack);
            |swept.tried| == (|alive| - |swept.alive|) + Undone(swept.reports)
    decreases StackWeight(stack)
  {
    hide NextOf, StackWeight, EnvOf, PathOf, Run, Destroyable;
    NextOfRun(FLAGS, EnvOf(d, alive), stack);
    var (after, out) := NextOf(FLAGS, EnvOf(d, alive), stack);
    match out {
      case None =>
      case Some(Error) =>
        TriedOrReported(d, prefix, alive, after);
        var rest := Sweep(d, prefix, alive, after).reports;
        assert ([Traversal] + rest)[1..] == rest;
      case Some(Yield(item)) =>
        var path := prefix + PathOf(item);
        DestroysOne(d, alive, path);
        TriedOrReported(d, prefix, AfterDestroy(d, alive, path), after);
        var rest := Sweep(d, prefix, AfterDestroy(d, alive, path), after).reports;
        assert ([Undestroyed(path)] + rest)[1..] == rest && [] + rest == rest;
    }
  }

  lemma DestroysOne(d: Disk, alive: set<nat>, path: bytes)
    ensures |AfterDestroy(d, alive, path)| == |alive| - if Destroyable(d, alive, path) then 1 else 0
  {
  }
}
