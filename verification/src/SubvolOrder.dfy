/** What the subvolume iterator's runs amount to, with and without lookup failures. */
module SubvolOrder {
  import opened Bytes
  import opened SubvolIter

  // ---------------------------------------------------------------------------------------
  // A run, subvolume by subvolume

  /** Everything a run emits for a pushed subvolume and what is below it. */
  function Emit(flags: Flags, env: Env, t: Tree, parent: nat, color: Color, path: Option<bytes>): seq<Out>
    decreases Size(t), 0
  {
    var (kids, ok) := Pushed(flags, env, t, false);
    SizeReverse(kids);
    var me := [Yield(Item(t.id, parent, path))];
    if color == Black then me
    else
      var below := EmitF(flags, env, Reverse(kids), t.id, color, Wrap(path));
      if color == Grey then (if ok then [] else [Error]) + below + me
      else (if ok then me else [Error]) + below
  }

  /** The same for several subvolumes, in the order they come off the stack. */
  function EmitF(flags: Flags, env: Env, ts: seq<Tree>, parent: nat, color: Color, path: Option<Option<bytes>>): seq<Out>
    decreases SizeF(ts), 1
  {
    if ts == [] then []
    else
      var e := Entry(ts[0], parent, color, path);
      Emit(flags, env, ts[0], parent, color, e.path) + EmitF(flags, env, ts[1..], parent, color, path)
  }

  function RootColor(flags: Flags): Color {
    if flags.postOrder then Grey else PreOrd
  }

  function RootPath(flags: Flags): Option<Option<bytes>> {
    if flags.getPath then Some(None) else None
  }

  function EmitRoot(flags: Flags, env: Env, t: Tree): seq<Out> {
    var (kids, ok) := Pushed(flags, env, t, true);
    (if ok then [] else [Error]) + EmitF(flags, env, Reverse(kids), t.id, RootColor(flags), RootPath(flags))
  }

  lemma {:induction false} ReverseConcat<T>(a: seq<T>, b: seq<T>)
    ensures Reverse(a + b) == Reverse(b) + Reverse(a)
  {
    if a == [] {
      assert a + b == b;
    } else {
      assert (a + b)[1..] == a[1..] + b;
      ReverseConcat(a[1..], b);
    }
  }

  lemma {:induction false} ReverseReverse<T>(s: seq<T>)
    ensures Reverse(Reverse(s)) == s
  {
    if s == [] {
    } else {
      ReverseReverse(s[1..]);
      ReverseConcat(Reverse(s[1..]), [s[0]]);
      assert Reverse([s[0]]) == [s[0]];
    }
  }

  /** One turn of a run whose top entry is a subvolume. */
  lemma RunTurn(flags: Flags, env: Env, stack: seq<Ent>, t: Tree, parent: nat, color: Color, path: Option<bytes>)
    ensures var (kids, ok) := Pushed(flags, env, t, false);
            var me := Vol(t, parent, color, path);
            var mine := [Yield(Item(t.id, parent, path))];
            var pushed := Entries(kids, t.id, color, Wrap(path));
            Run(flags, env, stack + [me])
            == if color == Black then mine + Run(flags, env, stack)
               else if color == Grey then
                 (if ok then [] else [Error]) + Run(flags, env, (stack + [Vol(t, parent, Black, path)]) + pushed)
               else (if ok then mine else [Error]) + Run(flags, env, stack + pushed)
  {
    hide Pushed, Entries, StackWeight;
    var whole := stack + [Vol(t, parent, color, path)];
    assert whole[..|whole| - 1] == stack;
    TurnLighter(flags, env, whole);
  }

  /** Turn taking: the machine finishes the top entry's whole subtree before what is below it. */
  lemma {:induction false} RunEntry(flags: Flags, env: Env, stack: seq<Ent>, t: Tree, parent: nat, color: Color, path: Option<bytes>)
    ensures Run(flags, env, stack + [Vol(t, parent, color, path)])
            == Emit(flags, env, t, parent, color, path) + Run(flags, env, stack)
    decreases Size(t), 1, if color == Black then 0 else 1
  {
    hide Pushed, Entries, Size, SizeF, Run, EmitF;
    RunTurn(flags, env, stack, t, parent, color, path);
    if color != Black {
      var (kids, ok) := Pushed(flags, env, t, false);
      SizeReverse(kids);
      ReverseReverse(kids);
      var below := EmitF(flags, env, Reverse(kids), t.id, color, Wrap(path));
      if color == Grey {
        var black := stack + [Vol(t, parent, Black, path)];
        RunEntries(flags, env, black, Reverse(kids), t.id, Grey, Wrap(path));
        RunEntry(flags, env, stack, t, parent, Black, path);
      } else {
        RunEntries(flags, env, stack, Reverse(kids), t.id, PreOrd, Wrap(path));
      }
    }
  }

  lemma {:induction false} RunEntries(flags: Flags, env: Env, stack: seq<Ent>, ts: seq<Tree>, parent: nat, color: Color, path: Option<Option<bytes>>)
    requires color != Black
    ensures Run(flags, env, stack + Entries(Reverse(ts), parent, color, path))
            == EmitF(flags, env, ts, parent, color, path) + Run(flags, env, stack)
    decreases SizeF(ts), 2, 0
  {
    hide Run, Emit, Entries;
    if ts == [] {
      EntriesNone(parent, color, path);
      assert stack + [] == stack;
    } else {
      var e := Entry(ts[0], parent, color, path);
      EntriesAppend(Reverse(ts[1..]), ts[0], parent, color, path);
      assert stack + Entries(Reverse(ts), parent, color, path)
          == (stack + Entries(Reverse(ts[1..]), parent, color, path)) + [e];
      RunEntry(flags, env, stack + Entries(Reverse(ts[1..]), parent, color, path), ts[0], parent, color, e.path);
      RunEntries(flags, env, stack, ts[1..], parent, color, path);
    }
  }

  lemma RunRootOn(flags: Flags, env: Env, stack: seq<Ent>, t: Tree)
    ensures Run(flags, env, stack + [Root(t)]) == EmitRoot(flags, env, t) + Run(flags, env, stack)
  {
    hide Pushed, Entries, EmitF, StackWeight;
    var (kids, ok) := Pushed(flags, env, t, true);
    var whole := stack + [Root(t)];
    TurnLighter(flags, env, whole);
    assert whole[..|whole| - 1] == stack;
    RunEntries(flags, env, stack, Reverse(kids), t.id, RootColor(flags), RootPath(flags));
    ReverseReverse(kids);
  }

  lemma RunRoot(flags: Flags, env: Env, t: Tree)
    ensures Run(flags, env, [Root(t)]) == EmitRoot(flags, env, t)
  {
    hide EmitRoot, Turn;
    RunRootOn(flags, env, [], t);
    assert [] + [Root(t)] == [Root(t)];
  }

  // ---------------------------------------------------------------------------------------
  // The traversals the flags ask for

  /** Children in the order they are to be visited. */
  function Order<T>(flags: Flags, ts: seq<T>): seq<T> {
    if flags.descending then Reverse(ts) else ts
  }

  /** The '/'-joined pieces of a chain of subvolumes. */
  function Join(chain: seq<bytes>): bytes {
    if chain == [] then []
    else if |chain| == 1 then chain[0]
    else Join(chain[..|chain| - 1]) + [SLASH] + chain[|chain| - 1]
  }

  /** The path of the last subvolume of a chain, NUL-terminated, if paths are wanted. */
  function FullPath(flags: Flags, chain: seq<bytes>): Option<bytes> {
    if flags.getPath then Some(Join(chain) + [0]) else None
  }

  /** The traversal of a subvolume and what is below it; `chain` are the pieces down to it. */
  function Walk(flags: Flags, t: Tree, parent: nat, chain: seq<bytes>): seq<Item>
    decreases Size(t), 0
  {
    SizeReverse(t.children);
    var me := [Item(t.id, parent, FullPath(flags, chain + [t.piece]))];
    var below := WalkF(flags, Order(flags, t.children), t.id, chain + [t.piece]);
    if flags.postOrder then below + me else me + below
  }

  function WalkF(flags: Flags, ts: seq<Tree>, parent: nat, chain: seq<bytes>): seq<Item>
    decreases SizeF(ts), 1
  {
    if ts == [] then [] else Walk(flags, ts[0], parent, chain) + WalkF(flags, ts[1..], parent, chain)
  }

  /** The traversal of a root's strict descendants. */
  function WalkRoot(flags: Flags, t: Tree): seq<Item> {
    WalkF(flags, Order(flags, t.children), t.id, [])
  }

  function Yields(items: seq<Item>): (outs: seq<Out>)
    ensures |outs| == |items| && forall i :: 0 <= i < |items| ==> outs[i] == Yield(items[i])
  {
    seq(|items|, i requires 0 <= i < |items| => Yield(items[i]))
  }

  /** The items among the results. */
  function Items(outs: seq<Out>): seq<Item> {
    if outs == [] then []
    else (if outs[0].Yield? then [outs[0].item] else []) + Items(outs[1..])
  }

  lemma {:induction false} ItemsConcat(a: seq<Out>, b: seq<Out>)
    ensures Items(a + b) == Items(a) + Items(b)
  {
    if a == [] {
      assert a + b == b;
    } else {
      assert (a + b)[1..] == a[1..] + b;
      ItemsConcat(a[1..], b);
      var first := if a[0].Yield? then [a[0].item] else [];
      assert first + (Items(a[1..]) + Items(b)) == (first + Items(a[1..])) + Items(b);
    }
  }

  // ---------------------------------------------------------------------------------------
  // Subsequences

  /** `a` is `b` with some elements left out. */
  ghost predicate Sub<T(!new)>(a: seq<T>, b: seq<T>) {
    if a == [] then true
    else if b == [] then false
    else (a[0] == b[0] && Sub(a[1..], b[1..])) || Sub(a, b[1..])
  }

  lemma {:induction false} SubSelf<T(!new)>(a: seq<T>)
    ensures Sub(a, a)
  {
    if a == [] {
    } else {
      SubSelf(a[1..]);
    }
  }

  lemma {:induction false} SubConcat<T(!new)>(a: seq<T>, b: seq<T>, c: seq<T>, d: seq<T>)
    requires Sub(a, b) && Sub(c, d)
    ensures Sub(a + c, b + d)
    decreases |b|
  {
    if b == [] {
      assert a + c == c && b + d == d;
    } else {
      assert (b + d)[1..] == b[1..] + d;
      if a == [] {
        SubConcat([], b[1..], c, d);
        assert [] + c == a + c;
      } else if a[0] == b[0] && Sub(a[1..], b[1..]) {
        SubConcat(a[1..], b[1..], c, d);
        assert (a + c)[1..] == a[1..] + c;
      } else {
        SubConcat(a, b[1..], c, d);
      }
    }
  }

  lemma {:induction false} SubTransitive<T(!new)>(a: seq<T>, b: seq<T>, c: seq<T>)
    requires Sub(a, b) && Sub(b, c)
    ensures Sub(a, c)
    decreases |b| + |c|
  {
    if a == [] {
    } else {
      if b[0] == c[0] && Sub(b[1..], c[1..]) {
        if a[0] == b[0] && Sub(a[1..], b[1..]) {
          SubTransitive(a[1..], b[1..], c[1..]);
        } else {
          SubTransitive(a, b[1..], c[1..]);
        }
      } else {
        SubTransitive(a, b, c[1..]);
      }
    }
  }

  lemma {:induction false} SubReverse<T(!new)>(a: seq<T>, b: seq<T>)
    requires Sub(a, b)
    ensures Sub(Reverse(a), Reverse(b))
    decreases |b|
  {
    if b == [] {
    } else {
      var last := [b[0]];
      if a != [] && a[0] == b[0] && Sub(a[1..], b[1..]) {
        SubReverse(a[1..], b[1..]);
        SubSelf(last);
        SubConcat(Reverse(a[1..]), Reverse(b[1..]), last, last);
      } else {
        SubReverse(a, b[1..]);
        assert Sub([], last);
        SubConcat(Reverse(a), Reverse(b[1..]), [], last);
        assert Reverse(a) + [] == Reverse(a);
      }
    }
  }

  // ---------------------------------------------------------------------------------------
  // Paths

  lemma JoinAppend(chain: seq<bytes>, piece: bytes)
    ensures Join(chain + [piece]) == if chain == [] then piece else Join(chain) + [SLASH] + piece
  {
    assert (chain + [piece])[..|chain|] == chain;
  }

  /** What the children of a subvolume at the end of `chain` are pushed with. */
  function BasePath(flags: Flags, chain: seq<bytes>): Option<Option<bytes>> {
    if chain == [] then RootPath(flags) else Wrap(FullPath(flags, chain))
  }

  /** Building a child's path from its parent's joins the pieces of the whole chain. */
  lemma ChildPathJoins(flags: Flags, t: Tree, parent: nat, color: Color, chain: seq<bytes>)
    ensures Entry(t, parent, color, BasePath(flags, chain)).path == FullPath(flags, chain + [t.piece])
  {
    JoinAppend(chain, t.piece);
    if flags.getPath && chain != [] {
      var base := Join(chain) + [0];
      assert base[..|base| - 1] == Join(chain);
      assert Join(chain) + [SLASH] + t.piece + [0] == Join(chain + [t.piece]) + [0];
    }
  }

  // ---------------------------------------------------------------------------------------
  // Every run is part of the traversal

  lemma {:induction false} ListedSub(present: nat -> bool, ts: seq<Tree>)
    ensures Sub(Listed(present, ts), ts)
  {
    if ts == [] {
    } else {
      ListedSub(present, ts[1..]);
    }
  }

  lemma {:induction false} TakeFoundSub(env: Env, parent: nat, isRoot: bool, refs: seq<Tree>)
    ensures Sub(TakeFound(env, parent, isRoot, refs).0, refs)
  {
    if refs == [] {
    } else {
      TakeFoundSub(env, parent, isRoot, refs[1..]);
    }
  }

  /** What is pushed comes off the stack in visiting order, with some children left out. */
  lemma PushedSub(flags: Flags, env: Env, t: Tree, isRoot: bool)
    ensures Sub(Reverse(Pushed(flags, env, t, isRoot).0), Order(flags, t.children))
  {
    hide TakeFound, Listed;
    if env.listOk(t.id) {
      var listed := Listed(env.present, t.children);
      var refs := PushOrder(flags, listed);
      var kids := TakeFound(env, t.id, isRoot, refs).0;
      TakeFoundSub(env, t.id, isRoot, refs);
      SubReverse(kids, refs);
      ListedSub(env.present, t.children);
      ReverseReverse(listed);
      if flags.descending {
        SubReverse(listed, t.children);
      }
      SubTransitive(Reverse(kids), Reverse(refs), Order(flags, t.children));
    }
  }

  lemma {:induction false} EmitSub(flags: Flags, env: Env, t: Tree, parent: nat, chain: seq<bytes>)
    ensures Sub(Items(Emit(flags, env, t, parent, RootColor(flags), FullPath(flags, chain + [t.piece]))),
                Walk(flags, t, parent, chain))
    decreases Size(t), 0
  {
    hide Pushed, Sub, FullPath, WalkF, EmitF, Size, SizeF;
    var (kids, ok) := Pushed(flags, env, t, false);
    SizeReverse(kids);
    SizeReverse(t.children);
    var down := chain + [t.piece];
    var path := FullPath(flags, down);
    PushedSub(flags, env, t, false);
    SizeOrder(flags, t);
    EmitFSub(flags, env, Reverse(kids), Order(flags, t.children), t.id, down);
    var below := EmitF(flags, env, Reverse(kids), t.id, RootColor(flags), BasePath(flags, down));
    var me := Yield(Item(t.id, parent, path));
    SubSelf([me.item]);
    SubNothing([me.item]);
    ItemsConcat(if ok then [] else [Error], below);
    ItemsConcat((if ok then [] else [Error]) + below, [me]);
    ItemsConcat(if ok then [me] else [Error], below);
    ItemsOne(me);
    var all := WalkF(flags, Order(flags, t.children), t.id, down);
    assert [] + Items(below) == Items(below);
    SubConcat(Items(below), all, [me.item], [me.item]);
    SubConcat([me.item], [me.item], Items(below), all);
    SubConcat([], [me.item], Items(below), all);
  }

  lemma SizeOrder(flags: Flags, t: Tree)
    ensures SizeF(Order(flags, t.children)) < Size(t)
  {
    SizeReverse(t.children);
  }

  lemma SubNothing<T(!new)>(b: seq<T>)
    ensures Sub([], b)
  {
  }

  lemma ItemsOne(o: Out)
    ensures Items([o]) == if o.Yield? then [o.item] else []
    ensures Items([]) == []
  {
  }

  lemma {:induction false} EmitFSub(flags: Flags, env: Env, ts: seq<Tree>, us: seq<Tree>, parent: nat, chain: seq<bytes>)
    requires Sub(ts, us)
    ensures Sub(Items(EmitF(flags, env, ts, parent, RootColor(flags), BasePath(flags, chain))),
                WalkF(flags, us, parent, chain))
    decreases SizeF(us), 1
  {
    hide Emit, Walk, Items, Entry, BasePath, FullPath, Size;
    if ts == [] {
      ItemsOne(Error);
      SubNothing(WalkF(flags, us, parent, chain));
    } else if ts[0] == us[0] && Sub(ts[1..], us[1..]) {
      var color := RootColor(flags);
      ChildPathJoins(flags, ts[0], parent, color, chain);
      SizeF1(us);
      EmitSub(flags, env, ts[0], parent, chain);
      EmitFSub(flags, env, ts[1..], us[1..], parent, chain);
      var first := Emit(flags, env, ts[0], parent, color, FullPath(flags, chain + [ts[0].piece]));
      var rest := EmitF(flags, env, ts[1..], parent, color, BasePath(flags, chain));
      ItemsConcat(first, rest);
      SubConcat(Items(first), Walk(flags, us[0], parent, chain), Items(rest), WalkF(flags, us[1..], parent, chain));
    } else {
      SizeF1(us);
      EmitFSub(flags, env, ts, us[1..], parent, chain);
      SubNothing(Walk(flags, us[0], parent, chain));
      var all := Items(EmitF(flags, env, ts, parent, RootColor(flags), BasePath(flags, chain)));
      SubConcat([], Walk(flags, us[0], parent, chain), all, WalkF(flags, us[1..], parent, chain));
      assert [] + all == all;
    }
  }

  lemma SizeF1(ts: seq<Tree>)
    requires ts != []
    ensures SizeF(ts) == Size(ts[0]) + SizeF(ts[1..])
  {
  }

  /**
   Whatever lookups fail and whatever is missing, the subvolumes a run returns are the flagged
   traversal with some left out: same parents, same paths, same order, none twice.
   */
  lemma RunIsPartOfWalk(flags: Flags, env: Env, t: Tree)
    ensures Sub(Items(Run(flags, env, [Root(t)])), WalkRoot(flags, t))
  {
    hide EmitF, WalkF, Sub, Items, Pushed, Run;
    var (kids, ok) := Pushed(flags, env, t, true);
    RunRoot(flags, env, t);
    PushedSub(flags, env, t, true);
    EmitFSub(flags, env, Reverse(kids), Order(flags, t.children), t.id, []);
    var below := EmitF(flags, env, Reverse(kids), t.id, RootColor(flags), RootPath(flags));
    ItemsConcat(if ok then [] else [Error], below);
    ItemsOne(Error);
    assert [] + Items(below) == Items(below);
  }
}
