/**
 What the iterator's stack holds at any time: entries that stand, with their full paths, for parts of the
 flagged traversal.  The environment may be another one at every turn.
 */
module SubvolPaths {
  import opened Bytes
  import opened SubvolIter
  import opened SubvolOrder

  // ---------------------------------------------------------------------------------------
  // Colours

  /** Entries are still to be expanded in the flagged order, or expanded and only to be returned. */
  predicate Pending(flags: Flags, stack: seq<Ent>) {
    forall e <- stack :: e.Vol? ==> e.color == Black || e.color == RootColor(flags)
  }

  lemma EntriesColor(ts: seq<Tree>, parent: nat, color: Color, path: Option<Option<bytes>>)
    ensures forall e <- Entries(ts, parent, color, path) :: e.Vol? && e.color == color
  {
  }

  lemma PendingTop(flags: Flags, stack: seq<Ent>)
    requires stack != [] && Pending(flags, stack)
    ensures var e := stack[|stack| - 1]; e.Vol? ==> e.color == Black || e.color == RootColor(flags)
  {
  }

  lemma TurnPending(flags: Flags, env: Env, stack: seq<Ent>)
    requires stack != [] && Pending(flags, stack)
    ensures Pending(flags, Turn(flags, env, stack).0)
  {
    hide Pushed, Entry;
    var below, e := stack[..|stack| - 1], stack[|stack| - 1];
    PendingTop(flags, stack);
    match e
    case Root(t) =>
      EntriesColor(Pushed(flags, env, t, true).0, t.id, RootColor(flags), RootPath(flags));
    case Vol(t, _, color, path) =>
      EntriesColor(Pushed(flags, env, t, false).0, t.id, color, Wrap(path));
  }

  // ---------------------------------------------------------------------------------------
  // Membership

  lemma {:induction false} SubIn<T(!new)>(a: seq<T>, b: seq<T>)
    requires Sub(a, b)
    ensures forall x <- a :: x in b
    decreases |b|
  {
    if a == [] {
    } else {
      if a[0] == b[0] && Sub(a[1..], b[1..]) {
        SubIn(a[1..], b[1..]);
        forall x <- a ensures x in b {
          if x != a[0] {
            assert x in a[1..];
          }
        }
      } else {
        SubIn(a, b[1..]);
      }
    }
  }

  lemma {:induction false} ReverseIn<T>(s: seq<T>)
    ensures forall x <- s :: x in Reverse(s)
    ensures forall x <- Reverse(s) :: x in s
  {
    if s == [] {
    } else {
      ReverseIn(s[1..]);
    }
  }

  lemma PushedIn(flags: Flags, env: Env, t: Tree, isRoot: bool)
    ensures forall kid <- Pushed(flags, env, t, isRoot).0 :: kid in Order(flags, t.children)
  {
    hide Pushed, Sub;
    PushedSub(flags, env, t, isRoot);
    SubIn(Reverse(Pushed(flags, env, t, isRoot).0), Order(flags, t.children));
    ReverseIn(Pushed(flags, env, t, isRoot).0);
  }

  lemma {:induction false} WalkIn(flags: Flags, ts: seq<Tree>, kid: Tree, parent: nat, chain: seq<bytes>)
    requires kid in ts
    ensures forall item <- Walk(flags, kid, parent, chain) :: item in WalkF(flags, ts, parent, chain)
  {
    hide Walk;
    if ts[0] != kid {
      WalkIn(flags, ts[1..], kid, parent, chain);
    }
  }

  // ---------------------------------------------------------------------------------------
  // Entries

  /** At the end of `chain`, with its full path, and with nothing below it that is not in `items`. */
  ghost predicate SubtreeWithin(flags: Flags, t: Tree, parent: nat, path: Option<bytes>, chain: seq<bytes>, items: set<Item>) {
    && path == FullPath(flags, chain + [t.piece])
    && forall item <- Walk(flags, t, parent, chain) :: item in items
  }

  ghost predicate EntryWithin(flags: Flags, e: Ent, items: set<Item>) {
    match e
    case Root(t) => forall item <- WalkRoot(flags, t) :: item in items
    case Vol(t, parent, Black, path) => Item(t.id, parent, path) in items
    case Vol(t, parent, _, path) => exists chain :: SubtreeWithin(flags, t, parent, path, chain, items)
  }

  ghost predicate Within(flags: Flags, stack: seq<Ent>, items: set<Item>) {
    forall e <- stack :: EntryWithin(flags, e, items)
  }

  lemma KidWithin(flags: Flags, ts: seq<Tree>, kid: Tree, parent: nat, chain: seq<bytes>, items: set<Item>)
    requires kid in ts
    requires forall item <- WalkF(flags, ts, parent, chain) :: item in items
    ensures EntryWithin(flags, Entry(kid, parent, RootColor(flags), BasePath(flags, chain)), items)
  {
    hide WalkF, Walk, FullPath, BasePath;
    WalkIn(flags, ts, kid, parent, chain);
    ChildPathJoins(flags, kid, parent, RootColor(flags), chain);
    assert SubtreeWithin(flags, kid, parent, FullPath(flags, chain + [kid.piece]), chain, items);
  }

  lemma KidsWithin(flags: Flags, ts: seq<Tree>, kids: seq<Tree>, parent: nat, chain: seq<bytes>, items: set<Item>)
    requires forall kid <- kids :: kid in ts
    requires forall item <- WalkF(flags, ts, parent, chain) :: item in items
    ensures Within(flags, Entries(kids, parent, RootColor(flags), BasePath(flags, chain)), items)
  {
    hide WalkF, Walk, FullPath, Entry, BasePath, RootColor;
    forall i | 0 <= i < |kids|
      ensures EntryWithin(flags, Entry(kids[i], parent, RootColor(flags), BasePath(flags, chain)), items)
    {
      KidWithin(flags, ts, kids[i], parent, chain, items);
    }
  }

  /** A subvolume's own item and the items below it are among those of its part of the traversal. */
  lemma WalkParts(flags: Flags, t: Tree, parent: nat, chain: seq<bytes>)
    ensures var walk := Walk(flags, t, parent, chain);
            && Item(t.id, parent, FullPath(flags, chain + [t.piece])) in walk
            && forall item <- WalkF(flags, Order(flags, t.children), t.id, chain + [t.piece]) :: item in walk
  {
    hide WalkF, FullPath, Order;
  }

  /**
   Every turn, in whatever environment, keeps every entry's path the whole chain of pieces down to it, and
   returns only what the traversal has, path and parent included.
   */
  lemma TurnWithin(flags: Flags, env: Env, stack: seq<Ent>, items: set<Item>)
    requires stack != [] && Pending(flags, stack) && Within(flags, stack, items)
    ensures var (after, out) := Turn(flags, env, stack);
            && Pending(flags, after) && Within(flags, after, items)
            && (forall item :: out == Some(Yield(item)) ==> item in items)
  {
    hide Pushed, Entries, WalkF, FullPath, Walk, Order;
    TurnPending(flags, env, stack);
    PendingTop(flags, stack);
    var e := stack[|stack| - 1];
    assert EntryWithin(flags, e, items);
    match e
    case Root(t) =>
      PushedIn(flags, env, t, true);
      KidsWithin(flags, Order(flags, t.children), Pushed(flags, env, t, true).0, t.id, [], items);
    case Vol(t, parent, color, path) =>
      if color != Black {
        var chain :| SubtreeWithin(flags, t, parent, path, chain, items);
        WalkParts(flags, t, parent, chain);
        PushedIn(flags, env, t, false);
        KidsWithin(flags, Order(flags, t.children), Pushed(flags, env, t, false).0, t.id, chain + [t.piece], items);
      }
  }

  /** The same up to the next result. */
  lemma {:induction false} NextWithin(flags: Flags, env: Env, stack: seq<Ent>, items: set<Item>)
    requires Pending(flags, stack) && Within(flags, stack, items)
    ensures var (after, out) := NextOf(flags, env, stack);
            && Pending(flags, after) && Within(flags, after, items)
            && (forall item :: out == Some(Yield(item)) ==> item in items)
    decreases StackWeight(stack)
  {
    hide Turn, Pending, Within, StackWeight;
    if stack == [] {
    } else {
      TurnWithin(flags, env, stack, items);
      TurnLighter(flags, env, stack);
      var (after, out) := Turn(flags, env, stack);
      if out.None? {
        NextWithin(flags, env, after, items);
      }
    }
  }

  /** So it starts, from the root. */
  lemma StartWithin(flags: Flags, t: Tree)
    ensures Pending(flags, [Root(t)]) && Within(flags, [Root(t)], set item | item in WalkRoot(flags, t))
  {
  }

  /** The stack after as many calls as there are environments, each call in its own one. */
  function StackAfter(flags: Flags, envs: seq<Env>, stack: seq<Ent>): seq<Ent>
    decreases |envs|
  {
    if envs == [] then stack else StackAfter(flags, envs[1..], NextOf(flags, envs[0], stack).0)
  }

  lemma {:induction false} StaysWithin(flags: Flags, envs: seq<Env>, stack: seq<Ent>, items: set<Item>)
    requires Pending(flags, stack) && Within(flags, stack, items)
    ensures var after := StackAfter(flags, envs, stack); Pending(flags, after) && Within(flags, after, items)
    decreases |envs|
  {
    hide Pending, Within, NextOf;
    if envs == [] {
    } else {
      NextWithin(flags, envs[0], stack, items);
      StaysWithin(flags, envs[1..], NextOf(flags, envs[0], stack).0, items);
    }
  }

  /**
   However the file system changes from call to call, every stack an iterator can have stands, with full
   paths, for parts of the traversal of its root, and every item it returns is one of that traversal.
   */
  lemma EveryStackWithin(flags: Flags, t: Tree, envs: seq<Env>, env: Env)
    ensures var stack := StackAfter(flags, envs, [Root(t)]);
            && Within(flags, stack, set item | item in WalkRoot(flags, t))
            && forall item :: NextOf(flags, env, stack).1 == Some(Yield(item)) ==> item in WalkRoot(flags, t)
  {
    hide Pending, Within, NextOf, WalkRoot, StackAfter;
    var items := set item | item in WalkRoot(flags, t);
    StartWithin(flags, t);
    StaysWithin(flags, envs, [Root(t)], items);
    NextWithin(flags, env, StackAfter(flags, envs, [Root(t)]), items);
  }

  // ---------------------------------------------------------------------------------------
  // NULs

  lemma {:induction false} JoinNoNul(chain: seq<bytes>)
    requires forall piece <- chain :: NUL !in piece
    ensures NUL !in Join(chain)
  {
    if |chain| > 1 {
      JoinNoNul(chain[..|chain| - 1]);
    }
  }

  /** Where no piece holds a NUL, a path has exactly one, at its end. */
  lemma OneNul(flags: Flags, chain: seq<bytes>)
    requires flags.getPath && forall piece <- chain :: NUL !in piece
    ensures var path := FullPath(flags, chain).value;
            forall i :: 0 <= i < |path| ==> (path[i] == NUL <==> i == |path| - 1)
  {
    JoinNoNul(chain);
    assert forall i :: 0 <= i < |Join(chain)| ==> Join(chain)[i] in Join(chain);
  }
}
