/**
 What a run leaves out and what it reports: failures are reported, and where none is, everything that can
 be reached is returned.
 */
module SubvolFailures {
  import opened Bytes
  import opened SubvolIter
  import opened SubvolOrder
  import opened SubvolProperties

  // ---------------------------------------------------------------------------------------
  // Which children are pushed

  /** Looking up this child stops the pushing; a lookup denied at the root only skips the child. */
  predicate Stops(env: Env, parent: nat, isRoot: bool, kid: Tree) {
    match env.lookup(parent, kid.id)
    case Found => false
    case Denied => !isRoot
    case Failed => true
  }

  function Keep(env: Env, parent: nat, refs: seq<Tree>): seq<Tree> {
    if refs == [] then []
    else (if env.lookup(parent, refs[0].id) == Found then [refs[0]] else []) + Keep(env, parent, refs[1..])
  }

  /** The listed children in the order they are looked up: the flagged order backwards. */
  function LookupOrder(flags: Flags, env: Env, t: Tree): seq<Tree> {
    Reverse(Order(flags, Listed(env.present, t.children)))
  }

  lemma {:induction false} TakeMeans(env: Env, parent: nat, isRoot: bool, refs: seq<Tree>) returns (k: nat)
    ensures k <= |refs| && (forall i :: 0 <= i < k ==> !Stops(env, parent, isRoot, refs[i]))
    ensures k < |refs| ==> Stops(env, parent, isRoot, refs[k])
    ensures TakeFound(env, parent, isRoot, refs) == (Keep(env, parent, refs[..k]), k == |refs|)
  {
    if refs == [] {
      k := 0;
    } else if Stops(env, parent, isRoot, refs[0]) {
      k := 0;
      assert refs[..0] == [];
    } else {
      var n := TakeMeans(env, parent, isRoot, refs[1..]);
      k := n + 1;
      assert refs[..k][1..] == refs[1..][..n];
      var rest := Keep(env, parent, refs[1..][..n]);
      assert [] + rest == rest;
    }
  }

  /**
   A subvolume whose listing fails has no child pushed and is an error; otherwise its children are looked up
   in order, those found are pushed, and the first one that stops it makes it an error with no further push.
   */
  lemma PushedMeans(flags: Flags, env: Env, t: Tree, isRoot: bool)
    ensures var (kids, ok) := Pushed(flags, env, t, isRoot);
            var refs := LookupOrder(flags, env, t);
            && (!env.listOk(t.id) ==> kids == [] && !ok)
            && (env.listOk(t.id) ==>
                  exists k :: 0 <= k <= |refs|
                    && (forall i :: 0 <= i < k ==> !Stops(env, t.id, isRoot, refs[i]))
                    && (k < |refs| ==> Stops(env, t.id, isRoot, refs[k]))
                    && kids == Keep(env, t.id, refs[..k]) && (ok <==> k == |refs|))
  {
    hide TakeFound, Stops, Keep, Listed;
    if env.listOk(t.id) {
      var listed := Listed(env.present, t.children);
      ReverseReverse(listed);
      var refs := PushOrder(flags, listed);
      assert refs == LookupOrder(flags, env, t);
      var k := TakeMeans(env, t.id, isRoot, refs);
    }
  }

  // ---------------------------------------------------------------------------------------
  // What can be reached

  /** The tree without the subvolumes that are not there, and what is below them. */
  function Prune(env: Env, t: Tree): (r: Tree)
    ensures r.id == t.id && r.piece == t.piece && Size(r) <= Size(t)
    decreases Size(t), 0
  {
    Node(t.id, t.piece, PruneF(env, t.children))
  }

  function PruneF(env: Env, ts: seq<Tree>): (rs: seq<Tree>)
    ensures SizeF(rs) <= SizeF(ts)
    decreases SizeF(ts), 1
  {
    if ts == [] then []
    else if env.present(ts[0].id) then [Prune(env, ts[0])] + PruneF(env, ts[1..])
    else PruneF(env, ts[1..])
  }

  /** From the root, also without the children whose lookup is denied there. */
  function PruneRoot(env: Env, t: Tree): Tree {
    Node(t.id, t.piece, PruneF(env, Allowed(env, t.id, t.children)))
  }

  function Allowed(env: Env, parent: nat, ts: seq<Tree>): seq<Tree> {
    if ts == [] then []
    else (if env.lookup(parent, ts[0].id) == Denied then [] else [ts[0]]) + Allowed(env, parent, ts[1..])
  }

  /** Every listing and lookup that a complete traversal needs works. */
  predicate Works(env: Env, t: Tree)
    decreases Size(t), 0
  {
    env.listOk(t.id) && WorksF(env, t.id, t.children)
  }

  predicate WorksF(env: Env, parent: nat, ts: seq<Tree>)
    decreases SizeF(ts), 1
  {
    ts == []
    || ((env.present(ts[0].id) ==> env.lookup(parent, ts[0].id) == Found && Works(env, ts[0]))
        && WorksF(env, parent, ts[1..]))
  }

  predicate WorksRoot(env: Env, t: Tree) {
    env.listOk(t.id) && WorksF(env, t.id, Allowed(env, t.id, t.children))
  }

  /** No result is an error. */
  ghost predicate Clean(outs: seq<Out>) {
    forall i :: 0 <= i < |outs| ==> outs[i] != Error
  }

  lemma CleanConcat(a: seq<Out>, b: seq<Out>)
    ensures Clean(a + b) <==> Clean(a) && Clean(b)
  {
    if Clean(a + b) {
      assert forall i :: 0 <= i < |a| ==> a[i] == (a + b)[i];
      assert forall i :: 0 <= i < |b| ==> b[i] == (a + b)[|a| + i];
    }
  }

  // Working on the children that are listed, in any order

  /** All of these are found and work. */
  predicate FoundWork(env: Env, parent: nat, ts: seq<Tree>)
    decreases |ts|
  {
    ts == [] || (env.lookup(parent, ts[0].id) == Found && Works(env, ts[0]) && FoundWork(env, parent, ts[1..]))
  }

  function PruneAll(env: Env, ts: seq<Tree>): seq<Tree>
    decreases |ts|
  {
    if ts == [] then [] else [Prune(env, ts[0])] + PruneAll(env, ts[1..])
  }

  lemma {:induction false} ListedWork(env: Env, parent: nat, ts: seq<Tree>)
    ensures PruneF(env, ts) == PruneAll(env, Listed(env.present, ts))
    ensures WorksF(env, parent, ts) <==> FoundWork(env, parent, Listed(env.present, ts))
  {
    hide Works, Prune;
    if ts == [] {
    } else {
      ListedWork(env, parent, ts[1..]);
      var rest := Listed(env.present, ts[1..]);
      if env.present(ts[0].id) {
        assert ([ts[0]] + rest)[1..] == rest;
      }
    }
  }

  lemma {:induction false} WorkConcat(env: Env, parent: nat, a: seq<Tree>, b: seq<Tree>)
    ensures PruneAll(env, a + b) == PruneAll(env, a) + PruneAll(env, b)
    ensures FoundWork(env, parent, a + b) <==> FoundWork(env, parent, a) && FoundWork(env, parent, b)
  {
    hide Works, Prune;
    if a == [] {
      assert a + b == b;
    } else {
      assert (a + b)[1..] == a[1..] + b;
      WorkConcat(env, parent, a[1..], b);
    }
  }

  lemma {:induction false} WorkReverse(env: Env, parent: nat, ts: seq<Tree>)
    ensures PruneAll(env, Reverse(ts)) == Reverse(PruneAll(env, ts))
    ensures FoundWork(env, parent, Reverse(ts)) <==> FoundWork(env, parent, ts)
  {
    hide Works, Prune;
    if ts == [] {
    } else {
      var one := [ts[0]];
      WorkReverse(env, parent, ts[1..]);
      WorkConcat(env, parent, Reverse(ts[1..]), one);
      WorkConcat(env, parent, one, ts[1..]);
      assert one + ts[1..] == ts;
      assert PruneAll(env, one) == [Prune(env, ts[0])] + PruneAll(env, []);
      assert PruneAll(env, ts)[1..] == PruneAll(env, ts[1..]);
    }
  }

  lemma {:induction false} TakeAllFound(env: Env, parent: nat, isRoot: bool, refs: seq<Tree>)
    requires !isRoot || Allowed(env, parent, refs) == refs
    ensures TakeFound(env, parent, isRoot, refs).1 <==> forall i :: 0 <= i < |refs| ==> env.lookup(parent, refs[i].id) == Found
    ensures TakeFound(env, parent, isRoot, refs).1 ==> TakeFound(env, parent, isRoot, refs).0 == refs
  {
    if refs == [] {
    } else {
      AllowedTail(env, parent, refs);
      TakeAllFound(env, parent, isRoot, refs[1..]);
      assert [refs[0]] + refs[1..] == refs;
    }
  }

  lemma {:induction false} AllowedShorter(env: Env, parent: nat, ts: seq<Tree>)
    ensures |Allowed(env, parent, ts)| <= |ts|
  {
    if ts == [] {
    } else {
      AllowedShorter(env, parent, ts[1..]);
    }
  }

  lemma AllowedTail(env: Env, parent: nat, ts: seq<Tree>)
    requires ts != []
    ensures Allowed(env, parent, ts) == ts ==>
              env.lookup(parent, ts[0].id) != Denied && Allowed(env, parent, ts[1..]) == ts[1..]
  {
    AllowedShorter(env, parent, ts[1..]);
    if Allowed(env, parent, ts) == ts {
      assert env.lookup(parent, ts[0].id) != Denied;
      assert Allowed(env, parent, ts)[1..] == Allowed(env, parent, ts[1..]);
    }
  }

  lemma {:induction false} AllowedTwice(env: Env, parent: nat, ts: seq<Tree>)
    ensures Allowed(env, parent, Allowed(env, parent, ts)) == Allowed(env, parent, ts)
  {
    if ts == [] {
    } else {
      AllowedTwice(env, parent, ts[1..]);
      var rest := Allowed(env, parent, ts[1..]);
      assert ([ts[0]] + rest)[1..] == rest;
      assert [] + rest == rest;
    }
  }

  lemma {:induction false} AllowedConcat(env: Env, parent: nat, a: seq<Tree>, b: seq<Tree>)
    ensures Allowed(env, parent, a + b) == Allowed(env, parent, a) + Allowed(env, parent, b)
  {
    if a == [] {
      assert a + b == b;
    } else {
      assert (a + b)[1..] == a[1..] + b;
      AllowedConcat(env, parent, a[1..], b);
    }
  }

  lemma {:induction false} AllowedReverse(env: Env, parent: nat, ts: seq<Tree>)
    ensures Allowed(env, parent, Reverse(ts)) == Reverse(Allowed(env, parent, ts))
  {
    if ts == [] {
    } else {
      AllowedReverse(env, parent, ts[1..]);
      AllowedConcat(env, parent, Reverse(ts[1..]), [ts[0]]);
      AllowedOne(env, parent, ts[0]);
      var rest := Allowed(env, parent, ts[1..]);
      assert Reverse(rest) + [] == Reverse(rest);
      assert [] + rest == rest;
      assert ([ts[0]] + rest)[1..] == rest;
    }
  }

  lemma AllowedOne(env: Env, parent: nat, t: Tree)
    ensures Allowed(env, parent, [t]) == if env.lookup(parent, t.id) == Denied then [] else [t]
  {
    assert [t][1..] == [];
    assert Allowed(env, parent, []) == [];
  }

  lemma {:induction false} AllowedListed(env: Env, parent: nat, ts: seq<Tree>)
    ensures Allowed(env, parent, Listed(env.present, ts)) == Listed(env.present, Allowed(env, parent, ts))
  {
    if ts == [] {
    } else {
      AllowedListed(env, parent, ts[1..]);
      var listed, allowed := Listed(env.present, ts[1..]), Allowed(env, parent, ts[1..]);
      assert ([ts[0]] + listed)[1..] == listed && ([ts[0]] + allowed)[1..] == allowed;
      assert [] + Allowed(env, parent, listed) == Allowed(env, parent, listed);
      assert [] + allowed == allowed;
    }
  }

  lemma {:induction false} TakeAllowed(env: Env, parent: nat, refs: seq<Tree>)
    ensures TakeFound(env, parent, true, refs) == TakeFound(env, parent, true, Allowed(env, parent, refs))
  {
    if refs == [] {
    } else {
      TakeAllowed(env, parent, refs[1..]);
      var rest := Allowed(env, parent, refs[1..]);
      assert ([refs[0]] + rest)[1..] == rest;
      assert [] + rest == rest;
    }
  }

  /** The children a complete traversal goes on to. */
  function Sought(env: Env, t: Tree, isRoot: bool): seq<Tree> {
    Listed(env.present, if isRoot then Allowed(env, t.id, t.children) else t.children)
  }

  lemma SoughtRefs(flags: Flags, env: Env, t: Tree, isRoot: bool)
    ensures var refs := PushOrder(flags, Sought(env, t, isRoot));
            && TakeFound(env, t.id, isRoot, PushOrder(flags, Listed(env.present, t.children)))
               == TakeFound(env, t.id, isRoot, refs)
            && (isRoot ==> Allowed(env, t.id, refs) == refs)
  {
    hide TakeFound, Allowed, Listed, Reverse;
    if isRoot {
      var listed := Listed(env.present, t.children);
      AllowedListed(env, t.id, t.children);
      AllowedReverse(env, t.id, listed);
      AllowedTwice(env, t.id, PushOrder(flags, listed));
      TakeAllowed(env, t.id, PushOrder(flags, listed));
    }
  }

  predicate AllSeen(env: Env, parent: nat, ts: seq<Tree>) {
    forall i :: 0 <= i < |ts| ==> env.lookup(parent, ts[i].id) == Found
  }

  /** All that is sought is pushed exactly if the listing and all its lookups work. */
  lemma PushedSought(flags: Flags, env: Env, t: Tree, isRoot: bool)
    ensures var order := Order(flags, Sought(env, t, isRoot));
            && (Pushed(flags, env, t, isRoot).1 <==> env.listOk(t.id) && AllSeen(env, t.id, order))
            && (Pushed(flags, env, t, isRoot).1 ==> Reverse(Pushed(flags, env, t, isRoot).0) == order)
  {
    hide TakeFound, Allowed, Sought;
    var sought := Sought(env, t, isRoot);
    SoughtRefs(flags, env, t, isRoot);
    TakeAllFound(env, t.id, isRoot, PushOrder(flags, sought));
    ReverseReverse(sought);
    SeenReverse(env, t.id, sought);
  }

  lemma {:induction false} SeenReverse(env: Env, parent: nat, ts: seq<Tree>)
    ensures AllSeen(env, parent, Reverse(ts)) <==> AllSeen(env, parent, ts)
  {
    if ts == [] {
    } else {
      SeenReverse(env, parent, ts[1..]);
      var r := Reverse(ts[1..]);
      assert AllSeen(env, parent, ts) <==> env.lookup(parent, ts[0].id) == Found && AllSeen(env, parent, ts[1..]) by {
        assert ts == [ts[0]] + ts[1..];
        assert forall i :: 0 <= i < |ts[1..]| ==> ts[1..][i] == ts[i + 1];
      }
      assert AllSeen(env, parent, Reverse(ts)) <==> env.lookup(parent, ts[0].id) == Found && AllSeen(env, parent, r) by {
        assert Reverse(ts) == r + [ts[0]];
        assert forall i :: 0 <= i < |r| ==> r[i] == Reverse(ts)[i];
        assert Reverse(ts)[|r|] == ts[0];
      }
    }
  }

  lemma {:induction false} FoundWorkSeen(env: Env, parent: nat, ts: seq<Tree>)
    ensures FoundWork(env, parent, ts) ==> AllSeen(env, parent, ts)
  {
    hide Works;
    if ts == [] {
    } else {
      FoundWorkSeen(env, parent, ts[1..]);
      if FoundWork(env, parent, ts) {
        forall i | 0 <= i < |ts| ensures env.lookup(parent, ts[i].id) == Found {
          assert i > 0 ==> ts[1..][i - 1] == ts[i];
        }
      }
    }
  }

  lemma SoughtWork(flags: Flags, env: Env, t: Tree, isRoot: bool)
    ensures var kids := if isRoot then Allowed(env, t.id, t.children) else t.children;
            var order := Order(flags, Sought(env, t, isRoot));
            && (WorksF(env, t.id, kids) <==> FoundWork(env, t.id, order))
            && Order(flags, PruneF(env, kids)) == PruneAll(env, order)
  {
    hide Allowed, Listed, PruneF, WorksF, FoundWork, PruneAll;
    ListedWork(env, t.id, if isRoot then Allowed(env, t.id, t.children) else t.children);
    WorkReverse(env, t.id, Sought(env, t, isRoot));
  }

  // ---------------------------------------------------------------------------------------
  // Failures are reported

  lemma {:induction false} EmitMeans(flags: Flags, env: Env, t: Tree, parent: nat, chain: seq<bytes>)
    ensures var outs := Emit(flags, env, t, parent, RootColor(flags), FullPath(flags, chain + [t.piece]));
            && (Clean(outs) <==> Works(env, t))
            && (Works(env, t) ==> outs == Yields(Walk(flags, Prune(env, t), parent, chain)))
    decreases Size(t), 0
  {
    hide Pushed, WalkF, EmitF, Size, SizeF, FullPath, Order, Clean, WorksF, PruneF, FoundWork, PruneAll, Sought, AllSeen;
    var down := chain + [t.piece];
    var (kids, ok) := Pushed(flags, env, t, false);
    var order := Order(flags, Sought(env, t, false));
    PushedSought(flags, env, t, false);
    SoughtWork(flags, env, t, false);
    FoundWorkSeen(env, t.id, order);
    var me := Item(t.id, parent, FullPath(flags, down));
    CleanOne(me);
    if ok {
      SoughtSize(flags, env, t);
      EmitFMeans(flags, env, order, t.id, down);
      var below := EmitF(flags, env, order, t.id, RootColor(flags), BasePath(flags, down));
      CleanConcat(below, [Yield(me)]);
      CleanConcat([Yield(me)], below);
      assert [] + below == below;
      var walk := WalkF(flags, PruneAll(env, order), t.id, down);
      YieldsConcat(walk, [me]);
      YieldsConcat([me], walk);
      assert Yields([me]) == [Yield(me)];
    } else {
      var below := EmitF(flags, env, Reverse(kids), t.id, RootColor(flags), BasePath(flags, down));
      CleanConcat([Error], below);
      CleanConcat([Error] + below, [Yield(me)]);
    }
  }

  lemma CleanOne(me: Item)
    ensures !Clean([Error]) && Clean([Yield(me)]) && Clean([])
  {
    assert [Error][0] == Error;
  }

  lemma SoughtSize(flags: Flags, env: Env, t: Tree)
    ensures SizeF(Order(flags, Sought(env, t, false))) < Size(t)
  {
    SizeReverse(Sought(env, t, false));
  }

  lemma {:induction false} EmitFMeans(flags: Flags, env: Env, ts: seq<Tree>, parent: nat, chain: seq<bytes>)
    requires AllSeen(env, parent, ts)
    ensures var outs := EmitF(flags, env, ts, parent, RootColor(flags), BasePath(flags, chain));
            && (Clean(outs) <==> FoundWork(env, parent, ts))
            && (FoundWork(env, parent, ts) ==> outs == Yields(WalkF(flags, PruneAll(env, ts), parent, chain)))
    decreases SizeF(ts), 1
  {
    hide Emit, Walk, Entry, BasePath, FullPath, RootColor, Clean, Works, Prune;
    if ts == [] {
      CleanOne(Item(0, 0, None));
    } else {
      ChildPathJoins(flags, ts[0], parent, RootColor(flags), chain);
      SizeF1(ts);
      EmitMeans(flags, env, ts[0], parent, chain);
      EmitFMeans(flags, env, ts[1..], parent, chain);
      var first := Emit(flags, env, ts[0], parent, RootColor(flags), FullPath(flags, chain + [ts[0].piece]));
      var rest := EmitF(flags, env, ts[1..], parent, RootColor(flags), BasePath(flags, chain));
      CleanConcat(first, rest);
      PruneStep(env, ts);
      YieldsConcat(Walk(flags, Prune(env, ts[0]), parent, chain), WalkF(flags, PruneAll(env, ts[1..]), parent, chain));
    }
  }

  lemma PruneStep(env: Env, ts: seq<Tree>)
    requires ts != []
    ensures PruneAll(env, ts) != [] && PruneAll(env, ts)[0] == Prune(env, ts[0])
    ensures PruneAll(env, ts)[1..] == PruneAll(env, ts[1..])
    ensures Prune(env, ts[0]).piece == ts[0].piece
  {
    hide Prune;
  }

  /**
   A run reports an error exactly if some listing or lookup that a complete traversal needs fails; and if it
   reports none, it returns every subvolume that is there, except those below a lookup denied at the root.
   */
  lemma NothingUnreported(flags: Flags, env: Env, t: Tree)
    ensures var outs := Run(flags, env, [Root(t)]);
            && (Clean(outs) <==> WorksRoot(env, t))
            && (Clean(outs) ==> outs == Yields(WalkRoot(flags, PruneRoot(env, t))))
  {
    hide Pushed, WalkF, EmitF, FullPath, Order, Clean, WorksF, PruneF, FoundWork, PruneAll, Sought, AllSeen, Run, Allowed;
    RunRoot(flags, env, t);
    var (kids, ok) := Pushed(flags, env, t, true);
    var order := Order(flags, Sought(env, t, true));
    PushedSought(flags, env, t, true);
    SoughtWork(flags, env, t, true);
    FoundWorkSeen(env, t.id, order);
    CleanOne(Item(0, 0, None));
    if ok {
      EmitFMeans(flags, env, order, t.id, []);
      var below := EmitF(flags, env, order, t.id, RootColor(flags), RootPath(flags));
      assert [] + below == below;
    } else {
      CleanConcat([Error], EmitF(flags, env, Reverse(kids), t.id, RootColor(flags), RootPath(flags)));
    }
  }

  lemma {:induction false} PruneNothing(env: Env, t: Tree)
    requires forall id <- Ids(t) :: env.present(id)
    ensures Prune(env, t) == t
    decreases Size(t), 0
  {
    PruneFNothing(env, t.children);
  }

  lemma {:induction false} PruneFNothing(env: Env, ts: seq<Tree>)
    requires forall id <- IdsF(ts) :: env.present(id)
    ensures PruneF(env, ts) == ts
    decreases SizeF(ts), 1
  {
    if ts == [] {
    } else {
      assert ts[0].id in Ids(ts[0]);
      PruneNothing(env, ts[0]);
      PruneFNothing(env, ts[1..]);
      assert [ts[0]] + ts[1..] == ts;
    }
  }

  lemma {:induction false} AllowedAll(env: Env, parent: nat, ts: seq<Tree>)
    requires forall i :: 0 <= i < |ts| ==> env.lookup(parent, ts[i].id) != Denied
    ensures Allowed(env, parent, ts) == ts
  {
    if ts == [] {
    } else {
      AllowedAll(env, parent, ts[1..]);
      assert [ts[0]] + ts[1..] == ts;
    }
  }

  /** Where all subvolumes are there and none is denied at the root, a run without an error is complete. */
  lemma CompleteUnlessReported(flags: Flags, env: Env, t: Tree)
    requires forall id <- IdsF(t.children) :: env.present(id)
    requires forall i :: 0 <= i < |t.children| ==> env.lookup(t.id, t.children[i].id) != Denied
    requires forall i :: 0 <= i < |Run(flags, env, [Root(t)])| ==> Run(flags, env, [Root(t)])[i] != Error
    ensures Items(Run(flags, env, [Root(t)])) == WalkRoot(flags, t)
  {
    hide Run, WalkRoot;
    NothingUnreported(flags, env, t);
    AllowedAll(env, t.id, t.children);
    PruneFNothing(env, t.children);
    assert PruneRoot(env, t) == t;
    ItemsOfYields(WalkRoot(flags, t));
  }

  lemma {:induction false} ItemsOfYields(items: seq<Item>)
    ensures Items(Yields(items)) == items
  {
    if items == [] {
    } else {
      assert Yields(items)[1..] == Yields(items[1..]);
      ItemsOfYields(items[1..]);
      assert [items[0]] + items[1..] == items;
    }
  }
}
