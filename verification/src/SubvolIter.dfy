/**
 The subvolume iterator: an explicit stack of coloured entries that walks a tree in pre-order or
 post-order, with children in ascending or descending order, while lookups may fail.
 */
module SubvolIter {
  import opened Bytes

  /**
   A subvolume and what is nested in it, children by ascending id.  `piece` is the path from the
   parent subvolume's root: the lookup path followed by the name.
   */
  datatype Tree = Node(id: nat, piece: bytes, children: seq<Tree>)

  datatype Flags = Flags(postOrder: bool, descending: bool, getPath: bool)

  /** What looking up and opening a child gives; `Denied` is EACCES from the lookup. */
  datatype Lookup = Found | Denied | Failed

  /**
   The file system as the iterator meets it: whether listing a subvolume's children works, which
   subvolumes are still there, and how looking up a child of a parent goes.
   */
  datatype Env = Env(listOk: nat -> bool, present: nat -> bool, lookup: (nat, nat) -> Lookup)

  datatype Color = Grey | Black | PreOrd

  datatype Ent =
    | Vol(vol: Tree, parent: nat, color: Color, path: Option<bytes>)
    | Root(root: Tree)

  datatype Item = Item(id: nat, parent: nat, path: Option<bytes>)

  datatype Out = Yield(item: Item) | Error

  // ---------------------------------------------------------------------------------------
  // Sizes

  function Size(t: Tree): (n: nat)
    ensures n > 0
  {
    1 + SizeF(t.children)
  }

  function SizeF(ts: seq<Tree>): nat {
    if ts == [] then 0 else Size(ts[0]) + SizeF(ts[1..])
  }

  function Reverse<T>(s: seq<T>): (r: seq<T>)
    ensures |r| == |s|
  {
    if s == [] then [] else Reverse(s[1..]) + [s[0]]
  }

  lemma {:induction false} SizeConcat(a: seq<Tree>, b: seq<Tree>)
    ensures SizeF(a + b) == SizeF(a) + SizeF(b)
  {
    if a == [] {
      assert a + b == b;
    } else {
      assert (a + b)[1..] == a[1..] + b;
      SizeConcat(a[1..], b);
    }
  }

  lemma {:induction false} SizeReverse(ts: seq<Tree>)
    ensures SizeF(Reverse(ts)) == SizeF(ts)
  {
    if ts == [] {
    } else {
      SizeReverse(ts[1..]);
      SizeConcat(Reverse(ts[1..]), [ts[0]]);
    }
  }

  // ---------------------------------------------------------------------------------------
  // Pushing the children of a subvolume

  /** The children that are still there. */
  function Listed(present: nat -> bool, ts: seq<Tree>): (r: seq<Tree>)
    ensures SizeF(r) <= SizeF(ts)
  {
    if ts == [] then []
    else if present(ts[0].id) then [ts[0]] + Listed(present, ts[1..])
    else Listed(present, ts[1..])
  }

  /** The order in which children are pushed: the reverse of the order they come out. */
  function PushOrder(flags: Flags, ts: seq<Tree>): (r: seq<Tree>)
    ensures SizeF(r) == SizeF(ts)
  {
    SizeReverse(ts);
    if flags.descending then ts else Reverse(ts)
  }

  /** The children pushed until the first failure, and whether there was none. */
  function TakeFound(env: Env, parent: nat, isRoot: bool, refs: seq<Tree>): (r: (seq<Tree>, bool))
    ensures SizeF(r.0) <= SizeF(refs)
  {
    if refs == [] then ([], true)
    else
      match env.lookup(parent, refs[0].id)
      case Found =>
        var rest := TakeFound(env, parent, isRoot, refs[1..]);
        ([refs[0]] + rest.0, rest.1)
      case Denied => if isRoot then TakeFound(env, parent, isRoot, refs[1..]) else ([], false)
      case Failed => ([], false)
  }

  function Pushed(flags: Flags, env: Env, t: Tree, isRoot: bool): (r: (seq<Tree>, bool))
    ensures SizeF(r.0) < Size(t)
  {
    if !env.listOk(t.id) then ([], false)
    else TakeFound(env, t.id, isRoot, PushOrder(flags, Listed(env.present, t.children)))
  }

  /** A child's path: the parent's with its NUL overwritten, then the child's own part and a NUL. */
  function ChildPath(base: Option<bytes>, piece: bytes): bytes {
    if base.Some? && base.value != [] then base.value[..|base.value| - 1] + [SLASH] + piece + [0]
    else piece + [0]
  }

  /** `path` is None if no paths are wanted, Some(None) for children of the root. */
  function Entries(ts: seq<Tree>, parent: nat, color: Color, path: Option<Option<bytes>>): (es: seq<Ent>)
    ensures |es| == |ts|
    ensures forall i :: 0 <= i < |ts| ==> es[i] == Entry(ts[i], parent, color, path)
  {
    seq(|ts|, i requires 0 <= i < |ts| => Entry(ts[i], parent, color, path))
  }

  function Entry(t: Tree, parent: nat, color: Color, path: Option<Option<bytes>>): Ent {
    Vol(t, parent, color, if path.None? then None else Some(ChildPath(path.value, t.piece)))
  }

  lemma EntriesNone(parent: nat, color: Color, path: Option<Option<bytes>>)
    ensures Entries([], parent, color, path) == []
  {
  }

  /** Overwriting the NUL and appending is building the child's path; the tail is the child's own part. */
  lemma ChildPathSteps(path: Option<bytes>, piece: bytes, v: bytes)
    requires var base := if path.Some? then path.value else [];
             v == (if base != [] then base[|base| - 1 := SLASH] else base) + (piece + [0])
    ensures v == ChildPath(path, piece)
    ensures v[if path.Some? then |path.value| else 0..] == piece + [0]
  {
    var base := if path.Some? then path.value else [];
    if base != [] {
      assert base[|base| - 1 := SLASH] == base[..|base| - 1] + [SLASH];
    } else {
      assert v == piece + [0];
    }
  }

  lemma EntriesAppend(ts: seq<Tree>, t: Tree, parent: nat, color: Color, path: Option<Option<bytes>>)
    ensures Entries(ts + [t], parent, color, path) == Entries(ts, parent, color, path) + [Entry(t, parent, color, path)]
  {
    hide Entry;
  }

  /** What will have been pushed when `kids` were pushed and `refs` are to come. */
  function Pushing(env: Env, parent: nat, isRoot: bool, kids: seq<Tree>, refs: seq<Tree>): (seq<Tree>, bool) {
    var rest := TakeFound(env, parent, isRoot, refs);
    (kids + rest.0, rest.1)
  }

  lemma PushingEnds(env: Env, parent: nat, isRoot: bool, ts: seq<Tree>)
    ensures Pushing(env, parent, isRoot, [], ts) == TakeFound(env, parent, isRoot, ts)
    ensures Pushing(env, parent, isRoot, ts, []) == (ts, true)
  {
    var all := TakeFound(env, parent, isRoot, ts).0;
    assert [] + all == all && ts + [] == ts;
  }

  lemma PushingStep(env: Env, parent: nat, isRoot: bool, kids: seq<Tree>, refs: seq<Tree>, i: nat)
    requires i < |refs|
    ensures var here := Pushing(env, parent, isRoot, kids, refs[i..]);
            match env.lookup(parent, refs[i].id)
            case Found => here == Pushing(env, parent, isRoot, kids + [refs[i]], refs[i + 1..])
            case Denied => here == if isRoot then Pushing(env, parent, isRoot, kids, refs[i + 1..]) else (kids, false)
            case Failed => here == (kids, false)
  {
    var more := TakeFound(env, parent, isRoot, refs[i + 1..]).0;
    assert refs[i..][1..] == refs[i + 1..];
    assert kids + ([refs[i]] + more) == (kids + [refs[i]]) + more;
    assert kids + [] == kids;
  }

  function Wrap(path: Option<bytes>): Option<Option<bytes>> {
    if path.None? then None else Some(path)
  }

  // ---------------------------------------------------------------------------------------
  // The stack machine

  function Weight(e: Ent): nat {
    match e
    case Vol(_, _, Black, _) => 1
    case Vol(t, _, PreOrd, _) => Size(t)
    case Vol(t, _, Grey, _) => 2 * Size(t)
    case Root(t) => 2 * Size(t)
  }

  /** The termination measure of a run: every turn makes it smaller. */
  function StackWeight(stack: seq<Ent>): nat {
    if stack == [] then 0 else StackWeight(stack[..|stack| - 1]) + Weight(stack[|stack| - 1])
  }

  /** One turn: pop an entry; the new stack, and what the iterator returns, if anything. */
  function Turn(flags: Flags, env: Env, stack: seq<Ent>): (seq<Ent>, Option<Out>)
    requires stack != []
  {
    var below := stack[..|stack| - 1];
    match stack[|stack| - 1]
    case Root(t) =>
      var color := if flags.postOrder then Grey else PreOrd;
      var path := if flags.getPath then Some(None) else None;
      var (kids, ok) := Pushed(flags, env, t, true);
      (below + Entries(kids, t.id, color, path), if ok then None else Some(Error))
    case Vol(t, parent, color, path) =>
      if color == Black then (below, Some(Yield(Item(t.id, parent, path))))
      else
        var (kids, ok) := Pushed(flags, env, t, false);
        var pushed := Entries(kids, t.id, color, Wrap(path));
        if color == Grey then
          (below + [Vol(t, parent, Black, path)] + pushed, if ok then None else Some(Error))
        else
          (below + pushed, Some(if ok then Yield(Item(t.id, parent, path)) else Error))
  }

  lemma {:induction false} WeightConcat(a: seq<Ent>, b: seq<Ent>)
    ensures StackWeight(a + b) == StackWeight(a) + StackWeight(b)
    decreases |b|
  {
    if b == [] {
      assert a + b == a;
    } else {
      assert (a + b)[..|a + b| - 1] == a + b[..|b| - 1];
      WeightConcat(a, b[..|b| - 1]);
    }
  }

  lemma {:induction false} WeightEntries(ts: seq<Tree>, parent: nat, color: Color, path: Option<Option<bytes>>)
    requires color != Black
    ensures StackWeight(Entries(ts, parent, color, path)) == if color == Grey then 2 * SizeF(ts) else SizeF(ts)
    decreases |ts|
  {
    if ts == [] {
    } else {
      var init, last := ts[..|ts| - 1], ts[|ts| - 1];
      assert ts == init + [last];
      SizeConcat(init, [last]);
      WeightEntries(init, parent, color, path);
      assert Entries(ts, parent, color, path)[..|ts| - 1] == Entries(init, parent, color, path);
    }
  }

  /** Every turn makes the stack lighter, so the iterator always ends. */
  lemma TurnLighter(flags: Flags, env: Env, stack: seq<Ent>)
    requires stack != []
    ensures StackWeight(Turn(flags, env, stack).0) < StackWeight(stack)
  {
    var below, e := stack[..|stack| - 1], stack[|stack| - 1];
    match e
    case Root(t) =>
      var kids := Pushed(flags, env, t, true).0;
      var color := if flags.postOrder then Grey else PreOrd;
      var path := if flags.getPath then Some(None) else None;
      WeightEntries(kids, t.id, color, path);
      WeightConcat(below, Entries(kids, t.id, color, path));
    case Vol(t, parent, color, path) =>
      if color != Black {
        var kids := Pushed(flags, env, t, false).0;
        var pushed := Entries(kids, t.id, color, Wrap(path));
        WeightEntries(kids, t.id, color, Wrap(path));
        WeightConcat(below, pushed);
        var black := Vol(t, parent, Black, path);
        WeightConcat(below + [black], pushed);
        WeightConcat(below, [black]);
        assert StackWeight([black]) == 1;
      }
  }

  function Emitted(o: Option<Out>): seq<Out> {
    if o.Some? then [o.value] else []
  }

  /** Everything the iterator returns from here on. */
  function Run(flags: Flags, env: Env, stack: seq<Ent>): seq<Out>
    decreases StackWeight(stack)
  {
    if stack == [] then []
    else
      TurnLighter(flags, env, stack);
      var (stack', out) := Turn(flags, env, stack);
      Emitted(out) + Run(flags, env, stack')
  }

  /** Turns until something is returned: the stack left, and what is returned. */
  function NextOf(flags: Flags, env: Env, stack: seq<Ent>): (seq<Ent>, Option<Out>)
    decreases StackWeight(stack)
  {
    if stack == [] then ([], None)
    else
      TurnLighter(flags, env, stack);
      var (stack', out) := Turn(flags, env, stack);
      if out.Some? then (stack', out) else NextOf(flags, env, stack')
  }

  /** Calling for the next result takes exactly one off the front of the run. */
  lemma {:induction false} NextOfRun(flags: Flags, env: Env, stack: seq<Ent>)
    ensures var (stack', out) := NextOf(flags, env, stack);
            && Run(flags, env, stack) == Emitted(out) + Run(flags, env, stack')
            && (out.None? ==> stack' == [])
            && (out.Some? ==> StackWeight(stack') < StackWeight(stack))
    decreases StackWeight(stack)
  {
    hide Turn;
    if stack == [] {
    } else {
      TurnLighter(flags, env, stack);
      var (after, out) := Turn(flags, env, stack);
      if out.None? {
        NextOfRun(flags, env, after);
        assert [] + Run(flags, env, after) == Run(flags, env, after);
      }
    }
  }

  class Iter {
    var stack: seq<Ent>
    var pathBuffer: bytes
    const flags: Flags

    constructor (root: Tree, flags: Flags)
      ensures stack == [Root(root)] && this.flags == flags
    {
      this.flags := flags;
      stack, pathBuffer := [Root(root)], [];
    }

    /**
     Look up and push the children of `f`.  The ghost result lists the strings passed to open,
     each meant relative to `f`.
     */
    method PushRefs(env: Env, f: Tree, isRoot: bool, color: Color, path: Option<Option<bytes>>)
      returns (ok: bool, ghost asked: seq<bytes>)
      modifies this
      ensures var (kids, fine) := Pushed(flags, env, f, isRoot);
              && ok == fine
              && stack == old(stack) + Entries(kids, f.id, color, path)
              && |asked| == |kids|
              && forall i :: 0 <= i < |kids| ==> asked[i] == kids[i].piece + [0]
    {
      hide TakeFound, PushOrder, Listed, Entries, ChildPath, SizeF;
      asked := [];
      EntriesNone(f.id, color, path);
      if !env.listOk(f.id) {
        ok := false;
        return;
      }
      var refs := PushOrder(flags, Listed(env.present, f.children));
      var i := 0;
      ghost var kids := [];
      assert refs[0..] == refs;
      PushingEnds(env, f.id, isRoot, refs);
      while i < |refs|
        invariant 0 <= i <= |refs|
        invariant TakeFound(env, f.id, isRoot, refs) == Pushing(env, f.id, isRoot, kids, refs[i..])
        invariant stack == old(stack) + Entries(kids, f.id, color, path)
        invariant |asked| == |kids| && forall k :: 0 <= k < |kids| ==> asked[k] == kids[k].piece + [0]
      {
        var rref := refs[i];
        PushingStep(env, f.id, isRoot, kids, refs, i);
        match env.lookup(f.id, rref.id) {
          case Denied =>
            if !isRoot {
              ok := false;
              return;
            }
          case Failed =>
            ok := false;
            return;
          case Found =>
            var entPath, cPath;
            if path.Some? {
              var base := if path.value.Some? then path.value.value else [];
              var v := base;
              if base != [] {
                v := v[|base| - 1 := SLASH];
              }
              v := v + (rref.piece + [0]);
              ChildPathSteps(path.value, rref.piece, v);
              cPath, entPath := v[|base|..], Some(v);
            } else {
              pathBuffer := rref.piece + [0];
              cPath, entPath := pathBuffer, None;
            }
            EntriesAppend(kids, rref, f.id, color, path);
            asked := asked + [cPath];
            kids := kids + [rref];
            stack := stack + [Vol(rref, f.id, color, entPath)];
        }
        i := i + 1;
      }
      assert refs[i..] == [];
      PushingEnds(env, f.id, isRoot, kids);
      ok := true;
    }

    /** The next result; afterwards the stack still holds exactly the rest of the run. */
    method Next(env: Env) returns (r: Option<Out>)
      modifies this
      ensures (stack, r) == NextOf(flags, env, old(stack))
      ensures Run(flags, env, old(stack)) == Emitted(r) + Run(flags, env, stack)
      ensures r.None? ==> stack == []
    {
      hide Pushed, Entries, StackWeight, Run;
      NextOfRun(flags, env, stack);
      while stack != []
        invariant NextOf(flags, env, stack) == NextOf(flags, env, old(stack))
        decreases StackWeight(stack)
      {
        TurnLighter(flags, env, stack);
        var ent := stack[|stack| - 1];
        stack := stack[..|stack| - 1];
        match ent {
          case Root(f) =>
            var color := if flags.postOrder then Grey else PreOrd;
            var path := if flags.getPath then Some(None) else None;
            ghost var asked;
            var ok;
            ok, asked := PushRefs(env, f, true, color, path);
            if !ok {
              return Some(Error);
            }
          case Vol(f, parent, color, path) =>
            if color == Grey {
              stack := stack + [Vol(f, parent, Black, path)];
              ghost var asked;
              var ok;
              ok, asked := PushRefs(env, f, false, Grey, Wrap(path));
              if !ok {
                return Some(Error);
              }
            } else {
              if color == PreOrd {
                ghost var asked;
                var ok;
                ok, asked := PushRefs(env, f, false, PreOrd, Wrap(path));
                if !ok {
                  return Some(Error);
                }
              }
              return Some(Yield(Item(f.id, parent, path)));
            }
        }
      }
      return None;
    }
  }
}
