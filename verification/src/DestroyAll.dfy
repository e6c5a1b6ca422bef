/**
 Destroying a subvolume and everything below it while the lazy post-order traversal that finds what to
 destroy is still running.
 */
module DestroyAll {
  import opened Bytes
  import opened SubvolIter

  /**
   What destroying does not change: how listing and looking up go, which subvolume a path names, and
   which subvolumes are below which.
   */
  datatype Disk = Disk(
    listOk: nat -> bool,
    lookup: (nat, nat) -> Lookup,
    at: bytes -> Option<nat>,
    under: set<(nat, nat)>)

  /** How opening the base subvolume and asking what it is turn out. */
  datatype Base = CannotOpen | CannotProbe | NotSubvol | NoTreeId | Opened(tree: Tree)

  datatype Ending = InvalidInput | OpenFailed | ProbeFailed | Unsupported | TreeIdFailed | Done(ok: bool)

  /** A call of the error callback: with the path if destroying failed, without if the traversal did. */
  datatype Report = Traversal | Undestroyed(path: bytes)

  const FLAGS := Flags(postOrder := true, descending := false, getPath := true)

  function EnvOf(d: Disk, alive: set<nat>): Env {
    Env(d.listOk, id => id in alive, d.lookup)
  }

  /** The path of an item without its NUL. */
  function PathOf(item: Item): bytes {
    if item.path.Some? && item.path.value != [] then item.path.value[..|item.path.value| - 1] else []
  }

  /** Only a subvolume that is there and has none left below it can be destroyed. */
  predicate Destroyable(d: Disk, alive: set<nat>, path: bytes) {
    && d.at(path).Some?
    && d.at(path).value in alive
    && forall c <- alive :: (d.at(path).value, c) !in d.under
  }

  function AfterDestroy(d: Disk, alive: set<nat>, path: bytes): set<nat> {
    if Destroyable(d, alive, path) then alive - {d.at(path).value} else alive
  }

  /** What is left, what was reported, and the paths destroying was tried on, in order. */
  datatype Swept = Swept(alive: set<nat>, reports: seq<Report>, tried: seq<bytes>)

  /** Sweeping the rest of the traversal, whose stack is `stack`. */
  function Sweep(d: Disk, prefix: bytes, alive: set<nat>, stack: seq<Ent>): Swept
    decreases StackWeight(stack)
  {
    NextOfRun(FLAGS, EnvOf(d, alive), stack);
    var (stack', out) := NextOf(FLAGS, EnvOf(d, alive), stack);
    match out
    case None => Swept(alive, [], [])
    case Some(Error) => AfterError(Sweep(d, prefix, alive, stack'))
    case Some(Yield(item)) =>
      var path := prefix + PathOf(item);
      AfterTry(path, Destroyable(d, alive, path), Sweep(d, prefix, AfterDestroy(d, alive, path), stack'))
  }

  function AfterError(rest: Swept): Swept {
    rest.(reports := [Traversal] + rest.reports)
  }

  function AfterTry(path: bytes, ok: bool, rest: Swept): Swept {
    rest.(reports := (if ok then [] else [Undestroyed(path)]) + rest.reports, tried := [path] + rest.tried)
  }

  /** The same with reports and tries made before. */
  function After(reports: seq<Report>, tried: seq<bytes>, rest: Swept): Swept {
    Swept(rest.alive, reports + rest.reports, tried + rest.tried)
  }

  /** One result handled. */
  lemma SweepStep(d: Disk, prefix: bytes, alive: set<nat>, stack: seq<Ent>, reports: seq<Report>, tried: seq<bytes>)
    ensures var (stack', out) := NextOf(FLAGS, EnvOf(d, alive), stack);
            var now := After(reports, tried, Sweep(d, prefix, alive, stack));
            match out
            case None => now == Swept(alive, reports, tried)
            case Some(Error) => now == After(reports + [Traversal], tried, Sweep(d, prefix, alive, stack'))
            case Some(Yield(item)) =>
              var path := prefix + PathOf(item);
              now == After(if Destroyable(d, alive, path) then reports else reports + [Undestroyed(path)],
                           tried + [path], Sweep(d, prefix, AfterDestroy(d, alive, path), stack'))
    ensures var (stack', out) := NextOf(FLAGS, EnvOf(d, alive), stack);
            out.Some? ==> StackWeight(stack') < StackWeight(stack)
  {
    hide NextOf, Destroyable, AfterDestroy, StackWeight, PathOf, Run, EnvOf, AfterError, AfterTry, After;
    NextOfRun(FLAGS, EnvOf(d, alive), stack);
    var (stack', out) := NextOf(FLAGS, EnvOf(d, alive), stack);
    match out {
      case None =>
        AfterSteps(reports, tried, [], Swept(alive, [], []));
      case Some(Error) =>
        AfterSteps(reports, tried, [], Sweep(d, prefix, alive, stack'));
      case Some(Yield(item)) =>
        var path := prefix + PathOf(item);
        AfterSteps(reports, tried, path, Sweep(d, prefix, AfterDestroy(d, alive, path), stack'));
    }
  }

  lemma AfterSteps(reports: seq<Report>, tried: seq<bytes>, path: bytes, rest: Swept)
    ensures After(reports, tried, AfterError(rest)) == After(reports + [Traversal], tried, rest)
    ensures After(reports, tried, AfterTry(path, true, rest)) == After(reports, tried + [path], rest)
    ensures After(reports, tried, AfterTry(path, false, rest)) == After(reports + [Undestroyed(path)], tried + [path], rest)
    ensures After(reports, tried, Swept(rest.alive, [], [])) == Swept(rest.alive, reports, tried)
    ensures After([], [], rest) == rest
  {
    assert reports + ([Traversal] + rest.reports) == (reports + [Traversal]) + rest.reports;
    assert reports + ([Undestroyed(path)] + rest.reports) == (reports + [Undestroyed(path)]) + rest.reports;
    assert tried + ([path] + rest.tried) == (tried + [path]) + rest.tried;
    assert [] + rest.reports == rest.reports && [] + rest.tried == rest.tried;
    assert reports + [] == reports && tried + [] == tried;
  }

  lemma Overwrite(name: bytes)
    ensures (name + [0])[|name + [0]| - 1 := SLASH] == name + [SLASH]
  {
  }

  class FileSystem {
    const disk: Disk
    var alive: set<nat>

    constructor (disk: Disk, alive: set<nat>)
      ensures this.disk == disk && this.alive == alive
    {
      this.disk := disk;
      this.alive := alive;
    }

    method Destroy(path: bytes) returns (ok: bool)
      modifies this
      ensures ok == Destroyable(disk, old(alive), path)
      ensures alive == AfterDestroy(disk, old(alive), path)
    {
      ok := Destroyable(disk, alive, path);
      if ok {
        alive := alive - {disk.at(path).value};
      }
    }

    method DestroyAll(name: bytes, base: Base) returns (r: Ending, reports: seq<Report>, ghost tried: seq<bytes>)
      modifies this
      ensures 0 in name || !base.Opened? ==> alive == old(alive) && reports == [] && tried == []
      ensures 0 in name ==> r == InvalidInput
      ensures 0 !in name ==>
        match base
        case CannotOpen => r == OpenFailed
        case CannotProbe => r == ProbeFailed
        case NotSubvol => r == Unsupported
        case NoTreeId => r == TreeIdFailed
        case Opened(t) =>
          var swept := Sweep(disk, name + [SLASH], old(alive), [Root(t)]);
          && reports == swept.reports && tried == swept.tried
          && r == Done(Destroyable(disk, swept.alive, name))
          && alive == AfterDestroy(disk, swept.alive, name)
    {
      hide NextOf, Destroyable, AfterDestroy, StackWeight, Sweep, PathOf, EnvOf, Run, After;
      reports, tried := [], [];
      if 0 in name {
        return InvalidInput, reports, tried;
      }
      var baseSubvol := name + [0];
      var baseLen := |baseSubvol|;
      match base {
        case CannotOpen => return OpenFailed, reports, tried;
        case CannotProbe => return ProbeFailed, reports, tried;
        case NotSubvol => return Unsupported, reports, tried;
        case NoTreeId => return TreeIdFailed, reports, tried;
        case Opened(tree) =>
          Overwrite(name);
          baseSubvol := baseSubvol[baseLen - 1 := SLASH];
          ghost var prefix := name + [SLASH];
          ghost var swept := Sweep(disk, prefix, alive, [Root(tree)]);
          var iter := new Iter(tree, FLAGS);
          AfterSteps([], [], [], swept);
          while true
            invariant fresh(iter) && iter.flags == FLAGS
            invariant |baseSubvol| >= baseLen && baseSubvol[..baseLen] == prefix
            invariant swept == After(reports, tried, Sweep(disk, prefix, alive, iter.stack))
            decreases StackWeight(iter.stack)
          {
            SweepStep(disk, prefix, alive, iter.stack, reports, tried);
            var subvol := iter.Next(EnvOf(disk, alive));
            match subvol {
              case None =>
                break;
              case Some(Error) =>
                reports := reports + [Traversal];
              case Some(Yield(item)) =>
                baseSubvol := baseSubvol[..baseLen];
                baseSubvol := baseSubvol + PathOf(item);
                assert baseSubvol == prefix + PathOf(item);
                var ok := Destroy(baseSubvol);
                tried := tried + [baseSubvol];
                if !ok {
                  reports := reports + [Undestroyed(baseSubvol)];
                }
            }
          }
          var last := Destroy(name);
          r := Done(last);
      }
    }
  }
}
