/**
 The handler that applies a stream to a file system: its two path buffers, which hold the current
 subvolume in front and the last path behind it, and the strings its system calls are given.
 */
module HandleFull {
  import opened Bytes
  import opened Commands

  const PATH_MAX := 4096
  const XATTR_NAME_MAX := 255

  /** The size of the name field a subvolume is created with, its NUL included. */
  const NAME_FIELD := 4040

  const NO_UUID: bytes := [0, 0, 0, 0, 0, 0, 0, 0, 0, 0, 0, 0, 0, 0, 0, 0]

  /** A C string: what is before the first NUL. */
  function CStr(b: bytes): bytes {
    if b == [] || b[0] == 0 then [] else [b[0]] + CStr(b[1..])
  }

  lemma {:induction false} CStrTerminated(a: bytes, rest: bytes)
    ensures CStr(a + [0] + rest) == CStr(a)
  {
    if a == [] {
      assert ([0] + rest)[0] == 0;
      assert a + [0] + rest == [0] + rest;
    } else {
      assert (a + [0] + rest)[1..] == a[1..] + [0] + rest;
      CStrTerminated(a[1..], rest);
    }
  }

  /** A path reaches the kernel unchanged exactly if it holds no NUL; otherwise only what is before it does. */
  lemma {:induction false} CStrWhole(a: bytes)
    ensures CStr(a) <= a && 0 !in CStr(a)
    ensures CStr(a) == a <==> 0 !in a
  {
    if a != [] && a[0] != 0 {
      CStrWhole(a[1..]);
      assert a == [a[0]] + a[1..];
    }
  }

  // ---------------------------------------------------------------------------------------
  // The handler without its buffers

  datatype Error = InvalidStream | InvalidInput | NameTooLong | XattrNameTooLong | System

  datatype Outcome = More | Finished | Failed(error: Error) | Panicked

  /** Which system calls succeed: the first with a path, the second with one, and whatever comes after. */
  datatype Sys = Sys(first: bool, second: bool, rest: bool, noXattrAt: bool)

  /** What the handler remembers between commands. */
  datatype State = State(current: bytes, uuid: bytes, transid: nat)

  /** The outcome of a command, and the strings given to its system calls, call by call. */
  datatype Effect = Effect(state: State, outcome: Outcome, calls: seq<seq<bytes>>)

  function Slashed(path: bytes): (r: bytes)
    ensures r != [] && r[|r| - 1] == SLASH
  {
    if path != [] && path[|path| - 1] == SLASH then path else path + [SLASH]
  }

  /** The string for a path in the current subvolume, if there is room for it. */
  function InSubvol(current: bytes, path: bytes): Option<bytes> {
    if |current| + |path| < PATH_MAX then Some(CStr(current + path)) else None
  }

  function Worked(ok: bool): Outcome {
    if ok then More else Failed(System)
  }

  /** The names a subvolume can be created with. */
  predicate Creatable(path: bytes) {
    NUL !in path && |path| < NAME_FIELD
  }

  function OnSubvol(s: State, path: bytes, uuid: bytes, ctransid: nat, sys: Sys): Effect {
    if s.current != [] then Effect(s, Failed(InvalidStream), [])
    else if |Slashed(path)| > PATH_MAX then Effect(s, Panicked, [])
    else if !Creatable(path) then Effect(State(Slashed(path), uuid, ctransid), Failed(InvalidInput), [])
    else Effect(State(Slashed(path), uuid, ctransid), Worked(sys.first), [[path]])
  }

  function OnEnd(s: State, sys: Sys): Effect {
    var ended := s.(current := []);
    if s.current == [] then Effect(s, Failed(InvalidStream), [])
    else
      match InSubvol([], s.current)
      case None => Effect(ended, Failed(NameTooLong), [])
      case Some(p) =>
        if sys.first && sys.rest then Effect(State([], NO_UUID, 0), Finished, [[p]])
        else Effect(ended, Failed(System), [[p]])
  }

  /** `goesOn` if there is something to do with the file once its path was opened. */
  function OnPath(s: State, path: bytes, goesOn: bool, sys: Sys): Effect {
    match InSubvol(s.current, path)
    case None => Effect(s, Failed(NameTooLong), [])
    case Some(p) => Effect(s, Worked(sys.first && (goesOn ==> sys.rest)), [[p]])
  }

  /** `secondFirst` if the system call takes the two strings the other way round. */
  function OnTwoPaths(s: State, path: bytes, other: bytes, secondFirst: bool, sys: Sys): Effect {
    match (InSubvol(s.current, path), InSubvol(s.current, other))
    case (Some(p), Some(q)) => Effect(s, Worked(sys.first), [if secondFirst then [q, p] else [p, q]])
    case _ => Effect(s, Failed(NameTooLong), [])
  }

  function OnClone(s: State, path: bytes, uuid: bytes, clonePath: bytes, sys: Sys): Effect {
    match InSubvol(s.current, path)
    case None => Effect(s, Failed(NameTooLong), [])
    case Some(p) =>
      if !sys.first then Effect(s, Failed(System), [[p]])
      else if uuid != s.uuid then Effect(s, Panicked, [[p]])
      else
        match InSubvol(s.current, clonePath)
        case None => Effect(s, Failed(NameTooLong), [[p]])
        case Some(q) => Effect(s, Worked(sys.second && sys.rest), [[p], [q]])
  }

  function OnXattr(s: State, mount: bytes, path: bytes, name: bytes, sys: Sys): Effect {
    if |name| > XATTR_NAME_MAX then Effect(s, Failed(XattrNameTooLong), [])
    else
      match InSubvol(s.current, path)
      case None => Effect(s, Failed(NameTooLong), [])
      case Some(p) =>
        if sys.first || !sys.noXattrAt then Effect(s, Worked(sys.first), [[p, CStr(name)]])
        else Effect(s, Worked(sys.second), [[p, CStr(name)], [CStr(mount + s.current + path), CStr(name)]])
  }

  /** One command; `mount` is where the fallback for extended attributes finds the directory. */
  function Handle(s: State, mount: bytes, c: Command, sys: Sys): Effect {
    match c
    case Subvol(path, ctransid, uuid) => OnSubvol(s, path, uuid, ctransid, sys)
    case Snapshot(_, _, _, _, _) => Effect(s, Panicked, [])
    case End => OnEnd(s, sys)
    case UpdateExtent(_, _, _) => Effect(s, More, [])
    case Fileattr(_, _) => Effect(s, More, [])
    case Symlink(path, _, target) => OnTwoPaths(s, path, target, true, sys)
    case Rename(path, to) => OnTwoPaths(s, path, to, false, sys)
    case Link(path, target) => OnTwoPaths(s, path, target, true, sys)
    case Clone(path, _, _, uuid, _, clonePath, _) => OnClone(s, path, uuid, clonePath, sys)
    case SetXattr(path, name, _) => OnXattr(s, mount, path, name, sys)
    case RemoveXattr(path, name) => OnXattr(s, mount, path, name, sys)
    case Write(path, _, data) => OnPath(s, path, data != [], sys)
    case Truncate(path, size) => OnPath(s, path, size != 0, sys)
    case Fallocate(path, _, _, _) => OnPath(s, path, true, sys)
    case EncodedWrite(path, _, _, _, _, _, _, _) => OnPath(s, path, true, sys)
    case _ => OnPath(s, c.path, false, sys)
  }

  // ---------------------------------------------------------------------------------------
  // The handler with its buffers

  /** Put a path and a NUL behind the first `start` bytes of a buffer, if they fit. */
  method DoCPath(path: bytes, buf: array<byte>, start: nat) returns (ok: bool)
    requires buf.Length == PATH_MAX
    modifies buf
    ensures ok <==> start + |path| < PATH_MAX
    ensures ok ==> buf[..start + |path| + 1] == old(buf[..start]) + path + [0]
    ensures ok ==> buf[start + |path| + 1..] == old(buf[start + |path| + 1..])
    ensures !ok ==> buf[..] == old(buf[..])
  {
    ok := start + |path| < buf.Length;
    if ok {
      forall i | 0 <= i < |path| {
        buf[start + i] := path[i];
      }
      buf[start + |path|] := 0;
      assert buf[..start] == old(buf[..start]);
      assert buf[start..start + |path|] == path;
      assert buf[..start + |path| + 1] == buf[..start] + buf[start..start + |path|] + [buf[start + |path|]];
    }
  }

  class HandleFull {
    const pathBuf: array<byte>
    const pathBufSecondary: array<byte>
    var currentSubvol: bytes
    var uuid: bytes
    var stransid: nat
    var fallbackBuf: bytes
    const fallbackLen: nat

    /** Both buffers start with the current subvolume, whatever is behind it. */
    ghost predicate Valid()
      reads this, pathBuf, pathBufSecondary
    {
      && pathBuf.Length == pathBufSecondary.Length == PATH_MAX && pathBuf != pathBufSecondary
      && currentSubvol <= pathBuf[..] && currentSubvol <= pathBufSecondary[..]
      && fallbackLen <= |fallbackBuf|
    }

    ghost function Remembered(): State
      reads this
    {
      State(currentSubvol, uuid, stransid)
    }

    ghost function Mount(): bytes
      reads this, pathBuf, pathBufSecondary
      requires Valid()
    {
      fallbackBuf[..fallbackLen]
    }

    constructor (mount: bytes)
      ensures Valid() && Remembered() == State([], NO_UUID, 0) && Mount() == mount
      ensures fresh(pathBuf) && fresh(pathBufSecondary)
    {
      pathBuf, pathBufSecondary := new byte[PATH_MAX](_ => 0), new byte[PATH_MAX](_ => 0);
      currentSubvol, uuid, stransid := [], NO_UUID, 0;
      fallbackBuf, fallbackLen := mount, |mount|;
    }

    method GetCPath(path: bytes) returns (ok: bool)
      requires Valid()
      modifies pathBuf
      ensures Valid() && Mount() == old(Mount())
      ensures ok == InSubvol(currentSubvol, path).Some?
      ensures ok ==> CStr(pathBuf[..]) == InSubvol(currentSubvol, path).value
    {
      hide CStr;
      ok := DoCPath(path, pathBuf, |currentSubvol|);
      BuiltString(pathBuf[..], old(pathBuf[..]), currentSubvol, path, ok);
    }

    method GetCPathSecondary(path: bytes) returns (ok: bool)
      requires Valid()
      modifies pathBufSecondary
      ensures Valid() && Mount() == old(Mount())
      ensures ok == InSubvol(currentSubvol, path).Some?
      ensures ok ==> CStr(pathBufSecondary[..]) == InSubvol(currentSubvol, path).value
    {
      hide CStr;
      ok := DoCPath(path, pathBufSecondary, |currentSubvol|);
      BuiltString(pathBufSecondary[..], old(pathBufSecondary[..]), currentSubvol, path, ok);
    }

    method OnSubvolCmd(path: bytes, id: bytes, ctransid: nat, sys: Sys) returns (o: Outcome, calls: seq<seq<bytes>>)
      requires Valid()
      modifies this, pathBuf, pathBufSecondary
      ensures Valid() && Mount() == old(Mount())
      ensures Effect(Remembered(), o, calls) == OnSubvol(old(Remembered()), path, id, ctransid, sys)
    {
      if currentSubvol != [] {
        return Failed(InvalidStream), [];
      }
      var subvol := path;
      if subvol == [] || subvol[|subvol| - 1] != SLASH {
        subvol := subvol + [SLASH];
      }
      if |subvol| > pathBuf.Length {
        return Panicked, [];
      }
      forall i | 0 <= i < |subvol| {
        pathBuf[i] := subvol[i];
      }
      forall i | 0 <= i < |subvol| {
        pathBufSecondary[i] := subvol[i];
      }
      currentSubvol := subvol;
      stransid, uuid := ctransid, id;
      if NUL in path || |path| >= NAME_FIELD {
        return Failed(InvalidInput), [];
      }
      return Worked(sys.first), [[path]];
    }

    method OnEndCmd(sys: Sys) returns (o: Outcome, calls: seq<seq<bytes>>)
      requires Valid()
      modifies this, pathBuf
      ensures Valid() && Mount() == old(Mount())
      ensures Effect(Remembered(), o, calls) == OnEnd(old(Remembered()), sys)
    {
      hide CStr;
      if currentSubvol == [] {
        return Failed(InvalidStream), [];
      }
      var subvolPath := currentSubvol;
      currentSubvol := [];
      var ok := GetCPath(subvolPath);
      if !ok {
        return Failed(NameTooLong), [];
      }
      calls := [[CStr(pathBuf[..])]];
      if !sys.first || !sys.rest {
        return Failed(System), calls;
      }
      uuid, stransid := NO_UUID, 0;
      return Finished, calls;
    }

    method OnPathCmd(path: bytes, goesOn: bool, sys: Sys) returns (o: Outcome, calls: seq<seq<bytes>>)
      requires Valid()
      modifies pathBuf
      ensures Valid() && Mount() == old(Mount())
      ensures Effect(Remembered(), o, calls) == OnPath(old(Remembered()), path, goesOn, sys)
    {
      hide CStr;
      var ok := GetCPath(path);
      if !ok {
        return Failed(NameTooLong), [];
      }
      return Worked(sys.first && (goesOn ==> sys.rest)), [[CStr(pathBuf[..])]];
    }

    /** Both strings are built before the call; each is in its own buffer, so both are intact. */
    method OnTwoPathsCmd(path: bytes, other: bytes, secondFirst: bool, sys: Sys)
      returns (o: Outcome, calls: seq<seq<bytes>>)
      requires Valid()
      modifies pathBuf, pathBufSecondary
      ensures Valid() && Mount() == old(Mount())
      ensures Effect(Remembered(), o, calls) == OnTwoPaths(old(Remembered()), path, other, secondFirst, sys)
    {
      hide CStr;
      var ok := GetCPath(path);
      if !ok {
        return Failed(NameTooLong), [];
      }
      ok := GetCPathSecondary(other);
      if !ok {
        return Failed(NameTooLong), [];
      }
      var p, q := CStr(pathBuf[..]), CStr(pathBufSecondary[..]);
      return Worked(sys.first), [if secondFirst then [q, p] else [p, q]];
    }

    method OnCloneCmd(path: bytes, cloneUuid: bytes, clonePath: bytes, sys: Sys)
      returns (o: Outcome, calls: seq<seq<bytes>>)
      requires Valid()
      modifies pathBuf, pathBufSecondary
      ensures Valid() && Mount() == old(Mount())
      ensures Effect(Remembered(), o, calls) == OnClone(old(Remembered()), path, cloneUuid, clonePath, sys)
    {
      hide CStr;
      var ok := GetCPath(path);
      if !ok {
        return Failed(NameTooLong), [];
      }
      calls := [[CStr(pathBuf[..])]];
      if !sys.first {
        return Failed(System), calls;
      }
      if cloneUuid != uuid {
        return Panicked, calls;
      }
      ok := GetCPathSecondary(clonePath);
      if !ok {
        return Failed(NameTooLong), calls;
      }
      calls := calls + [[CStr(pathBufSecondary[..])]];
      return Worked(sys.second && sys.rest), calls;
    }

    method OnXattrCmd(path: bytes, name: bytes, sys: Sys) returns (o: Outcome, calls: seq<seq<bytes>>)
      requires Valid()
      modifies this`fallbackBuf, pathBuf
      ensures Valid() && Mount() == old(Mount())
      ensures Effect(Remembered(), o, calls) == OnXattr(old(Remembered()), old(Mount()), path, name, sys)
    {
      hide CStr;
      if |name| > XATTR_NAME_MAX {
        return Failed(XattrNameTooLong), [];
      }
      var ok := GetCPath(path);
      if !ok {
        return Failed(NameTooLong), [];
      }
      var nameBuf := name + seq(XATTR_NAME_MAX + 1 - |name|, _ => 0);
      assert nameBuf == name + [0] + nameBuf[|name| + 1..];
      CStrTerminated(name, nameBuf[|name| + 1..]);
      calls := [[CStr(pathBuf[..]), CStr(nameBuf)]];
      if sys.first || !sys.noXattrAt {
        return Worked(sys.first), calls;
      }
      ghost var mount := Mount();
      fallbackBuf := fallbackBuf[..fallbackLen];
      fallbackBuf := fallbackBuf + currentSubvol;
      fallbackBuf := fallbackBuf + path;
      fallbackBuf := fallbackBuf + [0];
      assert fallbackBuf == (mount + currentSubvol + path) + [0] + [];
      CStrTerminated(mount + currentSubvol + path, []);
      calls := calls + [[CStr(fallbackBuf), CStr(nameBuf)]];
      return Worked(sys.second), calls;
    }

    /** Every command does to the buffered handler what it does to the one without buffers. */
    method HandleCmd(c: Command, sys: Sys) returns (o: Outcome, calls: seq<seq<bytes>>)
      requires Valid()
      modifies this, pathBuf, pathBufSecondary
      ensures Valid() && Mount() == old(Mount())
      ensures Effect(Remembered(), o, calls) == Handle(old(Remembered()), old(Mount()), c, sys)
    {
      hide OnSubvol, OnEnd, OnPath, OnTwoPaths, OnClone, OnXattr;
      match c {
        case Subvol(path, ctransid, id) => o, calls := OnSubvolCmd(path, id, ctransid, sys);
        case Snapshot(_, _, _, _, _) => return Panicked, [];
        case End => o, calls := OnEndCmd(sys);
        case UpdateExtent(_, _, _) => return More, [];
        case Fileattr(_, _) => return More, [];
        case Symlink(path, _, target) => o, calls := OnTwoPathsCmd(path, target, true, sys);
        case Rename(path, to) => o, calls := OnTwoPathsCmd(path, to, false, sys);
        case Link(path, target) => o, calls := OnTwoPathsCmd(path, target, true, sys);
        case Clone(path, _, _, id, _, clonePath, _) => o, calls := OnCloneCmd(path, id, clonePath, sys);
        case SetXattr(path, name, _) => o, calls := OnXattrCmd(path, name, sys);
        case RemoveXattr(path, name) => o, calls := OnXattrCmd(path, name, sys);
        case Write(path, _, data) => o, calls := OnPathCmd(path, data != [], sys);
        case Truncate(path, size) => o, calls := OnPathCmd(path, size != 0, sys);
        case Fallocate(path, _, _, _) => o, calls := OnPathCmd(path, true, sys);
        case EncodedWrite(path, _, _, _, _, _, _, _) => o, calls := OnPathCmd(path, true, sys);
        case _ => o, calls := OnPathCmd(c.path, false, sys);
      }
    }
  }

  /** Whatever stale bytes are behind it, the buffer reads as subvolume and path, and keeps the subvolume. */
  lemma BuiltString(buf: bytes, before: bytes, current: bytes, path: bytes, ok: bool)
    requires current <= before && |buf| == |before| == PATH_MAX
    requires ok == (|current| + |path| < PATH_MAX)
    requires ok ==> buf[..|current| + |path| + 1] == before[..|current|] + path + [0]
    requires !ok ==> buf == before
    ensures current <= buf
    ensures ok ==> CStr(buf) == CStr(current + path)
  {
    hide CStr;
    if ok {
      var n := |current| + |path| + 1;
      assert before[..|current|] == current;
      assert buf == buf[..n] + buf[n..];
      assert buf[..n][..|current|] == current;
      CStrTerminated(current + path, buf[n..]);
    }
  }

  // ---------------------------------------------------------------------------------------
  // Whole streams

  /** What is remembered after a list of commands, whatever becomes of them. */
  function After(s: State, mount: bytes, cs: seq<Command>, sys: seq<Sys>): State
    requires |cs| == |sys|
    decreases |cs|
  {
    if cs == [] then s else After(Handle(s, mount, cs[0], sys[0]).state, mount, cs[1..], sys[1..])
  }

  /** Inside a subvolume, only its end changes what is remembered. */
  lemma KeptInside(s: State, mount: bytes, c: Command, sys: Sys)
    requires s.current != [] && !c.End?
    ensures Handle(s, mount, c, sys).state == s
  {
    hide CStr;
  }

  lemma {:induction false} KeptThroughout(s: State, mount: bytes, cs: seq<Command>, sys: seq<Sys>)
    requires s.current != [] && |cs| == |sys| && forall c <- cs :: !c.End?
    ensures After(s, mount, cs, sys) == s
    decreases |cs|
  {
    hide Handle;
    if cs == [] {
    } else {
      KeptInside(s, mount, cs[0], sys[0]);
      KeptThroughout(s, mount, cs[1..], sys[1..]);
    }
  }

  /** The kernel reads `text` for `path`: the path itself or, if it holds a NUL, what is before the NUL. */
  ghost predicate Reads(text: bytes, path: bytes) {
    text <= path && 0 !in text && (text == path <==> 0 !in path)
  }

  /** The paths a command names, in the order it gives them to the system. */
  function Named(c: Command): seq<bytes> {
    match c
    case Symlink(path, _, target) => [target, path]
    case Link(path, target) => [target, path]
    case Rename(path, to) => [path, to]
    case Clone(path, _, _, _, _, clonePath, _) => [path, clonePath]
    case Subvol(_, _, _) => []
    case Snapshot(_, _, _, _, _) => []
    case End => []
    case UpdateExtent(_, _, _) => []
    case Fileattr(_, _) => []
    case _ => [c.path]
  }

  /** All strings given to the system in several calls. */
  function Strings(calls: seq<seq<bytes>>): seq<bytes> {
    if calls == [] then [] else calls[0] + Strings(calls[1..])
  }

  lemma StringsFew(p: bytes, q: bytes)
    ensures Strings([]) == [] && Strings([[p]]) == [p]
    ensures Strings([[p, q]]) == [p, q] == Strings([[p], [q]])
  {
    assert [[p], [q]][1..] == [[q]] && [[p]][1..] == [];
    assert Strings([[q]]) == [q] + Strings([]) == [q];
  }

  lemma InSubvolReads(current: bytes, path: bytes)
    ensures InSubvol(current, path).Some? ==> Reads(InSubvol(current, path).value, current + path)
  {
    hide CStr;
    CStrWhole(current + path);
  }

  /** Whether the `i`-th path of a command fits behind the subvolume and the calls up to it succeed. */
  predicate Gets(s: State, c: Command, sys: Sys, i: nat)
    requires i < |Named(c)|
  {
    if c.Symlink? || c.Rename? || c.Link? then
      |s.current| + |Named(c)[0]| < PATH_MAX && |s.current| + |Named(c)[1]| < PATH_MAX
    else
      |s.current| + |Named(c)[i]| < PATH_MAX
      && (i > 0 ==> |s.current| + |Named(c)[0]| < PATH_MAX && sys.first && c.Clone? && c.cloneUuid == s.uuid)
  }

  /**
   The strings a command gives to the system are the current subvolume followed by the paths it names, in
   order.  One is missing exactly if it does not fit, if the other one of a call with two does not, or, for
   the source of a clone, if the destination could not be opened or the clone is from another subvolume.
   */
  lemma StringsRead(s: State, mount: bytes, c: Command, sys: Sys)
    requires !c.Subvol? && !c.End? && !c.SetXattr? && !c.RemoveXattr?
    ensures var e := Handle(s, mount, c, sys);
            && |Strings(e.calls)| <= |Named(c)|
            && (e.outcome == More ==> |Strings(e.calls)| == |Named(c)|)
            && (forall i :: 0 <= i < |Named(c)| ==> (i < |Strings(e.calls)| <==> Gets(s, c, sys, i)))
            && (forall i :: 0 <= i < |Strings(e.calls)| ==> Reads(Strings(e.calls)[i], s.current + Named(c)[i]))
  {
    hide CStr, Reads, Strings;
    if Named(c) != [] {
      var first, last := Named(c)[0], Named(c)[|Named(c)| - 1];
      var p, q := InSubvol(s.current, first), InSubvol(s.current, last);
      InSubvolReads(s.current, first);
      InSubvolReads(s.current, last);
      StringsFew(if p.Some? then p.value else [], if q.Some? then q.value else []);
    } else {
      StringsFew([], []);
    }
  }

  /**
   The same for extended attributes: a call is made exactly if name and path fit, and a second one, by way
   of the mount point, exactly if the system does not know the first.
   */
  lemma XattrStringsRead(s: State, mount: bytes, c: Command, sys: Sys)
    requires c.SetXattr? || c.RemoveXattr?
    ensures var calls := Handle(s, mount, c, sys).calls;
            && (calls != [] <==> |c.xattrName| <= XATTR_NAME_MAX && |s.current| + |c.path| < PATH_MAX)
            && (|calls| > 1 <==> calls != [] && !sys.first && sys.noXattrAt)
            && |calls| <= 2
            && (calls != [] ==>
                  |calls[0]| == 2 && Reads(calls[0][0], s.current + c.path) && Reads(calls[0][1], c.xattrName))
            && (|calls| > 1 ==>
                  |calls[1]| == 2 && Reads(calls[1][0], mount + s.current + c.path) && Reads(calls[1][1], c.xattrName))
  {
    hide CStr, Reads;
    InSubvolReads(s.current, c.path);
    WholeReads(c.xattrName);
    WholeReads(mount + s.current + c.path);
  }

  // ---------------------------------------------------------------------------------------
  // Outcomes

  predicate Fits(s: State, path: bytes) {
    |s.current| + |path| < PATH_MAX
  }

  /** All system calls a command makes succeed. */
  predicate CallsWork(c: Command, sys: Sys) {
    match c
    case UpdateExtent(_, _, _) => true
    case Fileattr(_, _) => true
    case Write(_, _, data) => sys.first && (data == [] || sys.rest)
    case Truncate(_, size) => sys.first && (size == 0 || sys.rest)
    case Fallocate(_, _, _, _) => sys.first && sys.rest
    case EncodedWrite(_, _, _, _, _, _, _, _) => sys.first && sys.rest
    case Clone(_, _, _, _, _, _, _) => sys.first && sys.second && sys.rest
    case SetXattr(_, _, _) => sys.first || (sys.noXattrAt && sys.second)
    case RemoveXattr(_, _) => sys.first || (sys.noXattrAt && sys.second)
    case _ => sys.first
  }

  predicate XattrTooLong(c: Command) {
    (c.SetXattr? || c.RemoveXattr?) && |c.xattrName| > XATTR_NAME_MAX
  }

  /**
   How a command inside a stream ends.  It succeeds exactly if its paths and names fit, it is not for another
   subvolume, and its calls succeed; every other ending is said exactly as well, and what is left is a
   failed call.
   */
  lemma OutcomeExactly(s: State, mount: bytes, c: Command, sys: Sys)
    requires !c.Subvol? && !c.End?
    ensures var o := Handle(s, mount, c, sys).outcome;
            var elsewhere := c.Clone? && c.cloneUuid != s.uuid;
            && (o == More <==>
                  && !c.Snapshot? && !XattrTooLong(c) && !elsewhere
                  && (forall p <- Named(c) :: Fits(s, p)) && CallsWork(c, sys))
            && (o == Panicked <==> c.Snapshot? || (elsewhere && Fits(s, c.path) && sys.first))
            && (o == Failed(XattrNameTooLong) <==> XattrTooLong(c))
            && (o == Failed(NameTooLong) <==>
                  if c.Clone? then !Fits(s, c.path) || (sys.first && !elsewhere && !Fits(s, c.clonePath))
                  else !XattrTooLong(c) && exists p <- Named(c) :: !Fits(s, p))
            && (o == More || o == Panicked || o == Failed(XattrNameTooLong) || o == Failed(NameTooLong) || o == Failed(System))
            && (c.Snapshot? || c.UpdateExtent? || c.Fileattr? ==> Handle(s, mount, c, sys).calls == [])
  {
    hide CStr;
    var names := Named(c);
    if names != [] {
      assert names[0] in names && names[|names| - 1] in names;
    }
  }

  lemma WholeReads(path: bytes)
    ensures Reads(CStr(path), path)
  {
    CStrWhole(path);
  }

  /** Between a subvolume's command and its end, whatever fails, paths are relative to that subvolume. */
  lemma InsideSubvolume(s: State, mount: bytes, c: Command, first: Sys, cs: seq<Command>, sys: seq<Sys>)
    requires s.current == [] && c.Subvol? && |Slashed(c.path)| <= PATH_MAX
    requires |cs| == |sys| && forall c <- cs :: !c.End?
    ensures After(s, mount, [c] + cs, [first] + sys) == State(Slashed(c.path), c.uuid, c.ctransid)
  {
    hide CStr;
    var inside := State(Slashed(c.path), c.uuid, c.ctransid);
    assert ([c] + cs)[1..] == cs && ([first] + sys)[1..] == sys;
    assert Handle(s, mount, c, first).state == inside;
    KeptThroughout(inside, mount, cs, sys);
  }

  /** A subvolume command succeeds exactly outside a subvolume, with a name that can be created, and is. */
  lemma SubvolSucceeds(s: State, mount: bytes, c: Command, sys: Sys)
    requires c.Subvol?
    ensures Handle(s, mount, c, sys).outcome == More <==> s.current == [] && Creatable(c.path) && sys.first
    ensures Handle(s, mount, c, sys).calls != [] <==>
            s.current == [] && Creatable(c.path)
  {
    SlashedLength(c.path);
  }

  /** How a subvolume command ends otherwise, and what it leaves current. */
  lemma SubvolOutcome(s: State, mount: bytes, c: Command, sys: Sys)
    requires c.Subvol?
    ensures var e := Handle(s, mount, c, sys);
            && (e.outcome == Failed(InvalidStream) <==> s.current != [])
            && (e.outcome == Panicked <==> s.current == [] && |Slashed(c.path)| > 4096)
            && (e.outcome == Failed(InvalidInput) <==> s.current == [] && |Slashed(c.path)| <= 4096 && !Creatable(c.path))
            && (e.outcome == Failed(System) <==> s.current == [] && Creatable(c.path) && !sys.first)
            && (e.state != s ==> s.current == [] && e.state == State(Slashed(c.path), c.uuid, c.ctransid))
            && (e.calls != [] ==> e.calls == [[c.path]])
  {
    SlashedLength(c.path);
  }

  /** How an end command ends, and what it leaves remembered. */
  lemma EndOutcome(s: State, mount: bytes, sys: Sys)
    ensures var e := Handle(s, mount, End, sys);
            && (e.outcome == Failed(InvalidStream) <==> s.current == [])
            && (e.outcome == Failed(NameTooLong) <==> |s.current| >= 4096)
            && (e.outcome == Finished <==> 0 < |s.current| < 4096 && sys.first && sys.rest)
            && (e.outcome == Failed(System) <==> 0 < |s.current| < 4096 && !(sys.first && sys.rest))
            && (e.outcome == Finished ==> e.state == State([], NO_UUID, 0))
            && (e.outcome != Finished ==> e.state == s.(current := []))
  {
    hide CStr;
  }

  lemma SlashedLength(path: bytes)
    ensures |path| <= |Slashed(path)| <= |path| + 1 && (NUL in Slashed(path) ==> NUL in path)
  {
  }

  /** One that fails because the subvolume is not created leaves it current all the same: no other can start. */
  lemma FailedSubvolStays(s: State, mount: bytes, c: Command, sys: Sys, d: Command, more: Sys)
    requires c.Subvol? && d.Subvol? && s.current == [] && |Slashed(c.path)| <= PATH_MAX
    requires !Creatable(c.path) || !sys.first
    ensures var e := Handle(s, mount, c, sys);
            && e.outcome == Failed(if Creatable(c.path) then System else InvalidInput)
            && Handle(e.state, mount, d, more) == Effect(e.state, Failed(InvalidStream), [])
  {
  }

  /**
   The end command leaves no subvolume current, and reads back exactly the path of the subvolume whose
   command succeeded.
   */
  lemma EndReadsBack(s: State, mount: bytes, c: Command, first: Sys, cs: seq<Command>, sys: seq<Sys>, last: Sys)
    requires s.current == [] && c.Subvol? && |Slashed(c.path)| <= PATH_MAX
    requires |cs| == |sys| && forall c <- cs :: !c.End?
    ensures var e := Handle(After(s, mount, [c] + cs, [first] + sys), mount, End, last);
            && e.state.current == []
            && (Handle(s, mount, c, first).outcome == More ==> e.calls == [[Slashed(c.path)]])
            && (e.calls != [] <==> |Slashed(c.path)| < PATH_MAX)
            && (e.calls != [] ==> |e.calls| == 1 && |e.calls[0]| == 1 && Reads(e.calls[0][0], Slashed(c.path)))
            && (e.outcome == Finished <==> e.calls != [] && last.first && last.rest)
  {
    hide CStr, Slashed;
    InsideSubvolume(s, mount, c, first, cs, sys);
    InSubvolReads([], Slashed(c.path));
    SlashedLength(c.path);
    SubvolSucceeds(s, mount, c, first);
    assert [] + Slashed(c.path) == Slashed(c.path);
  }
}
