/**
 The path of a subvolume from its id: following back references up to the top level with one-item tree
 searches, while the path is built back to front in a buffer that doubles when it is full.
 */
module GetPath {
  import opened Bytes
  import opened SearchKey
  import opened TreeSearch
  import Paging
  import SubvolIter
  import SubvolOrder

  const FS_TREE := 5
  const BACKREF: nat := 144
  const BUFFER := 3992

  /** The root tree, which searches fail, and the path from a subvolume's root to a directory in it. */
  datatype Disk = Disk(tree: seq<Item>, searchOk: Key -> bool, lookup: (nat, nat) -> Option<bytes>)

  /** `Misread` stands for reading an item that is no back reference as one. */
  datatype Error = SearchFailed | NotFound | InvalidData | LookupFailed | Misread

  datatype PathResult = Path(path: bytes) | Err(error: Error)

  // ---------------------------------------------------------------------------------------
  // Back references: directory id, sequence number, name length and name

  const FIXED := 18

  predicate IsRef(data: bytes) {
    |data| >= FIXED && |data| >= FIXED + FromLe(data[16..18])
  }

  function Dirid(data: bytes): nat
    requires IsRef(data)
  {
    FromLe(data[..8])
  }

  function Name(data: bytes): bytes
    requires IsRef(data)
  {
    data[FIXED..FIXED + FromLe(data[16..18])]
  }

  // ---------------------------------------------------------------------------------------
  // One step up, and the whole way

  datatype Found = Piece(piece: bytes, parent: nat) | Stop(error: Error)

  function Range(treeid: nat, min: Key): Bounds {
    Bounds(min, Key(treeid, BACKREF, U64 - 1), 1)
  }

  /** The kernel's answer to a search for one item. */
  function Answered(d: Disk, treeid: nat, min: Key): Answer {
    var items := Matching(d.tree, min, Range(treeid, min).max);
    if !d.searchOk(min) || (items != [] && |ItemBytes(items[0])| > BUFFER) then Failed
    else Page(if items == [] then 0 else 1)
  }

  /** What the item says, whichever it is: its part of the path and the id of its parent. */
  function Look(d: Disk, item: Item): Found {
    if !IsRef(item.data) then Stop(Misread)
    else if 0 in Name(item.data) then Stop(InvalidData)
    else
      match d.lookup(Dirid(item.data), item.key.offset)
      case None => Stop(LookupFailed)
      case Some(lookup) => Piece(lookup + Name(item.data), item.key.offset)
  }

  function StepUp(d: Disk, treeid: nat, min: Key): Found {
    match Answered(d, treeid, min)
    case Failed => Stop(SearchFailed)
    case Page(n) => if n == 0 then Stop(NotFound) else Look(d, Matching(d.tree, min, Range(treeid, min).max)[0])
  }

  /** The pieces met on the way up, deepest first. */
  datatype Climbed = Reached(pieces: seq<bytes>) | Failure(error: Error) | Endless

  function Prepend(pieces: seq<bytes>, rest: Climbed): Climbed {
    if rest.Reached? then Reached(pieces + rest.pieces) else rest
  }

  /** The way up in at most so many steps. */
  function Climb(d: Disk, treeid: nat, min: Key, steps: nat): Climbed
    decreases steps
  {
    if steps == 0 then Endless
    else
      match StepUp(d, treeid, min)
      case Stop(e) => Failure(e)
      case Piece(piece, parent) =>
        if parent == FS_TREE then Reached([piece])
        else Prepend([piece], Climb(d, treeid, Key(parent, BACKREF, 0), steps - 1))
  }

  /** The '/'-joined pieces from the top level down. */
  function TopDown(pieces: seq<bytes>): bytes {
    SubvolOrder.Join(SubvolIter.Reverse(pieces))
  }

  // ---------------------------------------------------------------------------------------
  // The buffer

  /** The part of the path built so far: every piece met, deepest last, each after a '/'. */
  function Suffix(pieces: seq<bytes>): bytes {
    if pieces == [] then []
    else [SLASH] + pieces[|pieces| - 1] + Suffix(pieces[..|pieces| - 1])
  }

  lemma SuffixAppend(pieces: seq<bytes>, piece: bytes)
    ensures Suffix(pieces + [piece]) == [SLASH] + piece + Suffix(pieces)
  {
    assert (pieces + [piece])[..|pieces|] == pieces;
  }

  lemma {:induction false} JoinFirst(pieces: seq<bytes>)
    requires |pieces| > 1
    ensures SubvolOrder.Join(pieces) == pieces[0] + [SLASH] + SubvolOrder.Join(pieces[1..])
  {
    var init, last := pieces[..|pieces| - 1], pieces[|pieces| - 1];
    assert pieces[1..][..|pieces| - 2] == init[1..];
    if |pieces| > 2 {
      JoinFirst(init);
      assert SubvolOrder.Join(pieces) == (init[0] + [SLASH] + SubvolOrder.Join(init[1..])) + [SLASH] + last;
      assert SubvolOrder.Join(pieces[1..]) == SubvolOrder.Join(init[1..]) + [SLASH] + last;
    } else {
      assert init == [pieces[0]] && pieces[1..] == [last];
    }
  }

  /** The last piece in front of the suffix makes the whole path. */
  lemma {:induction false} SuffixIsTopDown(pieces: seq<bytes>, piece: bytes)
    ensures piece + Suffix(pieces) == TopDown(pieces + [piece])
    decreases |pieces|
  {
    SubvolOrder.ReverseConcat(pieces, [piece]);
    assert SubvolIter.Reverse([piece]) == [piece];
    var all := [piece] + SubvolIter.Reverse(pieces);
    if pieces == [] {
      assert all == [piece];
    } else {
      var init, last := pieces[..|pieces| - 1], pieces[|pieces| - 1];
      assert pieces == init + [last];
      SuffixIsTopDown(init, last);
      JoinFirst(all);
      assert all[1..] == SubvolIter.Reverse(pieces);
      assert piece + ([SLASH] + last + Suffix(init)) == piece + [SLASH] + (last + Suffix(init));
    }
  }

  /** Make room: double the buffer, contents and all, until `need` bytes fit before the path. */
  method Grow(buf: array<byte>, pos: nat, need: nat) returns (buf': array<byte>, pos': nat)
    requires buf.Length > 0 && pos <= buf.Length
    ensures buf' == buf || fresh(buf')
    ensures buf'.Length > 0 && need <= pos' <= buf'.Length
    ensures buf'[pos'..] == buf[pos..]
    ensures need <= pos ==> buf' == buf && pos' == pos
  {
    buf', pos' := buf, pos;
    while need > pos'
      invariant buf' == buf || fresh(buf')
      invariant 0 < buf'.Length && pos <= pos' <= buf'.Length
      invariant buf'[pos'..] == buf[pos..]
      invariant need <= pos ==> buf' == buf && pos' == pos
      decreases need - pos'
    {
      pos' := pos' + buf'.Length;
      var twice := new byte[2 * buf'.Length];
      forall i | 0 <= i < twice.Length {
        twice[i] := buf'[if i < buf'.Length then i else i - buf'.Length];
      }
      assert twice[pos'..] == buf'[pos' - buf'.Length..];
      buf' := twice;
    }
  }

  /** Copy `piece` into the buffer just before the path built so far. */
  method Place(buf: array<byte>, pos: nat, piece: bytes) returns (pos': nat)
    requires |piece| <= pos <= buf.Length
    modifies buf
    ensures pos' == pos - |piece|
    ensures buf[pos'..] == piece + old(buf[pos..])
  {
    pos' := pos - |piece|;
    forall i | 0 <= i < |piece| {
      buf[pos' + i] := piece[i];
    }
    assert buf[pos'..pos] == piece;
    assert buf[pos..] == old(buf[pos..]);
    assert buf[pos'..] == buf[pos'..pos] + buf[pos..];
  }

  /** Put a '/' just before the path built so far. */
  method Separate(buf: array<byte>, pos: nat) returns (pos': nat)
    requires 0 < pos <= buf.Length
    modifies buf
    ensures pos' == pos - 1
    ensures buf[pos'..] == [SLASH] + old(buf[pos..])
  {
    pos' := pos - 1;
    buf[pos'] := SLASH;
    assert buf[pos'..] == [SLASH] + buf[pos..];
    assert buf[pos..] == old(buf[pos..]);
  }

  // ---------------------------------------------------------------------------------------
  // The whole operation

  lemma PrependStep(done: seq<bytes>, piece: bytes, rest: Climbed)
    ensures Prepend(done, Prepend([piece], rest)) == Prepend(done + [piece], rest)
    ensures Prepend([], rest) == rest
  {
    if rest.Reached? {
      assert done + ([piece] + rest.pieces) == (done + [piece]) + rest.pieces;
      assert [] + rest.pieces == rest.pieces;
    }
  }

  lemma ClimbStep(d: Disk, treeid: nat, min: Key, steps: nat, done: seq<bytes>)
    requires Climb(d, treeid, min, steps) != Endless
    ensures steps > 0
    ensures match StepUp(d, treeid, min)
            case Stop(e) => Prepend(done, Climb(d, treeid, min, steps)) == Failure(e)
            case Piece(piece, parent) =>
              if parent == FS_TREE then Prepend(done, Climb(d, treeid, min, steps)) == Reached(done + [piece])
              else
                var rest := Climb(d, treeid, Key(parent, BACKREF, 0), steps - 1);
                rest != Endless && Prepend(done, Climb(d, treeid, min, steps)) == Prepend(done + [piece], rest)
  {
    hide StepUp;
    match StepUp(d, treeid, min)
    case Stop(_) =>
    case Piece(piece, parent) =>
      if parent != FS_TREE {
        PrependStep(done, piece, Climb(d, treeid, Key(parent, BACKREF, 0), steps - 1));
      }
  }

  lemma AnswerPossible(d: Disk, treeid: nat, min: Key)
    ensures Possible(d.tree, Range(treeid, min), BUFFER, Answered(d, treeid, min))
    ensures var answer := Answered(d, treeid, min);
            var items := Matching(d.tree, min, Range(treeid, min).max);
            answer.Page? ==> answer.count == if items == [] then 0 else 1
  {
    hide Matching, ItemBytes;
    var items := Matching(d.tree, min, Range(treeid, min).max);
    if items != [] {
      PageOne(items[0]);
      assert items[..1] == [items[0]];
    } else {
      PageEmpty();
      assert items[..0] == [];
    }
  }

  lemma PageEmpty()
    ensures PageBytes([]) == []
  {
  }

  /** The search for the next back reference, and where the one after it is to begin. */
  method NextItem(d: Disk, treeid: nat, search: Search) returns (ok: bool, item: Option<Item>)
    requires Tree(d.tree) && search.buffer.Length == BUFFER
    requires search.bounds == Range(treeid, search.bounds.min)
    modifies search`bounds, search.buffer
    ensures search.bounds == Range(treeid, search.bounds.min)
    ensures var step := StepUp(d, treeid, old(search.bounds.min));
            && (!ok ==> step == Stop(SearchFailed))
            && (ok && item.None? ==> step == Stop(NotFound))
            && (ok && item.Some? ==> step == Look(d, item.value)
                                     && search.bounds.min == Key(item.value.key.offset, BACKREF, 0))
  {
    hide Matching, Tree, PageBytes, ItemFits, Answered, Possible, FromLe, Look;
    ghost var min := search.bounds.min;
    ghost var items := Matching(d.tree, min, Range(treeid, min).max);
    AnswerPossible(d, treeid, min);
    Paging.MatchingFits(d.tree, min, Range(treeid, min).max);
    var index;
    item := None;
    ok, index := search.Query(d.tree, Answered(d, treeid, search.bounds.min));
    if !ok {
      return;
    }
    var iter := new Iter(search, index, items[..index]);
    item := iter.Next();
    var returned := iter.Drop((k: Key) => Move(Key(k.offset, BACKREF, 0)));
  }

  /**
   The path of a subvolume, provided the way up from it ends at all.  `steps` only bounds the way up; it
   does not matter to the result.
   */
  method GetPath(d: Disk, treeid: nat, ghost steps: nat) returns (r: PathResult)
    requires Tree(d.tree)
    requires Climb(d, treeid, Key(treeid, BACKREF, 0), steps) != Endless
    ensures match Climb(d, treeid, Key(treeid, BACKREF, 0), steps)
            case Reached(pieces) => r == Path(TopDown(pieces))
            case Failure(e) => r == Err(e)
  {
    hide Climb, Tree, Matching, Name, Dirid, IsRef, Suffix, TopDown, Answered, StepUp, Prepend;
    var pos := 128;
    var buf := new byte[pos];
    var search := new Search(Range(treeid, Key(treeid, BACKREF, 0)), BUFFER);
    ghost var whole := Climb(d, treeid, Key(treeid, BACKREF, 0), steps);
    ghost var left := steps;
    ghost var done: seq<bytes> := [];
    PrependStep([], [], whole);
    NoSuffix();
    while true
      invariant fresh(buf) && fresh(search) && fresh(search.buffer) && search.buffer != buf
      invariant 0 < buf.Length && pos <= buf.Length && buf[pos..] == Suffix(done)
      invariant search.buffer.Length == BUFFER && search.bounds == Range(treeid, search.bounds.min)
      invariant Climb(d, treeid, search.bounds.min, left) != Endless
      invariant whole == Prepend(done, Climb(d, treeid, search.bounds.min, left))
      decreases left
    {
      ghost var min := search.bounds.min;
      ClimbStep(d, treeid, min, left, done);
      var ok, found := NextItem(d, treeid, search);
      if !ok {
        return Err(SearchFailed);
      }
      if found.None? {
        return Err(NotFound);
      }
      var item := found.value;
      var rootvol := item.key.offset == FS_TREE;
      if !IsRef(item.data) {
        return Err(Misread);
      }
      var name := Name(item.data);
      if 0 in name {
        return Err(InvalidData);
      }
      var lookup := d.lookup(Dirid(item.data), item.key.offset);
      if lookup.None? {
        return Err(LookupFailed);
      }
      var piece := lookup.value + name;
      buf, pos := Grow(buf, pos, |piece| + if rootvol then 0 else 1);
      pos := Place(buf, pos, piece);
      SuffixAppend(done, piece);
      if rootvol {
        SuffixIsTopDown(done, piece);
        return Path(buf[pos..]);
      }
      pos := Separate(buf, pos);
      done := done + [piece];
      left := left - 1;
    }
  }

  lemma NoSuffix()
    ensures Suffix([]) == []
  {
  }

  // ---------------------------------------------------------------------------------------
  // When the path is found

  /** A subvolume, the one it is in, and the path from the root of that one to it. */
  datatype Link = Link(id: nat, parent: nat, piece: bytes)

  /** What a back reference is made of; eight bytes of it are not looked at. */
  ghost predicate Layout(data: bytes, dirid: nat, name: bytes) {
    && dirid < 0x1_0000_0000_0000_0000 && |name| < 0x1_0000
    && exists sequence: bytes, more: bytes ::
         |sequence| == 8 && data == Le(dirid, 8) + sequence + Le(|name|, 2) + name + more
  }

  lemma LayoutRead(data: bytes, dirid: nat, name: bytes)
    requires Layout(data, dirid, name)
    ensures IsRef(data) && Dirid(data) == dirid && Name(data) == name
  {
    hide Le, FromLe;
    var sequence: bytes, more: bytes :|
      |sequence| == 8 && data == Le(dirid, 8) + sequence + Le(|name|, 2) + name + more;
    Widths();
    FromLeOfLe(|name|, 2);
    FromLeOfLe(dirid, 8);
    assert data[..8] == Le(dirid, 8);
    assert data[16..18] == Le(|name|, 2);
    assert data[FIXED..FIXED + |name|] == name;
  }

  lemma LayoutOfRef(data: bytes)
    requires IsRef(data)
    ensures Layout(data, Dirid(data), Name(data))
  {
    hide Le, FromLe;
    Widths();
    FromLeBound(data[..8]);
    FromLeBound(data[16..18]);
    LeOfFromLe(data[..8]);
    LeOfFromLe(data[16..18]);
    var name := Name(data);
    assert data == data[..8] + data[8..16] + data[16..18] + name + data[FIXED + |name|..];
  }

  /**
   Reading an item: the path of the directory it names, in the subvolume its key names, and then its name.
   It fails on a name with a NUL before it looks the directory up, and on nothing else but that.
   */
  lemma LookMeans(d: Disk, item: Item)
    ensures forall dirid: nat, name: bytes :: Layout(item.data, dirid, name) ==>
              && (Look(d, item) == Stop(InvalidData) <==> NUL in name)
              && (Look(d, item) == Stop(LookupFailed) <==> NUL !in name && d.lookup(dirid, item.key.offset).None?)
              && (Look(d, item).Piece? <==> NUL !in name && d.lookup(dirid, item.key.offset).Some?)
              && (Look(d, item).Piece? ==>
                    Look(d, item) == Piece(d.lookup(dirid, item.key.offset).value + name, item.key.offset))
    ensures Look(d, item) == Stop(Misread) <==> !exists dirid: nat, name: bytes :: Layout(item.data, dirid, name)
  {
    hide Layout, IsRef, Dirid, Name;
    forall dirid: nat, name: bytes | Layout(item.data, dirid, name)
      ensures IsRef(item.data) && Dirid(item.data) == dirid && Name(item.data) == name
    {
      LayoutRead(item.data, dirid, name);
    }
    if IsRef(item.data) {
      LayoutOfRef(item.data);
    }
  }

  ghost predicate Says(d: Disk, l: Link, data: bytes, dirid: nat, name: bytes, dir: bytes) {
    Layout(data, dirid, name) && NUL !in name && d.lookup(dirid, l.parent) == Some(dir) && l.piece == dir + name
  }

  /**
   The back reference of a subvolume: its only one, with the id of a directory and a name, which together
   are the piece the link names.
   */
  ghost predicate RefOf(d: Disk, l: Link, item: Item) {
    && item in d.tree
    && item.key == Key(l.id, BACKREF, l.parent)
    && (exists dirid, name, dir :: Says(d, l, item.data, dirid, name, dir))
    && |ItemBytes(item)| <= BUFFER
    && forall i <- d.tree :: i.key.objectid == l.id && i.key.ty == BACKREF ==> i.key == item.key
  }

  ghost predicate Linked(d: Disk, l: Link) {
    && d.searchOk(Key(l.id, BACKREF, 0))
    && exists item :: RefOf(d, l, item)
  }

  /** Links from a subvolume up to the top level. */
  ghost predicate Chain(d: Disk, links: seq<Link>)
    decreases |links|
  {
    && links != []
    && Linked(d, links[0])
    && if links[0].parent == FS_TREE then |links| == 1
       else |links| > 1 && links[1].id == links[0].parent && Chain(d, links[1..])
  }

  function Pieces(links: seq<Link>): seq<bytes> {
    if links == [] then [] else [links[0].piece] + Pieces(links[1..])
  }

  lemma {:induction false} FirstMatch(tree: seq<Item>, min: Key, max: Key, item: Item)
    requires Tree(tree) && item in tree && AtMost(min, item.key) && AtMost(item.key, max)
    requires forall i <- tree :: AtMost(min, i.key) ==> AtMost(item.key, i.key)
    ensures Matching(tree, min, max) != [] && Matching(tree, min, max)[0] == item
  {
    hide ItemFits, Stored, Tree;
    Paging.TreeTail(tree);
    if tree[0] != item {
      FirstMatch(tree[1..], min, max, item);
    }
  }

  lemma {:induction false} EmptyRange(tree: seq<Item>, min: Key, max: Key)
    requires Less(max, min)
    ensures Matching(tree, min, max) == []
  {
    if tree == [] {
    } else {
      EmptyRange(tree[1..], min, max);
    }
  }

  lemma StepUpLink(d: Disk, treeid: nat, l: Link)
    requires Tree(d.tree) && Linked(d, l)
    ensures StepUp(d, treeid, Key(l.id, BACKREF, 0))
            == if l.id <= treeid then Piece(l.piece, l.parent) else Stop(NotFound)
  {
    hide Look, ItemBytes, Matching, ItemFits, Layout;
    var item :| RefOf(d, l, item);
    LookMeans(d, item);
    var min := Key(l.id, BACKREF, 0);
    var max := Range(treeid, min).max;
    if l.id <= treeid {
      FirstMatch(d.tree, min, max, item);
    } else {
      EmptyRange(d.tree, min, max);
    }
  }

  lemma {:induction false} ClimbChain(d: Disk, treeid: nat, links: seq<Link>, steps: nat)
    requires Tree(d.tree) && Chain(d, links) && steps >= |links|
    ensures Climb(d, treeid, Key(links[0].id, BACKREF, 0), steps)
            == if (forall l <- links :: l.id <= treeid) then Reached(Pieces(links)) else Failure(NotFound)
    decreases |links|
  {
    hide StepUp, Linked, Tree;
    StepUpLink(d, treeid, links[0]);
    if links[0].parent == FS_TREE {
      assert Pieces(links) == [links[0].piece] + Pieces([]);
    } else {
      ClimbChain(d, treeid, links[1..], steps - 1);
      assert links == [links[0]] + links[1..];
    }
  }

  /**
   Going up from a subvolume below the top level: the path is found, and is all the pieces joined from the
   top level down, exactly if no subvolume on the way has a larger id than the one asked for; otherwise the
   upper bound of the search, which never moves, hides it.
   */
  lemma FoundExactly(d: Disk, links: seq<Link>, steps: nat)
    requires Tree(d.tree) && Chain(d, links) && steps >= |links|
    ensures var treeid := links[0].id;
            var climbed := Climb(d, treeid, Key(treeid, BACKREF, 0), steps);
            && (climbed.Reached? <==> forall l <- links :: l.id <= treeid)
            && (climbed.Reached? ==> climbed.pieces == Pieces(links))
            && (!climbed.Reached? ==> climbed == Failure(NotFound))
  {
    hide Climb, Chain, Tree, Pieces;
    ChainSome(d, links);
    ClimbChain(d, links[0].id, links, steps);
  }

  lemma ChainSome(d: Disk, links: seq<Link>)
    requires Chain(d, links)
    ensures links != []
  {
  }

  /** Links that lead up, but not to the top level. */
  ghost predicate Way(d: Disk, links: seq<Link>, top: nat)
    decreases |links|
  {
    links == []
    || (var above := links[1..];
        && Linked(d, links[0]) && links[0].parent == (if above == [] then top else above[0].id) != FS_TREE
        && Way(d, above, top))
  }

  /** Why the way up can end at a subvolume, as the searches and the items have it. */
  ghost predicate Ends(d: Disk, treeid: nat, id: nat, e: Error) {
    var items := Matching(d.tree, Key(id, BACKREF, 0), Key(treeid, BACKREF, U64 - 1));
    if !d.searchOk(Key(id, BACKREF, 0)) || (items != [] && |ItemBytes(items[0])| > BUFFER) then e == SearchFailed
    else if items == [] then e == NotFound
    else
      var item := items[0];
      exists dirid, name :: Layout(item.data, dirid, name)
        && if NUL in name then e == InvalidData else d.lookup(dirid, item.key.offset).None? && e == LookupFailed
  }

  /** The error of the first step that fails is the error of the whole. */
  lemma {:induction false} ClimbStops(d: Disk, treeid: nat, links: seq<Link>, top: nat, steps: nat, e: Error)
    requires Tree(d.tree) && Way(d, links, top) && steps > |links| && forall l <- links :: l.id <= treeid
    requires Ends(d, treeid, top, e)
    ensures Climb(d, treeid, Key(if links == [] then top else links[0].id, BACKREF, 0), steps) == Failure(e)
    decreases |links|
  {
    hide StepUp, Linked, Tree, Ends;
    if links == [] {
      StepUpEnds(d, treeid, top, e);
    } else {
      StepUpLink(d, treeid, links[0]);
      ClimbStops(d, treeid, links[1..], top, steps - 1, e);
    }
  }

  lemma StepUpEnds(d: Disk, treeid: nat, id: nat, e: Error)
    requires Ends(d, treeid, id, e)
    ensures StepUp(d, treeid, Key(id, BACKREF, 0)) == Stop(e)
  {
    hide Look, ItemBytes, Matching, Layout;
    var items := Matching(d.tree, Key(id, BACKREF, 0), Key(treeid, BACKREF, U64 - 1));
    if items != [] {
      LookMeans(d, items[0]);
    }
  }

  // ---------------------------------------------------------------------------------------
  // A path that is not found

  /** A back reference to directory 256, for the name `name`. */
  function RefData(name: bytes): bytes {
    Le(256, 8) + Le(0, 8) + Le(|name|, 2) + name
  }

  lemma RefDataLayout(name: bytes)
    requires |name| < 0x1_0000
    ensures Layout(RefData(name), 256, name) && |RefData(name)| == 18 + |name|
  {
    hide Le;
    assert RefData(name) == Le(256, 8) + Le(0, 8) + Le(|name|, 2) + name + [];
  }

  function Backref(id: nat, parent: nat, name: bytes): Item {
    Item(0, Key(id, 144, parent), RefData(name))
  }

  lemma BackrefLinks(d: Disk, l: Link, name: bytes, dir: bytes)
    requires Backref(l.id, l.parent, name) in d.tree && |name| < 0x100 && NUL !in name
    requires d.searchOk(Key(l.id, BACKREF, 0)) && d.lookup(256, l.parent) == Some(dir) && l.piece == dir + name
    requires forall i <- d.tree :: i.key.objectid == l.id && i.key.ty == BACKREF ==> i.key.offset == l.parent
    ensures Linked(d, l)
  {
    hide RefData, Layout;
    RefDataLayout(name);
    assert Says(d, l, RefData(name), 256, name, dir);
    assert RefOf(d, l, Backref(l.id, l.parent, name));
  }

  /**
   Subvolume 301, "b", is in the directory "h/" of the top level; 300, "a", and 302, "c", are in its
   directory "d/", where 300 was moved to.
   */
  function Moved(): Disk {
    Disk([Backref(300, 301, [0x61]), Backref(301, 5, [0x62]), Backref(302, 301, [0x63])],
         _ => true, (dirid, parent) => Some([if parent == 5 then 0x68 else 0x64, 0x2F]))
  }

  const INNER := Link(300, 301, [0x64, 0x2F, 0x61])
  const OUTER := Link(301, 5, [0x68, 0x2F, 0x62])
  const YOUNG := Link(302, 301, [0x64, 0x2F, 0x63])

  lemma BackrefFits(id: nat, parent: nat, name: bytes)
    requires id < U64 && parent < U64 && |name| < 0x100
    ensures ItemFits(Backref(id, parent, name)) && Stored(Backref(id, parent, name).key)
  {
    hide RefData;
    RefDataLayout(name);
  }

  lemma ThreeTree(a: Item, b: Item, c: Item)
    requires a.key.objectid < b.key.objectid < c.key.objectid
    requires forall i <- [a, b, c] :: ItemFits(i) && Stored(i.key)
    ensures Tree([a, b, c])
  {
    hide ItemFits, Stored;
  }

  lemma MovedTree()
    ensures Tree(Moved().tree)
  {
    hide RefData, Tree, ItemFits, Stored;
    BackrefFits(300, 301, [0x61]);
    BackrefFits(301, 5, [0x62]);
    BackrefFits(302, 301, [0x63]);
    ThreeTree(Backref(300, 301, [0x61]), Backref(301, 5, [0x62]), Backref(302, 301, [0x63]));
  }

  lemma MovedLinked()
    ensures Linked(Moved(), INNER) && Linked(Moved(), OUTER) && Linked(Moved(), YOUNG)
  {
    hide RefData, Linked;
    var tree := Moved().tree;
    assert tree == [Backref(300, 301, [0x61]), Backref(301, 5, [0x62]), Backref(302, 301, [0x63])];
    assert Backref(300, 301, [0x61]) == tree[0] && Backref(301, 5, [0x62]) == tree[1] && Backref(302, 301, [0x63]) == tree[2];
    BackrefLinks(Moved(), INNER, [0x61], [0x64, 0x2F]);
    BackrefLinks(Moved(), OUTER, [0x62], [0x68, 0x2F]);
    BackrefLinks(Moved(), YOUNG, [0x63], [0x64, 0x2F]);
  }

  lemma ChainOfOne(d: Disk, l: Link)
    requires Linked(d, l) && l.parent == FS_TREE
    ensures Chain(d, [l]) && Pieces([l]) == [l.piece]
  {
    hide Linked;
    assert Pieces([l]) == [l.piece] + Pieces([]);
  }

  lemma ChainOfTwo(d: Disk, l: Link, m: Link)
    requires Linked(d, l) && l.parent == m.id != FS_TREE && Chain(d, [m])
    ensures Chain(d, [l, m]) && Pieces([l, m]) == [l.piece] + Pieces([m])
  {
    hide Linked;
    assert [l, m][1..] == [m];
  }

  lemma TopDownTwo(inner: bytes, outer: bytes)
    ensures TopDown([inner, outer]) == outer + [SLASH] + inner
  {
    var pieces := [inner];
    SuffixIsTopDown(pieces, outer);
    assert pieces[..0] == [] && pieces + [outer] == [inner, outer];
    assert Suffix(pieces) == [SLASH] + inner + Suffix([]);
    assert outer + ([SLASH] + inner + []) == outer + [SLASH] + inner;
  }

  /**
   The path of a subvolume inside a younger one is not found, whole as its chain of references is; that of
   one inside an older one is.
   */
  lemma MovedNotFound()
    ensures Chain(Moved(), [INNER, OUTER]) && Chain(Moved(), [YOUNG, OUTER])
    ensures Climb(Moved(), 300, Key(300, 144, 0), 2) == Failure(NotFound)
    ensures Climb(Moved(), 301, Key(301, 144, 0), 1) == Reached([[0x68, 0x2F, 0x62]])
    ensures Climb(Moved(), 302, Key(302, 144, 0), 2) == Reached([[0x64, 0x2F, 0x63], [0x68, 0x2F, 0x62]])
    ensures TopDown([[0x64, 0x2F, 0x63], [0x68, 0x2F, 0x62]]) == [0x68, 0x2F, 0x62, 0x2F, 0x64, 0x2F, 0x63]
  {
    hide Linked, Climb, Tree, Moved, Chain, Pieces;
    MovedTree();
    MovedLinked();
    ChainOfOne(Moved(), OUTER);
    ChainOfTwo(Moved(), INNER, OUTER);
    ChainOfTwo(Moved(), YOUNG, OUTER);
    FoundExactly(Moved(), [INNER, OUTER], 2);
    assert OUTER in [INNER, OUTER];
    FoundExactly(Moved(), [OUTER], 1);
    FoundExactly(Moved(), [YOUNG, OUTER], 2);
    TopDownTwo([0x64, 0x2F, 0x63], [0x68, 0x2F, 0x62]);
  }
}
