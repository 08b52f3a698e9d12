/** Index::toTree (Index.cpp) as functions of the loose store's file system:
    the map of pending directory trees the building phase fills from the
    staged entries, and the final phase that stores every tree but the
    root and links it into its parent. The imperative loops are in the
    Staging module and are proved equal to these functions. */
module TreeBuilding {
  import opened Wrappers
  import opened Bytes
  import opened Numerals
  import opened Endian
  import opened Ids
  import opened Paths
  import opened PathMaps
  import opened Primitives
  import opened Objects
  import opened Trees
  import opened LooseStore
  import opened IndexFormat

  /** The mode of a sub-directory entry, octal 040000. */
  const DirectoryMode: u16 := 0x4000

  const EmptyTree: Tree := Tree.Tree([])

  /** `pendingTrees[k]` read: the tree under `k`, or the default-constructed
      (empty) tree operator[] would insert. */
  function PendingTree(pending: PathMap<Tree>, k: Path): Tree {
    match PathMaps.Find(pending, k)
    case Some(t) => t
    case None => EmptyTree
  }

  /** The invariant of the pending map: ordered, the root "" present, and
      the parent of every pending directory pending too. */
  predicate Pending(m: PathMap<Tree>) {
    Ordered(m) && [] in ToMap(m) && forall k | k in ToMap(m) :: ParentPath(k) in ToMap(m)
  }

  // ---------------------------------------------------------------------
  // Building phase

  /** The start of toTree: `pendingTrees[""]` is the parent commit's object
      read with readAsTree, or the empty tree without a parent.
      AS WRITTEN: the object named by the parent commit id is read directly
      with readAsTree; for a commit object that fails with
      CorruptRepository, since its type is not Tree (see
      ParentCommitReadAsTree). */
  function InitialTrees(p: Primitives, fs: FileSystem, parentCommit: Option<Id>): (r: Result<PathMap<Tree>>) {
    match parentCommit
    case None => Ok([([], EmptyTree)])
    case Some(h) =>
      match StoreGet(fs, p, h)
      case Err(_) => Err(InvalidParentCommit)
      case Ok(parent) =>
        match DecodeTree(parent)
        case Err(e) => Err(e)
        case Ok(t) => Ok([([], t)])
  }

  /** The branch of the worklist loop taken once the parent of `path` is
      pending: the parent's tree is asked for `path.filename()`; an entry
      found is loaded from the store and read as a tree, replacing what was
      pending under `path`; otherwise `pendingTrees[path];` adds an empty
      tree when none is pending. The source calls cam.get twice on the same
      id; both calls see the same file system, so one lookup stands for
      both. */
  function LoadDirectory(p: Primitives, fs: FileSystem, pending: PathMap<Tree>, path: Path): (r: Result<PathMap<Tree>>) {
    match TreeGet(PendingTree(pending, ParentPath(path)), FileName(path))
    case None => Ok(Insert(pending, path, EmptyTree))
    case Some(h) =>
      match StoreGet(fs, p, h)
      case Err(_) => Err(MissingBackingFile)
      case Ok(o) =>
        match DecodeTree(o)
        case Err(e) => Err(e)
        case Ok(t) => Ok(Assign(pending, path, t))
  }

  /** The worklist loop for one staged name, started with `treesToLoad`
      holding `path`: ancestors whose parent is not pending are pushed, and
      each directory is loaded once its parent is pending, the deepest
      missing ancestor first. The root "" is always pending, so the walk
      stops at "" at the latest; the model stops there explicitly. */
  function LoadAncestors(p: Primitives, fs: FileSystem, pending: PathMap<Tree>, path: Path): (r: Result<PathMap<Tree>>)
    decreases |path|
  {
    if path == [] || PathMaps.Find(pending, ParentPath(path)).Some? then LoadDirectory(p, fs, pending, path)
    else
      match LoadAncestors(p, fs, pending, ParentPath(path))
      case Err(e) => Err(e)
      case Ok(loaded) => LoadDirectory(p, fs, loaded, path)
  }

  /** The leaf entry of a staged file.
      AS WRITTEN: the entry's fileName is the whole staged path, not its
      last component, while Tree::set is keyed by the component. */
  function Leaf(name: Path, e: Entry): DirEntry {
    DirEntry(ToU16(e.mode), PathText(name), e.hash)
  }

  /** One turn of the loop over the staged entries. */
  function StageEntry(p: Primitives, fs: FileSystem, pending: PathMap<Tree>, name: Path, e: Entry): (r: Result<PathMap<Tree>>) {
    var dir := ParentPath(name);
    match LoadAncestors(p, fs, pending, dir)
    case Err(err) => Err(err)
    case Ok(loaded) => Ok(Assign(loaded, dir, TreeSet(PendingTree(loaded, dir), FileName(name), Leaf(name, e))))
  }

  /** The loop over `objects` in key order. */
  function StageAll(p: Primitives, fs: FileSystem, pending: PathMap<Tree>, objects: PathMap<Entry>): (r: Result<PathMap<Tree>>)
    decreases |objects|
  {
    if objects == [] then Ok(pending)
    else
      match StageAll(p, fs, pending, objects[..|objects| - 1])
      case Err(e) => Err(e)
      case Ok(m) => StageEntry(p, fs, m, objects[|objects| - 1].0, objects[|objects| - 1].1)
  }

  // ---------------------------------------------------------------------
  // Final phase

  /** `pendingTrees[path.parent_path()].set(path.filename(), {040000,
      path.filename(), id})` on the map without `path`. */
  function LinkInto(rest: PathMap<Tree>, path: Path, id: Id): (r: PathMap<Tree>) {
    var dir := ParentPath(path);
    Assign(rest, dir, TreeSet(PendingTree(rest, dir), FileName(path), DirEntry(DirectoryMode, FileName(path), id)))
  }

  /** The last loop of toTree: while more than the root is pending, the
      greatest key is taken out, its tree serialised, linked into the
      parent's tree under its id and added to the store; then the root's
      object is returned, not stored. A failure of GitCAM::add ends it. */
  function LinkTrees(p: Primitives, fs: FileSystem, pending: PathMap<Tree>): (r: (Result<Object>, FileSystem))
    requires Pending(pending)
    decreases |pending|
  {
    if |pending| <= 1 then (Ok(Object(TreeBuffer(PendingTree(pending, [])))), fs)
    else
      var path := pending[|pending| - 1].0;
      var obj := Object(TreeBuffer(pending[|pending| - 1].1));
      var linked := LinkInto(pending[..|pending| - 1], path, ObjectId(p, obj));
      var added := StoreAdd(fs, p, obj);
      if added.0.Err? then (Err(added.0.error), added.1)
      else
        LinkStep(pending, ObjectId(p, obj));
        LinkTrees(p, added.1, linked)
  }

  /** Index::toTree as a function of the store and the staged entries: the
      result and the store afterwards. The building phase only reads the
      store. */
  function BuildTree(p: Primitives, fs: FileSystem, objects: PathMap<Entry>, parentCommit: Option<Id>): (r: (Result<Object>, FileSystem)) {
    match InitialTrees(p, fs, parentCommit)
    case Err(e) => (Err(e), fs)
    case Ok(init) =>
      InitialPending(p, fs, parentCommit);
      match StageAll(p, fs, init, objects)
      case Err(e) => (Err(e), fs)
      case Ok(pending) =>
        StageAllPending(p, fs, init, objects);
        LinkTrees(p, fs, pending)
  }

  // ---------------------------------------------------------------------
  // Properties of the building phase

  lemma InitialPending(p: Primitives, fs: FileSystem, parentCommit: Option<Id>)
    ensures InitialTrees(p, fs, parentCommit).Ok? ==> Pending(InitialTrees(p, fs, parentCommit).value)
  {
  }

  /** Without a parent commit the root starts empty; a parent id the store
      does not have fails. */
  lemma InitialTreesOutcomes(p: Primitives, fs: FileSystem, parentCommit: Option<Id>)
    ensures parentCommit.None? ==> InitialTrees(p, fs, parentCommit) == Ok([([], EmptyTree)])
    ensures parentCommit.Some? && StoreGet(fs, p, parentCommit.value).Err? ==>
      InitialTrees(p, fs, parentCommit) == Err(InvalidParentCommit)
    ensures InitialTrees(p, fs, parentCommit).Ok? ==> |InitialTrees(p, fs, parentCommit).value| == 1
  {
  }

  /** A parent id that names a commit object makes toTree fail: the commit
      is read with readAsTree, which rejects every non-tree object. */
  lemma ParentCommitReadAsTree(p: Primitives, fs: FileSystem, objects: PathMap<Entry>, h: Id)
    requires StoreGet(fs, p, h).Ok? && TypeOf(StoreGet(fs, p, h).value) == ObjType.Commit
    ensures InitialTrees(p, fs, Some(h)) == Err(CorruptRepository)
    ensures BuildTree(p, fs, objects, Some(h)) == (Err(CorruptRepository), fs)
  {
  }

  /** `m[path] = v` for a directory whose parent is pending keeps the
      invariant. */
  lemma AssignPending(m: PathMap<Tree>, path: Path, v: Tree)
    requires Pending(m) && ParentPath(path) in ToMap(m)
    ensures Pending(Assign(m, path, v)) && ToMap(Assign(m, path, v)) == ToMap(m)[path := v]
  {
    AssignSpec(m, path, v);
  }

  /** `pendingTrees[path];` for a directory whose parent is pending keeps
      the invariant. */
  lemma InsertPending(m: PathMap<Tree>, path: Path, v: Tree)
    requires Pending(m) && ParentPath(path) in ToMap(m)
    ensures Pending(Insert(m, path, v))
    ensures ToMap(Insert(m, path, v)) == if path in ToMap(m) then ToMap(m) else ToMap(m)[path := v]
  {
    InsertSpec(m, path, v);
  }

  /** The two ways a directory load can succeed: the empty tree inserted,
      or a tree read from the store assigned. */
  lemma LoadDirectoryShape(p: Primitives, fs: FileSystem, pending: PathMap<Tree>, path: Path) returns (t: Tree)
    ensures var r := LoadDirectory(p, fs, pending, path);
      r.Ok? ==> r.value == Insert(pending, path, EmptyTree) || r.value == Assign(pending, path, t)
  {
    t := EmptyTree;
    match TreeGet(PendingTree(pending, ParentPath(path)), FileName(path))
    case None =>
    case Some(h) =>
      match StoreGet(fs, p, h)
      case Err(_) =>
      case Ok(o) =>
        match DecodeTree(o)
        case Err(_) =>
        case Ok(decoded) =>
          t := decoded;
  }

  /** Loading a directory whose parent is pending keeps the invariant,
      makes the directory pending and changes no other pending tree. */
  lemma LoadDirectoryPending(p: Primitives, fs: FileSystem, pending: PathMap<Tree>, path: Path)
    requires Pending(pending) && ParentPath(path) in ToMap(pending)
    ensures var r := LoadDirectory(p, fs, pending, path);
      r.Ok? ==>
        Pending(r.value) && path in ToMap(r.value)
        && ToMap(r.value).Keys == ToMap(pending).Keys + {path}
        && forall k | k in ToMap(pending) && k != path :: ToMap(r.value)[k] == ToMap(pending)[k]
  {
    var t := LoadDirectoryShape(p, fs, pending, path);
    var r := LoadDirectory(p, fs, pending, path);
    if r.Ok? {
      if r.value == Insert(pending, path, EmptyTree) {
        InsertPending(pending, path, EmptyTree);
      } else {
        AssignPending(pending, path, t);
      }
    }
  }

  /** The loop over the staged entries stops at the first failure: once a
      prefix fails, the whole loop fails in the same way. */
  lemma {:induction false} StageAllPrefixErr(p: Primitives, fs: FileSystem, pending: PathMap<Tree>, objects: PathMap<Entry>, j: nat)
    requires j <= |objects| && StageAll(p, fs, pending, objects[..j]).Err?
    ensures StageAll(p, fs, pending, objects) == StageAll(p, fs, pending, objects[..j])
    decreases |objects| - j
  {
    if j == |objects| {
      assert objects[..j] == objects;
    } else {
      assert objects[..j + 1][..j] == objects[..j];
      StageAllPrefixErr(p, fs, pending, objects, j + 1);
    }
  }

  /** The worklist loop keeps the invariant, leaves `path` pending, adds
      only `path` and its ancestors, and replaces no tree outside them. */
  lemma {:induction false} LoadAncestorsPending(p: Primitives, fs: FileSystem, pending: PathMap<Tree>, path: Path)
    requires Pending(pending)
    ensures var r := LoadAncestors(p, fs, pending, path);
      r.Ok? ==>
        Pending(r.value) && path in ToMap(r.value)
        && ToMap(pending).Keys <= ToMap(r.value).Keys
        && forall k | k in ToMap(r.value) && k !in ToMap(pending) :: |k| <= |path| && k == path[..|k|]
    decreases |path|
  {
    var r := LoadAncestors(p, fs, pending, path);
    FindIsLookup(pending, ParentPath(path));
    if path == [] || PathMaps.Find(pending, ParentPath(path)).Some? {
      LoadDirectoryPending(p, fs, pending, path);
    } else {
      var up := ParentPath(path);
      LoadAncestorsPending(p, fs, pending, up);
      var mid := LoadAncestors(p, fs, pending, up);
      if mid.Ok? {
        LoadDirectoryPending(p, fs, mid.value, path);
        if r.Ok? {
          forall k | k in ToMap(r.value) && k !in ToMap(pending)
            ensures |k| <= |path| && k == path[..|k|]
          {
            if k != path {
              PrefixOfParent(k, path);
            }
          }
        }
      }
    }
  }

  /** A prefix of the parent of a path is a prefix of the path. */
  lemma PrefixOfParent(k: Path, path: Path)
    requires |k| <= |ParentPath(path)| && k == ParentPath(path)[..|k|]
    ensures |k| <= |path| && k == path[..|k|]
  {
  }

  /** Every ancestor of a pending directory is pending. */
  lemma {:induction false} AncestorsPending(m: PathMap<Tree>, path: Path, k: nat)
    requires Pending(m) && path in ToMap(m) && k <= |path|
    ensures path[..k] in ToMap(m)
    decreases |path| - k
  {
    if k < |path| {
      assert ParentPath(path) in ToMap(m);
      AncestorsPending(m, ParentPath(path), k);
      assert ParentPath(path)[..k] == path[..k];
    } else {
      assert path[..k] == path;
    }
  }

  /** After a staged entry is processed, its directory and every ancestor
      of it are pending, and the directory's tree holds the leaf entry,
      which settles the directory's entry for the file name. */
  lemma StageEntrySpec(p: Primitives, fs: FileSystem, pending: PathMap<Tree>, name: Path, e: Entry)
    requires Pending(pending)
    ensures var r := StageEntry(p, fs, pending, name, e);
      r.Ok? ==>
        Pending(r.value)
        && ParentPath(name) in ToMap(r.value)
        && (forall k | 0 <= k <= |ParentPath(name)| :: ParentPath(name)[..k] in ToMap(r.value))
        && Leaf(name, e) in ToMap(r.value)[ParentPath(name)].entries
        && ToMap(pending).Keys <= ToMap(r.value).Keys
  {
    var dir := ParentPath(name);
    LoadAncestorsPending(p, fs, pending, dir);
    var loaded := LoadAncestors(p, fs, pending, dir);
    if loaded.Ok? {
      var t := TreeSet(PendingTree(loaded.value, dir), FileName(name), Leaf(name, e));
      AssignSpec(loaded.value, dir, t);
      var r := Assign(loaded.value, dir, t);
      forall k | 0 <= k <= |dir|
        ensures dir[..k] in ToMap(r)
      {
        AncestorsPending(r, dir, k);
      }
      TreeSetHolds(PendingTree(loaded.value, dir), FileName(name), Leaf(name, e));
    }
  }

  /** The entry set is in the tree afterwards. */
  lemma TreeSetHolds(t: Tree, name: Bytes, e: DirEntry)
    ensures e in TreeSet(t, name, e).entries
  {
    var r := TreeSet(t, name, e);
    match FindName(t.entries, name)
    case Some(i) =>
      assert r.entries[i] == e;
    case None =>
      assert r.entries[|t.entries|] == e;
  }

  /** For a file in the root the leaf's fileName is its name, so get finds
      it; one level down and deeper it is the whole path. */
  lemma LeafName(name: Path, e: Entry)
    requires |name| == 1
    ensures Leaf(name, e).fileName == FileName(name)
  {
    assert PathText(name) == name[0];
  }

  /** The building phase keeps the invariant. */
  lemma {:induction false} StageAllPending(p: Primitives, fs: FileSystem, pending: PathMap<Tree>, objects: PathMap<Entry>)
    requires Pending(pending)
    ensures StageAll(p, fs, pending, objects).Ok? ==> Pending(StageAll(p, fs, pending, objects).value)
    decreases |objects|
  {
    if objects != [] {
      StageAllPending(p, fs, pending, objects[..|objects| - 1]);
      var m := StageAll(p, fs, pending, objects[..|objects| - 1]);
      if m.Ok? {
        StageEntrySpec(p, fs, m.value, objects[|objects| - 1].0, objects[|objects| - 1].1);
      }
    }
  }

  // ---------------------------------------------------------------------
  // Properties of the final phase

  /** `m[k] = v` on a present key keeps the length. */
  lemma {:induction false} AssignPresentLength<V>(m: PathMap<V>, k: Path, v: V)
    requires Ordered(m) && k in ToMap(m)
    ensures |Assign(m, k, v)| == |m|
  {
    if m != [] && m[0].0 != k {
      OrderedTail(m);
      if PathLess(k, m[0].0) {
        AboveTransitive(k, m[0].0, m[1..]);
        AboveAbsent(k, m[1..]);
        assert false;
      }
      AssignPresentLength(m[1..], k, v);
    }
  }

  /** One turn of the final loop: the greatest key goes, its parent is
      pending and gets the sub-directory entry, and the invariant holds
      with one key fewer. */
  lemma LinkStep(pending: PathMap<Tree>, id: Id)
    requires Pending(pending) && |pending| > 1
    ensures var path := pending[|pending| - 1].0;
      var linked := LinkInto(pending[..|pending| - 1], path, id);
      Pending(linked) && |linked| == |pending| - 1
      && path != [] && (forall k | k in ToMap(pending) :: k == path || PathLess(k, path))
      && ToMap(linked).Keys == ToMap(pending).Keys - {path}
      && ParentPath(path) in ToMap(linked)
      && TreeGet(ToMap(linked)[ParentPath(path)], FileName(path)) == Some(id)
      && forall k | k in ToMap(linked) && k != ParentPath(path) :: ToMap(linked)[k] == ToMap(pending)[k]
  {
    var path := pending[|pending| - 1].0;
    var rest := pending[..|pending| - 1];
    var dir := ParentPath(path);
    DropLast(pending);
    assert PathLess(pending[0].0, path);
    PathLessIrreflexive(path);
    assert path != [];
    ToMapKeys(pending, path);
    assert dir in ToMap(pending);
    assert dir in ToMap(rest);
    var t := TreeSet(PendingTree(rest, dir), FileName(path), DirEntry(DirectoryMode, FileName(path), id));
    AssignSpec(rest, dir, t);
    AssignPresentLength(rest, dir, t);
    var linked := Assign(rest, dir, t);
    forall k | k in ToMap(linked)
      ensures ParentPath(k) in ToMap(linked)
    {
      if ParentPath(k) == path {
        ParentLess(k);
        PathLessAsymmetric(path, k);
      }
    }
    GetAfterSet(PendingTree(rest, dir), FileName(path), DirEntry(DirectoryMode, FileName(path), id));
  }

  /** With only the root pending, the loop ends at once: the root's object
      comes back and nothing is stored. */
  lemma LinkTreesDone(p: Primitives, fs: FileSystem, pending: PathMap<Tree>)
    requires Pending(pending) && |pending| == 1
    ensures LinkTrees(p, fs, pending) == (Ok(Object(TreeBuffer(ToMap(pending)[[]]))), fs)
  {
    FindIsLookup(pending, []);
  }

  /** The final phase never removes or rewrites a file of the store. */
  lemma {:induction false} LinkTreesKeepsFiles(p: Primitives, fs: FileSystem, pending: PathMap<Tree>, f: Path)
    requires Pending(pending) && IsRegularFile(fs, f)
    ensures IsRegularFile(LinkTrees(p, fs, pending).1, f) && LinkTrees(p, fs, pending).1[f] == fs[f]
    decreases |pending|
  {
    if |pending| > 1 {
      var obj := Object(TreeBuffer(pending[|pending| - 1].1));
      AddKeepsFile(fs, p, obj, f);
      var added := StoreAdd(fs, p, obj);
      if added.0.Ok? {
        LinkStep(pending, ObjectId(p, obj));
        LinkTreesKeepsFiles(p, added.1, LinkInto(pending[..|pending| - 1], pending[|pending| - 1].0, ObjectId(p, obj)), f);
      }
    }
  }

  /** GitCAM::add leaves a regular file where it is. */
  lemma AddKeepsFile(fs: FileSystem, p: Primitives, obj: Object, f: Path)
    requires IsRegularFile(fs, f)
    ensures IsRegularFile(StoreAdd(fs, p, obj).1, f) && StoreAdd(fs, p, obj).1[f] == fs[f]
  {
  }

  /** When the final phase succeeds, the tree of the greatest pending key
      is in the store afterwards, under the id its parent's entry got. */
  lemma LinkTreesStoresLast(p: Primitives, fs: FileSystem, pending: PathMap<Tree>)
    requires Lossless(p) && Pending(pending) && |pending| > 1
    requires LinkTrees(p, fs, pending).0.Ok?
    requires var obj := Object(TreeBuffer(pending[|pending| - 1].1));
      IsRegularFile(fs, ShardPath(ObjectId(p, obj))) ==> p.decompress(fs[ShardPath(ObjectId(p, obj))].content) == obj.buffer
    ensures var obj := Object(TreeBuffer(pending[|pending| - 1].1));
      StoreGet(LinkTrees(p, fs, pending).1, p, ObjectId(p, obj)) == Ok(obj)
  {
    var obj := Object(TreeBuffer(pending[|pending| - 1].1));
    var added := StoreAdd(fs, p, obj);
    GetAfterAdd(fs, p, obj);
    LinkStep(pending, ObjectId(p, obj));
    var linked := LinkInto(pending[..|pending| - 1], pending[|pending| - 1].0, ObjectId(p, obj));
    var f := ShardPath(ObjectId(p, obj));
    LinkTreesKeepsFiles(p, added.1, linked, f);
  }
}
