/** Index (Index.cpp): the staging area. Its entries are a std::map from
    path to Index::Entry; add stages a file's blob in the loose store,
    remove forgets a path, load reads the bytes of .git/index, save builds
    them (the source never writes them out), and toTree turns the entries
    into the tree objects of a commit. */
module Staging {
  import opened Wrappers
  import opened Bytes
  import opened Text
  import opened Numerals
  import opened Endian
  import opened Ids
  import opened Paths
  import opened PathMaps
  import opened Primitives
  import opened Objects
  import opened Trees
  import opened LooseStore
  import opened IndexFormat
  import opened TreeBuilding

  /** What stat() reports about a file, in the platform's own (wider,
      possibly signed) integer types. */
  datatype Stat = Stat(
    ctimeSec: int, ctimeNs: int, mtimeSec: int, mtimeNs: int,
    dev: int, ino: int, mode: int, uid: int, gid: int, size: int)

  /** The entry Index::add fills in: each stat field narrowed to uint32_t,
      the blob's id, the length of the path's text clamped to 0xFFF as the
      flags, and the text itself as the name. */
  function StagedEntry(path: Path, st: Stat, hash: Id): Entry {
    var name := PathText(path);
    Entry(ToU32(st.ctimeSec), ToU32(st.ctimeNs), ToU32(st.mtimeSec), ToU32(st.mtimeNs),
          ToU32(st.dev), ToU32(st.ino), ToU32(st.mode), ToU32(st.uid), ToU32(st.gid),
          ToU32(st.size), hash, NameLength(|name|), name)
  }

  /** Index::add as a function of the entries and the store before the
      call. `st` is the outcome of stat() (`None` when it fails) and
      `content` the file's bytes, which Object(path) reads.
      AS WRITTEN: the entry goes in with map::insert, so a path that is
      already staged keeps its old entry (see StageFileSpec). */
  function StageFile(objects: PathMap<Entry>, fs: FileSystem, p: Primitives, path: Path, st: Option<Stat>, content: Bytes): (r: (PathMap<Entry>, FileSystem, Result<()>)) {
    match st
    case None => (objects, fs, Err(StatFailed))
    case Some(s) =>
      var obj := BlobObject(content);
      var added := StoreAdd(fs, p, obj);
      if added.0.Err? then (objects, added.1, Err(added.0.error))
      else (Insert(objects, path, StagedEntry(path, s, ObjectId(p, obj))), added.1, Ok(()))
  }

  /** What is left of toTree's worklist loop with `stack` still to load:
      the top of the stack with the ancestors it still needs, then the
      rest of the stack. */
  ghost function Unwind(p: Primitives, fs: FileSystem, pending: PathMap<Tree>, stack: seq<Path>): Result<PathMap<Tree>>
    decreases |stack|
  {
    if stack == [] then Ok(pending)
    else
      match LoadAncestors(p, fs, pending, stack[|stack| - 1])
      case Err(e) => Err(e)
      case Ok(m) => Unwind(p, fs, m, stack[..|stack| - 1])
  }

  // ---------------------------------------------------------------------
  // Properties of add

  /** add keeps the order of the entries. It fails without touching them
      when stat fails or the store refuses the blob, and leaves the store as
      it was on every failure. On success a path already staged keeps its
      old entry, and a new path gets the entry built from the stat data and
      the blob's id. */
  lemma StageFileSpec(objects: PathMap<Entry>, fs: FileSystem, p: Primitives, path: Path, st: Option<Stat>, content: Bytes)
    requires Ordered(objects)
    ensures var (objects', fs', r) := StageFile(objects, fs, p, path, st, content);
      Ordered(objects')
      && (st.None? ==> r == Err(StatFailed))
      && (r.Err? ==> objects' == objects && fs' == fs)
      && (r.Ok? ==>
            st.Some? && ToMap(objects') ==
              if path in ToMap(objects) then ToMap(objects)
              else ToMap(objects)[path := StagedEntry(path, st.value, ObjectId(p, BlobObject(content)))])
  {
    if st.Some? {
      AddOutcomes(fs, p, BlobObject(content));
      InsertSpec(objects, path, StagedEntry(path, st.value, ObjectId(p, BlobObject(content))));
    }
  }

  /** After a successful add the store hands the file's blob back under
      the id the entry records, when inflate undoes deflate and a file
      already at the blob's shard path holds the same object. */
  lemma StageFileStoresBlob(objects: PathMap<Entry>, fs: FileSystem, p: Primitives, path: Path, s: Stat, content: Bytes)
    requires Lossless(p)
    requires StageFile(objects, fs, p, path, Some(s), content).2.Ok?
    requires var f := ShardPath(ObjectId(p, BlobObject(content)));
      IsRegularFile(fs, f) ==> p.decompress(fs[f].content) == BlobObject(content).buffer
    ensures var fs' := StageFile(objects, fs, p, path, Some(s), content).1;
      StoreGet(fs', p, StagedEntry(path, s, ObjectId(p, BlobObject(content))).hash) == Ok(BlobObject(content))
      && TypeOf(BlobObject(content)) == Blob && DataOf(BlobObject(content)) == content
  {
    GetAfterAdd(fs, p, BlobObject(content));
  }

  /** An entry add makes for a path whose components are non-empty and hold
      neither '/' nor NUL is one save writes and load reads back under the
      same path, changed only in its byte-swapped filesize. */
  lemma StagedStorable(path: Path, st: Stat, hash: Id)
    requires ValidPath(path) && forall k | 0 <= k < |path| :: NUL !in path[k]
    ensures var e := StagedEntry(path, st, hash);
      NUL !in e.fileName && ParsePath(e.fileName) == path
      && Reloaded(e) == e.(filesize := Swap32(e.filesize))
  {
    ParsePathText(path);
    JoinFree(path, SLASH, NUL);
    FlagsWordParts(StagedEntry(path, st, hash));
  }

  /** Assigning an entry whose name spells its key keeps every name
      spelling its key. */
  lemma StorableAssign(m: PathMap<Entry>, k: Path, e: Entry)
    requires Storable(m) && NUL !in e.fileName && ParsePath(e.fileName) == k
    ensures Storable(Assign(m, k, e))
  {
    AssignPairs(m, k, e);
    var r := Assign(m, k, e);
    forall i | 0 <= i < |r|
      ensures NUL !in r[i].1.fileName && ParsePath(r[i].1.fileName) == r[i].0
    {
      assert r[i] in r;
      if r[i] != (k, e) {
        var j :| 0 <= j < |m| && m[j] == r[i];
      }
    }
  }

  /** Staging valid paths keeps the entries storable, so that save and
      load give them back (SaveLoadRoundTrip). */
  lemma StageFileStorable(objects: PathMap<Entry>, fs: FileSystem, p: Primitives, path: Path, st: Option<Stat>, content: Bytes)
    requires Storable(objects)
    requires ValidPath(path) && forall k | 0 <= k < |path| :: NUL !in path[k]
    ensures Storable(StageFile(objects, fs, p, path, st, content).0)
  {
    var staged := StageFile(objects, fs, p, path, st, content).0;
    if st.Some? {
      var e := StagedEntry(path, st.value, ObjectId(p, BlobObject(content)));
      assert staged == objects || staged == Insert(objects, path, e);
      if staged != objects {
        StagedStorable(path, st.value, ObjectId(p, BlobObject(content)));
        StorableAssign(objects, path, e);
      }
    }
  }

  /** Erasing a key keeps every remaining name spelling its key. */
  lemma StorableErase(m: PathMap<Entry>, k: Path)
    requires Storable(m)
    ensures Storable(Erase(m, k))
  {
    ErasePairs(m, k);
    var r := Erase(m, k);
    forall i | 0 <= i < |r|
      ensures NUL !in r[i].1.fileName && ParsePath(r[i].1.fileName) == r[i].0
    {
      assert r[i] in r;
      var j :| 0 <= j < |m| && m[j] == r[i];
    }
  }

  // ---------------------------------------------------------------------
  // The worklist of toTree

  /** Loading the top of the stack once its parent is pending. */
  lemma UnwindPop(p: Primitives, fs: FileSystem, pending: PathMap<Tree>, stack: seq<Path>)
    requires stack != [] && PathMaps.Find(pending, ParentPath(stack[|stack| - 1])).Some?
    ensures Unwind(p, fs, pending, stack) ==
      match LoadDirectory(p, fs, pending, stack[|stack| - 1])
      case Err(e) => Err(e)
      case Ok(m) => Unwind(p, fs, m, stack[..|stack| - 1])
  {
  }

  /** Pushing the parent of the top, when that parent is not pending,
      leaves the outcome of the loop as it was: the parent is loaded first,
      and then the top's parent is pending. */
  lemma UnwindPush(p: Primitives, fs: FileSystem, pending: PathMap<Tree>, stack: seq<Path>)
    requires Pending(pending) && stack != []
    requires PathMaps.Find(pending, ParentPath(stack[|stack| - 1])).None?
    ensures Unwind(p, fs, pending, stack + [ParentPath(stack[|stack| - 1])]) == Unwind(p, fs, pending, stack)
  {
    var top := stack[|stack| - 1];
    var up := ParentPath(top);
    FindIsLookup(pending, up);
    assert top != [];
    assert (stack + [up])[..|stack|] == stack;
    LoadAncestorsPending(p, fs, pending, up);
    var mid := LoadAncestors(p, fs, pending, up);
    if mid.Ok? {
      FindIsLookup(mid.value, up);
    }
  }

  /** One turn of the final loop of toTree, read off LinkTrees. */
  lemma LinkTreesStep(p: Primitives, fs: FileSystem, pending: PathMap<Tree>)
    requires Pending(pending) && |pending| > 1
    ensures var obj := Object(TreeBuffer(pending[|pending| - 1].1));
      var linked := LinkInto(pending[..|pending| - 1], pending[|pending| - 1].0, ObjectId(p, obj));
      var added := StoreAdd(fs, p, obj);
      Pending(linked) && |linked| == |pending| - 1
      && LinkTrees(p, fs, pending) ==
           if added.0.Err? then (Err(added.0.error), added.1) else LinkTrees(p, added.1, linked)
  {
    LinkStep(pending, ObjectId(p, Object(TreeBuffer(pending[|pending| - 1].1))));
  }

  // ---------------------------------------------------------------------

  /** One turn of the loop in Index::save: the ten stat words with
      add32be, the hash, the flags word with add16be, the name with addNT
      and the padding. */
  method WriteRecord(w: Bytes, e: Entry) returns (w': Bytes)
    ensures w' == w + EntryRecord(e)
  {
    var ws := StatWords(e);
    w' := w;
    for k := 0 to 10
      invariant w' == w + Words32(ws[..k])
    {
      Words32Append(ws[..k], ws[k]);
      assert ws[..k + 1] == ws[..k] + [ws[k]];
      w' := w' + BE32(ws[k]);
    }
    assert ws[..10] == ws;
    w' := w' + e.hash;
    var length := NameLength(|e.fileName|);
    w' := w' + BE16(e.flags / 0x1000 * 0x1000 + length);
    w' := w' + e.fileName + [NUL];
    w' := w' + Zeros(Padding(|e.fileName|));
  }

  class Index {
    var objects: PathMap<Entry>
    const cam: GitCAM

    /** Index(cam): no entries yet. The source's constructor goes on to
        call load, which is Load here. */
    constructor(cam0: GitCAM)
      ensures cam == cam0 && objects == []
    {
      cam := cam0;
      objects := [];
    }

    /** Index::add. */
    method Add(p: Primitives, path: Path, st: Option<Stat>, content: Bytes) returns (r: Result<()>)
      modifies this, cam
      ensures (objects, cam.fs, r) == StageFile(old(objects), old(cam.fs), p, path, st, content)
    {
      if st.None? {
        return Err(StatFailed);
      }
      var obj := BlobObject(content);
      var e := StagedEntry(path, st.value, ObjectId(p, obj));
      var added := cam.Add(p, obj);
      if added.Err? {
        return Err(added.error);
      }
      objects := Insert(objects, path, e);
      r := Ok(());
    }

    /** Index::remove. */
    method Remove(path: Path)
      modifies this
      ensures objects == Erase(old(objects), path)
    {
      objects := Erase(objects, path);
    }

    /** Index::load, with the contents of .git/index as `file` (`None`
        when it is not a regular file). */
    method Load(p: Primitives, file: Option<Bytes>) returns (r: Result<()>)
      modifies this
      ensures (objects, r) == LoadIndex(old(objects), p, file)
    {
      if file.None? {
        return Ok(());
      }
      var f := file.value;
      if |f| < 20 || p.sha1(f[..|f| - 20]) != f[|f| - 20..] {
        objects := [];
        return Err(IndexCorrupted);
      }
      var id := ReadBE32(f[..4]);
      if id != DircacheMagic {
        return Err(InvalidMagic);
      }
      var version := ReadBE32(f[4..8]);
      if version != DircacheVersion {
        return Err(UnexpectedVersion(version));
      }
      var entryCount := ReadBE32(f[8..12]);
      var rest := f[12..];
      var n: nat := 0;
      while n < entryCount
        invariant n <= entryCount
        invariant LoadEntries(objects, rest, n, entryCount) == LoadIndex(old(objects), p, file)
        decreases entryCount - n
      {
        var turn := IndexFormat.ReadEntry(rest);
        if turn.Err? {
          return Err(ReadFailed(n + 1));
        }
        var e := turn.value.0;
        objects := Assign(objects, ParsePath(e.fileName), e);
        rest := rest[turn.value.1..];
        n := n + 1;
      }
      r := Ok(());
    }

    /** Index::save: the bytes it builds for .git/index. */
    method Save(p: Primitives) returns (bytes: Bytes)
      ensures bytes == SavedIndex(p, objects)
    {
      var w := BE32(DircacheMagic) + BE32(DircacheVersion) + BE32(ToU32(|objects|));
      var i := 0;
      while i < |objects|
        invariant 0 <= i <= |objects|
        invariant w == IndexHeader(|objects|) + IndexBody(objects[..i])
      {
        IndexBodyAppend(objects[..i], objects[i]);
        assert objects[..i + 1] == objects[..i] + [objects[i]];
        w := WriteRecord(w, objects[i].1);
        i := i + 1;
      }
      assert objects[..i] == objects;
      bytes := w + p.sha1(w);
    }

    /** The branch of the worklist loop taken once the parent of `path` is
        pending; the entry found is fetched twice, as the source does. */
    method LoadTree(p: Primitives, pending: PathMap<Tree>, path: Path) returns (r: Result<PathMap<Tree>>)
      ensures r == LoadDirectory(p, cam.fs, pending, path)
    {
      var parentTree := PendingTree(pending, ParentPath(path));
      var file := TreeGet(parentTree, FileName(path));
      if file.None? {
        return Ok(Insert(pending, path, EmptyTree));
      }
      var blob := cam.Get(p, file.value);
      if blob.Err? {
        return Err(MissingBackingFile);
      }
      var again := cam.Get(p, file.value);
      var t := ReadAsTree(again.value);
      if t.Err? {
        return Err(t.error);
      }
      return Ok(Assign(pending, path, t.value));
    }

    /** The worklist loop of toTree for one staged name whose directory is
        `dir`: `treesToLoad` starts with `dir`; a path whose parent is not
        pending has that parent pushed, and one whose parent is pending is
        loaded and popped. */
    method LoadTrees(p: Primitives, pending0: PathMap<Tree>, dir: Path) returns (r: Result<PathMap<Tree>>)
      requires Pending(pending0)
      ensures r == LoadAncestors(p, cam.fs, pending0, dir)
    {
      var pending := pending0;
      var treesToLoad := [dir];
      ghost var climbing := true;
      while treesToLoad != []
        invariant Pending(pending)
        invariant Unwind(p, cam.fs, pending, treesToLoad) == LoadAncestors(p, cam.fs, pending0, dir)
        invariant forall k | 0 <= k < |treesToLoad| - 1 :: treesToLoad[k + 1] == ParentPath(treesToLoad[k])
        invariant climbing ==> treesToLoad != []
        invariant !climbing && treesToLoad != [] ==> ParentPath(treesToLoad[|treesToLoad| - 1]) in ToMap(pending)
        decreases if climbing then 1 else 0, if climbing then |treesToLoad[|treesToLoad| - 1]| else |treesToLoad|
      {
        var path := treesToLoad[|treesToLoad| - 1];
        FindIsLookup(pending, ParentPath(path));
        if PathMaps.Find(pending, ParentPath(path)).Some? {
          UnwindPop(p, cam.fs, pending, treesToLoad);
          var loaded := LoadTree(p, pending, path);
          if loaded.Err? {
            return Err(loaded.error);
          }
          LoadDirectoryPending(p, cam.fs, pending, path);
          pending := loaded.value;
          treesToLoad := treesToLoad[..|treesToLoad| - 1];
          climbing := false;
        } else {
          UnwindPush(p, cam.fs, pending, treesToLoad);
          treesToLoad := treesToLoad + [ParentPath(path)];
        }
      }
      return Ok(pending);
    }

    /** The start of toTree: the parent commit's object read as a tree,
        or an empty root. */
    method StartTrees(p: Primitives, parentCommit: Option<Id>) returns (r: Result<PathMap<Tree>>)
      ensures r == InitialTrees(p, cam.fs, parentCommit)
    {
      if parentCommit.None? {
        return Ok([([], EmptyTree)]);
      }
      var parent := cam.Get(p, parentCommit.value);
      if parent.Err? {
        return Err(InvalidParentCommit);
      }
      var t := ReadAsTree(parent.value);
      if t.Err? {
        return Err(t.error);
      }
      return Ok([([], t.value)]);
    }

    /** One turn of the loop of toTree over the staged entries: the
        directory of `name` is made pending, and the leaf set in its tree. */
    method StageOne(p: Primitives, pending: PathMap<Tree>, name: Path, e: Entry) returns (r: Result<PathMap<Tree>>)
      requires Pending(pending)
      ensures r == StageEntry(p, cam.fs, pending, name, e)
      ensures r.Ok? ==> Pending(r.value)
    {
      var dir := ParentPath(name);
      StageEntrySpec(p, cam.fs, pending, name, e);
      var loaded := LoadTrees(p, pending, dir);
      if loaded.Err? {
        return Err(loaded.error);
      }
      var trees := loaded.value;
      trees := Assign(trees, dir, TreeSet(PendingTree(trees, dir), FileName(name), DirEntry(ToU16(e.mode), PathText(name), e.hash)));
      return Ok(trees);
    }

    /** The loop of toTree over the staged entries in key order. */
    method StageEntries(p: Primitives, init: PathMap<Tree>) returns (r: Result<PathMap<Tree>>)
      requires Pending(init)
      ensures r == StageAll(p, cam.fs, init, objects)
    {
      var pending := init;
      var i := 0;
      while i < |objects|
        invariant 0 <= i <= |objects|
        invariant Pending(pending)
        invariant StageAll(p, cam.fs, init, objects[..i]) == Ok(pending)
      {
        assert objects[..i + 1][..i] == objects[..i];
        var staged := StageOne(p, pending, objects[i].0, objects[i].1);
        if staged.Err? {
          StageAllPrefixErr(p, cam.fs, init, objects, i + 1);
          return staged;
        }
        pending := staged.value;
        i := i + 1;
      }
      assert objects[..i] == objects;
      return Ok(pending);
    }

    /** The last loop of toTree: while more than the root is pending, the
        greatest path is taken out, its tree linked into its parent's under
        the tree's id and added to the store; then the root's object. */
    method StoreTrees(p: Primitives, pending0: PathMap<Tree>) returns (r: Result<Object>)
      requires Pending(pending0)
      modifies cam
      ensures (r, cam.fs) == LinkTrees(p, old(cam.fs), pending0)
    {
      var pending := pending0;
      while |pending| > 1
        invariant Pending(pending)
        invariant LinkTrees(p, cam.fs, pending) == LinkTrees(p, old(cam.fs), pending0)
        decreases |pending|
      {
        var path := pending[|pending| - 1].0;
        var tree := pending[|pending| - 1].1;
        var rest := pending[..|pending| - 1];
        var obj := EncodeTree(tree);
        var dir := ParentPath(path);
        LinkTreesStep(p, cam.fs, pending);
        pending := Assign(rest, dir, TreeSet(PendingTree(rest, dir), FileName(path), DirEntry(DirectoryMode, FileName(path), ObjectId(p, obj))));
        var added := cam.Add(p, obj);
        if added.Err? {
          return Err(added.error);
        }
      }
      var root := EncodeTree(PendingTree(pending, []));
      return Ok(root);
    }

    /** Index::toTree: the tree object of the staged entries, every other
        directory tree added to the store on the way. */
    method ToTree(p: Primitives, parentCommit: Option<Id>) returns (r: Result<Object>)
      modifies cam
      ensures (r, cam.fs) == BuildTree(p, old(cam.fs), objects, parentCommit)
    {
      var init := StartTrees(p, parentCommit);
      if init.Err? {
        return Err(init.error);
      }
      InitialPending(p, cam.fs, parentCommit);
      var pending := StageEntries(p, init.value);
      if pending.Err? {
        return Err(pending.error);
      }
      StageAllPending(p, cam.fs, init.value, objects);
      r := StoreTrees(p, pending.value);
    }
  }
}
