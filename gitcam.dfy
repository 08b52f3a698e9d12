/** The loose object store (GitCAM.cpp): every object is a zlib-compressed
    file whose path below the store root is the first two hex digits of its
    id, a directory separator, and the other 38. The file system below the
    root is a map from paths to nodes; `fs` is the only state. */
module LooseStore {
  import opened Wrappers
  import opened Bytes
  import opened Ids
  import opened Paths
  import opened Primitives
  import opened Objects

  /** What a path of the file system holds. `Other` is anything that exists
      but is neither a regular file nor a directory. */
  datatype Node = RegularFile(content: Bytes) | Directory | Other

  type FileSystem = map<Path, Node>

  /** `root / id.substr(0, 2) / id.substr(2)` with `id = asId(hash)`. */
  function ShardPath(hash: Id): (p: Path)
    ensures |p| == 2 && ValidPath(p)
    ensures p[0] + p[1] == Hex(hash) && |p[0]| == 2
  {
    var hex := Hex(hash);
    assert forall k | 0 <= k < |hex| :: IsLowerHex(hex[k]) by {
      forall k | 0 <= k < |hex|
        ensures IsLowerHex(hex[k])
      {
        HexAt(hash, k / 2);
      }
    }
    assert hex[..2] + hex[2..] == hex;
    assert SLASH !in hex[..2] && SLASH !in hex[2..] by {
      forall k | 0 <= k < 2
        ensures hex[..2][k] == hex[k]
      {
      }
      forall k | 0 <= k < |hex[2..]|
        ensures hex[2..][k] == hex[k + 2]
      {
      }
    }
    [hex[..2], hex[2..]]
  }

  /** The directory create_directories makes for a shard. */
  function ShardDirectory(hash: Id): Path {
    ParentPath(ShardPath(hash))
  }

  predicate IsRegularFile(fs: FileSystem, p: Path) {
    p in fs && fs[p].RegularFile?
  }

  /** GitCAM::add as a function of the file system before the call: the
      result and the file system after it. */
  function StoreAdd(fs: FileSystem, p: Primitives, obj: Object): (r: (Result<Id>, FileSystem)) {
    var hash := ObjectId(p, obj);
    var filename := ShardPath(hash);
    var dir := ShardDirectory(hash);
    if IsRegularFile(fs, filename) then (Ok(hash), fs)
    else if filename in fs then (Err(BrokenRepository), fs)
    else if dir in fs && !fs[dir].Directory? then (Err(FilesystemError), fs)
    else (Ok(hash), fs[dir := Directory][filename := RegularFile(p.compress(obj.buffer))])
  }

  /** GitCAM::get as a function of the file system: file_size fails unless
      a regular file is at the shard path. */
  function StoreGet(fs: FileSystem, p: Primitives, hash: Id): (r: Result<Object>) {
    var file := ShardPath(hash);
    if IsRegularFile(fs, file) then Ok(Object(p.decompress(fs[file].content)))
    else Err(NotFound)
  }

  class GitCAM {
    var fs: FileSystem

    /** GitCAM(root): the store over the file system found below `root`. */
    constructor(fs0: FileSystem)
      ensures fs == fs0
    {
      fs := fs0;
    }

    /** Compute the shard path the way add and get both do. */
    method ShardFile(hash: Id) returns (filename: Path)
      ensures filename == ShardPath(hash)
    {
      var id := AsId(hash);
      filename := [id[..2], id[2..]];
    }

    /** GitCAM::add: skip when the file is there, refuse when something
        else is, otherwise create the directory and write the compressed
        buffer. */
    method Add(p: Primitives, obj: Object) returns (r: Result<Id>)
      modifies this
      ensures (r, fs) == StoreAdd(old(fs), p, obj)
    {
      var hash := ObjectId(p, obj);
      var filename := ShardFile(hash);
      var dir := ParentPath(filename);
      if filename in fs && fs[filename].RegularFile? {
        return Ok(hash);
      } else if filename in fs {
        return Err(BrokenRepository);
      } else {
        if dir in fs && !fs[dir].Directory? {
          return Err(FilesystemError);
        }
        fs := fs[dir := Directory];
        var compressedData := p.compress(obj.buffer);
        fs := fs[filename := RegularFile(compressedData)];
        return Ok(hash);
      }
    }

    /** GitCAM::get. */
    method Get(p: Primitives, hash: Id) returns (r: Result<Object>)
      ensures r == StoreGet(fs, p, hash)
    {
      var file := ShardFile(hash);
      if !(file in fs && fs[file].RegularFile?) {
        return Err(NotFound);
      }
      var buffer := fs[file].content;
      return Ok(Object(p.decompress(buffer)));
    }
  }

  /** Different ids live at different paths. */
  lemma ShardPathInjective(a: Id, b: Id)
    requires ShardPath(a) == ShardPath(b)
    ensures a == b
  {
    HexRoundTrip(a);
    HexRoundTrip(b);
    assert Hex(a) == ShardPath(a)[0] + ShardPath(a)[1];
  }

  /** The shard directory is the first two hex digits, and the file sits
      directly in it. */
  lemma ShardLayout(hash: Id)
    ensures ShardDirectory(hash) == [Hex(hash)[..2]]
    ensures ShardPath(hash) == ShardDirectory(hash) + [Hex(hash)[2..]]
    ensures ShardDirectory(hash) != ShardPath(hash)
  {
  }

  /** add returns the object's id whenever it does not fail. */
  lemma AddReturnsId(fs: FileSystem, p: Primitives, obj: Object)
    ensures StoreAdd(fs, p, obj).0.Ok? ==> StoreAdd(fs, p, obj).0.value == ObjectId(p, obj)
  {
  }

  /** The three outcomes of add, by what the shard path holds. */
  lemma AddOutcomes(fs: FileSystem, p: Primitives, obj: Object)
    ensures var f := ShardPath(ObjectId(p, obj));
      var (r, fs') := StoreAdd(fs, p, obj);
      (IsRegularFile(fs, f) ==> r.Ok? && fs' == fs)
      && (f in fs && !IsRegularFile(fs, f) ==> r == Err(BrokenRepository) && fs' == fs)
      && (r.Ok? && f !in fs ==> fs'[f] == RegularFile(p.compress(obj.buffer)))
      && (r.Err? ==> fs' == fs)
  {
  }

  /** add touches the shard file and its directory and no other path. */
  lemma AddFrame(fs: FileSystem, p: Primitives, obj: Object, q: Path)
    requires q != ShardPath(ObjectId(p, obj)) && q != ShardDirectory(ObjectId(p, obj))
    ensures var fs' := StoreAdd(fs, p, obj).1;
      (q in fs' <==> q in fs) && (q in fs ==> fs'[q] == fs[q])
  {
  }

  /** A second add of the same object changes nothing and returns the same
      id. */
  lemma AddIdempotent(fs: FileSystem, p: Primitives, obj: Object)
    requires StoreAdd(fs, p, obj).0.Ok?
    ensures var fs' := StoreAdd(fs, p, obj).1;
      StoreAdd(fs', p, obj) == (StoreAdd(fs, p, obj).0, fs')
  {
    ShardLayout(ObjectId(p, obj));
  }

  /** get finds what add stored, when inflate undoes deflate and a file
      that was already at the shard path holds the same obj. */
  lemma GetAfterAdd(fs: FileSystem, p: Primitives, obj: Object)
    requires Lossless(p) && StoreAdd(fs, p, obj).0.Ok?
    requires var f := ShardPath(ObjectId(p, obj));
      IsRegularFile(fs, f) ==> p.decompress(fs[f].content) == obj.buffer
    ensures StoreGet(StoreAdd(fs, p, obj).1, p, ObjectId(p, obj)) == Ok(obj)
  {
    ShardLayout(ObjectId(p, obj));
  }

  /** add of one object leaves get of every other id as it was. */
  lemma GetOtherAfterAdd(fs: FileSystem, p: Primitives, obj: Object, other: Id)
    requires other != ObjectId(p, obj)
    ensures StoreGet(StoreAdd(fs, p, obj).1, p, other) == StoreGet(fs, p, other)
  {
    if ShardPath(other) == ShardPath(ObjectId(p, obj)) {
      ShardPathInjective(other, ObjectId(p, obj));
    }
  }
}
