/** The object database (Database.cpp): the loose object store and the
    packs attached to it. A lookup asks the loose store first and then each
    pack in the order the packs were attached; objects are only ever added
    to the loose store. */
module ObjectDatabase {
  import opened Wrappers
  import opened Ids
  import opened Primitives
  import opened Objects
  import opened LooseStore
  import opened Packs

  /** The loop over `packs` in Database::get: the first pack whose lookup
      succeeds answers. Pack::get gives the inflated bytes, which
      Object(std::vector<uint8_t>) takes as the buffer unchanged. */
  function PacksGet(p: Primitives, packs: seq<Pack>, id: Id): (r: Option<Object>) {
    if packs == [] then None
    else match PackLookup(p, packs[0], id)
      case Some(bytes) => Some(Object(bytes))
      case None => PacksGet(p, packs[1..], id)
  }

  /** Database::get as a function of the loose store's file system and the
      attached packs. */
  function DatabaseGet(fs: FileSystem, packs: seq<Pack>, p: Primitives, id: Id): (r: Option<Object>) {
    match StoreGet(fs, p, id)
    case Ok(obj) => Some(obj)
    case Err(_) => PacksGet(p, packs, id)
  }

  class Database {
    const cam: GitCAM
    var packs: seq<Pack>

    /** Database(root): the loose store over `fs0` and no packs (the pack
        indexes are never read). */
    constructor(fs0: FileSystem)
      ensures fresh(cam) && cam.fs == fs0 && packs == []
    {
      cam := new GitCAM(fs0);
      packs := [];
    }

    /** Database::get. */
    method Get(p: Primitives, id: Id) returns (r: Option<Object>)
      ensures r == DatabaseGet(cam.fs, packs, p, id)
    {
      var rv := cam.Get(p, id);
      if rv.Ok? {
        return Some(rv.value);
      }
      var i := 0;
      while i < |packs|
        invariant 0 <= i <= |packs|
        invariant PacksGet(p, packs[i..], id) == PacksGet(p, packs, id)
      {
        var obj := PackGet(p, packs[i], id);
        assert packs[i..][0] == packs[i] && packs[i..][1..] == packs[i + 1..];
        if obj.Some? {
          return Some(Object(obj.value));
        }
        i := i + 1;
      }
      return None;
    }

    /** Database::add: the loose store's add, whose id the caller does not
        see; a failure of GitCAM::add propagates. */
    method Add(p: Primitives, obj: Object) returns (r: Result<()>)
      modifies cam
      ensures cam.fs == StoreAdd(old(cam.fs), p, obj).1
      ensures r.Ok? <==> StoreAdd(old(cam.fs), p, obj).0.Ok?
      ensures r.Err? ==> r.error == StoreAdd(old(cam.fs), p, obj).0.error
      ensures packs == old(packs)
    {
      var hash := cam.Add(p, obj);
      if hash.Err? {
        return Err(hash.error);
      }
      return Ok(());
    }

    /** Database::addPack: the pack goes after all the others. */
    method AddPack(pack: Pack)
      modifies this
      ensures packs == old(packs) + [pack]
      ensures cam.fs == old(cam.fs)
    {
      packs := packs + [pack];
    }
  }

  /** An object of the loose store is the answer, whatever the packs hold. */
  lemma LooseStoreFirst(fs: FileSystem, packs: seq<Pack>, p: Primitives, id: Id)
    requires StoreGet(fs, p, id).Ok?
    ensures DatabaseGet(fs, packs, p, id) == Some(StoreGet(fs, p, id).value)
  {
  }

  /** Otherwise the first pack that has the id answers: every pack before
      it has no entry for the id. */
  lemma {:induction false} FirstPackWins(fs: FileSystem, packs: seq<Pack>, p: Primitives, id: Id, k: nat)
    requires StoreGet(fs, p, id).Err?
    requires k < |packs| && PackLookup(p, packs[k], id).Some?
    requires forall j | 0 <= j < k :: PackLookup(p, packs[j], id).None?
    ensures DatabaseGet(fs, packs, p, id) == Some(Object(PackLookup(p, packs[k], id).value))
  {
    PacksGetAt(p, packs, id, k);
  }

  lemma {:induction false} PacksGetAt(p: Primitives, packs: seq<Pack>, id: Id, k: nat)
    requires k < |packs| && PackLookup(p, packs[k], id).Some?
    requires forall j | 0 <= j < k :: PackLookup(p, packs[j], id).None?
    ensures PacksGet(p, packs, id) == Some(Object(PackLookup(p, packs[k], id).value))
  {
    if k > 0 {
      forall j | 0 <= j < k - 1
        ensures PackLookup(p, packs[1..][j], id).None?
      {
        assert packs[1..][j] == packs[j + 1];
      }
      PacksGetAt(p, packs[1..], id, k - 1);
    }
  }

  /** The lookup comes back empty exactly when neither the loose store nor
      any pack has the id. */
  lemma {:induction false} PacksGetNone(p: Primitives, packs: seq<Pack>, id: Id)
    ensures PacksGet(p, packs, id).None? <==> forall j | 0 <= j < |packs| :: PackLookup(p, packs[j], id).None?
  {
    if packs != [] {
      PacksGetNone(p, packs[1..], id);
      if PackLookup(p, packs[0], id).None? {
        forall j | 0 <= j < |packs| && PackLookup(p, packs[j], id).Some?
          ensures exists i | 0 <= i < |packs[1..]| :: PackLookup(p, packs[1..][i], id).Some?
        {
          assert packs[1..][j - 1] == packs[j];
        }
      }
    }
  }

  lemma DatabaseGetNone(fs: FileSystem, packs: seq<Pack>, p: Primitives, id: Id)
    ensures DatabaseGet(fs, packs, p, id).None? <==>
      StoreGet(fs, p, id).Err? && forall j | 0 <= j < |packs| :: PackLookup(p, packs[j], id).None?
  {
    PacksGetNone(p, packs, id);
  }

  /** With ordered pack indexes, the lookup comes back empty exactly when no
      shard file and no index entry exists for the id. */
  lemma DatabaseGetAbsent(fs: FileSystem, packs: seq<Pack>, p: Primitives, id: Id)
    requires forall j | 0 <= j < |packs| :: SortedById(packs[j].index)
    ensures DatabaseGet(fs, packs, p, id).None? <==>
      !IsRegularFile(fs, ShardPath(id))
      && forall j, k | 0 <= j < |packs| && 0 <= k < |packs[j].index| :: packs[j].index[k].id != id
  {
    DatabaseGetNone(fs, packs, p, id);
    forall j | 0 <= j < |packs|
      ensures PackLookup(p, packs[j], id).None? <==>
        forall k | 0 <= k < |packs[j].index| :: packs[j].index[k].id != id
    {
      PackLookupComplete(p, packs[j], id);
    }
  }

  /** Attaching a pack changes no answer the database already gave. */
  lemma {:induction false} AddPackKeepsHits(fs: FileSystem, packs: seq<Pack>, p: Primitives, id: Id, pack: Pack)
    requires DatabaseGet(fs, packs, p, id).Some?
    ensures DatabaseGet(fs, packs + [pack], p, id) == DatabaseGet(fs, packs, p, id)
  {
    if StoreGet(fs, p, id).Err? {
      PacksAppend(p, packs, id, pack);
    }
  }

  lemma {:induction false} PacksAppend(p: Primitives, packs: seq<Pack>, id: Id, pack: Pack)
    requires PacksGet(p, packs, id).Some?
    ensures PacksGet(p, packs + [pack], id) == PacksGet(p, packs, id)
  {
    assert (packs + [pack])[0] == packs[0];
    if PackLookup(p, packs[0], id).None? {
      assert (packs + [pack])[1..] == packs[1..] + [pack];
      PacksAppend(p, packs[1..], id, pack);
    }
  }

  /** After a successful add the database answers with the object itself,
      when inflate undoes deflate and a file already at the shard path holds
      the same object. */
  lemma GetAfterDatabaseAdd(fs: FileSystem, packs: seq<Pack>, p: Primitives, obj: Object)
    requires Lossless(p) && StoreAdd(fs, p, obj).0.Ok?
    requires var f := ShardPath(ObjectId(p, obj));
      IsRegularFile(fs, f) ==> p.decompress(fs[f].content) == obj.buffer
    ensures DatabaseGet(StoreAdd(fs, p, obj).1, packs, p, ObjectId(p, obj)) == Some(obj)
  {
    GetAfterAdd(fs, p, obj);
  }
}
