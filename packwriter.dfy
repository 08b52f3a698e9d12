/** WritePack (Pack.cpp): a pack stream of the named objects, taken from the
    database, with its version-2 index. The stream is a 12-byte header, one
    record per id in the order given (the packed size-and-type word as a
    Bini varint, then the deflated payload) and the SHA-1 of everything
    before it. */
module PackWriting {
  import opened Wrappers
  import opened Bytes
  import opened Endian
  import opened Ids
  import opened Primitives
  import opened Objects
  import opened Packs
  import opened LooseStore
  import opened ObjectDatabase

  /** The first word of the stream. Deviation kept from the source: Git's
      pack signature is "PACK" (0x5041434B); the source writes 0x4F41434B,
      "OACK". */
  const PackMagic: u32 := 0x4F41_434B
  const PackVersion: u32 := 2

  /** Magic, version and the number of ids, each a big-endian 32-bit word. */
  function StreamHeader(count: nat): (r: Bytes)
    ensures |r| == 12
  {
    BE32(PackMagic) + BE32(PackVersion) + BE32(ToU32(count))
  }

  /** The size-and-type word of an object: the payload size as size_t and
      the type code. */
  function SizeWord(obj: Object): bv64 {
    PackHeader(ToU64(|DataOf(obj)|) as bv64, TypeBits(TypeOf(obj)))
  }

  /** What WritePack takes from one object: the bytes it appends to the
      stream (the word as a varint, then the deflated payload), and the CRC
      and type code of its index entry. */
  datatype Packed = Packed(record: Bytes, crc: Crc, typeCode: int)

  function PackObject(p: Primitives, obj: Object): Packed {
    Packed(p.varint(SizeWord(obj) as int) + p.compress(DataOf(obj)), p.crc32(DataOf(obj)), TypeCode(TypeOf(obj)))
  }

  /** `db.get(id)` followed by PackObject, for the state of the database. */
  function PackedLookup(fs: FileSystem, packs: seq<Pack>, p: Primitives): Id -> Option<Packed> {
    (id: Id) => match DatabaseGet(fs, packs, p, id)
      case None => None
      case Some(obj) => Some(PackObject(p, obj))
  }

  /** The stream so far and the index entries so far. */
  datatype Written = Written(stream: Bytes, index: seq<IndexEntry>)

  /** The loop of WritePack over `ids`, after `start` was written: each
      object's entry records the stream size before its record, and an id
      the lookup does not have ends the loop with an error. */
  function Records(get: Id -> Option<Packed>, start: Bytes, ids: seq<Id>): (r: Result<Written>)
    decreases |ids|
  {
    if ids == [] then Ok(Written(start, []))
    else match Records(get, start, ids[..|ids| - 1])
      case Err(e) => Err(e)
      case Ok(wr) =>
        match get(ids[|ids| - 1])
        case None => Err(InvalidObjectId)
        case Some(pk) =>
          Ok(Written(wr.stream + pk.record, wr.index + [IndexEntry(ids[|ids| - 1], pk.crc, ToU64(|wr.stream|), pk.typeCode)]))
  }

  /** The stream WritePack returns: header, records, SHA-1 trailer. */
  function PackStream(p: Primitives, get: Id -> Option<Packed>, ids: seq<Id>): (r: Result<Bytes>) {
    match Records(get, StreamHeader(|ids|), ids)
    case Err(e) => Err(e)
    case Ok(wr) => Ok(wr.stream + p.sha1(wr.stream))
  }

  /** WritePack: the pack stream and CreateIndexFile of the entries. */
  method WritePack(p: Primitives, db: Database, objectIds: seq<Id>) returns (r: Result<(Bytes, Bytes)>)
    ensures r.Err? <==> Records(PackedLookup(db.cam.fs, db.packs, p), StreamHeader(|objectIds|), objectIds).Err?
    ensures r.Err? ==> r.error == InvalidObjectId
    ensures r.Ok? ==> Ok(r.value.0) == PackStream(p, PackedLookup(db.cam.fs, db.packs, p), objectIds)
    ensures r.Ok? ==> exists sorted | SortedById(sorted)
      && multiset(sorted) == multiset(Records(PackedLookup(db.cam.fs, db.packs, p), StreamHeader(|objectIds|), objectIds).value.index)
      :: r.value.1 == IndexFile(sorted)
  {
    var w := BE32(PackMagic);
    w := w + BE32(PackVersion);
    w := w + BE32(ToU32(|objectIds|));
    ghost var start := w;
    assert start == StreamHeader(|objectIds|);
    var index := [];
    ghost var get := PackedLookup(db.cam.fs, db.packs, p);
    for i := 0 to |objectIds|
      invariant Records(get, start, objectIds[..i]) == Ok(Written(w, index))
    {
      var id := objectIds[i];
      var objR := db.Get(p, id);
      if objR.None? {
        assert get(objectIds[i]).None?;
        MissingIdFails(get, start, objectIds, i);
        RecordsFail(get, start, objectIds);
        return Err(InvalidObjectId);
      }
      var obj := objR.value;
      assert get(objectIds[i]) == Some(PackObject(p, obj));
      RecordsStep(get, start, objectIds, i, Written(w, index), PackObject(p, obj));
      w, index := AddObject(p, id, obj, w, index);
    }
    assert objectIds[..|objectIds|] == objectIds;
    w := w + p.sha1(w);
    var idx := CreateIndexFile(index);
    return Ok((w, idx));
  }

  /** The body of WritePack's loop for an object found in the database:
      push its index entry, then write its size-and-type word and its
      deflated payload. */
  method AddObject(p: Primitives, id: Id, obj: Object, w: Bytes, index: seq<IndexEntry>)
    returns (w': Bytes, index': seq<IndexEntry>)
    ensures w' == w + PackObject(p, obj).record
    ensures index' == index + [IndexEntry(id, PackObject(p, obj).crc, ToU64(|w|), PackObject(p, obj).typeCode)]
  {
    index' := index + [IndexEntry(id, p.crc32(DataOf(obj)), ToU64(|w|), TypeCode(TypeOf(obj)))];
    var s := SizeWord(obj);
    w' := w + p.varint(s as int);
    w' := w' + p.compress(DataOf(obj));
    assert w' == w + (p.varint(s as int) + p.compress(DataOf(obj)));
  }

  /** One turn of the loop: the record and entry of the next id. */
  lemma RecordsStep(get: Id -> Option<Packed>, start: Bytes, ids: seq<Id>, i: nat, wr: Written, pk: Packed)
    requires i < |ids| && Records(get, start, ids[..i]) == Ok(wr) && get(ids[i]) == Some(pk)
    ensures Records(get, start, ids[..i + 1])
      == Ok(Written(wr.stream + pk.record, wr.index + [IndexEntry(ids[i], pk.crc, ToU64(|wr.stream|), pk.typeCode)]))
  {
    var upto := ids[..i + 1];
    assert upto[..i] == ids[..i] && upto[i] == ids[i];
  }

  /** The loop fails exactly when some id is missing from the database,
      and then with "Invalid object id". */
  lemma RecordsFail(get: Id -> Option<Packed>, start: Bytes, ids: seq<Id>)
    ensures Records(get, start, ids).Err? <==> exists k | 0 <= k < |ids| :: get(ids[k]).None?
    ensures Records(get, start, ids).Err? ==> Records(get, start, ids).error == InvalidObjectId
  {
    if Records(get, start, ids).Err? {
      var k := FailingId(get, start, ids);
    }
    if exists k | 0 <= k < |ids| :: get(ids[k]).None? {
      var k :| 0 <= k < |ids| && get(ids[k]).None?;
      MissingIdFails(get, start, ids, k);
    }
  }

  /** A failed loop met an id the database does not have. */
  lemma {:induction false} FailingId(get: Id -> Option<Packed>, start: Bytes, ids: seq<Id>) returns (k: nat)
    requires Records(get, start, ids).Err?
    ensures k < |ids| && get(ids[k]).None?
    ensures Records(get, start, ids).error == InvalidObjectId
    decreases |ids|
  {
    var init := ids[..|ids| - 1];
    if Records(get, start, init).Err? {
      k := FailingId(get, start, init);
      assert ids[k] == init[k];
    } else {
      k := |ids| - 1;
    }
  }

  /** A missing id makes the loop fail. */
  lemma {:induction false} MissingIdFails(get: Id -> Option<Packed>, start: Bytes, ids: seq<Id>, k: nat)
    requires k < |ids| && get(ids[k]).None?
    ensures Records(get, start, ids).Err?
    decreases |ids|
  {
    var init := ids[..|ids| - 1];
    if k < |init| {
      assert init[k] == ids[k];
      MissingIdFails(get, start, init, k);
      assert Records(get, start, init).Err?;
    } else {
      assert get(ids[|ids| - 1]).None?;
    }
  }

  /** The loop only appends: what it wrote for a prefix of the ids begins
      what it writes for all of them. */
  lemma {:induction false} RecordsPrefix(get: Id -> Option<Packed>, start: Bytes, ids: seq<Id>, i: nat)
    requires i <= |ids| && Records(get, start, ids).Ok?
    ensures Records(get, start, ids[..i]).Ok?
    ensures Records(get, start, ids[..i]).value.stream <= Records(get, start, ids).value.stream
    ensures Records(get, start, ids[..i]).value.index <= Records(get, start, ids).value.index
    decreases |ids|
  {
    if i == |ids| {
      assert ids[..i] == ids;
    } else {
      var init := ids[..|ids| - 1];
      assert init[..i] == ids[..i];
      RecordsPrefix(get, start, init, i);
    }
  }

  /** One entry per id, and the stream begins with what was there before
      the loop. */
  lemma {:induction false} RecordsCount(get: Id -> Option<Packed>, start: Bytes, ids: seq<Id>)
    requires Records(get, start, ids).Ok?
    ensures |Records(get, start, ids).value.index| == |ids|
    ensures start <= Records(get, start, ids).value.stream
    decreases |ids|
  {
    if ids != [] {
      RecordsCount(get, start, ids[..|ids| - 1]);
    }
  }

  /** Entry `k` is the `k`-th id's: its CRC and type are the object's, its
      offset is the number of bytes written before the object's record, and
      the record sits in the stream at that offset. */
  lemma RecordAt(get: Id -> Option<Packed>, start: Bytes, ids: seq<Id>, k: nat)
    requires Records(get, start, ids).Ok? && k < |ids|
    ensures get(ids[k]).Some?
    ensures Records(get, start, ids[..k]).Ok?
    ensures |Records(get, start, ids).value.index| == |ids|
    ensures Records(get, start, ids).value.index[k] == IndexEntry(ids[k], get(ids[k]).value.crc,
      ToU64(|Records(get, start, ids[..k]).value.stream|), get(ids[k]).value.typeCode)
    ensures Records(get, start, ids[..k]).value.stream + get(ids[k]).value.record
      <= Records(get, start, ids).value.stream
  {
    RecordsPrefix(get, start, ids, k + 1);
    RecordsCount(get, start, ids);
    var upto := ids[..k + 1];
    assert upto[..k] == ids[..k] && upto[k] == ids[k];
    RecordsCount(get, start, ids[..k]);
  }

  /** Offsets follow the input order: an earlier id's record starts no
      later, and strictly earlier when every record has at least one byte. */
  lemma OffsetsIncrease(get: Id -> Option<Packed>, start: Bytes, ids: seq<Id>, j: nat, k: nat)
    requires Records(get, start, ids).Ok? && j < k < |ids|
    requires |Records(get, start, ids).value.stream| < 0x1_0000_0000_0000_0000
    ensures |Records(get, start, ids).value.index| == |ids|
    ensures Records(get, start, ids).value.index[j].offset <= Records(get, start, ids).value.index[k].offset
    ensures get(ids[j]).Some? && (get(ids[j]).value.record != [] ==>
      Records(get, start, ids).value.index[j].offset < Records(get, start, ids).value.index[k].offset)
  {
    RecordAt(get, start, ids, j);
    RecordAt(get, start, ids, k);
    var ik := ids[..k];
    RecordAt(get, start, ik, j);
    assert ik[..j] == ids[..j] && ik[j] == ids[j];
    RecordsPrefix(get, start, ids, k);
  }

  /** RegenerateIndex's unpacking of the word WritePack writes gives back
      the object's type and payload size, for a typed object whose payload
      is shorter than 2^56 bytes. */
  lemma SizeWordUnpacks(obj: Object)
    requires TypeOf(obj) != Invalid && |DataOf(obj)| < 0x100_0000_0000_0000
    ensures HeaderType(SizeWord(obj)) == TypeBits(TypeOf(obj))
    ensures HeaderSize(SizeWord(obj)) == ToU64(|DataOf(obj)|) as bv64
  {
    var size := ToU64(|DataOf(obj)|) as bv64;
    assert size < 0x100_0000_0000_0000 by {
      SmallSizeWord(|DataOf(obj)|);
    }
    HeaderRoundTrip(size, TypeBits(TypeOf(obj)));
  }

  lemma SmallSizeWord(n: nat)
    requires n < 0x100_0000_0000_0000
    ensures ToU64(n) as bv64 < 0x100_0000_0000_0000
  {
  }

  /** A record has a byte at least when Bini's varint always writes one. */
  lemma RecordNotEmpty(p: Primitives, obj: Object)
    requires forall n: nat :: p.varint(n) != []
    ensures PackObject(p, obj).record != []
  {
    assert p.varint(SizeWord(obj) as int) != [];
  }

  /** The stream begins with the magic, the version and the id count. */
  lemma StreamBegins(p: Primitives, get: Id -> Option<Packed>, ids: seq<Id>)
    requires PackStream(p, get, ids).Ok?
    ensures var s := PackStream(p, get, ids).value;
      |s| >= 32 && s[..4] == BE32(0x4F41_434B) && s[4..8] == BE32(2) && s[8..12] == BE32(ToU32(|ids|))
  {
    var header := StreamHeader(|ids|);
    RecordsCount(get, header, ids);
    var wr := Records(get, header, ids).value;
    var s := PackStream(p, get, ids).value;
    assert s[..12] == header;
  }

  /** The last 20 bytes of the stream are the SHA-1 of all bytes before. */
  lemma StreamTrailer(p: Primitives, get: Id -> Option<Packed>, ids: seq<Id>)
    requires PackStream(p, get, ids).Ok?
    ensures var s := PackStream(p, get, ids).value;
      |s| >= 20 && s[|s| - 20..] == p.sha1(s[..|s| - 20])
  {
    var wr := Records(get, StreamHeader(|ids|), ids).value;
    var s := PackStream(p, get, ids).value;
    assert s[..|s| - 20] == wr.stream;
  }
}
