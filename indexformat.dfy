/** The staging index file (.git/index) as Index::save lays it out and
    Index::load reads it back: a 12-byte header (magic, version, entry
    count), one record per entry in ascending key order, and the SHA-1 of
    everything before it. Each record is ten 32-bit stat words, the 20-byte
    hash, a 16-bit flags word, the NUL-terminated name and NUL padding to a
    multiple of eight bytes (Git's index format, version 2). */
module IndexFormat {
  import opened Wrappers
  import opened Bytes
  import opened Endian
  import opened Ids
  import opened Paths
  import opened PathMaps
  import opened Primitives

  /** Index::Entry: the stat fields as uint32_t, the blob id, the flags and
      the name. */
  datatype Entry = Entry(
    ctimeSec: u32, ctimeNs: u32, mtimeSec: u32, mtimeNs: u32,
    dev: u32, ino: u32, mode: u32, uid: u32, gid: u32, filesize: u32,
    hash: Id, flags: u16, fileName: Bytes)

  /** DIRCACHE_MAGIC_NUMBER, "DIRC". */
  const DircacheMagic: u32 := 0x4449_5243
  /** DIRCACHE_CURRENT_VERSION. */
  const DircacheVersion: u32 := 2

  /** `size > 0xFFF ? 0xFFF : size`: the name length the flags word holds. */
  function NameLength(n: nat): (r: u16)
    ensures r <= 0xFFF
  {
    if n > 0xFFF then 0xFFF else n
  }

  /** `7 - ((size + 6) % 8)`: the NULs written after the name's own NUL. */
  function Padding(n: nat): (r: nat)
    ensures r <= 7
  {
    7 - ((n + 6) % 8)
  }

  /** `(flags & 0xF000) | length`: the top four bits of the stored flags
      above the name length. Since the length is below 0x1000, the `|`
      is an addition. */
  function FlagsWord(e: Entry): (r: u16) {
    e.flags / 0x1000 * 0x1000 + NameLength(|e.fileName|)
  }

  /** The ten words save writes with add32be, filesize last. */
  function StatWords(e: Entry): (r: seq<u32>)
    ensures |r| == 10
  {
    [e.ctimeSec, e.ctimeNs, e.mtimeSec, e.mtimeNs, e.dev, e.ino, e.mode, e.uid, e.gid, e.filesize]
  }

  /** The name as addNT writes it, then the padding NULs. */
  function NameField(name: Bytes): (r: Bytes)
    ensures |r| == 1 + |name| + Padding(|name|)
  {
    name + [NUL] + Zeros(Padding(|name|))
  }

  /** One record of the loop in Index::save. */
  function EntryRecord(e: Entry): (r: Bytes)
    ensures |r| == 63 + |e.fileName| + Padding(|e.fileName|)
  {
    Words32(StatWords(e)) + e.hash + BE16(FlagsWord(e)) + NameField(e.fileName)
  }

  /** The records of the entries in iteration order. */
  function IndexBody(es: PathMap<Entry>): (r: Bytes) {
    if es == [] then [] else EntryRecord(es[0].1) + IndexBody(es[1..])
  }

  /** The three header words; the count is `objects.size()` narrowed to
      32 bits. */
  function IndexHeader(count: nat): (r: Bytes)
    ensures |r| == 12
  {
    BE32(DircacheMagic) + BE32(DircacheVersion) + BE32(ToU32(count))
  }

  /** The buffer Index::save builds, its digest appended. */
  function SavedIndex(p: Primitives, es: PathMap<Entry>): (r: Bytes) {
    var w := IndexHeader(|es|) + IndexBody(es);
    w + p.sha1(w)
  }

  // ---------------------------------------------------------------------
  // Reading

  /** read32be over each four bytes in turn. */
  function ReadWords(b: Bytes): (r: seq<u32>)
    requires |b| % 4 == 0
    ensures |r| == |b| / 4
  {
    if b == [] then [] else ReadWords(b[..|b| - 4]) + [ReadBE32(b[|b| - 4..])]
  }

  /** The ten stat words as load reads them: read32be nine times, then
      read32le for filesize. */
  function ReadStat(b: Bytes): (r: seq<u32>)
    requires |b| == 40
    ensures |r| == 10
  {
    ReadWords(b[..36]) + [ReadLE32(b[36..])]
  }

  function EntryOf(ws: seq<u32>, hash: Id, flags: u16, name: Bytes): Entry
    requires |ws| == 10
  {
    Entry(ws[0], ws[1], ws[2], ws[3], ws[4], ws[5], ws[6], ws[7], ws[8], ws[9], hash, flags, name)
  }

  /** The reads of one loop turn of Index::load: the stat words, the hash,
      read16be of the flags, getStringNT and the skip over the padding. Any
      read past the end makes the turn fail; the result also says how many
      bytes the turn consumed. */
  function ReadEntry(d: Bytes): (r: Result<(Entry, nat)>)
    ensures r.Ok? ==> 64 <= r.value.1 <= |d|
    ensures r.Err? ==> r.error == Truncated
  {
    if |d| < 62 then Err(Truncated)
    else match IndexOf(d[62..], NUL)
      case None => Err(Truncated)
      case Some(n) =>
        var size := 63 + n + Padding(n);
        if |d| < size then Err(Truncated)
        else Ok((EntryOf(ReadStat(d[..40]), d[40..60], ReadBE16(d[60..62]), d[62..62 + n]), size))
  }

  /** The entry loop of Index::load from entry `n` on: each entry read
      goes into the map under `path(fileName)` with `objects[name] = e`,
      and a failed turn stops the loop with the entries read so far kept. */
  function LoadEntries(objects: PathMap<Entry>, rest: Bytes, n: nat, count: nat): (r: (PathMap<Entry>, Result<()>))
    decreases count - n
  {
    if n >= count then (objects, Ok(()))
    else match ReadEntry(rest)
      case Err(_) => (objects, Err(ReadFailed(n + 1)))
      case Ok((e, size)) => LoadEntries(Assign(objects, ParsePath(e.fileName), e), rest[size..], n + 1, count)
  }

  /** Index::load as a function of the entries before the call and of the
      file at .git/index (`None` when there is no regular file). A file
      shorter than the 20-byte digest is taken as a failed digest check. */
  function LoadIndex(objects: PathMap<Entry>, p: Primitives, file: Option<Bytes>): (r: (PathMap<Entry>, Result<()>)) {
    match file
    case None => (objects, Ok(()))
    case Some(f) =>
      if |f| < 20 || p.sha1(f[..|f| - 20]) != f[|f| - 20..] then ([], Err(IndexCorrupted))
      else if ReadBE32(f[..4]) != DircacheMagic then (objects, Err(InvalidMagic))
      else if ReadBE32(f[4..8]) != DircacheVersion then (objects, Err(UnexpectedVersion(ReadBE32(f[4..8]))))
      else LoadEntries(objects, f[12..], 0, ReadBE32(f[8..12]))
  }

  // ---------------------------------------------------------------------
  // Properties

  /** Names save can write and load can read back under the same key: no
      NUL inside, and the key is the path the name spells. */
  predicate Storable(es: PathMap<Entry>) {
    forall i | 0 <= i < |es| :: NUL !in es[i].1.fileName && ParsePath(es[i].1.fileName) == es[i].0
  }

  /** An entry as load gives it back: filesize written big-endian and read
      little-endian, and the flags as save wrote them. */
  function Reloaded(e: Entry): Entry {
    e.(filesize := Swap32(e.filesize), flags := FlagsWord(e))
  }

  function Reload(es: PathMap<Entry>): (r: PathMap<Entry>)
    ensures |r| == |es|
  {
    if es == [] then [] else [(es[0].0, Reloaded(es[0].1))] + Reload(es[1..])
  }

  /** The flags word keeps the top four bits of the entry's flags and puts
      the clamped name length below them; for an entry whose flags are
      already the clamped length (as Index::add makes them) it is the
      flags unchanged. */
  lemma FlagsWordParts(e: Entry)
    ensures FlagsWord(e) / 0x1000 == e.flags / 0x1000
    ensures FlagsWord(e) % 0x1000 == NameLength(|e.fileName|)
    ensures e.flags == NameLength(|e.fileName|) ==> FlagsWord(e) == e.flags
  {
  }

  /** A record is a multiple of eight bytes, and one to eight NULs follow
      the name. */
  lemma EntryAligned(e: Entry)
    ensures |EntryRecord(e)| % 8 == 0
    ensures 1 <= |EntryRecord(e)| - 62 - |e.fileName| <= 8
    ensures forall k | 62 + |e.fileName| <= k < |EntryRecord(e)| :: EntryRecord(e)[k] == NUL
  {
    var n := |e.fileName|;
    var r := EntryRecord(e);
    var head := Words32(StatWords(e)) + e.hash + BE16(FlagsWord(e)) + e.fileName;
    assert r == head + ([NUL] + Zeros(Padding(n)));
    forall k | 62 + n <= k < |r|
      ensures r[k] == NUL
    {
      assert r[k] == ([NUL] + Zeros(Padding(n)))[k - 62 - n];
    }
  }

  /** The header and the trailer of a saved index. */
  lemma SavedIndexLayout(p: Primitives, es: PathMap<Entry>)
    ensures var f := SavedIndex(p, es);
      |f| >= 32
      && ReadBE32(f[..4]) == DircacheMagic
      && ReadBE32(f[4..8]) == DircacheVersion
      && ReadBE32(f[8..12]) == ToU32(|es|)
      && f[|f| - 20..] == p.sha1(f[..|f| - 20])
      && f[12..] == IndexBody(es) + p.sha1(IndexHeader(|es|) + IndexBody(es))
  {
    var w := IndexHeader(|es|) + IndexBody(es);
    var f := SavedIndex(p, es);
    assert f[..|f| - 20] == w && f[|f| - 20..] == p.sha1(w);
    assert f[..4] == BE32(DircacheMagic) && f[4..8] == BE32(DircacheVersion) && f[8..12] == BE32(ToU32(|es|));
    ReadBE32Of(DircacheMagic);
    ReadBE32Of(DircacheVersion);
    ReadBE32Of(ToU32(|es|));
    DropHeader(IndexHeader(|es|), IndexBody(es), p.sha1(w));
  }

  lemma {:induction false} IndexBodyAppend(es: PathMap<Entry>, x: (Path, Entry))
    ensures IndexBody(es + [x]) == IndexBody(es) + EntryRecord(x.1)
  {
    if es != [] {
      assert (es + [x])[1..] == es[1..] + [x];
      IndexBodyAppend(es[1..], x);
    }
  }

  lemma {:induction false} ReadWordsOf(ws: seq<u32>)
    ensures ReadWords(Words32(ws)) == ws
  {
    if ws != [] {
      var b := Words32(ws);
      Words32Last(ws);
      ReadWordsOf(ws[..|ws| - 1]);
      ReadBE32Of(ws[|ws| - 1]);
      assert ReadWords(b) == ReadWords(b[..|b| - 4]) + [ReadBE32(b[|b| - 4..])];
      assert ws == ws[..|ws| - 1] + [ws[|ws| - 1]];
    }
  }

  /** The stat words read back as written, except filesize, whose bytes
      come back in the opposite order. */
  lemma ReadStatOf(e: Entry)
    ensures ReadStat(Words32(StatWords(e))) == StatWords(Reloaded(e))
  {
    var ws := StatWords(e);
    var w := Words32(ws);
    assert w[..36] == Words32(ws[..9]) && w[36..] == BE32(e.filesize);
    ReadWordsOf(ws[..9]);
    ReadLE32OfBE32(e.filesize);
    assert StatWords(Reloaded(e)) == ws[..9] + [Swap32(e.filesize)];
  }

  /** The name field followed by anything: the name, then the first NUL. */
  lemma NameFieldLayout(name: Bytes, rest: Bytes)
    requires NUL !in name
    ensures var t := NameField(name) + rest;
      IndexOf(t, NUL) == Some(|name|) && t[..|name|] == name && 1 + |name| + Padding(|name|) <= |t|
  {
    var t := NameField(name) + rest;
    assert t == name + ([NUL] + Zeros(Padding(|name|)) + rest);
    assert t[..|name|] == name && t[|name|] == NUL;
    IndexOfAt(t, NUL, |name|);
  }

  /** The fixed-size head of a record, sliced back out. */
  lemma RecordSplit(w: Bytes, hash: Id, flags: Bytes, t: Bytes)
    requires |w| == 40 && |flags| == 2
    ensures var d := w + hash + flags + t;
      |d| == 62 + |t| && d[..40] == w && d[40..60] == hash && d[60..62] == flags && d[62..] == t
  {
  }

  lemma SliceOfDrop(d: Bytes, k: nat, n: nat)
    requires k + n <= |d|
    ensures d[k..k + n] == d[k..][..n]
  {
  }

  /** Where the parts of a record sit. */
  lemma RecordLayout(w: Bytes, hash: Id, flags: Bytes, name: Bytes, rest: Bytes)
    requires |w| == 40 && |flags| == 2 && NUL !in name
    ensures var d := w + hash + flags + NameField(name) + rest;
      |d| >= 62 && IndexOf(d[62..], NUL) == Some(|name|) && 63 + |name| + Padding(|name|) <= |d|
      && d[..40] == w && d[40..60] == hash && d[60..62] == flags && d[62..62 + |name|] == name
  {
    var t := NameField(name) + rest;
    var d := w + hash + flags + t;
    assert d == w + hash + flags + NameField(name) + rest;
    NameFieldLayout(name, rest);
    RecordSplit(w, hash, flags, t);
    SliceOfDrop(d, 62, |name|);
  }

  /** The reads of one turn over bytes with the given parts. */
  lemma ReadEntryAt(d: Bytes, w: Bytes, hash: Id, flags: Bytes, name: Bytes)
    requires |d| >= 62 && IndexOf(d[62..], NUL) == Some(|name|) && 63 + |name| + Padding(|name|) <= |d|
    requires d[..40] == w && d[40..60] == hash && d[60..62] == flags && d[62..62 + |name|] == name
    ensures ReadEntry(d) == Ok((EntryOf(ReadStat(w), hash, ReadBE16(flags), name), 63 + |name| + Padding(|name|)))
  {
  }

  /** The reads of one turn over a record with the given parts. */
  lemma ReadRecord(w: Bytes, hash: Id, flags: Bytes, name: Bytes, rest: Bytes)
    requires |w| == 40 && |flags| == 2 && NUL !in name
    ensures ReadEntry(w + hash + flags + NameField(name) + rest)
      == Ok((EntryOf(ReadStat(w), hash, ReadBE16(flags), name), 63 + |name| + Padding(|name|)))
  {
    RecordLayout(w, hash, flags, name, rest);
    ReadEntryAt(w + hash + flags + NameField(name) + rest, w, hash, flags, name);
  }

  /** load's reads of a record save wrote: the same entry with the
      filesize bytes reversed and the flags as written. */
  lemma ReadEntryOf(e: Entry, rest: Bytes)
    requires NUL !in e.fileName
    ensures ReadEntry(EntryRecord(e) + rest) == Ok((Reloaded(e), |EntryRecord(e)|))
  {
    var w := Words32(StatWords(e));
    var flags := BE16(FlagsWord(e));
    ReadRecord(w, e.hash, flags, e.fileName, rest);
    ReadStatOf(e);
    ReadBE16Of(FlagsWord(e));
    assert EntryOf(ReadStat(w), e.hash, ReadBE16(flags), e.fileName) == Reloaded(e);
  }

  /** One turn of the entry loop that reads an entry. */
  lemma LoadEntriesStep(objects: PathMap<Entry>, d: Bytes, n: nat, count: nat, e: Entry, size: nat)
    requires n < count && ReadEntry(d) == Ok((e, size))
    ensures LoadEntries(objects, d, n, count) == LoadEntries(Assign(objects, ParsePath(e.fileName), e), d[size..], n + 1, count)
  {
  }

  /** A file whose digest, magic and version check out goes to the entry
      loop. */
  lemma LoadIndexChecked(objects: PathMap<Entry>, p: Primitives, f: Bytes)
    requires |f| >= 20 && p.sha1(f[..|f| - 20]) == f[|f| - 20..]
    requires ReadBE32(f[..4]) == DircacheMagic && ReadBE32(f[4..8]) == DircacheVersion
    ensures LoadIndex(objects, p, Some(f)) == LoadEntries(objects, f[12..], 0, ReadBE32(f[8..12]))
  {
  }

  /** `Assign` of a key above every key appends. */
  lemma {:induction false} AssignAtEnd<V>(m: PathMap<V>, k: Path, v: V)
    requires forall i | 0 <= i < |m| :: PathLess(m[i].0, k)
    ensures Assign(m, k, v) == m + [(k, v)]
  {
    if m != [] {
      PathLessIrreflexive(k);
      PathLessAsymmetric(m[0].0, k);
      forall i | 0 <= i < |m[1..]|
        ensures PathLess(m[1..][i].0, k)
      {
        assert m[1..][i] == m[i + 1];
      }
      AssignAtEnd(m[1..], k, v);
      assert [m[0]] + (m[1..] + [(k, v)]) == m + [(k, v)];
    }
  }

  lemma AppendAssoc<T>(a: seq<T>, x: T, r: seq<T>)
    ensures (a + [x]) + r == a + ([x] + r)
  {
  }

  /** Keys of `acc` all come before keys of `es`. */
  predicate Before(acc: PathMap<Entry>, es: PathMap<Entry>) {
    forall i, j | 0 <= i < |acc| && 0 <= j < |es| :: PathLess(acc[i].0, es[j].0)
  }

  /** One turn of the entry loop over a record save wrote, under a key
      above every key read before. */
  lemma LoadRecord(acc: PathMap<Entry>, key: Path, e: Entry, more: Bytes, n: nat, count: nat)
    requires NUL !in e.fileName && ParsePath(e.fileName) == key && n < count
    requires forall i | 0 <= i < |acc| :: PathLess(acc[i].0, key)
    ensures LoadEntries(acc, EntryRecord(e) + more, n, count) == LoadEntries(acc + [(key, Reloaded(e))], more, n + 1, count)
  {
    var d := EntryRecord(e) + more;
    ReadEntryOf(e, more);
    assert d[|EntryRecord(e)|..] == more;
    AssignAtEnd(acc, key, Reloaded(e));
    LoadEntriesStep(acc, d, n, count, Reloaded(e), |EntryRecord(e)|);
  }

  /** What the rest of the loop may assume after the first entry. */
  lemma BeforeNext(acc: PathMap<Entry>, es: PathMap<Entry>)
    requires es != [] && Ordered(es) && Storable(es) && Before(acc, es)
    ensures NUL !in es[0].1.fileName && ParsePath(es[0].1.fileName) == es[0].0
    ensures forall i | 0 <= i < |acc| :: PathLess(acc[i].0, es[0].0)
    ensures Ordered(es[1..]) && Storable(es[1..]) && Before(acc + [(es[0].0, Reloaded(es[0].1))], es[1..])
  {
    var acc' := acc + [(es[0].0, Reloaded(es[0].1))];
    OrderedTail(es);
    forall i, j | 0 <= i < |acc'| && 0 <= j < |es[1..]|
      ensures PathLess(acc'[i].0, es[1..][j].0)
    {
      assert es[1..][j] == es[j + 1];
      if i < |acc| {
        assert PathLess(acc[i].0, es[j + 1].0);
      }
    }
    forall i | 0 <= i < |es[1..]|
      ensures NUL !in es[1..][i].1.fileName && ParsePath(es[1..][i].1.fileName) == es[1..][i].0
    {
      assert es[1..][i] == es[i + 1];
    }
  }

  /** The first turn of the entry loop over records save wrote. */
  lemma LoadFirst(acc: PathMap<Entry>, es: PathMap<Entry>, tail: Bytes, n: nat, count: nat) returns (acc': PathMap<Entry>)
    requires es != [] && Ordered(es) && Storable(es) && Before(acc, es) && n < count
    ensures acc' == acc + [(es[0].0, Reloaded(es[0].1))]
    ensures Ordered(es[1..]) && Storable(es[1..]) && Before(acc', es[1..])
    ensures LoadEntries(acc, IndexBody(es) + tail, n, count)
      == LoadEntries(acc', IndexBody(es[1..]) + tail, n + 1, count)
  {
    BeforeNext(acc, es);
    acc' := acc + [(es[0].0, Reloaded(es[0].1))];
    assert IndexBody(es) + tail == EntryRecord(es[0].1) + (IndexBody(es[1..]) + tail);
    LoadRecord(acc, es[0].0, es[0].1, IndexBody(es[1..]) + tail, n, count);
  }

  /** The entry loop over records save wrote reads every entry back and
      appends it after the entries read before. */
  lemma {:induction false} LoadEntriesOf(acc: PathMap<Entry>, es: PathMap<Entry>, tail: Bytes, n: nat, count: nat)
    requires Ordered(es) && Storable(es) && Before(acc, es) && n + |es| == count
    ensures LoadEntries(acc, IndexBody(es) + tail, n, count) == (acc + Reload(es), Ok(()))
    decreases |es|
  {
    if es != [] {
      var acc' := LoadFirst(acc, es, tail, n, count);
      LoadEntriesOf(acc', es[1..], tail, n + 1, count);
      assert Reload(es) == [(es[0].0, Reloaded(es[0].1))] + Reload(es[1..]);
      AppendAssoc(acc, (es[0].0, Reloaded(es[0].1)), Reload(es[1..]));
    } else {
      assert acc + Reload(es) == acc;
    }
  }

  lemma DropHeader(h: Bytes, b: Bytes, t: Bytes)
    requires |h| == 12
    ensures (h + b + t)[12..] == b + t
  {
    assert (h + b + t)[12..] == (h + (b + t))[12..];
  }

  /** load after save: starting from no entries (as the constructor does),
      reading the bytes save built gives back every entry under its key,
      each as `Reloaded` makes it. */
  lemma SaveLoadRoundTrip(p: Primitives, es: PathMap<Entry>)
    requires Ordered(es) && Storable(es) && |es| < 0x1_0000_0000
    ensures LoadIndex([], p, Some(SavedIndex(p, es))) == (Reload(es), Ok(()))
  {
    SavedIndexLayout(p, es);
    LoadIndexChecked([], p, SavedIndex(p, es));
    LoadEntriesOf([], es, p.sha1(IndexHeader(|es|) + IndexBody(es)), 0, |es|);
    assert [] + Reload(es) == Reload(es);
  }

  /** What `Reload` does to the map: the same keys, each value as load
      gives it back. */
  lemma {:induction false} ReloadMap(es: PathMap<Entry>)
    ensures ToMap(Reload(es)) == map k | k in ToMap(es) :: Reloaded(ToMap(es)[k])
  {
    if es != [] {
      ReloadMap(es[1..]);
      assert Reload(es)[1..] == Reload(es[1..]);
    }
  }

  /** The entry loop fails only with the number of the entry it could not
      read, and keeps the order of the map. */
  lemma {:induction false} LoadEntriesOutcome(objects: PathMap<Entry>, rest: Bytes, n: nat, count: nat)
    requires Ordered(objects)
    ensures var (m, r) := LoadEntries(objects, rest, n, count);
      Ordered(m) && (r.Err? ==> r.error.ReadFailed? && n < r.error.item <= count)
    decreases count - n
  {
    if n < count {
      match ReadEntry(rest)
      case Err(_) =>
      case Ok((e, size)) =>
        AssignSpec(objects, ParsePath(e.fileName), e);
        LoadEntriesOutcome(Assign(objects, ParsePath(e.fileName), e), rest[size..], n + 1, count);
    }
  }

  /** The ways load can end: without a file nothing changes; a digest
      mismatch clears the entries; a wrong magic or version leaves them;
      only the entry loop fails with ReadFailed. */
  lemma LoadOutcomes(objects: PathMap<Entry>, p: Primitives, file: Option<Bytes>)
    requires Ordered(objects)
    ensures var (m, r) := LoadIndex(objects, p, file);
      Ordered(m)
      && (file.None? ==> m == objects && r.Ok?)
      && (r == Err(IndexCorrupted) <==>
            file.Some? && (|file.value| < 20 || p.sha1(file.value[..|file.value| - 20]) != file.value[|file.value| - 20..]))
      && (r == Err(IndexCorrupted) ==> m == [])
      && (r == Err(InvalidMagic) <==>
            file.Some? && |file.value| >= 20 && p.sha1(file.value[..|file.value| - 20]) == file.value[|file.value| - 20..]
            && ReadBE32(file.value[..4]) != DircacheMagic)
      && (r.Err? && r.error.ReadFailed? ==> r.error.item >= 1)
      && (r.Err? && !r.error.ReadFailed? && r != Err(IndexCorrupted) ==> m == objects)
  {
    if file.Some? {
      var f := file.value;
      if |f| >= 20 && p.sha1(f[..|f| - 20]) == f[|f| - 20..] && ReadBE32(f[..4]) == DircacheMagic && ReadBE32(f[4..8]) == DircacheVersion {
        LoadEntriesOutcome(objects, f[12..], 0, ReadBE32(f[8..12]));
      }
    }
  }
}
