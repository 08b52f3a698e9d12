/** Pack files and their version-2 index (Pack.cpp), after the layout that
    Git's pack documentation (gitformat-pack, "Version 2 pack-*.idx files")
    gives: a magic word and version, a 256-word cumulative fan-out table,
    the sorted object names, their CRC32s, 4-byte offsets and a table of
    8-byte offsets for the entries that do not fit in 31 bits. */
module Packs {
  import opened Wrappers
  import opened Bytes
  import opened Endian
  import opened Ids
  import opened Primitives
  import opened Objects

  /** Pack::IndexEntry. `typeCode` is the Object::Type value as a number:
      WritePack stores TypeCode of the object, RegenerateIndex any of 0..7. */
  datatype IndexEntry = IndexEntry(id: Id, crc: Crc, offset: u64, typeCode: int)

  /** The order std::sort produces with CreateIndexFile's comparator (the
      loop over the 20 id bytes, which is `Less` on ids): no entry is
      followed by one with a smaller id. */
  predicate SortedById(es: seq<IndexEntry>) {
    forall i, j | 0 <= i < j < |es| :: !Less(es[j].id, es[i].id)
  }

  // ---------------------------------------------------------------------
  // Sorting

  /** `e` placed before the first entry of `s` with a greater id. */
  function InsertById(s: seq<IndexEntry>, e: IndexEntry): (r: seq<IndexEntry>)
    ensures |r| == |s| + 1
    ensures multiset(r) == multiset(s) + multiset{e}
  {
    if s == [] || Less(e.id, s[0].id) then [e] + s
    else
      assert s == [s[0]] + s[1..];
      [s[0]] + InsertById(s[1..], e)
  }

  lemma SortedTail(s: seq<IndexEntry>)
    requires s != [] && SortedById(s)
    ensures SortedById(s[1..])
    ensures forall k | 0 <= k < |s[1..]| :: !Less(s[1..][k].id, s[0].id)
  {
    forall k | 0 <= k < |s[1..]|
      ensures !Less(s[1..][k].id, s[0].id)
    {
      assert s[1..][k] == s[k + 1];
    }
  }

  /** Insertion keeps the order. */
  lemma {:induction false} InsertByIdSorted(s: seq<IndexEntry>, e: IndexEntry)
    requires SortedById(s)
    ensures SortedById(InsertById(s, e))
  {
    var r := InsertById(s, e);
    if s == [] {
    } else if Less(e.id, s[0].id) {
      forall i, j | 0 <= i < j < |r|
        ensures !Less(r[j].id, r[i].id)
      {
        assert r[j] == s[j - 1];
        if i == 0 {
          if Less(s[j - 1].id, e.id) {
            LessTransitive(s[j - 1].id, e.id, s[0].id);
            if j == 1 {
              LessIrreflexive(s[0].id);
            }
          }
        } else {
          assert r[i] == s[i - 1];
        }
      }
    } else {
      SortedTail(s);
      InsertByIdSorted(s[1..], e);
      var t := InsertById(s[1..], e);
      assert r == [s[0]] + t;
      forall k | 0 <= k < |t|
        ensures !Less(t[k].id, s[0].id)
      {
        assert t[k] in multiset(t);
        if t[k] != e {
          assert t[k] in multiset(s[1..]);
          var m :| 0 <= m < |s[1..]| && s[1..][m] == t[k];
        }
      }
      forall i, j | 0 <= i < j < |r|
        ensures !Less(r[j].id, r[i].id)
      {
        assert r[j] == t[j - 1];
        if i > 0 {
          assert r[i] == t[i - 1];
        }
      }
    }
  }

  /** std::sort of CreateIndexFile: the entries ordered by id, the same
      entries as before. The model builds a new sequence by insertion instead
      of sorting the vector in place. */
  method SortIndex(index: seq<IndexEntry>) returns (sorted: seq<IndexEntry>)
    ensures SortedById(sorted)
    ensures multiset(sorted) == multiset(index)
  {
    sorted := [];
    for i := 0 to |index|
      invariant SortedById(sorted)
      invariant multiset(sorted) == multiset(index[..i])
    {
      InsertByIdSorted(sorted, index[i]);
      sorted := InsertById(sorted, index[i]);
      assert index[..i + 1] == index[..i] + [index[i]];
    }
    assert index[..|index|] == index;
  }

  // ---------------------------------------------------------------------
  // Tables of 32-bit and 64-bit words

  /** add64be of each word in turn. */
  function Words64(ws: seq<u64>): (r: Bytes)
    ensures |r| == 8 * |ws|
  {
    if ws == [] then [] else Words64(ws[..|ws| - 1]) + BE64(ws[|ws| - 1])
  }

  lemma Words64Append(ws: seq<u64>, w: u64)
    ensures Words64(ws + [w]) == Words64(ws) + BE64(w)
  {
    assert (ws + [w])[..|ws|] == ws;
  }

  /** Word i sits at bytes 8i .. 8i+8 and reads back as a big-endian
      64-bit value. */
  lemma {:induction false} Words64At(ws: seq<u64>, i: nat)
    requires i < |ws|
    ensures Words64(ws)[8 * i..8 * i + 8] == BE64(ws[i])
    ensures ReadBE64(Words64(ws)[8 * i..8 * i + 8]) == ws[i]
  {
    var init := ws[..|ws| - 1];
    if i < |ws| - 1 {
      Words64At(init, i);
      assert Words64(ws)[..8 * |init|] == Words64(init);
    }
    ReadBE64Of(ws[i]);
  }

  // ---------------------------------------------------------------------
  // The fan-out table

  /** How many entries have a first id byte of at most `b`. */
  function CountUpTo(es: seq<IndexEntry>, b: nat): (r: nat)
    ensures r <= |es|
  {
    if es == [] then 0
    else CountUpTo(es[..|es| - 1], b) + (if es[|es| - 1].id[0] <= b then 1 else 0)
  }

  /** Fan-out words 0 .. b-1: word i is the number of entries whose first
      id byte is at most i, truncated to the 32 bits add32be writes. */
  function Fanout(es: seq<IndexEntry>, b: nat): (r: seq<u32>)
    ensures |r| == b
  {
    if b == 0 then [] else Fanout(es, b - 1) + [ToU32(CountUpTo(es, b - 1))]
  }

  /** On sorted entries the first id bytes never decrease. */
  lemma SortedFirstByte(es: seq<IndexEntry>, i: nat, j: nat)
    requires SortedById(es) && i <= j < |es|
    ensures es[i].id[0] <= es[j].id[0]
  {
    if i < j && es[j].id[0] < es[i].id[0] {
      assert Less(es[j].id, es[i].id);
    }
  }

  /** The count is `n` when the first `n` entries are at or below `b` and
      the others above it. */
  lemma {:induction false} CountUpToAt(es: seq<IndexEntry>, b: nat, n: nat)
    requires n <= |es|
    requires forall k | 0 <= k < n :: es[k].id[0] <= b
    requires forall k | n <= k < |es| :: es[k].id[0] > b
    ensures CountUpTo(es, b) == n
  {
    if es != [] {
      var init := es[..|es| - 1];
      assert forall k | 0 <= k < |init| :: init[k] == es[k];
      if n == |es| {
        CountUpToAt(init, b, n - 1);
      } else {
        CountUpToAt(init, b, n);
      }
    }
  }

  /** The fan-out counts never decrease. */
  lemma {:induction false} CountUpToMonotone(es: seq<IndexEntry>, b: nat, c: nat)
    requires b <= c
    ensures CountUpTo(es, b) <= CountUpTo(es, c)
  {
    if es != [] {
      CountUpToMonotone(es[..|es| - 1], b, c);
    }
  }

  /** The last fan-out count is the number of entries. */
  lemma CountUpToAll(es: seq<IndexEntry>)
    ensures CountUpTo(es, 255) == |es|
  {
    CountUpToAt(es, 255, |es|);
  }

  /** On sorted entries, count b splits the entries: those before it have a
      first byte of at most b, those from it on a greater one. */
  lemma {:induction false} CountUpToSplits(es: seq<IndexEntry>, b: nat, k: nat)
    requires SortedById(es) && k < |es|
    ensures k < CountUpTo(es, b) <==> es[k].id[0] <= b
  {
    var last := |es| - 1;
    var init := es[..last];
    assert forall i | 0 <= i < |init| :: init[i] == es[i];
    if es[last].id[0] <= b {
      forall i | 0 <= i < |es|
        ensures es[i].id[0] <= b
      {
        SortedFirstByte(es, i, last);
      }
      CountUpToAt(es, b, |es|);
    } else if k == last {
    } else {
      assert SortedById(init);
      CountUpToSplits(init, b, k);
    }
  }

  /** Word i of the fan-out table holds count i. */
  lemma {:induction false} FanoutWord(es: seq<IndexEntry>, b: nat, i: nat)
    requires i < b
    ensures Fanout(es, b)[i] == ToU32(CountUpTo(es, i))
  {
    if i < b - 1 {
      FanoutWord(es, b - 1, i);
    }
  }

  // ---------------------------------------------------------------------
  // The name, CRC and offset tables

  function IdTable(es: seq<IndexEntry>): (r: Bytes)
    ensures |r| == 20 * |es|
  {
    if es == [] then [] else IdTable(es[..|es| - 1]) + es[|es| - 1].id
  }

  function CrcTable(es: seq<IndexEntry>): (r: Bytes)
    ensures |r| == 4 * |es|
  {
    if es == [] then [] else CrcTable(es[..|es| - 1]) + es[|es| - 1].crc
  }

  /** The offsets that need the 8-byte table: 0x8000_0000 and above. */
  predicate IsLarge(e: IndexEntry) {
    e.offset >= 0x8000_0000
  }

  /** The 8-byte offset table: the large offsets in entry order. */
  function LargeOffsets(es: seq<IndexEntry>): (r: seq<u64>)
    ensures |r| <= |es|
  {
    if es == [] then []
    else LargeOffsets(es[..|es| - 1]) + (if IsLarge(es[|es| - 1]) then [es[|es| - 1].offset] else [])
  }

  /** `n | 0x8000'0000` truncated to the 32 bits add32be writes. */
  function LargeRef(n: nat): (r: u32)
    ensures n < 0x8000_0000 ==> r == n + 0x8000_0000
  {
    var x := ToU32(n);
    if x >= 0x8000_0000 then x else x + 0x8000_0000
  }

  /** The 4-byte offset table as the version-2 format defines it: the offset
      itself, or the top bit and the entry number in the 8-byte table. This
      is the table CreateIndexFile evidently means to write; it writes the
      byte size of the large table so far instead (see OffsetsAsWritten and
      LargeRefAsWrittenMisreads). */
  function Offsets(es: seq<IndexEntry>): (r: seq<u32>)
    ensures |r| == |es|
  {
    if es == [] then []
    else
      var init, e := es[..|es| - 1], es[|es| - 1];
      Offsets(init) + [if IsLarge(e) then LargeRef(|LargeOffsets(init)|) else e.offset]
  }

  /** The 4-byte offset table as CreateIndexFile writes it:
      `largeoffsets.size()` is the writer's size in bytes, eight times the
      entry number. */
  function OffsetsAsWritten(es: seq<IndexEntry>): (r: seq<u32>)
    ensures |r| == |es|
  {
    if es == [] then []
    else
      var init, e := es[..|es| - 1], es[|es| - 1];
      OffsetsAsWritten(init) + [if IsLarge(e) then LargeRef(|Words64(LargeOffsets(init))|) else e.offset]
  }

  /** The large offsets of the entries before i are a prefix of all of
      them; a large entry i sits right after that prefix. */
  lemma {:induction false} LargeOffsetsAt(es: seq<IndexEntry>, i: nat)
    requires i < |es|
    ensures LargeOffsets(es[..i]) <= LargeOffsets(es)
    ensures IsLarge(es[i]) ==>
      |LargeOffsets(es[..i])| < |LargeOffsets(es)| && LargeOffsets(es)[|LargeOffsets(es[..i])|] == es[i].offset
  {
    var init := es[..|es| - 1];
    assert LargeOffsets(init) <= LargeOffsets(es);
    if i < |es| - 1 {
      assert init[..i] == es[..i] && init[i] == es[i];
      LargeOffsetsAt(init, i);
    } else {
      assert es[..i] == init;
    }
  }

  /** Word i of the version-2 table: a large entry holds the number of the
      large entries before it. */
  lemma {:induction false} OffsetsAt(es: seq<IndexEntry>, i: nat)
    requires i < |es|
    ensures Offsets(es)[i] == if IsLarge(es[i]) then LargeRef(|LargeOffsets(es[..i])|) else es[i].offset
  {
    var init := es[..|es| - 1];
    if i < |es| - 1 {
      assert init[..i] == es[..i] && init[i] == es[i];
      OffsetsAt(init, i);
      assert Offsets(es)[i] == Offsets(init)[i];
    } else {
      assert es[..i] == init;
    }
  }

  /** Word i of the table as written: a large entry holds eight times the
      number of the large entries before it. */
  lemma {:induction false} OffsetsAsWrittenAt(es: seq<IndexEntry>, i: nat)
    requires i < |es|
    ensures OffsetsAsWritten(es)[i] == if IsLarge(es[i]) then LargeRef(8 * |LargeOffsets(es[..i])|) else es[i].offset
  {
    var init := es[..|es| - 1];
    if i < |es| - 1 {
      assert init[..i] == es[..i] && init[i] == es[i];
      OffsetsAsWrittenAt(init, i);
      assert OffsetsAsWritten(es)[i] == OffsetsAsWritten(init)[i];
    } else {
      assert es[..i] == init;
    }
  }

  const IndexMagic: u32 := 0xFF74_4F63   // "\377tOc"
  const IndexVersion: u32 := 2

  /** The header and the five tables of an index file whose 4-byte offset
      table is `offsets`. */
  function IndexFileWith(es: seq<IndexEntry>, offsets: seq<u32>): Bytes {
    BE32(IndexMagic) + BE32(IndexVersion) + Words32(Fanout(es, 256))
      + IdTable(es) + CrcTable(es) + Words32(offsets) + Words64(LargeOffsets(es))
  }

  /** The index file CreateIndexFile writes for sorted entries. */
  function IndexFile(es: seq<IndexEntry>): Bytes {
    IndexFileWith(es, OffsetsAsWritten(es))
  }

  /** The index file the version-2 format calls for. */
  function IntendedIndexFile(es: seq<IndexEntry>): Bytes {
    IndexFileWith(es, Offsets(es))
  }

  /** A reader of the version-2 index: the offset of entry i, the word
      itself or, when its top bit is set, the entry of the 8-byte table that
      the other 31 bits number. */
  function ReadOffset(offsets: seq<u32>, large: seq<u64>, i: nat): (r: Option<u64>)
    requires i < |offsets|
  {
    if offsets[i] < 0x8000_0000 then Some(offsets[i])
    else if offsets[i] - 0x8000_0000 < |large| then Some(large[offsets[i] - 0x8000_0000])
    else None
  }

  /** The same reader on the bytes of the two tables. */
  function ReadOffsetBytes(offsets: Bytes, large: Bytes, i: nat): (r: Option<u64>)
    requires 4 * i + 4 <= |offsets|
  {
    var w := ReadBE32(offsets[4 * i..4 * i + 4]);
    if w < 0x8000_0000 then Some(w)
    else
      var j: int := w - 0x8000_0000;
      if 8 * j + 8 <= |large| then Some(ReadBE64(large[8 * j..8 * j + 8])) else None
  }

  /** Reading the bytes is reading the words they encode. */
  lemma ReadOffsetBytesWords(offsets: seq<u32>, large: seq<u64>, i: nat)
    requires i < |offsets|
    ensures ReadOffsetBytes(Words32(offsets), Words64(large), i) == ReadOffset(offsets, large, i)
  {
    Words32At(offsets, i);
    assert ReadBE32(Words32(offsets)[4 * i..4 * i + 4]) == offsets[i];
    if offsets[i] >= 0x8000_0000 {
      var j: int := offsets[i] - 0x8000_0000;
      assert 8 * j + 8 <= |Words64(large)| <==> j < |large|;
      if j < |large| {
        Words64At(large, j);
      }
    }
  }

  lemma {:induction false} IdTableAt(es: seq<IndexEntry>, i: nat)
    requires i < |es|
    ensures IdTable(es)[20 * i..20 * i + 20] == es[i].id
  {
    var init := es[..|es| - 1];
    if i < |es| - 1 {
      IdTableAt(init, i);
      assert IdTable(es)[..20 * |init|] == IdTable(init);
    }
  }

  lemma {:induction false} CrcTableAt(es: seq<IndexEntry>, i: nat)
    requires i < |es|
    ensures CrcTable(es)[4 * i..4 * i + 4] == es[i].crc
  {
    var init := es[..|es| - 1];
    if i < |es| - 1 {
      CrcTableAt(init, i);
      assert CrcTable(es)[..4 * |init|] == CrcTable(init);
    }
  }

  /** Every offset reads back from the tables, direct or through the
      8-byte table, as long as the entry numbers fit in 31 bits. */
  lemma {:induction false} OffsetRoundTrip(es: seq<IndexEntry>, i: nat)
    requires i < |es| && |LargeOffsets(es)| <= 0x8000_0000
    ensures ReadOffset(Offsets(es), LargeOffsets(es), i) == Some(es[i].offset)
  {
    var init, e := es[..|es| - 1], es[|es| - 1];
    var large := LargeOffsets(init);
    var extra := if IsLarge(e) then [e.offset] else [];
    var word := if IsLarge(e) then LargeRef(|large|) else e.offset;
    assert LargeOffsets(es) == large + extra;
    assert Offsets(es) == Offsets(init) + [word];
    if i < |es| - 1 {
      assert init[i] == es[i];
      OffsetRoundTrip(init, i);
      assert Offsets(es)[i] == Offsets(init)[i];
      if Offsets(init)[i] >= 0x8000_0000 {
        assert LargeOffsets(es)[Offsets(init)[i] - 0x8000_0000] == LargeOffsets(init)[Offsets(init)[i] - 0x8000_0000];
      }
    } else if IsLarge(e) {
      assert LargeOffsets(es)[|large|] == e.offset;
    }
  }

  /** Where each table starts in the index file of n entries. */
  function FanoutStart(): nat { 8 }
  function IdsStart(): nat { 8 + 1024 }
  function CrcsStart(n: nat): nat { IdsStart() + 20 * n }
  function OffsetsStart(n: nat): nat { CrcsStart(n) + 4 * n }
  function LargeStart(n: nat): nat { OffsetsStart(n) + 4 * n }

  /** The parts of a concatenation of seven byte strings, by position. */
  lemma Parts(f: Bytes, h1: Bytes, h2: Bytes, t1: Bytes, t2: Bytes, t3: Bytes, t4: Bytes, t5: Bytes,
              e0: nat, e1: nat, e2: nat, e3: nat, e4: nat)
    requires f == h1 + h2 + t1 + t2 + t3 + t4 + t5
    requires |h1| == 4 && |h2| == 4 && e0 == 8 + |t1| && e1 == e0 + |t2|
    requires e2 == e1 + |t3| && e3 == e2 + |t4| && e4 == e3 + |t5|
    ensures |f| == e4
    ensures f[..4] == h1 && f[4..8] == h2 && f[8..e0] == t1 && f[e0..e1] == t2
    ensures f[e1..e2] == t3 && f[e2..e3] == t4 && f[e3..] == t5
  {
  }

  /** The index file is the header and the five tables, one after the
      other; for the file CreateIndexFile writes, `offsets` is
      OffsetsAsWritten(es). */
  lemma IndexFileLayout(es: seq<IndexEntry>, offsets: seq<u32>)
    requires |offsets| == |es|
    ensures var f := IndexFileWith(es, offsets);
      |f| == LargeStart(|es|) + 8 * |LargeOffsets(es)|
      && f[..4] == BE32(IndexMagic) && f[4..8] == BE32(IndexVersion)
      && f[FanoutStart()..IdsStart()] == Words32(Fanout(es, 256))
      && f[IdsStart()..CrcsStart(|es|)] == IdTable(es)
      && f[CrcsStart(|es|)..OffsetsStart(|es|)] == CrcTable(es)
      && f[OffsetsStart(|es|)..LargeStart(|es|)] == Words32(offsets)
      && f[LargeStart(|es|)..] == Words64(LargeOffsets(es))
  {
    var n := |es|;
    Parts(IndexFileWith(es, offsets), BE32(IndexMagic), BE32(IndexVersion), Words32(Fanout(es, 256)), IdTable(es),
      CrcTable(es), Words32(offsets), Words64(LargeOffsets(es)), IdsStart(), CrcsStart(n),
      OffsetsStart(n), LargeStart(n), LargeStart(n) + 8 * |LargeOffsets(es)|);
  }

  /** A piece of a table that sits at `start` in `f`. */
  lemma WithinTable(f: Bytes, start: nat, end: nat, t: Bytes, k: nat, w: nat)
    requires start <= end <= |f| && f[start..end] == t && start + k + w <= end
    ensures f[start + k..start + k + w] == t[k..k + w]
  {
    var piece, part := f[start + k..start + k + w], t[k..k + w];
    forall m | 0 <= m < w
      ensures piece[m] == part[m]
    {
      assert f[start + k + m] == f[start..end][k + m];
    }
  }

  /** What a reader of the file finds for entry i: its name, ... */
  lemma IndexFileId(es: seq<IndexEntry>, i: nat)
    requires i < |es|
    ensures IndexFile(es)[IdsStart() + 20 * i..IdsStart() + 20 * i + 20] == es[i].id
  {
    IndexFileLayout(es, OffsetsAsWritten(es));
    IdTableAt(es, i);
    WithinTable(IndexFile(es), IdsStart(), CrcsStart(|es|), IdTable(es), 20 * i, 20);
  }

  /** ... its CRC, ... */
  lemma IndexFileCrc(es: seq<IndexEntry>, i: nat)
    requires i < |es|
    ensures IndexFile(es)[CrcsStart(|es|) + 4 * i..CrcsStart(|es|) + 4 * i + 4] == es[i].crc
  {
    IndexFileLayout(es, OffsetsAsWritten(es));
    CrcTableAt(es, i);
    WithinTable(IndexFile(es), CrcsStart(|es|), OffsetsStart(|es|), CrcTable(es), 4 * i, 4);
  }

  /** ... and, through the two offset tables, its offset, when it is small
      or the first large one (see LargeRefAsWrittenMisreads). */
  lemma IndexFileOffset(es: seq<IndexEntry>, i: nat)
    requires i < |es| && 8 * |LargeOffsets(es)| <= 0x8000_0000
    requires forall a, b | 0 <= a < b < |LargeOffsets(es)| :: LargeOffsets(es)[a] != LargeOffsets(es)[b]
    ensures var r := ReadOffsetBytes(IndexFile(es)[OffsetsStart(|es|)..LargeStart(|es|)], IndexFile(es)[LargeStart(|es|)..], i);
      r == Some(es[i].offset) <==> !IsLarge(es[i]) || LargeOffsets(es[..i]) == []
  {
    IndexFileLayout(es, OffsetsAsWritten(es));
    ReadOffsetBytesWords(OffsetsAsWritten(es), LargeOffsets(es), i);
    LargeRefAsWrittenMisreads(es, i);
  }

  /** In the file the version-2 format calls for, every offset reads back,
      as long as the large entry numbers fit in 31 bits. */
  lemma IntendedIndexFileOffset(es: seq<IndexEntry>, i: nat)
    requires i < |es| && |LargeOffsets(es)| <= 0x8000_0000
    ensures ReadOffsetBytes(IntendedIndexFile(es)[OffsetsStart(|es|)..LargeStart(|es|)],
      IntendedIndexFile(es)[LargeStart(|es|)..], i) == Some(es[i].offset)
  {
    IndexFileLayout(es, Offsets(es));
    OffsetRoundTrip(es, i);
    ReadOffsetBytesWords(Offsets(es), LargeOffsets(es), i);
  }

  /** Word b of the file's fan-out table counts the entries whose first id
      byte is at most b; the last one counts them all. */
  lemma IndexFileFanout(es: seq<IndexEntry>, b: nat)
    requires b < 256
    ensures ReadBE32(IndexFile(es)[FanoutStart() + 4 * b..FanoutStart() + 4 * b + 4]) == ToU32(CountUpTo(es, b))
    ensures b == 255 ==> CountUpTo(es, b) == |es|
  {
    IndexFileLayout(es, OffsetsAsWritten(es));
    Words32At(Fanout(es, 256), b);
    FanoutWord(es, 256, b);
    WithinTable(IndexFile(es), FanoutStart(), IdsStart(), Words32(Fanout(es, 256)), 4 * b, 4);
    CountUpToAll(es);
  }

  /** The large-table references CreateIndexFile writes are byte positions:
      a reader of the version-2 format takes large entry k (from 0) for entry
      8k of the 8-byte table, another offset or past its end. So an
      offset reads back exactly when it is small or the first large one. */
  lemma LargeRefAsWrittenMisreads(es: seq<IndexEntry>, i: nat)
    requires i < |es| && 8 * |LargeOffsets(es)| <= 0x8000_0000
    requires forall a, b | 0 <= a < b < |LargeOffsets(es)| :: LargeOffsets(es)[a] != LargeOffsets(es)[b]
    ensures ReadOffset(OffsetsAsWritten(es), LargeOffsets(es), i) == Some(es[i].offset)
      <==> !IsLarge(es[i]) || LargeOffsets(es[..i]) == []
  {
    OffsetsAsWrittenAt(es, i);
    if IsLarge(es[i]) {
      LargeOffsetsAt(es, i);
      var k := |LargeOffsets(es[..i])|;
      assert OffsetsAsWritten(es)[i] == 8 * k + 0x8000_0000;
      if k > 0 && 8 * k < |LargeOffsets(es)| {
        assert LargeOffsets(es)[k] != LargeOffsets(es)[8 * k];
      }
    }
  }

  /** With two large offsets the second entry's word is 0x8000_0008, which
      a reader takes for entry 8 of a two-entry table. */
  lemma LargeRefMisreadExample()
    ensures var id: Id := Zeros(20);
      var es := [IndexEntry(id, [0, 0, 0, 0], 0x8000_0000, 3), IndexEntry(id, [0, 0, 0, 0], 0x8000_0001, 3)];
      OffsetsAsWritten(es)[1] == 0x8000_0008
      && ReadOffset(OffsetsAsWritten(es), LargeOffsets(es), 1).None?
      && ReadOffset(Offsets(es), LargeOffsets(es), 1) == Some(0x8000_0001)
  {
    var id: Id := Zeros(20);
    var e0, e1 := IndexEntry(id, [0, 0, 0, 0], 0x8000_0000, 3), IndexEntry(id, [0, 0, 0, 0], 0x8000_0001, 3);
    var es := [e0, e1];
    assert es[..1] == [e0] && [e0][..0] == [];
    assert LargeOffsets([e0]) == [0x8000_0000];
    assert |Words64(LargeOffsets([e0]))| == 8;
    assert LargeOffsets(es) == [0x8000_0000, 0x8000_0001];
    OffsetRoundTrip(es, 1);
  }

  // ---------------------------------------------------------------------
  // CreateIndexFile

  /** The `while (lastId < start)` loop of CreateIndexFile, and the one
      after the entries with 0x100 for `start`: a fan-out word holding `n`
      for each first byte from `lastId` up to `upTo`. */
  method FillFanout(index: seq<IndexEntry>, n: nat, ii: Bytes, lastId: nat, upTo: nat)
    returns (ii': Bytes, lastId': nat)
    requires n <= |index| && lastId <= upTo <= 256
    requires ii == Words32(Fanout(index, lastId))
    requires forall k | 0 <= k < n :: index[k].id[0] <= lastId
    requires forall k | n <= k < |index| :: upTo <= index[k].id[0]
    ensures lastId' == upTo && ii' == Words32(Fanout(index, upTo))
  {
    ii', lastId' := ii, lastId;
    while lastId' < upTo
      invariant lastId <= lastId' <= upTo
      invariant ii' == Words32(Fanout(index, lastId'))
    {
      CountUpToAt(index, lastId', n);
      Words32Append(Fanout(index, lastId'), ToU32(n));
      ii' := ii' + BE32(ToU32(n));
      lastId' := lastId' + 1;
    }
  }

  /** The name and CRC tables of one more entry. */
  lemma NameTablesStep(index: seq<IndexEntry>, n: nat)
    requires n < |index|
    ensures IdTable(index[..n + 1]) == IdTable(index[..n]) + index[n].id
    ensures CrcTable(index[..n + 1]) == CrcTable(index[..n]) + index[n].crc
  {
    assert index[..n + 1][..n] == index[..n];
  }

  /** The offset tables of one more entry, with a small offset. */
  lemma SmallOffsetStep(index: seq<IndexEntry>, n: nat)
    requires n < |index| && !IsLarge(index[n])
    ensures OffsetsAsWritten(index[..n + 1]) == OffsetsAsWritten(index[..n]) + [index[n].offset]
    ensures LargeOffsets(index[..n + 1]) == LargeOffsets(index[..n])
  {
    assert index[..n + 1][..n] == index[..n];
  }

  /** The offset tables of one more entry, with a large offset. */
  lemma LargeOffsetStep(index: seq<IndexEntry>, n: nat)
    requires n < |index| && IsLarge(index[n])
    ensures OffsetsAsWritten(index[..n + 1])
      == OffsetsAsWritten(index[..n]) + [LargeRef(|Words64(LargeOffsets(index[..n]))|)]
    ensures LargeOffsets(index[..n + 1]) == LargeOffsets(index[..n]) + [index[n].offset]
  {
    assert index[..n + 1][..n] == index[..n];
  }

  /** The offset of entry n goes to the 4-byte table, and when it is large
      to the 8-byte table as well. */
  method AddOffset(index: seq<IndexEntry>, n: nat, offsets: Bytes, largeoffsets: Bytes)
    returns (offsets': Bytes, largeoffsets': Bytes)
    requires n < |index|
    requires offsets == Words32(OffsetsAsWritten(index[..n])) && largeoffsets == Words64(LargeOffsets(index[..n]))
    ensures offsets' == Words32(OffsetsAsWritten(index[..n + 1]))
    ensures largeoffsets' == Words64(LargeOffsets(index[..n + 1]))
  {
    var e := index[n];
    if e.offset < 0x8000_0000 {
      SmallOffsetStep(index, n);
      Words32Append(OffsetsAsWritten(index[..n]), e.offset);
      offsets' := offsets + BE32(e.offset);
      largeoffsets' := largeoffsets;
    } else {
      // The byte size of the large table, not its entry count (see
      // LargeRefAsWrittenMisreads).
      var ref := LargeRef(|largeoffsets|);
      LargeOffsetStep(index, n);
      Words32Append(OffsetsAsWritten(index[..n]), ref);
      Words64Append(LargeOffsets(index[..n]), e.offset);
      offsets' := offsets + BE32(ref);
      largeoffsets' := largeoffsets + BE64(e.offset);
    }
  }

  /** On sorted entries, the entries before n are at or below the first
      byte of entry n - 1, those from n on at or above that of entry n. */
  lemma FirstBytesAround(index: seq<IndexEntry>, n: nat, lastId: nat)
    requires SortedById(index) && n <= |index|
    requires n == 0 ==> lastId == 0
    requires n > 0 ==> lastId == index[n - 1].id[0]
    ensures forall k | 0 <= k < n :: index[k].id[0] <= lastId
    ensures n < |index| ==> lastId <= index[n].id[0]
    ensures n < |index| ==> forall k | n <= k < |index| :: index[n].id[0] <= index[k].id[0]
  {
    forall k | 0 <= k < n
      ensures index[k].id[0] <= lastId
    {
      SortedFirstByte(index, k, n - 1);
    }
    if n < |index| {
      forall k | n <= k < |index|
        ensures index[n].id[0] <= index[k].id[0]
      {
        SortedFirstByte(index, n, k);
      }
      if n > 0 {
        SortedFirstByte(index, n - 1, n);
      }
    }
  }

  /** CreateIndexFile after the sort: one pass over the entries fills the
      writers, the fan-out words of the first bytes not yet seen are filled
      in before each entry and at the end. */
  method WriteIndexFile(index: seq<IndexEntry>) returns (main: Bytes)
    requires SortedById(index)
    ensures main == IndexFile(index)
  {
    var crcs, ids, offsets, largeoffsets, ii: Bytes := [], [], [], [], [];
    var lastId: nat := 0;
    var n := 0;
    assert index[..0] == [];
    while n < |index|
      invariant n <= |index| && lastId <= 256
      invariant n == 0 ==> lastId == 0
      invariant n > 0 ==> lastId == index[n - 1].id[0]
      invariant ii == Words32(Fanout(index, lastId))
      invariant ids == IdTable(index[..n]) && crcs == CrcTable(index[..n])
      invariant offsets == Words32(OffsetsAsWritten(index[..n]))
      invariant largeoffsets == Words64(LargeOffsets(index[..n]))
    {
      var start := index[n].id[0];
      FirstBytesAround(index, n, lastId);
      ii, lastId := FillFanout(index, n, ii, lastId, start);
      NameTablesStep(index, n);
      crcs := crcs + index[n].crc;
      ids := ids + index[n].id;
      offsets, largeoffsets := AddOffset(index, n, offsets, largeoffsets);
      n := n + 1;
    }
    FirstBytesAround(index, n, lastId);
    ii, lastId := FillFanout(index, n, ii, lastId, 0x100);
    assert index[..n] == index;
    main := BE32(IndexMagic) + BE32(IndexVersion) + ii + ids + crcs + offsets + largeoffsets;
  }

  /** CreateIndexFile: the index file of the entries in id order. */
  method CreateIndexFile(index: seq<IndexEntry>) returns (main: Bytes)
    ensures exists sorted | SortedById(sorted) && multiset(sorted) == multiset(index) :: main == IndexFile(sorted)
  {
    var sorted := SortIndex(index);
    main := WriteIndexFile(sorted);
  }

  // ---------------------------------------------------------------------
  // The size-and-type word of a packed object

  /** `(int)obj.type()` widened to the 64 bits of size_t: Invalid (-1) sets
      every bit. */
  function TypeBits(t: ObjType): (r: bv64)
    ensures t != Invalid ==> 1 <= r <= 3
  {
    match t
    case Invalid => 0xFFFF_FFFF_FFFF_FFFF
    case Commit => 1
    case Tree => 2
    case Blob => 3
  }

  /** WritePack's word: size bits 0-3 stay, size bits 4-55 move up to bits
      7-58 and the type goes in from bit 4 on. */
  function PackHeader(size: bv64, typeBits: bv64): bv64 {
    ((size & 0xFF_FFFF_FFFF_FFF0) << 3) | (size & 0xF) | (typeBits << 4)
  }

  /** RegenerateIndex: the type is bits 4-6 of the word. */
  function HeaderType(v: bv64): bv64 {
    (v >> 4) & 0x7
  }

  /** RegenerateIndex: the size is bits 0-3 and bits 7-63 moved down to 4. */
  function HeaderSize(v: bv64): bv64 {
    ((v & 0xFFFF_FFFF_FFFF_FF80) >> 3) | (v & 0xF)
  }

  /** The unpacking gives back any type code of three bits. */
  lemma HeaderTypeRoundTrip(size: bv64, typeBits: bv64)
    requires typeBits < 8
    ensures HeaderType(PackHeader(size, typeBits)) == typeBits
  {
  }

  /** The unpacking gives back the size without its bits from 56 on. */
  lemma HeaderSizeRoundTrip(size: bv64, typeBits: bv64)
    requires typeBits < 8
    ensures HeaderSize(PackHeader(size, typeBits)) == size & 0xFF_FFFF_FFFF_FFFF
  {
  }

  lemma SmallSizeBits(size: bv64)
    requires size < 0x100_0000_0000_0000
    ensures size & 0xFF_FFFF_FFFF_FFFF == size
  {
  }

  /** Packing and unpacking are inverse for a type code of three bits and a
      size below 2^56. */
  lemma HeaderRoundTrip(size: bv64, typeBits: bv64)
    requires typeBits < 8 && size < 0x100_0000_0000_0000
    ensures HeaderType(PackHeader(size, typeBits)) == typeBits
    ensures HeaderSize(PackHeader(size, typeBits)) == size
  {
    HeaderTypeRoundTrip(size, typeBits);
    HeaderSizeRoundTrip(size, typeBits);
    SmallSizeBits(size);
  }

  /** An Invalid object's word unpacks to type 7 and a size with every bit
      from 4 to 60 set. */
  lemma HeaderOfInvalid(size: bv64)
    ensures HeaderType(PackHeader(size, TypeBits(Invalid))) == 7
    ensures HeaderSize(PackHeader(size, TypeBits(Invalid))) == 0x1FFF_FFFF_FFFF_FFF0 | (size & 0xF)
  {
  }

  // ---------------------------------------------------------------------
  // Pack::get

  /** A pack: the bytes of the pack file and the index of its objects. */
  datatype Pack = Pack(data: Bytes, index: seq<IndexEntry>)

  /** The position of the first entry whose id is not below `id`. */
  function FirstNotBelow(index: seq<IndexEntry>, id: Id): (r: nat)
    ensures r <= |index|
  {
    if index == [] || !Less(index[0].id, id) then 0 else 1 + FirstNotBelow(index[1..], id)
  }

  /** `data.subspan(offset)`; an offset past the end, undefined in C++, gives
      the empty span. */
  function Subspan(data: Bytes, offset: nat): (r: Bytes)
    ensures offset <= |data| ==> data == data[..offset] + r
  {
    if offset <= |data| then data[offset..] else []
  }

  /** Every entry before the position is below `id`, the one at it is not. */
  lemma {:induction false} FirstNotBelowSpec(index: seq<IndexEntry>, id: Id)
    ensures forall k | 0 <= k < FirstNotBelow(index, id) :: Less(index[k].id, id)
    ensures FirstNotBelow(index, id) < |index| ==> !Less(index[FirstNotBelow(index, id)].id, id)
  {
    if index != [] && Less(index[0].id, id) {
      FirstNotBelowSpec(index[1..], id);
      forall k | 0 < k < FirstNotBelow(index, id)
        ensures Less(index[k].id, id)
      {
        assert index[k] == index[1..][k - 1];
      }
    }
  }

  /** The position is the one that splits the index into entries below `id`
      and the others. */
  lemma {:induction false} FirstNotBelowAt(index: seq<IndexEntry>, id: Id, n: nat)
    requires n <= |index|
    requires forall k | 0 <= k < n :: Less(index[k].id, id)
    requires n < |index| ==> !Less(index[n].id, id)
    ensures FirstNotBelow(index, id) == n
  {
    if n > 0 {
      assert Less(index[0].id, id);
      forall k | 0 <= k < n - 1
        ensures Less(index[1..][k].id, id)
      {
        assert index[1..][k] == index[k + 1];
      }
      if n < |index| {
        assert index[1..][n - 1] == index[n];
      }
      FirstNotBelowAt(index[1..], id, n - 1);
    }
  }

  /** In an ordered index, an entry before one below `id` is below it too. */
  lemma SortedBelow(index: seq<IndexEntry>, id: Id, k: nat, m: nat)
    requires SortedById(index) && k <= m < |index| && Less(index[m].id, id)
    ensures Less(index[k].id, id)
  {
    LessTotal(index[k].id, index[m].id);
    if Less(index[k].id, index[m].id) {
      LessTransitive(index[k].id, index[m].id, id);
    }
  }

  /** In an ordered index, the entries from one not below `id` on are not
      below it either. */
  lemma NotBelowFrom(index: seq<IndexEntry>, id: Id, m: nat)
    requires SortedById(index) && m < |index| && !Less(index[m].id, id)
    ensures forall k | m <= k < |index| :: !Less(index[k].id, id)
  {
    forall k | m <= k < |index|
      ensures !Less(index[k].id, id)
    {
      if Less(index[k].id, id) {
        SortedBelow(index, id, m, k);
      }
    }
  }

  /** std::lower_bound as libstdc++ runs it on [first, first + len): look
      at the element in the middle and keep the half that can still hold
      the answer. */
  function LowerBoundFrom(index: seq<IndexEntry>, id: Id, first: nat, len: nat): (r: nat)
    requires first + len <= |index|
    ensures first <= r <= first + len
    decreases len
  {
    if len == 0 then first
    else
      var half := len / 2;
      var middle := first + half;
      if Less(index[middle].id, id) then LowerBoundFrom(index, id, middle + 1, len - half - 1)
      else LowerBoundFrom(index, id, first, half)
  }

  /** One halving step: the entry in the middle is below `id`. */
  lemma LowerBoundFromBelow(index: seq<IndexEntry>, id: Id, first: nat, len: nat)
    requires first + len <= |index| && len > 0 && Less(index[first + len / 2].id, id)
    ensures LowerBoundFrom(index, id, first, len) == LowerBoundFrom(index, id, first + len / 2 + 1, len - len / 2 - 1)
  {
  }

  /** One halving step: the entry in the middle is not below `id`. */
  lemma LowerBoundFromAbove(index: seq<IndexEntry>, id: Id, first: nat, len: nat)
    requires first + len <= |index| && len > 0 && !Less(index[first + len / 2].id, id)
    ensures LowerBoundFrom(index, id, first, len) == LowerBoundFrom(index, id, first, len / 2)
  {
  }

  /** On an ordered index the halving finds the first entry not below
      `id`, as long as that entry lies in [first, first + len]. */
  lemma {:induction false} LowerBoundFromSorted(index: seq<IndexEntry>, id: Id, first: nat, len: nat)
    requires first + len <= |index| && SortedById(index)
    requires first <= FirstNotBelow(index, id) <= first + len
    ensures LowerBoundFrom(index, id, first, len) == FirstNotBelow(index, id)
    decreases len
  {
    var f := FirstNotBelow(index, id);
    FirstNotBelowSpec(index, id);
    if len > 0 {
      if Less(index[first + len / 2].id, id) {
        assert first + len / 2 < f by {
          if f <= first + len / 2 {
            NotBelowFrom(index, id, f);
          }
        }
        LowerBoundFromBelow(index, id, first, len);
        LowerBoundFromSorted(index, id, first + len / 2 + 1, len - len / 2 - 1);
      } else {
        assert f <= first + len / 2;
        LowerBoundFromAbove(index, id, first, len);
        LowerBoundFromSorted(index, id, first, len / 2);
      }
    }
  }

  /** std::lower_bound over the whole index. */
  function LowerBoundOf(index: seq<IndexEntry>, id: Id): (r: nat)
    ensures r <= |index|
  {
    LowerBoundFrom(index, id, 0, |index|)
  }

  lemma LowerBoundSorted(index: seq<IndexEntry>, id: Id)
    requires SortedById(index)
    ensures LowerBoundOf(index, id) == FirstNotBelow(index, id)
  {
    LowerBoundFromSorted(index, id, 0, |index|);
  }

  /** Pack::get: None unless the entry lower_bound stops at carries the
      id, otherwise the pack data inflated from that entry's offset. */
  function PackLookup(p: Primitives, pack: Pack, id: Id): (r: Option<Bytes>) {
    var i := LowerBoundOf(pack.index, id);
    if i == |pack.index| || pack.index[i].id != id then None
    else Some(p.decompress(Subspan(pack.data, pack.index[i].offset)))
  }

  /** The loop of std::lower_bound. */
  method LowerBound(index: seq<IndexEntry>, id: Id) returns (first: nat)
    ensures first == LowerBoundOf(index, id)
  {
    first := 0;
    var len: nat := |index|;
    while len > 0
      invariant first + len <= |index|
      invariant LowerBoundFrom(index, id, first, len) == LowerBoundOf(index, id)
      decreases len
    {
      var half := len / 2;
      var middle := first + half;
      if Less(index[middle].id, id) {
        first := middle + 1;
        len := len - half - 1;
      } else {
        len := half;
      }
    }
  }

  /** Pack::get: the lower_bound, the id check, and inflating the pack
      data from the entry's offset. */
  method PackGet(p: Primitives, pack: Pack, id: Id) returns (r: Option<Bytes>)
    ensures r == PackLookup(p, pack, id)
  {
    var it := LowerBound(pack.index, id);
    if it == |pack.index| || pack.index[it].id != id {
      return None;
    }
    return Some(p.decompress(Subspan(pack.data, pack.index[it].offset)));
  }

  /** Whatever the order of the index, a result comes from an entry that
      carries the id. */
  lemma PackLookupSound(p: Primitives, pack: Pack, id: Id)
    ensures PackLookup(p, pack, id).Some? ==> exists k | 0 <= k < |pack.index| ::
      pack.index[k].id == id && PackLookup(p, pack, id).value == p.decompress(Subspan(pack.data, pack.index[k].offset))
  {
    var i := LowerBoundOf(pack.index, id);
    if PackLookup(p, pack, id).Some? {
      assert pack.index[i].id == id;
    }
  }

  /** On an ordered index the lookup finds an object exactly when some
      entry carries its id. */
  lemma PackLookupComplete(p: Primitives, pack: Pack, id: Id)
    requires SortedById(pack.index)
    ensures PackLookup(p, pack, id).Some? <==> exists k | 0 <= k < |pack.index| :: pack.index[k].id == id
  {
    var index := pack.index;
    LowerBoundSorted(index, id);
    var i := FirstNotBelow(index, id);
    FirstNotBelowSpec(index, id);
    if exists k | 0 <= k < |index| :: index[k].id == id {
      var k :| 0 <= k < |index| && index[k].id == id;
      if k < i {
        LessIrreflexive(id);
      }
      assert i < |index|;
      if i < k {
        LessTotal(index[i].id, id);
      }
    }
  }
}
