/** Tree objects: DirEntry and Tree (Object.hpp), their encoding by the
    Object(Tree) constructor and their decoding by Object::readAsTree
    (Object.cpp), and the name lookup and update of Tree::set/Tree::get. */
module Trees {
  import opened Wrappers
  import opened Bytes
  import opened Numerals
  import opened Endian
  import opened Ids
  import opened Objects

  datatype DirEntry = DirEntry(fileMode: u16, fileName: Bytes, hash: Id)

  datatype Tree = Tree(entries: seq<DirEntry>)

  /** One entry as Object(Tree) writes it: "%06o " of the mode, the name and
      its NUL terminator, then the 20 hash bytes. */
  function EntryBytes(e: DirEntry): (r: Bytes)
    ensures |r| == 28 + |e.fileName|
  {
    Octal6(e.fileMode) + [SP] + e.fileName + [NUL] + e.hash
  }

  /** The payload of a tree object: the entries one after another. */
  function TreePayload(es: seq<DirEntry>): Bytes {
    if es == [] then [] else EntryBytes(es[0]) + TreePayload(es[1..])
  }

  /** The payload length the constructor computes first: 28 bytes plus the
      name per entry. */
  function DataLength(es: seq<DirEntry>): nat {
    if es == [] then 0 else 28 + |es[0].fileName| + DataLength(es[1..])
  }

  /** The buffer of Object(t). */
  function TreeBuffer(t: Tree): Bytes {
    Frame(TreeTag, TreePayload(t.entries))
  }

  lemma {:induction false} TreePayloadLength(es: seq<DirEntry>)
    ensures |TreePayload(es)| == DataLength(es)
  {
    if es != [] {
      TreePayloadLength(es[1..]);
    }
  }

  lemma {:induction false} TreePayloadAppend(es: seq<DirEntry>, e: DirEntry)
    ensures TreePayload(es + [e]) == TreePayload(es) + EntryBytes(e)
    ensures DataLength(es + [e]) == DataLength(es) + 28 + |e.fileName|
  {
    if es == [] {
      assert es + [e] == [e];
    } else {
      assert (es + [e])[1..] == es[1..] + [e];
      TreePayloadAppend(es[1..], e);
    }
  }

  /** Copies `src` into `a` at `at` (memcpy). */
  method Blit(a: array<byte>, at: nat, src: Bytes)
    requires at + |src| <= a.Length
    modifies a
    ensures a[..at + |src|] == old(a[..at]) + src
  {
    var k := 0;
    while k < |src|
      invariant 0 <= k <= |src|
      invariant a[..at + k] == old(a[..at]) + src[..k]
    {
      a[at + k] := src[k];
      assert src[..k + 1] == src[..k] + [src[k]];
      k := k + 1;
    }
  }

  /** One entry written through the moving position, as the loop body of
      Object(Tree) does. */
  method WriteEntry(a: array<byte>, p: nat, e: DirEntry)
    requires p + 28 + |e.fileName| <= a.Length
    modifies a
    ensures a[..p + 28 + |e.fileName|] == old(a[..p]) + EntryBytes(e)
  {
    var n := |e.fileName|;
    var x1, x2 := Octal6(e.fileMode) + [SP], e.fileName + [NUL];
    Blit(a, p, x1);
    Blit(a, p + 7, x2);
    Blit(a, p + 8 + n, e.hash);
    assert old(a[..p]) + x1 + x2 + e.hash == old(a[..p]) + EntryBytes(e);
  }

  /** The length pass of Object(Tree). */
  method PayloadLength(es: seq<DirEntry>) returns (dataLength: nat)
    ensures dataLength == DataLength(es)
  {
    dataLength := 0;
    var i := 0;
    while i < |es|
      invariant 0 <= i <= |es|
      invariant dataLength == DataLength(es[..i])
    {
      TreePayloadAppend(es[..i], es[i]);
      assert es[..i + 1] == es[..i] + [es[i]];
      dataLength := dataLength + 28 + |es[i].fileName|;
      i := i + 1;
    }
    assert es[..i] == es;
  }

  /** The payload of the first `i + 1` entries extends that of the first `i`. */
  lemma PayloadStep(head: Bytes, es: seq<DirEntry>, i: nat)
    requires i < |es|
    ensures head + TreePayload(es[..i]) + EntryBytes(es[i]) == head + TreePayload(es[..i + 1])
    ensures DataLength(es[..i + 1]) == DataLength(es[..i]) + 28 + |es[i].fileName|
    ensures DataLength(es[..i + 1]) <= DataLength(es)
  {
    TreePayloadAppend(es[..i], es[i]);
    assert es[..i + 1] == es[..i] + [es[i]];
    DataLengthPrefix(es, i + 1);
  }

  /** One turn of the entry loop: entry `i` goes at `p`, after the bytes
      already written, which are `head` and the first `i` entries. */
  method WriteNext(a: array<byte>, p: nat, head: Bytes, es: seq<DirEntry>, i: nat)
    requires i < |es| && p + 28 + |es[i].fileName| <= a.Length
    requires a[..p] == head + TreePayload(es[..i])
    modifies a
    ensures a[..p + 28 + |es[i].fileName|] == head + TreePayload(es[..i + 1])
  {
    PayloadStep(head, es, i);
    WriteEntry(a, p, es[i]);
  }

  /** Object(Tree): the length pass, the prefix with its NUL, then each entry
      written through the moving position `p`. */
  method EncodeTree(t: Tree) returns (o: Object)
    ensures o.buffer == TreeBuffer(t)
    ensures |o.buffer| == |TreeTag| + 1 + |Decimal(DataLength(t.entries))| + 1 + DataLength(t.entries)
  {
    var es := t.entries;
    var dataLength := PayloadLength(es);
    var head := TreeTag + [SP] + Decimal(dataLength) + [NUL];
    var buffer := new byte[|head| + dataLength](_ => 0);
    Blit(buffer, 0, head);
    var p := |head|;
    var i := 0;
    while i < |es|
      invariant 0 <= i <= |es|
      invariant p == |head| + DataLength(es[..i]) <= buffer.Length
      invariant buffer[..p] == head + TreePayload(es[..i])
    {
      PayloadStep(head, es, i);
      WriteNext(buffer, p, head, es, i);
      p := p + 28 + |es[i].fileName|;
      i := i + 1;
    }
    assert es[..i] == es;
    TreePayloadLength(es);
    assert buffer[..] == buffer[..p];
    o := Object(buffer[..]);
  }

  lemma {:induction false} DataLengthPrefix(es: seq<DirEntry>, k: nat)
    requires k <= |es|
    ensures DataLength(es[..k]) <= DataLength(es)
  {
    if k > 0 {
      assert es[..k][1..] == es[1..][..k - 1];
      DataLengthPrefix(es[1..], k - 1);
    }
  }

  /** One turn of the readAsTree loop on the unread bytes `d`: getStringNT,
      the mode before the first space (std::stol base 8, narrowed to
      uint16_t), the name after it, then getArray<20>. When the string holds
      no space, find returns npos: the mode text is the whole string and, as
      npos + 1 wraps to 0, so is the name. Running out of bytes is an error.
      The result holds the entry and the number of bytes consumed. */
  function ReadEntry(d: Bytes): (r: Result<(DirEntry, nat)>)
    ensures r.Ok? ==> 0 < r.value.1 <= |d|
    ensures r.Err? ==> r.error == Truncated || r.error == InvalidNumber || r.error == NumberOutOfRange
  {
    match IndexOf(d, NUL)
    case None => Err(Truncated)
    case Some(i) =>
      var str := d[..i];
      var space := IndexOf(str, SP);
      var modeText := if space.None? then str else str[..space.value];
      var name := if space.None? then str else str[space.value + 1..];
      var mode :- StoL(modeText, 8);
      if |d| < i + 21 then Err(Truncated)
      else Ok((DirEntry(ToU16(mode), name, d[i + 1..i + 21]), i + 21))
  }

  /** `es` in front of the entries of `r`, or the error of `r`. */
  function Prepend(es: seq<DirEntry>, r: Result<seq<DirEntry>>): Result<seq<DirEntry>> {
    if r.Err? then r else Ok(es + r.value)
  }

  /** The entries readAsTree collects from a payload, in order. */
  function ParseEntries(d: Bytes): (r: Result<seq<DirEntry>>)
    ensures r.Err? ==> r.error == Truncated || r.error == InvalidNumber || r.error == NumberOutOfRange
    decreases |d|
  {
    if d == [] then Ok([])
    else
      match ReadEntry(d)
      case Err(e) => Err(e)
      case Ok(x) => Prepend([x.0], ParseEntries(d[x.1..]))
  }

  /** Object::readAsTree as a function of the object. */
  function DecodeTree(o: Object): (r: Result<Tree>)
    ensures TypeOf(o) != ObjType.Tree ==> r == Err(CorruptRepository)
    ensures r.Err? ==> r.error == CorruptRepository || r.error == Truncated || r.error == InvalidNumber || r.error == NumberOutOfRange
  {
    if TypeOf(o) != ObjType.Tree then Err(CorruptRepository)
    else
      var es :- ParseEntries(DataOf(o));
      Ok(Tree.Tree(es))
  }

  lemma PrependPrepend(a: seq<DirEntry>, b: seq<DirEntry>, r: Result<seq<DirEntry>>)
    ensures Prepend(a, Prepend(b, r)) == Prepend(a + b, r)
  {
    if r.Ok? {
      assert a + (b + r.value) == a + b + r.value;
    }
  }

  /** The loop invariant of readAsTree carried over one entry. */
  lemma Advance(rest: Bytes, e: DirEntry, n: nat, entries: seq<DirEntry>, all: Result<seq<DirEntry>>)
    requires rest != [] && ReadEntry(rest) == Ok((e, n))
    requires all == Prepend(entries, ParseEntries(rest))
    ensures n <= |rest| && all == Prepend(entries + [e], ParseEntries(rest[n..]))
  {
    PrependPrepend(entries, [e], ParseEntries(rest[n..]));
  }

  lemma PrependNil(r: Result<seq<DirEntry>>)
    ensures r == Prepend([], r)
  {
    if r.Ok? {
      assert [] + r.value == r.value;
    }
  }

  /** The reader loop of Object::readAsTree, appending one entry per turn
      until no bytes are left. */
  method ReadEntries(d: Bytes) returns (r: Result<seq<DirEntry>>)
    ensures r == ParseEntries(d)
  {
    ghost var all := ParseEntries(d);
    var entries: seq<DirEntry> := [];
    var rest := d;
    PrependNil(all);
    while rest != []
      invariant all == Prepend(entries, ParseEntries(rest))
      decreases |rest|
    {
      var x := ReadEntry(rest);
      if x.Err? {
        return Err(x.error);
      }
      var (e, n) := x.value;
      Advance(rest, e, n, entries, all);
      entries := entries + [e];
      rest := rest[n..];
    }
    assert entries + [] == entries;
    r := Ok(entries);
  }

  /** Object::readAsTree: refuses anything but a tree, then reads the
      entries of the payload. */
  method ReadAsTree(o: Object) returns (r: Result<Tree>)
    ensures r == DecodeTree(o)
  {
    if TypeOf(o) != ObjType.Tree {
      return Err(CorruptRepository);
    }
    var es :- ReadEntries(DataOf(o));
    r := Ok(Tree.Tree(es));
  }

  /** A name without NUL survives getStringNT, and the mode text is the six
      octal digits before the first space. */
  lemma ReadEntryOf(e: DirEntry, rest: Bytes)
    requires NUL !in e.fileName
    ensures ReadEntry(EntryBytes(e) + rest) == Ok((e, 28 + |e.fileName|))
  {
    var m := Octal6(e.fileMode);
    var d := EntryBytes(e) + rest;
    OctalHasNoSeparators(e.fileMode);
    var n := |e.fileName|;
    assert d[..7 + n] == m + [SP] + e.fileName;
    assert d[7 + n] == NUL;
    assert NUL !in d[..7 + n];
    var str := d[..7 + n];
    assert str[..6] == m && str[6] == SP && SP !in str[..6];
    assert IndexOf(str, SP) == Some(6);
    assert str[7..] == e.fileName;
    StoLOctal6(e.fileMode);
    assert d[8 + n..28 + n] == e.hash;
  }

  lemma OctalHasNoSeparators(m: u16)
    ensures NUL !in Octal6(m) && SP !in Octal6(m)
  {
    var d := Digits(m, 8);
    DigitsAreDigits(m, 8);
    DigitsLength(m, 8, 6, Pow(8, 6));
    PaddedDigits(6 - |d|, d, 8);
    var o := Octal6(m);
    forall k | 0 <= k < |o|
      ensures o[k] != NUL && o[k] != SP
    {
      assert IsDigit(o[k], 8);
    }
  }

  /** readAsTree reads back the entries Object(Tree) wrote. */
  lemma {:induction false} ParseEntriesOf(es: seq<DirEntry>)
    requires forall k | 0 <= k < |es| :: NUL !in es[k].fileName
    ensures ParseEntries(TreePayload(es)) == Ok(es)
  {
    if es != [] {
      var e, rest := es[0], TreePayload(es[1..]);
      var d := EntryBytes(e) + rest;
      assert TreePayload(es) == d;
      ReadEntryOf(e, rest);
      assert d[28 + |e.fileName|..] == rest;
      ParseEntriesOf(es[1..]);
      assert [e] + es[1..] == es;
    }
  }

  /** readAsTree(Object(t)) == t for trees whose names hold no NUL. */
  lemma TreeRoundTrip(t: Tree)
    requires forall k | 0 <= k < |t.entries| :: NUL !in t.entries[k].fileName
    ensures DecodeTree(Object(TreeBuffer(t))) == Ok(t)
  {
    TypeOfFrame(TreeTag, TreePayload(t.entries));
    DataOfFrame(TreeTag, TreePayload(t.entries));
    ParseEntriesOf(t.entries);
  }

  /** A buffer that is not a tree frame is refused. */
  lemma DecodeTreeOfOther(t: ObjType, payload: Bytes)
    requires t != Invalid && t != ObjType.Tree
    ensures DecodeTree(Object(Frame(TagOf(t), payload))) == Err(CorruptRepository)
  {
    TypeOfFrame(TagOf(t), payload);
  }

  // Tree::set and Tree::get are declared in Object.hpp but not defined in
  // the source. Their contract is the following ASSUMPTION: both look an
  // entry up by the fileName field; set replaces the first entry with that
  // name, or appends when there is none, and get returns its hash.

  /** Index of the first entry called `name`. */
  function FindName(es: seq<DirEntry>, name: Bytes): (r: Option<nat>)
    ensures r.Some? ==> r.value < |es| && es[r.value].fileName == name
    ensures r.Some? ==> forall k | 0 <= k < r.value :: es[k].fileName != name
    ensures r.None? ==> forall k | 0 <= k < |es| :: es[k].fileName != name
  {
    if es == [] then None
    else if es[0].fileName == name then Some(0)
    else match FindName(es[1..], name)
      case None => None
      case Some(i) => Some(i + 1)
  }

  function TreeSet(t: Tree, name: Bytes, e: DirEntry): (r: Tree)
    ensures |r.entries| == |t.entries| + (if FindName(t.entries, name).None? then 1 else 0)
  {
    match FindName(t.entries, name)
    case Some(i) => Tree.Tree(t.entries[i := e])
    case None => Tree.Tree(t.entries + [e])
  }

  function TreeGet(t: Tree, name: Bytes): Option<Id> {
    match FindName(t.entries, name)
    case Some(i) => Some(t.entries[i].hash)
    case None => None
  }

  /** get finds what set stored under the entry's own name. */
  lemma GetAfterSet(t: Tree, name: Bytes, e: DirEntry)
    requires e.fileName == name
    ensures TreeGet(TreeSet(t, name, e), name) == Some(e.hash)
  {
    var r := TreeSet(t, name, e);
    match FindName(t.entries, name)
    case Some(i) =>
      assert FindName(r.entries, name) == Some(i) by {
        FindNameAt(r.entries, name, i);
      }
    case None =>
      assert FindName(r.entries, name) == Some(|t.entries|) by {
        FindNameAt(r.entries, name, |t.entries|);
      }
  }

  /** set leaves the lookup of every other name unchanged. */
  lemma GetOtherAfterSet(t: Tree, name: Bytes, e: DirEntry, other: Bytes)
    requires other != name && other != e.fileName
    ensures TreeGet(TreeSet(t, name, e), other) == TreeGet(t, other)
  {
    var r := TreeSet(t, name, e);
    match FindName(t.entries, other)
    case Some(j) =>
      assert r.entries[j] == t.entries[j] by {
        match FindName(t.entries, name)
        case Some(i) =>
          assert i != j;
        case None =>
      }
      FindNameAt(r.entries, other, j);
    case None =>
      assert FindName(r.entries, other).None? by {
        FindNameNone(r.entries, other);
      }
  }

  /** When the entry carries a name other than the key (as the leaves of
      Index::toTree do), get under the key does not find it. */
  lemma SetUnderOtherName(t: Tree, name: Bytes, e: DirEntry)
    requires e.fileName != name && FindName(t.entries, name).None?
    ensures TreeGet(TreeSet(t, name, e), name).None?
  {
    FindNameNone(TreeSet(t, name, e).entries, name);
  }

  lemma FindNameAt(es: seq<DirEntry>, name: Bytes, i: nat)
    requires i < |es| && es[i].fileName == name
    requires forall k | 0 <= k < i :: es[k].fileName != name
    ensures FindName(es, name) == Some(i)
  {
  }

  lemma FindNameNone(es: seq<DirEntry>, name: Bytes)
    requires forall k | 0 <= k < |es| :: es[k].fileName != name
    ensures FindName(es, name).None?
  {
  }
}
