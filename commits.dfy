/** Commit objects: the Commit record and its builder (Object.hpp), its
    encoding by the Object(Commit) constructor and its decoding by
    Object::readAsCommit (Object.cpp). */
module Commits {
  import opened Wrappers
  import opened Bytes
  import opened Numerals
  import opened Ids
  import opened Text
  import opened Users
  import opened Objects

  datatype Commit = Commit(root: Id, parent: Option<Id>, message: Bytes,
                           author: UserWithTime, committer: UserWithTime)

  const TreeKey: Bytes := [116, 114, 101, 101]                        // "tree"
  const ParentKey: Bytes := [112, 97, 114, 101, 110, 116]             // "parent"
  const AuthorKey: Bytes := [97, 117, 116, 104, 111, 114]             // "author"
  const CommitterKey: Bytes := [99, 111, 109, 109, 105, 116, 116, 101, 114] // "committer"
  const Blank: Bytes := [LF, LF]

  const ZeroId: Id := Zeros(20)

  /** `Commit commit;` as readAsCommit declares it. The C++ root array is
      left uninitialised by `Commit() {}`; the model fixes it to zeros. */
  const EmptyCommit: Commit := Commit.Commit(ZeroId, None, [], NoUser, NoUser)

  /** Commit(root, author): the committer is the author, no parent, no
      message. */
  function NewCommit(root: Id, author: UserWithTime): (c: Commit)
    ensures c.root == root && c.author == author && c.committer == author
    ensures c.parent == None && c.message == []
  {
    Commit.Commit(root, None, [], author, author)
  }

  /** setParent, setCommitter and setMessage each change their own field
      only. */
  function SetParent(c: Commit, parent: Id): (r: Commit)
    ensures r.parent == Some(parent)
    ensures r.root == c.root && r.message == c.message && r.author == c.author && r.committer == c.committer
  {
    c.(parent := Some(parent))
  }

  function SetCommitter(c: Commit, ut: UserWithTime): (r: Commit)
    ensures r.committer == ut
    ensures r.root == c.root && r.parent == c.parent && r.message == c.message && r.author == c.author
  {
    c.(committer := ut)
  }

  function SetMessage(c: Commit, message: Bytes): (r: Commit)
    ensures r.message == message
    ensures r.root == c.root && r.parent == c.parent && r.author == c.author && r.committer == c.committer
  {
    c.(message := message)
  }

  /** A header line without its line feed. */
  function Line(name: Bytes, value: Bytes): Bytes {
    name + [SP] + value
  }

  /** The body Object(Commit) builds: the tree line, the parent line when
      there is a parent, the author and committer lines, an empty line and
      the message. */
  function CommitBody(c: Commit): Bytes {
    Line(TreeKey, Hex(c.root)) + [LF]
    + (if c.parent.Some? then Line(ParentKey, Hex(c.parent.value)) + [LF] else [])
    + Line(AuthorKey, UwtText(c.author)) + [LF]
    + Line(CommitterKey, UwtText(c.committer)) + Blank
    + c.message
  }

  /** The buffer of Object(c). */
  function CommitBuffer(c: Commit): Bytes {
    Frame(CommitTag, CommitBody(c))
  }

  /** The header lines of a commit, in the order Object(Commit) writes them. */
  function HeaderLines(c: Commit): (r: seq<Bytes>)
    ensures 3 <= |r| <= 4
  {
    [Line(TreeKey, Hex(c.root))]
    + (if c.parent.Some? then [Line(ParentKey, Hex(c.parent.value))] else [])
    + [Line(AuthorKey, UwtText(c.author)), Line(CommitterKey, UwtText(c.committer))]
  }

  /** Regrouping the concatenations of CommitBody, with and without the
      parent line. */
  lemma RegroupWithParent(t: Bytes, p: Bytes, a: Bytes, m: Bytes, x: Bytes, y: Bytes)
    ensures t + [LF] + (p + [LF]) + a + [LF] + m + x + y
         == t + [LF] + (p + [LF] + (a + [LF] + m)) + x + y
  {
  }

  lemma RegroupWithoutParent(t: Bytes, a: Bytes, m: Bytes, x: Bytes, y: Bytes)
    ensures t + [LF] + [] + a + [LF] + m + x + y == t + [LF] + (a + [LF] + m) + x + y
  {
  }

  /** The body is the header lines joined by line feeds, an empty line and
      the message. */
  lemma CommitBodyLines(c: Commit)
    ensures CommitBody(c) == Join(HeaderLines(c), LF) + Blank + c.message
  {
    var t, a, m := Line(TreeKey, Hex(c.root)), Line(AuthorKey, UwtText(c.author)), Line(CommitterKey, UwtText(c.committer));
    var ls := HeaderLines(c);
    JoinCons(a, [m], LF);
    assert Join([a, m], LF) == a + [LF] + m by { assert [a] + [m] == [a, m]; }
    if c.parent.Some? {
      var p := Line(ParentKey, Hex(c.parent.value));
      assert ls == [t] + ([p] + [a, m]);
      JoinCons(p, [a, m], LF);
      JoinCons(t, [p] + [a, m], LF);
      assert Join(ls, LF) == t + [LF] + (p + [LF] + (a + [LF] + m));
      RegroupWithParent(t, p, a, m, Blank, c.message);
    } else {
      assert ls == [t] + [a, m];
      JoinCons(t, [a, m], LF);
      assert Join(ls, LF) == t + [LF] + (a + [LF] + m);
      RegroupWithoutParent(t, a, m, Blank, c.message);
    }
  }

  /** One header line of readAsCommit: a line without a space and a line
      with an unknown name are skipped; the value of a known name replaces
      that field, and a parse failure of the value ends the read. */
  function HeaderStep(c: Commit, line: Bytes): (r: Result<Commit>)
    ensures r.Ok? ==> r.value.message == c.message
  {
    match IndexOf(line, SP)
    case None => Ok(c)
    case Some(k) =>
      var name := line[..k];
      var value := line[k + 1..];
      if name == AuthorKey then
        var u :- ParseUwt(value);
        Ok(c.(author := u))
      else if name == CommitterKey then
        var u :- ParseUwt(value);
        Ok(c.(committer := u))
      else if name == TreeKey then
        var id :- DecodeId(value);
        Ok(c.(root := id))
      else if name == ParentKey then
        var id :- DecodeId(value);
        Ok(c.(parent := Some(id)))
      else Ok(c)
  }

  /** The header lines applied left to right. */
  function ApplyHeaders(c: Commit, lines: seq<Bytes>): (r: Result<Commit>)
    ensures r.Ok? ==> r.value.message == c.message
    decreases |lines|
  {
    if lines == [] then Ok(c)
    else
      match HeaderStep(c, lines[0])
      case Err(e) => Err(e)
      case Ok(c') => ApplyHeaders(c', lines[1..])
  }

  /** Object::readAsCommit as a function of the object. */
  function DecodeCommit(o: Object): (r: Result<Commit>)
    ensures TypeOf(o) != ObjType.Commit ==> r == Err(CorruptRepository)
    ensures TypeOf(o) == ObjType.Commit && Find(DataOf(o), Blank).None? ==> r == Err(NoCommitMessage)
  {
    if TypeOf(o) != ObjType.Commit then Err(CorruptRepository)
    else
      var str := DataOf(o);
      match Find(str, Blank)
      case None => Err(NoCommitMessage)
      case Some(k) => ApplyHeaders(SetMessage(EmptyCommit, str[k + 2..]), SplitOn(str[..k], LF))
  }

  /** The message of a decoded commit is everything after the first empty
      line. */
  lemma DecodedMessage(o: Object)
    requires DecodeCommit(o).Ok?
    ensures Find(DataOf(o), Blank).Some?
    ensures DecodeCommit(o).value.message == DataOf(o)[Find(DataOf(o), Blank).value + 2..]
  {
  }

  /** A line without a space, or with a name other than the four keys, is
      skipped. */
  lemma IgnoredLine(c: Commit, line: Bytes, rest: seq<Bytes>)
    requires SP !in line || line[..IndexOf(line, SP).value] !in {AuthorKey, CommitterKey, TreeKey, ParentKey}
    ensures ApplyHeaders(c, [line] + rest) == ApplyHeaders(c, rest)
  {
    assert ([line] + rest)[0] == line && ([line] + rest)[1..] == rest;
  }

  /** A later line with the same name overrides an earlier one. */
  lemma LaterTreeWins(c: Commit, h1: Bytes, h2: Bytes)
    requires |h1| == 40 && |h2| == 40
    ensures ApplyHeaders(c, [Line(TreeKey, h1), Line(TreeKey, h2)]) == Ok(c.(root := Unhex(h2)))
  {
    var l1, l2 := Line(TreeKey, h1), Line(TreeKey, h2);
    var c1 := c.(root := Unhex(h1));
    var c2 := c1.(root := Unhex(h2));
    TreeLine(c, h1);
    TreeLine(c1, h2);
    ApplyCons(c1, l2, [], c2);
    ApplyCons(c, l1, [l2], c1);
    assert [l2] + [] == [l2] && [l1] + [l2] == [l1, l2];
    assert c2 == c.(root := Unhex(h2));
  }

  /** Where the name of a header line ends. */
  lemma LineSplit(name: Bytes, value: Bytes)
    requires SP !in name
    ensures var l := Line(name, value);
      IndexOf(l, SP) == Some(|name|) && l[..|name|] == name && l[|name| + 1..] == value
  {
    var l := Line(name, value);
    assert l[..|name|] == name && l[|name|] == SP && l[|name| + 1..] == value;
    IndexOfAt(l, SP, |name|);
  }

  lemma TreeLine(c: Commit, h: Bytes)
    requires |h| == 40
    ensures HeaderStep(c, Line(TreeKey, h)) == Ok(c.(root := Unhex(h)))
  {
    LineSplit(TreeKey, h);
  }

  /** The four lines Object(Commit) writes set their own fields when read. */
  lemma ReadTreeLine(c: Commit, id: Id)
    ensures HeaderStep(c, Line(TreeKey, Hex(id))) == Ok(c.(root := id))
  {
    HexRoundTrip(id);
    LineSplit(TreeKey, Hex(id));
  }

  lemma ReadParentLine(c: Commit, id: Id)
    ensures HeaderStep(c, Line(ParentKey, Hex(id))) == Ok(c.(parent := Some(id)))
  {
    HexRoundTrip(id);
    LineSplit(ParentKey, Hex(id));
  }

  lemma ReadAuthorLine(c: Commit, w: UserWithTime)
    requires WellFormedUser(w.user)
    ensures HeaderStep(c, Line(AuthorKey, UwtText(w))) == Ok(c.(author := w))
  {
    UwtRoundTrip(w);
    LineSplit(AuthorKey, UwtText(w));
  }

  lemma ReadCommitterLine(c: Commit, w: UserWithTime)
    requires WellFormedUser(w.user)
    ensures HeaderStep(c, Line(CommitterKey, UwtText(w))) == Ok(c.(committer := w))
  {
    UwtRoundTrip(w);
    LineSplit(CommitterKey, UwtText(w));
  }

  lemma ApplyCons(c: Commit, line: Bytes, rest: seq<Bytes>, c': Commit)
    requires HeaderStep(c, line) == Ok(c')
    ensures ApplyHeaders(c, [line] + rest) == ApplyHeaders(c', rest)
  {
    assert ([line] + rest)[0] == line && ([line] + rest)[1..] == rest;
  }

  /** Reading the header lines of `c` into a commit that carries the message
      rebuilds `c`. */
  lemma ApplyHeaderLines(c: Commit)
    requires WellFormedUser(c.author.user) && WellFormedUser(c.committer.user)
    ensures ApplyHeaders(SetMessage(EmptyCommit, c.message), HeaderLines(c)) == Ok(c)
  {
    var c0 := SetMessage(EmptyCommit, c.message);
    var t, a, m := Line(TreeKey, Hex(c.root)), Line(AuthorKey, UwtText(c.author)), Line(CommitterKey, UwtText(c.committer));
    var c1 := c0.(root := c.root);
    ReadTreeLine(c0, c.root);
    var c2 := if c.parent.Some? then c1.(parent := c.parent) else c1;
    var c3 := c2.(author := c.author);
    var c4 := c3.(committer := c.committer);
    assert c4 == c;
    ReadAuthorLine(c2, c.author);
    ReadCommitterLine(c3, c.committer);
    ApplyCons(c3, m, [], c4);
    assert [m] + [] == [m];
    ApplyCons(c2, a, [m], c3);
    if c.parent.Some? {
      var p := Line(ParentKey, Hex(c.parent.value));
      ReadParentLine(c1, c.parent.value);
      ApplyCons(c1, p, [a, m], c2);
      ApplyCons(c0, t, [p, a, m], c1);
      assert HeaderLines(c) == [t] + [p, a, m];
    } else {
      ApplyCons(c0, t, [a, m], c1);
      assert HeaderLines(c) == [t] + [a, m];
    }
  }

  /** No header line is empty or holds a line feed. */
  predicate PlainLines(lines: seq<Bytes>) {
    forall k | 0 <= k < |lines| :: lines[k] != [] && LF !in lines[k]
  }

  /** Two line feeds in a row do not occur inside lines joined by one line
      feed, nor at their end. */
  lemma {:induction false} NoBlankInside(lines: seq<Bytes>, tail: Bytes, s: Bytes)
    requires |lines| >= 1 && PlainLines(lines)
    requires s == Join(lines, LF) + Blank + tail
    ensures forall j | 0 <= j < |Join(lines, LF)| :: !(s[j] == LF && s[j + 1] == LF)
  {
    var p := lines[0];
    if |lines| == 1 {
      assert Join(lines, LF) == p;
    } else {
      var rest := lines[1..];
      var j' := Join(rest, LF);
      assert PlainLines(rest) by {
        forall k | 0 <= k < |rest|
          ensures rest[k] != [] && LF !in rest[k]
        {
          assert rest[k] == lines[k + 1];
        }
      }
      var s' := j' + Blank + tail;
      NoBlankInside(rest, tail, s');
      JoinHead(rest);
      assert s == p + [LF] + s';
      forall j | 0 <= j < |Join(lines, LF)|
        ensures !(s[j] == LF && s[j + 1] == LF)
      {
        if j < |p| {
          assert s[j] == p[j];
        } else if j == |p| {
          assert s[j + 1] == s'[0] == rest[0][0];
        } else {
          assert s[j] == s'[j - |p| - 1] && s[j + 1] == s'[j - |p|];
        }
      }
    }
  }

  lemma JoinHead(lines: seq<Bytes>)
    requires |lines| >= 1 && lines[0] != []
    ensures Join(lines, LF) != [] && Join(lines, LF)[0] == lines[0][0]
  {
  }

  /** The first empty line of a body is the one after the header lines. */
  lemma BlankAfterHeaders(lines: seq<Bytes>, tail: Bytes)
    requires |lines| >= 1 && PlainLines(lines)
    ensures Find(Join(lines, LF) + Blank + tail, Blank) == Some(|Join(lines, LF)|)
  {
    var h := Join(lines, LF);
    var s := h + Blank + tail;
    NoBlankInside(lines, tail, s);
    assert s[|h|..|h| + 2] == Blank;
    forall j: nat | j < |h|
      ensures !OccursAt(s, Blank, j)
    {
      assert !(s[j] == LF && s[j + 1] == LF);
      assert Blank[0] == LF && Blank[1] == LF;
      PairIff(s, Blank, j);
    }
    FindAt(s, Blank, |h|);
  }

  /** What the round trip asks: well-formed user strings without line feeds. */
  predicate Encodable(c: Commit) {
    WellFormedUser(c.author.user) && WellFormedUser(c.committer.user)
    && LF !in c.author.user.username && LF !in c.author.user.email
    && LF !in c.committer.user.username && LF !in c.committer.user.email
  }

  lemma HexHasNoLF(b: Bytes)
    ensures LF !in Hex(b)
  {
    forall k | 0 <= k < |Hex(b)|
      ensures Hex(b)[k] != LF
    {
      HexAt(b, k / 2);
    }
  }

  lemma UwtHasNoLF(w: UserWithTime)
    requires LF !in w.user.username && LF !in w.user.email
    ensures LF !in UwtText(w)
  {
    NumbersAvoid(w.time, w.timezone, LF);
    assert UwtText(w) == w.user.username + EmailOpen + w.user.email + [GT] + [SP]
      + SignedDecimal(w.time) + [SP] + TimezoneText(w.timezone);
  }

  lemma LineHasNoLF(name: Bytes, value: Bytes)
    requires LF !in name && LF !in value
    ensures Line(name, value) != [] && LF !in Line(name, value)
  {
  }

  lemma HeaderLinesPlain(c: Commit)
    requires Encodable(c)
    ensures PlainLines(HeaderLines(c))
  {
    HexHasNoLF(c.root);
    if c.parent.Some? {
      HexHasNoLF(c.parent.value);
    }
    UwtHasNoLF(c.author);
    UwtHasNoLF(c.committer);
    LineHasNoLF(TreeKey, Hex(c.root));
    LineHasNoLF(AuthorKey, UwtText(c.author));
    LineHasNoLF(CommitterKey, UwtText(c.committer));
    if c.parent.Some? {
      LineHasNoLF(ParentKey, Hex(c.parent.value));
    }
  }

  /** A commit payload made of plain header lines, an empty line and a
      message decodes to the message with the header lines applied. */
  lemma DecodeHeaderLines(o: Object, lines: seq<Bytes>, message: Bytes)
    requires TypeOf(o) == ObjType.Commit && |lines| >= 1 && PlainLines(lines)
    requires DataOf(o) == Join(lines, LF) + Blank + message
    ensures DecodeCommit(o) == ApplyHeaders(SetMessage(EmptyCommit, message), lines)
  {
    var h := Join(lines, LF);
    BlankAfterHeaders(lines, message);
    AroundBlank(h, message);
    SplitJoin(lines, LF);
  }

  lemma AroundBlank(h: Bytes, tail: Bytes)
    ensures (h + Blank + tail)[..|h|] == h && (h + Blank + tail)[|h| + 2..] == tail
  {
  }

  /** readAsCommit(Object(c)) == c when the user strings are well formed
      and hold no line feed. */
  lemma CommitRoundTrip(c: Commit)
    requires Encodable(c)
    ensures DecodeCommit(Object(CommitBuffer(c))) == Ok(c)
  {
    var body := CommitBody(c);
    TypeOfFrame(CommitTag, body);
    DataOfFrame(CommitTag, body);
    CommitBodyLines(c);
    HeaderLinesPlain(c);
    DecodeHeaderLines(Object(CommitBuffer(c)), HeaderLines(c), c.message);
    ApplyHeaderLines(c);
  }

  /** A buffer of another type is refused. */
  lemma DecodeCommitOfOther(t: ObjType, payload: Bytes)
    requires t != Invalid && t != ObjType.Commit
    ensures DecodeCommit(Object(Frame(TagOf(t), payload))) == Err(CorruptRepository)
  {
    TypeOfFrame(TagOf(t), payload);
  }

  /** Object::readAsCommit: the message first, then one turn per header line
      assigning the field the line names. */
  method ReadAsCommit(o: Object) returns (r: Result<Commit>)
    ensures r == DecodeCommit(o)
  {
    if TypeOf(o) != ObjType.Commit {
      return Err(CorruptRepository);
    }
    var str := DataOf(o);
    var splitPoint := Find(str, Blank);
    if splitPoint.None? {
      return Err(NoCommitMessage);
    }
    var commit := SetMessage(EmptyCommit, str[splitPoint.value + 2..]);
    var rest := Split(str[..splitPoint.value], LF);
    ghost var all := ApplyHeaders(commit, rest);
    while rest != []
      invariant all == ApplyHeaders(commit, rest)
      decreases |rest|
    {
      var headerEntry := rest[0];
      var firstSpace := IndexOf(headerEntry, SP);
      if firstSpace.Some? {
        var name := headerEntry[..firstSpace.value];
        var value := headerEntry[firstSpace.value + 1..];
        if name == AuthorKey {
          var u := ParseUwt(value);
          if u.Err? {
            return Err(u.error);
          }
          commit := commit.(author := u.value);
        } else if name == CommitterKey {
          var u := ParseUwt(value);
          if u.Err? {
            return Err(u.error);
          }
          commit := commit.(committer := u.value);
        } else if name == TreeKey {
          var id := DecodeId(value);
          if id.Err? {
            return Err(id.error);
          }
          commit := commit.(root := id.value);
        } else if name == ParentKey {
          var id := DecodeId(value);
          if id.Err? {
            return Err(id.error);
          }
          commit := commit.(parent := Some(id.value));
        }
      }
      rest := rest[1..];
    }
    r := Ok(commit);
  }
}
