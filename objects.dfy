/** Git objects as byte buffers (struct Object in Object.hpp): the frame
    `<type> <decimal length>\0<payload>`, the type read back from the text
    before the first space, the payload after the first NUL, and the id,
    which is the SHA-1 of the whole buffer. */
module Objects {
  import opened Wrappers
  import opened Bytes
  import opened Numerals
  import opened Ids
  import opened Primitives

  /** Object::Type; `Blob` is the enumerator the C++ code calls `Object`. */
  datatype ObjType = Invalid | Commit | Tree | Blob

  /** The numeric values of the enumerators. */
  function TypeCode(t: ObjType): (r: int)
    ensures r == -1 <==> t == Invalid
    ensures t != Invalid ==> 1 <= r <= 3
  {
    match t
    case Invalid => -1
    case Commit => 1
    case Tree => 2
    case Blob => 3
  }

  datatype Object = Object(buffer: Bytes)

  const TreeTag: Bytes := [116, 114, 101, 101]             // "tree"
  const CommitTag: Bytes := [99, 111, 109, 109, 105, 116]  // "commit"
  const BlobTag: Bytes := [98, 108, 111, 98]               // "blob"

  /** The type whose tag is `tag`, Invalid for any other text. */
  function TagType(tag: Bytes): ObjType {
    if tag == TreeTag then Tree
    else if tag == CommitTag then Commit
    else if tag == BlobTag then Blob
    else Invalid
  }

  /** The tag a frame of type `t` starts with. */
  function TagOf(t: ObjType): (tag: Bytes)
    requires t != Invalid
    ensures TagType(tag) == t && NUL !in tag && SP !in tag
  {
    match t
    case Tree => TreeTag
    case Commit => CommitTag
    case Blob => BlobTag
  }

  /** std::to_string of a size_t. */
  function Decimal(n: nat): Bytes {
    Digits(n, 10)
  }

  /** `<tag> <decimal |payload|>\0<payload>`, the layout every constructor
      of Object writes. */
  function Frame(tag: Bytes, payload: Bytes): Bytes {
    tag + [SP] + Decimal(|payload|) + [NUL] + payload
  }

  /** The text strchr scans: the buffer up to its first NUL. */
  function CString(b: Bytes): (c: Bytes)
    ensures NUL !in c && c <= b
  {
    match IndexOf(b, NUL)
    case None => b
    case Some(i) => b[..i]
  }

  /** Object::type(): the token before the first space, compared with the
      three tags. strchr finds no space before the NUL that ends the C
      string: the C++ code then builds a view from a null pointer, which is
      undefined; the model answers Invalid. */
  function TypeOf(o: Object): ObjType {
    var c := CString(o.buffer);
    match IndexOf(c, SP)
    case None => Invalid
    case Some(j) => TagType(c[..j])
  }

  /** A buffer has a type only when it starts with that type's tag and a
      space. */
  lemma TypeOfPrefix(o: Object)
    ensures TypeOf(o) != Invalid ==> TagOf(TypeOf(o)) + [SP] <= o.buffer
  {
    var c := CString(o.buffer);
    match IndexOf(c, SP)
    case None =>
    case Some(j) =>
      assert c[..j] + [SP] == c[..j + 1];
  }

  /** Object::data(): everything after the first NUL. A buffer without NUL
      makes the C++ code step past its end, which is undefined; the model
      answers the empty payload. */
  function DataOf(o: Object): (r: Bytes)
    ensures NUL in o.buffer ==>
      var k := |o.buffer| - |r| - 1;
      0 <= k && o.buffer == o.buffer[..k] + [NUL] + r && NUL !in o.buffer[..k]
    ensures NUL !in o.buffer ==> r == []
  {
    match IndexOf(o.buffer, NUL)
    case None => []
    case Some(i) =>
      assert o.buffer == o.buffer[..i] + [NUL] + o.buffer[i + 1..];
      o.buffer[i + 1..]
  }

  /** Object::id(). */
  function ObjectId(p: Primitives, o: Object): Id {
    p.sha1(o.buffer)
  }

  /** Object(path) for a file with contents `content`; reading the file is
      not part of this model. */
  function BlobObject(content: Bytes): (o: Object)
    ensures TypeOf(o) == Blob && DataOf(o) == content
  {
    FrameParts(BlobTag, content);
    Object(Frame(BlobTag, content))
  }

  lemma DecimalHasNoSeparators(n: nat)
    ensures NUL !in Decimal(n) && SP !in Decimal(n)
  {
    DigitsAreDigits(n, 10);
    var d := Decimal(n);
    forall k | 0 <= k < |d|
      ensures d[k] != NUL && d[k] != SP
    {
      assert IsDigit(d[k], 10);
    }
  }

  /** Where the searches of type() and data() stop in a frame. */
  lemma FrameParts(tag: Bytes, payload: Bytes)
    requires NUL !in tag && SP !in tag
    ensures var f := Frame(tag, payload);
      var n := |tag| + 1 + |Decimal(|payload|)|;
      IndexOf(f, NUL) == Some(n) && CString(f) == f[..n]
      && IndexOf(f[..n], SP) == Some(|tag|) && f[..n][..|tag|] == tag && f[n + 1..] == payload
  {
    var d := Decimal(|payload|);
    var h := tag + [SP] + d;
    var n := |h|;
    DecimalHasNoSeparators(|payload|);
    assert NUL !in h;
    var f := h + [NUL] + payload;
    assert f == Frame(tag, payload);
    assert f[..n] == h && f[n] == NUL && f[n + 1..] == payload;
    assert h[..|tag|] == tag && h[|tag|] == SP;
  }

  /** type() of a frame is the type of its tag. */
  lemma TypeOfFrame(tag: Bytes, payload: Bytes)
    requires NUL !in tag && SP !in tag
    ensures TypeOf(Object(Frame(tag, payload))) == TagType(tag)
  {
    FrameParts(tag, payload);
  }

  /** data() of a frame is its payload. */
  lemma DataOfFrame(tag: Bytes, payload: Bytes)
    requires NUL !in tag && SP !in tag
    ensures DataOf(Object(Frame(tag, payload))) == payload
  {
    FrameParts(tag, payload);
  }

  /** type() depends only on the text before the first space: any buffer
      that starts with a tag and a space has the tag's type. */
  lemma TypeOfTagged(t: ObjType, rest: Bytes)
    requires t != Invalid
    ensures TypeOf(Object(TagOf(t) + [SP] + rest)) == t
  {
    var tag := TagOf(t);
    var b := tag + [SP] + rest;
    assert b[..|tag|] == tag && b[|tag|] == SP;
    var c := CString(b);
    assert b[..|tag| + 1] == tag + [SP];
    assert IndexOf(b[..|tag| + 1], NUL).None?;
    assert |tag| < |c| && c[..|tag|] == tag && c[|tag|] == SP by {
      match IndexOf(b, NUL)
      case None =>
      case Some(i) =>
        assert i > |tag|;
    }
    assert IndexOf(c, SP) == Some(|tag|) by {
      assert SP !in c[..|tag|];
    }
  }
}
