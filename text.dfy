/** split (Object.cpp): cutting a string at every occurrence of one
    separator character. */
module Text {
  import opened Wrappers
  import opened Bytes

  /** The pieces of `s` between occurrences of `sep`, left to right. */
  function SplitOn(s: Bytes, sep: byte): (r: seq<Bytes>)
    ensures |r| >= 1
    decreases |s|
  {
    match IndexOf(s, sep)
    case None => [s]
    case Some(i) => [s[..i]] + SplitOn(s[i + 1..], sep)
  }

  /** The pieces glued back together with `sep` between neighbours. */
  function Join(parts: seq<Bytes>, sep: byte): Bytes {
    if parts == [] then []
    else if |parts| == 1 then parts[0]
    else parts[0] + [sep] + Join(parts[1..], sep)
  }

  /** A byte other than the separator that no piece holds is not in the
      joined text either. */
  lemma {:induction false} JoinFree(parts: seq<Bytes>, sep: byte, b: byte)
    requires b != sep && forall k | 0 <= k < |parts| :: b !in parts[k]
    ensures b !in Join(parts, sep)
  {
    if |parts| > 1 {
      JoinFree(parts[1..], sep, b);
      assert b !in parts[0];
    }
  }

  /** How often `b` occurs in `s`. */
  function Count(s: Bytes, b: byte): nat {
    multiset(s)[b]
  }

  /** Join of a piece in front of at least one more. */
  lemma JoinCons(x: Bytes, rest: seq<Bytes>, sep: byte)
    requires |rest| >= 1
    ensures Join([x] + rest, sep) == x + [sep] + Join(rest, sep)
  {
    assert ([x] + rest)[1..] == rest;
  }

  /** split: one more piece than there are separators. */
  lemma {:induction false} SplitCount(s: Bytes, sep: byte)
    ensures |SplitOn(s, sep)| == Count(s, sep) + 1
    decreases |s|
  {
    match IndexOf(s, sep)
    case None =>
    case Some(i) =>
      assert s == s[..i] + [s[i]] + s[i + 1..];
      SplitCount(s[i + 1..], sep);
  }

  /** split: no piece contains the separator. */
  lemma {:induction false} SplitPiecesFree(s: Bytes, sep: byte)
    ensures forall k | 0 <= k < |SplitOn(s, sep)| :: sep !in SplitOn(s, sep)[k]
    decreases |s|
  {
    match IndexOf(s, sep)
    case None =>
    case Some(i) =>
      SplitPiecesFree(s[i + 1..], sep);
  }

  /** split: joining the pieces with the separator rebuilds the input. */
  lemma {:induction false} JoinSplit(s: Bytes, sep: byte)
    ensures Join(SplitOn(s, sep), sep) == s
    decreases |s|
  {
    match IndexOf(s, sep)
    case None =>
    case Some(i) =>
      var rest := SplitOn(s[i + 1..], sep);
      var parts := [s[..i]] + rest;
      assert parts[0] == s[..i] && parts[1..] == rest && |parts| > 1;
      assert Join(parts, sep) == s[..i] + [sep] + Join(rest, sep);
      JoinSplit(s[i + 1..], sep);
      assert s == s[..i] + [sep] + s[i + 1..];
  }

  /** Splitting a join of separator-free pieces gives the pieces back. */
  lemma {:induction false} SplitJoin(parts: seq<Bytes>, sep: byte)
    requires |parts| >= 1
    requires forall k | 0 <= k < |parts| :: sep !in parts[k]
    ensures SplitOn(Join(parts, sep), sep) == parts
  {
    if |parts| > 1 {
      var s := Join(parts, sep);
      var p := parts[0];
      assert s == p + [sep] + Join(parts[1..], sep);
      assert s[|p|] == sep && s[..|p|] == p;
      assert IndexOf(s, sep) == Some(|p|);
      assert s[|p| + 1..] == Join(parts[1..], sep);
      SplitJoin(parts[1..], sep);
    }
  }

  /** The loop invariant of split: the pieces pushed so far followed by the
      pieces of the text from `start` on are the pieces of the whole text. */
  predicate SplitInvariant(sv: Bytes, sep: byte, start: nat, rv: seq<Bytes>)
    requires start <= |sv|
  {
    rv + SplitOn(sv[start..], sep) == SplitOn(sv, sep)
  }

  /** std::string_view::find_first_of(sep, start): the first position at or
      after `start` that holds `sep`. */
  function FindFirstOf(s: Bytes, sep: byte, start: nat): (r: Option<nat>)
    requires start <= |s|
    ensures r.Some? ==> start <= r.value < |s|
  {
    match IndexOf(s[start..], sep)
    case None => None
    case Some(i) => Some(start + i)
  }

  /** The pieces from `start` on, when the next separator is at `end`. */
  lemma SplitAt(sv: Bytes, sep: byte, start: nat, end: nat)
    requires start <= |sv| && FindFirstOf(sv, sep, start) == Some(end)
    ensures end < |sv| && SplitOn(sv[start..], sep) == [sv[start..end]] + SplitOn(sv[end + 1..], sep)
  {
    var i := end - start;
    assert IndexOf(sv[start..], sep) == Some(i);
    assert sv[start..][..i] == sv[start..end];
    assert sv[start..][i + 1..] == sv[end + 1..];
  }

  /** The invariant carried over the separator at `end`. */
  lemma SplitAdvance(sv: Bytes, sep: byte, start: nat, end: nat, rv: seq<Bytes>)
    requires start <= |sv| && FindFirstOf(sv, sep, start) == Some(end)
    requires SplitInvariant(sv, sep, start, rv)
    ensures end < |sv| && SplitInvariant(sv, sep, end + 1, rv + [sv[start..end]])
  {
    SplitAt(sv, sep, start, end);
    var piece, rest := sv[start..end], SplitOn(sv[end + 1..], sep);
    assert rv + [piece] + rest == rv + ([piece] + rest);
  }

  /** The last piece: the text after the last separator. */
  lemma SplitLast(sv: Bytes, sep: byte, start: nat, rv: seq<Bytes>)
    requires start <= |sv| && FindFirstOf(sv, sep, start).None?
    requires SplitInvariant(sv, sep, start, rv)
    ensures rv + [sv[start..]] == SplitOn(sv, sep)
  {
  }

  lemma SplitFirst(sv: Bytes, sep: byte)
    ensures SplitInvariant(sv, sep, 0, [])
  {
    assert sv[0..] == sv;
  }

  /** One turn of split's loop: push the piece before the separator at
      `end`, move `start` past it and look for the next separator. */
  method PushPiece(sv: Bytes, sep: byte, start: nat, end: nat, rv: seq<Bytes>)
    returns (rv': seq<Bytes>, start': nat, end': Option<nat>)
    requires start <= |sv| && FindFirstOf(sv, sep, start) == Some(end)
    requires SplitInvariant(sv, sep, start, rv)
    ensures start < start' <= |sv| && end' == FindFirstOf(sv, sep, start')
    ensures SplitInvariant(sv, sep, start', rv')
  {
    SplitAdvance(sv, sep, start, end, rv);
    rv' := rv + [sv[start..end]];
    start' := end + 1;
    end' := FindFirstOf(sv, sep, start');
  }

  /** split: the start/end loop that pushes one piece per separator. */
  method Split(sv: Bytes, sep: byte) returns (rv: seq<Bytes>)
    ensures |rv| == Count(sv, sep) + 1
    ensures forall k | 0 <= k < |rv| :: sep !in rv[k]
    ensures Join(rv, sep) == sv
    ensures rv == SplitOn(sv, sep)
  {
    rv := [];
    var start := 0;
    var end := FindFirstOf(sv, sep, start);
    SplitFirst(sv, sep);
    while end.Some?
      invariant start <= |sv|
      invariant end == FindFirstOf(sv, sep, start)
      invariant SplitInvariant(sv, sep, start, rv)
      decreases |sv| - start
    {
      rv, start, end := PushPiece(sv, sep, start, end.value, rv);
    }
    SplitLast(sv, sep, start, rv);
    rv := rv + [sv[start..]];
    SplitCount(sv, sep);
    SplitPiecesFree(sv, sep);
    JoinSplit(sv, sep);
  }
}
