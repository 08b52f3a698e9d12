/** Object ids: 20-byte SHA-1 digests and their 40-character hexadecimal
    text (asId and fromId in Object.cpp; GitCAM.cpp has its own copy of
    asId with the same body). */
module Ids {
  import opened Wrappers
  import opened Bytes

  type Id = s: Bytes | |s| == 20 witness seq(20, _ => 0)

  /** Entry `d` of asId's digit table "0123456789abcdef". */
  function HexDigit(d: nat): (c: byte)
    requires d < 16
    ensures IsLowerHex(c)
  {
    if d < 10 then 48 + d else 87 + d
  }

  /** A character of the table: '0'-'9' or 'a'-'f'. */
  predicate IsLowerHex(c: byte) {
    48 <= c <= 57 || 97 <= c <= 102
  }

  /** Lower-case hexadecimal text, two characters per byte, high nibble first. */
  function Hex(b: Bytes): (r: Bytes)
    ensures |r| == 2 * |b|
  {
    if b == [] then [] else [HexDigit(b[0] / 16), HexDigit(b[0] % 16)] + Hex(b[1..])
  }

  lemma {:induction false} HexConcat(a: Bytes, b: Bytes)
    ensures Hex(a + b) == Hex(a) + Hex(b)
  {
    if a != [] {
      assert (a + b)[0] == a[0] && (a + b)[1..] == a[1..] + b;
      HexConcat(a[1..], b);
    } else {
      assert a + b == b;
    }
  }

  /** Where each byte's two digits land in the text. */
  lemma {:induction false} HexAt(b: Bytes, i: nat)
    requires i < |b|
    ensures |Hex(b)| == 2 * |b|
    ensures Hex(b)[2 * i] == HexDigit(b[i] / 16) && Hex(b)[2 * i + 1] == HexDigit(b[i] % 16)
  {
    if i > 0 {
      HexAt(b[1..], i - 1);
    } else if |b| > 1 {
      HexAt(b[1..], 0);
    }
  }

  /** asId: a loop that pushes two digits per input byte. */
  method AsId(input: Bytes) returns (rv: Bytes)
    ensures |rv| == 2 * |input|
    ensures forall i | 0 <= i < |input| ::
      rv[2 * i] == HexDigit(input[i] / 16) && rv[2 * i + 1] == HexDigit(input[i] % 16)
    ensures forall k | 0 <= k < |rv| :: IsLowerHex(rv[k])
    ensures rv == Hex(input)
  {
    rv := [];
    var i := 0;
    while i < |input|
      invariant 0 <= i <= |input|
      invariant rv == Hex(input[..i])
    {
      var c := input[i];
      HexConcat(input[..i], [c]);
      assert input[..i + 1] == input[..i] + [c];
      rv := rv + [HexDigit(c / 16), HexDigit(c % 16)];
      i := i + 1;
    }
    assert input[..i] == input;
    forall i | 0 <= i < |input|
      ensures rv[2 * i] == HexDigit(input[i] / 16) && rv[2 * i + 1] == HexDigit(input[i] % 16)
    {
      HexAt(input, i);
    }
    forall k | 0 <= k < |rv|
      ensures IsLowerHex(rv[k])
    {
      HexAt(input, k / 2);
    }
  }

  /** The lookup table of fromId: '0'-'9', 'a'-'f' and 'A'-'F' give their
      value and every other character gives 0. Deviation from the intended
      design, kept as written: a character that is not a hex digit is not
      rejected but read as '0'. (A byte of 0x80 or more indexes the C++ table
      with a negative char, which is undefined; the model reads it as 0 too.) */
  function NibbleOf(c: byte): (r: nat)
    ensures r < 16
  {
    if 48 <= c <= 57 then c - 48
    else if 97 <= c <= 102 then c - 87
    else if 65 <= c <= 70 then c - 55
    else 0
  }

  /** Byte `i` of the decoded id: high nibble from s[2i], low from s[2i+1]. */
  function Unhex(s: Bytes): (r: Bytes)
    requires |s| % 2 == 0
    ensures |r| == |s| / 2
  {
    if s == [] then [] else [NibbleOf(s[0]) * 16 + NibbleOf(s[1])] + Unhex(s[2..])
  }

  /** fromId: exactly forty characters, else the "invalid id" exception. */
  function DecodeId(s: Bytes): (r: Result<Id>)
    ensures r.Err? <==> |s| != 40
    ensures r.Err? ==> r.error == InvalidId
  {
    if |s| != 40 then Err(InvalidId) else Ok(Unhex(s))
  }

  lemma {:induction false} UnhexAt(s: Bytes, i: nat)
    requires |s| % 2 == 0 && i < |s| / 2
    ensures Unhex(s)[i] == NibbleOf(s[2 * i]) * 16 + NibbleOf(s[2 * i + 1])
  {
    if i > 0 {
      UnhexAt(s[2..], i - 1);
    }
  }

  /** fromId: a loop that fills the 20-byte array two characters at a time. */
  method FromId(sv: Bytes) returns (r: Result<Id>)
    ensures r.Err? <==> |sv| != 40
    ensures r.Err? ==> r.error == InvalidId
    ensures r.Ok? ==> forall i | 0 <= i < 20 ::
      r.value[i] == NibbleOf(sv[2 * i]) * 16 + NibbleOf(sv[2 * i + 1])
    ensures r == DecodeId(sv)
  {
    if |sv| != 40 {
      return Err(InvalidId);
    }
    var rv := new byte[20](_ => 0);
    var n := 0;
    while n < 40
      invariant 0 <= n <= 40 && n % 2 == 0
      invariant forall i | 0 <= i < n / 2 :: rv[i] == NibbleOf(sv[2 * i]) * 16 + NibbleOf(sv[2 * i + 1])
    {
      rv[n / 2] := NibbleOf(sv[n]) * 16 + NibbleOf(sv[n + 1]);
      n := n + 2;
    }
    r := Ok(rv[..]);
    forall i | 0 <= i < 20
      ensures rv[..][i] == Unhex(sv)[i]
    {
      UnhexAt(sv, i);
    }
    assert rv[..] == Unhex(sv);
  }

  lemma {:induction false} UnhexHex(b: Bytes)
    ensures Unhex(Hex(b)) == b
  {
    if b != [] {
      HexAt(b, 0);
      assert Hex(b)[2..] == Hex(b[1..]);
      UnhexHex(b[1..]);
      assert b[0] / 16 * 16 + b[0] % 16 == b[0];
    }
  }

  /** fromId(asId(b)) == b for every id. */
  lemma HexRoundTrip(b: Id)
    ensures DecodeId(Hex(b)) == Ok(b)
  {
    HexAt(b, 0);
    UnhexHex(b);
  }

  /** The character fromId effectively reads: A-F as a-f, and anything that
      is not a hex digit as '0'. */
  function Canonical(c: byte): (r: byte)
    ensures IsLowerHex(r) && NibbleOf(r) == NibbleOf(c)
  {
    if IsLowerHex(c) then c
    else if 65 <= c <= 70 then c + 32
    else 48
  }

  /** Upper-case A-F decode like lower-case, and every other character that
      is not a hex digit decodes as '0'. */
  lemma DecodeIdCanonical(s: Bytes)
    ensures DecodeId(seq(|s|, i requires 0 <= i < |s| => Canonical(s[i]))) == DecodeId(s)
  {
    var t := seq(|s|, i requires 0 <= i < |s| => Canonical(s[i]));
    if |s| == 40 {
      forall i | 0 <= i < 20
        ensures Unhex(t)[i] == Unhex(s)[i]
      {
        UnhexAt(s, i);
        UnhexAt(t, i);
      }
      assert Unhex(t) == Unhex(s);
    }
  }
}
