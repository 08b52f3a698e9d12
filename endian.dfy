/** Fixed-width integers as Bini::writer writes them (add16be, add32be,
    add64be) and as Bini::reader reads them back (read16be, read32be,
    read32le). */
module Endian {
  import opened Bytes

  type u16 = x: int | 0 <= x < 0x1_0000
  type u32 = x: int | 0 <= x < 0x1_0000_0000
  type u64 = x: int | 0 <= x < 0x1_0000_0000_0000_0000

  /** Conversion of an unsigned value to a narrower unsigned type. */
  function ToU32(x: int): (r: u32)
    ensures 0 <= x < 0x1_0000_0000 ==> r == x
  {
    x % 0x1_0000_0000
  }

  /** Conversion of a size to a 64-bit size_t. */
  function ToU64(x: int): (r: u64)
    ensures 0 <= x < 0x1_0000_0000_0000_0000 ==> r == x
  {
    x % 0x1_0000_0000_0000_0000
  }

  function BE16(x: u16): (r: Bytes)
    ensures |r| == 2
  {
    [x / 0x100, x % 0x100]
  }

  function BE32(x: u32): (r: Bytes)
    ensures |r| == 4
  {
    BE16(x / 0x1_0000) + BE16(x % 0x1_0000)
  }

  function BE64(x: u64): (r: Bytes)
    ensures |r| == 8
  {
    BE32(x / 0x1_0000_0000) + BE32(x % 0x1_0000_0000)
  }

  function ReadBE16(b: Bytes): u16
    requires |b| >= 2
  {
    (b[0] as int) * 0x100 + b[1]
  }

  function ReadLE16(b: Bytes): u16
    requires |b| >= 2
  {
    (b[1] as int) * 0x100 + b[0]
  }

  function ReadBE32(b: Bytes): u32
    requires |b| >= 4
  {
    (ReadBE16(b[..2]) as int) * 0x1_0000 + ReadBE16(b[2..4])
  }

  function ReadLE32(b: Bytes): u32
    requires |b| >= 4
  {
    (ReadLE16(b[2..4]) as int) * 0x1_0000 + ReadLE16(b[..2])
  }

  function ReadBE64(b: Bytes): u64
    requires |b| >= 8
  {
    (ReadBE32(b[..4]) as int) * 0x1_0000_0000 + ReadBE32(b[4..8])
  }

  /** The 16-bit value with its two bytes exchanged. */
  function Swap16(x: u16): u16 {
    (x % 0x100) * 0x100 + x / 0x100
  }

  /** The 32-bit value with its four bytes in the opposite order. */
  function Swap32(x: u32): u32 {
    (Swap16(x % 0x1_0000) as int) * 0x1_0000 + Swap16(x / 0x1_0000)
  }

  lemma ReadBE16Of(x: u16)
    ensures ReadBE16(BE16(x)) == x
  {
  }

  lemma ReadBE32Of(x: u32)
    ensures ReadBE32(BE32(x)) == x
  {
    var b := BE32(x);
    assert b[..2] == BE16(x / 0x1_0000) && b[2..4] == BE16(x % 0x1_0000);
  }

  /** What read32le makes of the bytes add32be wrote. */
  lemma ReadLE32OfBE32(x: u32)
    ensures ReadLE32(BE32(x)) == Swap32(x)
  {
    var b := BE32(x);
    assert b[..2] == BE16(x / 0x1_0000) && b[2..4] == BE16(x % 0x1_0000);
  }

  lemma ReadBE64Of(x: u64)
    ensures ReadBE64(BE64(x)) == x
  {
    var b := BE64(x);
    assert b[..4] == BE32(x / 0x1_0000_0000) && b[4..8] == BE32(x % 0x1_0000_0000);
    ReadBE32Of(x / 0x1_0000_0000);
    ReadBE32Of(x % 0x1_0000_0000);
  }

  /** add32be of each word in turn. */
  function Words32(ws: seq<u32>): (r: Bytes)
    ensures |r| == 4 * |ws|
  {
    if ws == [] then [] else Words32(ws[..|ws| - 1]) + BE32(ws[|ws| - 1])
  }

  lemma Words32Append(ws: seq<u32>, w: u32)
    ensures Words32(ws + [w]) == Words32(ws) + BE32(w)
  {
    assert (ws + [w])[..|ws|] == ws;
  }

  /** The bytes of all words but the last, and of the last. */
  lemma Words32Last(ws: seq<u32>)
    requires ws != []
    ensures Words32(ws)[..|Words32(ws)| - 4] == Words32(ws[..|ws| - 1])
    ensures Words32(ws)[|Words32(ws)| - 4..] == BE32(ws[|ws| - 1])
  {
  }

  /** Word i sits at bytes 4i .. 4i+4 and reads back with read32be. */
  lemma {:induction false} Words32At(ws: seq<u32>, i: nat)
    requires i < |ws|
    ensures Words32(ws)[4 * i..4 * i + 4] == BE32(ws[i])
    ensures ReadBE32(Words32(ws)[4 * i..4 * i + 4]) == ws[i]
  {
    var init := ws[..|ws| - 1];
    if i < |ws| - 1 {
      Words32At(init, i);
      assert Words32(ws)[..4 * |init|] == Words32(init);
    }
    ReadBE32Of(ws[i]);
  }
}
