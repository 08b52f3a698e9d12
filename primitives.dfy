/** The external libraries the object store calls and whose code is not
    part of this model: SHA-1 (Caligo::SHA1), CRC32, zlib deflate/inflate
    (Decoco) and the variable-length integer of Bini (addPB/getPB). Each is
    a field of `Primitives`, so every operation that needs one takes the
    whole bundle as a parameter. Nothing is assumed about them except where a
    lemma names `Lossless` as a hypothesis. */
module Primitives {
  import opened Bytes
  import opened Ids

  type Crc = s: Bytes | |s| == 4 witness [0, 0, 0, 0]

  datatype Primitives = Primitives(
    sha1: Bytes -> Id,
    crc32: Bytes -> Crc,
    compress: Bytes -> Bytes,
    decompress: Bytes -> Bytes,
    varint: nat -> Bytes)

  /** zlib inflate undoes deflate. */
  ghost predicate Lossless(p: Primitives) {
    forall b: Bytes :: p.decompress(p.compress(b)) == b
  }
}
