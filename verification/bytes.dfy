/** Byte strings, and optional values. */
module Bytes {
  type byte = b: int | 0 <= b < 256
  type Bytes = seq<byte>

  /** A digest in its string form; hash functions are parameters of the models. */
  type Digest = string

  datatype Option<+T> = None | Some(value: T)

  function Min(a: int, b: int): int {
    if a <= b then a else b
  }

  /** The concatenation of the given pieces, in order. */
  function Flat(pieces: seq<Bytes>): Bytes {
    if pieces == [] then [] else Flat(pieces[..|pieces| - 1]) + pieces[|pieces| - 1]
  }

  lemma FlatSnoc(pieces: seq<Bytes>, last: Bytes)
    ensures Flat(pieces + [last]) == Flat(pieces) + last
  {
    assert (pieces + [last])[..|pieces|] == pieces;
  }
}
