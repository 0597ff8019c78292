/** Raw bytes, the four byte values the engine treats specially, and hash collisions. */
module Bytes {

  newtype byte = b: int | 0 <= b < 256

  const LF: byte := 10
  const CR: byte := 13
  const SPACE: byte := 32
  const TAB: byte := 9

  const LF_TERM: seq<byte> := [LF]
  const CR_TERM: seq<byte> := [CR]
  const CRLF_TERM: seq<byte> := [CR, LF]

  const MAX_INT64: nat := 0x7FFF_FFFF_FFFF_FFFF

  datatype Option<+T> = None | Some(value: T)

  /** SHA-256 is left uninterpreted: every result holds for any digest function. */
  type Digest = seq<byte>
  type HashFunction = seq<byte> -> Digest

  ghost predicate Collision(sha: HashFunction, x: seq<byte>, y: seq<byte>) {
    x != y && sha(x) == sha(y)
  }

  /** As far as the digest can tell: equal, or a collision. */
  ghost predicate SameBytes(sha: HashFunction, x: seq<byte>, y: seq<byte>) {
    x == y || Collision(sha, x, y)
  }

  predicate IsBlank(b: byte) {
    b == SPACE || b == TAB
  }

  /** Two CR bytes side by side: the one shape on which the two line readers disagree. */
  ghost predicate NoAdjacentCR(s: seq<byte>) {
    forall i :: 0 <= i < |s| - 1 && s[i] == CR ==> s[i + 1] != CR
  }

  /** The bytes [from, to) of data; empty when that is no range of data. */
  function Slice(data: seq<byte>, from: nat, to: nat): seq<byte> {
    if from <= to <= |data| then data[from..to] else []
  }
}
