/** Bytes, 32-byte digests, and SHA-256 as an arbitrary function between them.

    Every definition that hashes takes `sha` as a parameter, so each theorem holds for every
    function of that type. Nothing assumes that `sha` is injective (it cannot be). */
module Hashing {

  type Byte = x: int | 0 <= x < 256

  type Bytes = seq<Byte>

  const DIGEST_SIZE: nat := 32

  type Digest = d: Bytes | |d| == DIGEST_SIZE witness seq(DIGEST_SIZE, i => 0)

  type Sha = Bytes -> Digest

  datatype Option<+T> = None | Some(value: T)

  /** Two candidate inputs for a collision. */
  datatype Clash = Clash(x: Bytes, y: Bytes)

  /** The two inputs differ and hash to the same digest. */
  predicate IsCollision(sha: Sha, c: Clash) {
    c.x != c.y && sha(c.x) == sha(c.y)
  }

  predicate AllDigests(hashes: seq<Bytes>) {
    forall i :: 0 <= i < |hashes| ==> |hashes[i]| == DIGEST_SIZE
  }
}
