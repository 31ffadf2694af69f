// SHA-256 and BIP-340's tagged hash (src/spend.rs). SHA-256 itself is a
// parameter. No function into 32 bytes is injective, so collision-freeness is
// only ever assumed of the finite set of inputs a statement hashes.

module Hashing {
  import opened Bytes

  type Digest = s: bytes | |s| == 32 witness seq(32, _ => 0)
  type Sha256 = bytes -> Digest

  function Ascii(s: string): (b: bytes)
    ensures |b| == |s|
  {
    if s == [] then [] else [s[0] as int % 256] + Ascii(s[1..])
  }

  function TagPrefix(sha: Sha256, tag: string): (b: bytes)
    ensures |b| == 64
  {
    sha(Ascii(tag)) + sha(Ascii(tag))
  }

  /** `sha256(sha256(tag) || sha256(tag) || message)`. */
  function Tagged(sha: Sha256, tag: string, message: bytes): Digest {
    sha(TagPrefix(sha, tag) + message)
  }

  /** The two strings a tagged hash feeds to SHA-256. */
  ghost function TaggedInputs(sha: Sha256, tag: string, message: bytes): set<bytes> {
    {Ascii(tag), TagPrefix(sha, tag) + message}
  }

  /** No two of these inputs collide. */
  ghost predicate CollisionFree(sha: Sha256, inputs: set<bytes>) {
    forall a, b | a in inputs && b in inputs && sha(a) == sha(b) :: a == b
  }

  lemma NoCollision(sha: Sha256, inputs: set<bytes>, a: bytes, b: bytes)
    requires CollisionFree(sha, inputs) && a in inputs && b in inputs && sha(a) == sha(b)
    ensures a == b
  {
  }

  /** A tagged hash binds its tag and its message. */
  lemma TaggedBinds(sha: Sha256, inputs: set<bytes>, tag: string, a: bytes, tag': string, b: bytes)
    requires CollisionFree(sha, inputs)
    requires TaggedInputs(sha, tag, a) <= inputs && TaggedInputs(sha, tag', b) <= inputs
    requires Tagged(sha, tag, a) == Tagged(sha, tag', b)
    ensures Ascii(tag) == Ascii(tag') && a == b
  {
    hide Ascii;
    NoCollision(sha, inputs, TagPrefix(sha, tag) + a, TagPrefix(sha, tag') + b);
    SplitConcat(TagPrefix(sha, tag), a, TagPrefix(sha, tag'), b);
    SplitConcat(sha(Ascii(tag)), sha(Ascii(tag)), sha(Ascii(tag')), sha(Ascii(tag')));
    NoCollision(sha, inputs, Ascii(tag), Ascii(tag'));
  }
}
