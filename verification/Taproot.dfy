// BIP-341 leaves, trees and output keys (src/spend.rs).

module Taproot {
  import opened Wrappers
  import opened Bytes
  import opened Hashing
  import opened Curve

  const TAPLEAF_VERSION: byte := 0xc0
  const MAX_MERKLE_DEPTH: nat := 128
  const MAX_LENGTH: nat := 0x1_0000_0000_0000_0000

  // ---- compact sizes ----

  function CompactSize(n: nat): bytes {
    if n <= 0xfc then [n]
    else if n <= 0xffff then [0xfd] + LittleEndian(n, 2)
    else if n <= 0xffff_ffff then [0xfe] + LittleEndian(n, 4)
    else [0xff] + LittleEndian(n, 8)
  }

  function SizeWidth(n: nat): nat {
    if n <= 0xfc then 0 else if n <= 0xffff then 2 else if n <= 0xffff_ffff then 4 else 8
  }

  /** Nothing after a compact size can be mistaken for part of it. */
  lemma CompactSizePrefixFree(m: nat, a: bytes, n: nat, b: bytes)
    requires m < MAX_LENGTH && n < MAX_LENGTH
    requires CompactSize(m) + a == CompactSize(n) + b
    ensures m == n && a == b
  {
    assert (CompactSize(m) + a)[0] == CompactSize(m)[0];
    assert (CompactSize(n) + b)[0] == CompactSize(n)[0];
    assert SizeWidth(m) == SizeWidth(n);
    SplitConcat(CompactSize(m), a, CompactSize(n), b);
    if m > 0xfc {
      var width := SizeWidth(m);
      assert CompactSize(m)[1..] == LittleEndian(m, width);
      assert CompactSize(n)[1..] == LittleEndian(n, width);
      Pow256Values();
      LittleEndianInjective(m, n, width);
    }
  }

  // ---- leaf and branch hashes ----

  function LeafMessage(version: byte, script: bytes): bytes {
    [version] + (CompactSize(|script|) + script)
  }

  function TapleafHash(sha: Sha256, script: bytes, version: byte): Digest {
    Tagged(sha, "TapLeaf", LeafMessage(version, script))
  }

  lemma LeafMessageInjective(v: byte, s: bytes, v': byte, s': bytes)
    requires |s| < MAX_LENGTH && |s'| < MAX_LENGTH
    requires LeafMessage(v, s) == LeafMessage(v', s')
    ensures v == v' && s == s'
  {
    SplitConcat([v], CompactSize(|s|) + s, [v'], CompactSize(|s'|) + s');
    CompactSizePrefixFree(|s|, s, |s'|, s');
  }

  /** Byte-array order. */
  predicate LexLe(a: bytes, b: bytes) {
    a == [] || (b != [] && (a[0] < b[0] || (a[0] == b[0] && LexLe(a[1..], b[1..]))))
  }

  lemma LexTotal(a: bytes, b: bytes)
    requires |a| == |b|
    ensures LexLe(a, b) || LexLe(b, a)
  {
  }

  lemma {:induction false} LexAntisymmetric(a: bytes, b: bytes)
    requires |a| == |b| && LexLe(a, b) && LexLe(b, a)
    ensures a == b
  {
    if a != [] {
      LexAntisymmetric(a[1..], b[1..]);
      assert a == [a[0]] + a[1..] && b == [b[0]] + b[1..];
    }
  }

  /** The children in lexicographic order. */
  function Sorted(a: Digest, b: Digest): (m: bytes)
    ensures |m| == 64
  {
    if LexLe(a, b) then a + b else b + a
  }

  function TapbranchHash(sha: Sha256, a: Digest, b: Digest): Digest {
    Tagged(sha, "TapBranch", Sorted(a, b))
  }

  lemma SortedSymmetric(a: Digest, b: Digest)
    ensures Sorted(a, b) == Sorted(b, a)
  {
    LexTotal(a, b);
    if LexLe(a, b) && LexLe(b, a) { LexAntisymmetric(a, b); }
  }

  lemma SortedInjective(a: Digest, b: Digest, c: Digest, d: Digest)
    requires Sorted(a, b) == Sorted(c, d)
    ensures (a == c && b == d) || (a == d && b == c)
  {
    SplitConcat(if LexLe(a, b) then a else b, if LexLe(a, b) then b else a,
                if LexLe(c, d) then c else d, if LexLe(c, d) then d else c);
  }

  // ---- in BIP-341's own terms ----

  /** Byte-array order is the order of the numbers the bytes spell. */
  lemma {:induction false} LexIsNumeric(a: bytes, b: bytes)
    requires |a| == |b|
    ensures LexLe(a, b) <==> FromBigEndian(a) <= FromBigEndian(b)
  {
    if a != [] {
      FromBigEndianHead(a);
      FromBigEndianHead(b);
      LexIsNumeric(a[1..], b[1..]);
      BigEndianOfValue(a[1..]);
      BigEndianOfValue(b[1..]);
      HeadDecides(a[0], b[0], Pow256(|a| - 1), FromBigEndian(a[1..]), FromBigEndian(b[1..]));
    }
  }

  lemma HeadDecides(x: nat, y: nat, p: nat, r: nat, s: nat)
    requires r < p && s < p
    ensures x * p + r <= y * p + s <==> x < y || (x == y && r <= s)
  {
    if x < y { assert (x + 1) * p <= y * p; }
    if y < x { assert (y + 1) * p <= x * p; }
  }

  /** Whichever way round it is asked, a branch hashes the tag twice, then the
      smaller child, then the larger. */
  lemma BranchHashesSmallerFirst(sha: Sha256, a: Digest, b: Digest)
    requires FromBigEndian(a) <= FromBigEndian(b)
    ensures var tag: bytes := sha(Ascii("TapBranch"));
            && TapbranchHash(sha, a, b) == sha(tag + tag + a + b)
            && TapbranchHash(sha, b, a) == sha(tag + tag + a + b)
  {
    hide Ascii;
    LexIsNumeric(a, b);
    SortedSymmetric(a, b);
    var tag: bytes := sha(Ascii("TapBranch"));
    assert tag + tag + (a + b) == tag + tag + a + b;
  }

  /** A length by BIP-341's table: one byte, or a marker and the 2, 4 or 8
      bytes that spell it, least significant first. */
  lemma CompactSizeBytes(n: nat)
    requires n < 0x1_0000_0000_0000_0000
    ensures var s := CompactSize(n);
            && (n < 253 ==> s == [n])
            && (253 <= n < 0x1_0000 ==> |s| == 3 && s[0] == 253 && s[1] as int + 0x100 * s[2] as int == n)
            && (0x1_0000 <= n < 0x1_0000_0000 ==>
                  && |s| == 5 && s[0] == 254
                  && s[1] as int + 0x100 * s[2] as int + 0x1_0000 * s[3] as int + 0x100_0000 * s[4] as int == n)
            && (n >= 0x1_0000_0000 ==> |s| == 9 && s[0] == 255 && FromLittleEndian(s[1..]) == n)
  {
    Pow256Values();
    var s := CompactSize(n);
    if n >= 253 {
      var width := SizeWidth(n);
      assert s[1..] == LittleEndian(n, width);
      LittleEndianRoundTrip(n, width);
      LittleEndianWeights(s[1..]);
    }
  }

  /** A leaf hashes the tag twice, its version, its script's length, its script. */
  lemma LeafHashIsTagged(sha: Sha256, script: bytes, version: byte)
    ensures var tag: bytes := sha(Ascii("TapLeaf"));
            TapleafHash(sha, script, version) == sha(tag + tag + [version] + CompactSize(|script|) + script)
  {
    hide Ascii, CompactSize;
    var tag: bytes := sha(Ascii("TapLeaf"));
    assert tag + tag + ([version] + (CompactSize(|script|) + script))
        == tag + tag + [version] + CompactSize(|script|) + script;
  }

  // ---- trees ----

  datatype Tree = Leaf(version: byte, script: bytes) | Branch(left: Tree, right: Tree)

  predicate Sized(t: Tree) {
    match t
    case Leaf(_, script) => |script| < MAX_LENGTH
    case Branch(l, r) => Sized(l) && Sized(r)
  }

  function Root(sha: Sha256, t: Tree): Digest {
    match t
    case Leaf(version, script) => TapleafHash(sha, script, version)
    case Branch(l, r) => TapbranchHash(sha, Root(sha, l), Root(sha, r))
  }

  /** The script is a leaf of the tree, and `path` the roots of the subtrees
      beside the way up from it, the leaf's sibling first. */
  ghost predicate LeafOf(sha: Sha256, t: Tree, version: byte, script: bytes, path: seq<Digest>)
    decreases t
  {
    match t
    case Leaf(v, s) => v == version && s == script && path == []
    case Branch(l, r) =>
      path != [] &&
      var last, rest := path[|path| - 1], path[..|path| - 1];
      || (last == Root(sha, r) && LeafOf(sha, l, version, script, rest))
      || (last == Root(sha, l) && LeafOf(sha, r, version, script, rest))
  }

  function Fold(sha: Sha256, node: Digest, path: seq<Digest>): Digest {
    if path == [] then node
    else TapbranchHash(sha, Fold(sha, node, path[..|path| - 1]), path[|path| - 1])
  }

  ghost function TreeInputs(sha: Sha256, t: Tree): set<bytes> {
    match t
    case Leaf(v, s) => TaggedInputs(sha, "TapLeaf", LeafMessage(v, s))
    case Branch(l, r) =>
      TaggedInputs(sha, "TapBranch", Sorted(Root(sha, l), Root(sha, r))) + TreeInputs(sha, l) + TreeInputs(sha, r)
  }

  ghost function FoldInputs(sha: Sha256, version: byte, script: bytes, path: seq<Digest>): set<bytes> {
    if path == [] then TaggedInputs(sha, "TapLeaf", LeafMessage(version, script))
    else
      var rest := path[..|path| - 1];
      TaggedInputs(sha, "TapBranch", Sorted(Fold(sha, TapleafHash(sha, script, version), rest), path[|path| - 1]))
      + FoldInputs(sha, version, script, rest)
  }

  /** Every leaf folds back to the root. */
  lemma {:induction false} FoldComplete(sha: Sha256, t: Tree, version: byte, script: bytes, path: seq<Digest>)
    requires LeafOf(sha, t, version, script, path)
    ensures Fold(sha, TapleafHash(sha, script, version), path) == Root(sha, t)
    decreases t
  {
    match t
    case Leaf(_, _) =>
    case Branch(l, r) =>
      var last, rest := path[|path| - 1], path[..|path| - 1];
      if last == Root(sha, r) && LeafOf(sha, l, version, script, rest) {
        FoldComplete(sha, l, version, script, rest);
      } else {
        FoldComplete(sha, r, version, script, rest);
        SortedSymmetric(Root(sha, l), Root(sha, r));
      }
  }

  /** What folds to the root is a leaf, unless two of the hashed inputs collide. */
  lemma {:induction false} FoldBinds(sha: Sha256, inputs: set<bytes>, t: Tree, version: byte, script: bytes,
                                     path: seq<Digest>)
    requires Sized(t) && |script| < MAX_LENGTH
    requires CollisionFree(sha, inputs)
    requires TreeInputs(sha, t) + FoldInputs(sha, version, script, path) <= inputs
    requires Fold(sha, TapleafHash(sha, script, version), path) == Root(sha, t)
    ensures LeafOf(sha, t, version, script, path)
    decreases t
  {
    var leaf := LeafMessage(version, script);
    if path == [] {
      match t
      case Leaf(v, s) =>
        TaggedBinds(sha, inputs, "TapLeaf", leaf, "TapLeaf", LeafMessage(v, s));
        LeafMessageInjective(version, script, v, s);
      case Branch(l, r) =>
        TaggedBinds(sha, inputs, "TapLeaf", leaf, "TapBranch", Sorted(Root(sha, l), Root(sha, r)));
    } else {
      var last, rest := path[|path| - 1], path[..|path| - 1];
      var below := Fold(sha, TapleafHash(sha, script, version), rest);
      match t
      case Leaf(v, s) =>
        TaggedBinds(sha, inputs, "TapBranch", Sorted(below, last), "TapLeaf", LeafMessage(v, s));
      case Branch(l, r) =>
        TaggedBinds(sha, inputs, "TapBranch", Sorted(below, last), "TapBranch", Sorted(Root(sha, l), Root(sha, r)));
        SortedInjective(below, last, Root(sha, l), Root(sha, r));
        if below == Root(sha, l) && last == Root(sha, r) {
          FoldBinds(sha, inputs, l, version, script, rest);
        } else {
          FoldBinds(sha, inputs, r, version, script, rest);
        }
    }
  }

  /** Folding to a tree's root is exactly being a leaf of it. */
  lemma FoldIff(sha: Sha256, t: Tree, version: byte, script: bytes, path: seq<Digest>)
    requires Sized(t) && |script| < MAX_LENGTH
    requires CollisionFree(sha, TreeInputs(sha, t) + FoldInputs(sha, version, script, path))
    ensures Fold(sha, TapleafHash(sha, script, version), path) == Root(sha, t)
            <==> LeafOf(sha, t, version, script, path)
  {
    if LeafOf(sha, t, version, script, path) {
      FoldComplete(sha, t, version, script, path);
    } else if Fold(sha, TapleafHash(sha, script, version), path) == Root(sha, t) {
      FoldBinds(sha, TreeInputs(sha, t) + FoldInputs(sha, version, script, path), t, version, script, path);
    }
  }

  // ---- output keys ----

  datatype Tweaked = Tweaked(outputKey: Digest, parity: byte)

  /** `tweak_scalar`: BIP-341 refuses `t >= n` rather than reducing it. */
  function TweakScalar(g: Group, sha: Sha256, internalKey: Digest, merkleRoot: Digest): (t: Option<nat>)
    ensures t.Some? ==> t.value < g.n
  {
    var t := FromBigEndian(Tagged(sha, "TapTweak", internalKey + merkleRoot));
    if t < g.n then Some(t) else None
  }

  /** `Q = lift_x(P) + t*G`, and the parity of its y. */
  function TaprootTweak(g: Group, sha: Sha256, internalKey: Digest, merkleRoot: Digest): (r: Option<Tweaked>)
    ensures r.Some? ==> r.value.parity <= 1
  {
    var internal :- g.lift(internalKey);
    var t :- TweakScalar(g, sha, internalKey, merkleRoot);
    var q := g.Add(internal, t);
    if q == 0 then None else Some(Tweaked(g.x(q), g.Parity(q)))
  }

  /** In terms of logarithms: `t` is the tagged hash of the internal key and
      the root, and `Q` the point `l + t` past the even point `l` the internal
      key names, with no key for a `t` out of range or a sum of zero. */
  lemma TweakedKeyIs(g: Group, sha: Sha256, internalKey: Digest, merkleRoot: Digest)
    requires g.n > 0
    ensures var tag: bytes := sha(Ascii("TapTweak"));
            var l := g.lift(internalKey);
            var t := FromBigEndian(sha(tag + tag + internalKey + merkleRoot));
            TaprootTweak(g, sha, internalKey, merkleRoot) ==
            if l.Some? && t < g.n && (l.value + t) % g.n != 0
            then Some(Tweaked(g.x((l.value + t) % g.n), if g.odd((l.value + t) % g.n) then 1 else 0))
            else None
  {
    hide Ascii;
    var tag: bytes := sha(Ascii("TapTweak"));
    assert tag + tag + (internalKey + merkleRoot) == tag + tag + internalKey + merkleRoot;
  }

  /** The 32-byte pieces of a merkle path. */
  function Chunks(s: bytes): (c: seq<Digest>)
    requires |s| % 32 == 0
    ensures |c| == |s| / 32
  {
    if s == [] then [] else [s[..32]] + Chunks(s[32..])
  }

  function Joined(path: seq<Digest>): (s: bytes)
    ensures |s| == 32 * |path|
  {
    if path == [] then [] else path[0] + Joined(path[1..])
  }

  lemma {:induction false} ChunksOfJoined(path: seq<Digest>)
    ensures Chunks(Joined(path)) == path
  {
    if path != [] {
      ChunksOfJoined(path[1..]);
      assert Joined(path)[..32] == path[0] && Joined(path)[32..] == Joined(path[1..]);
    }
  }

  lemma {:induction false} JoinedOfChunks(s: bytes)
    requires |s| % 32 == 0
    ensures Joined(Chunks(s)) == s
  {
    if s != [] {
      JoinedOfChunks(s[32..]);
      assert Chunks(s)[1..] == Chunks(s[32..]);
      assert s == s[..32] + s[32..];
    }
  }

  predicate IsControlBlock(block: bytes) {
    |block| >= 33 && (|block| - 33) % 32 == 0 && (|block| - 33) / 32 <= MAX_MERKLE_DEPTH
  }

  /** The leaf version a control block states, its parity bit cleared. */
  function VersionOf(block: bytes): byte
    requires block != []
  {
    block[0] - block[0] % 2
  }

  /** The tweaked key, if its parity is the one stated. */
  function KeyOfParity(tweaked: Option<Tweaked>, parity: int): Option<Digest> {
    if tweaked.Some? && tweaked.value.parity == parity then Some(tweaked.value.outputKey) else None
  }

  /** What a control block's merkle path folds to over a leaf. */
  function FoldedRoot(sha: Sha256, script: bytes, block: bytes): Digest
    requires IsControlBlock(block)
  {
    Fold(sha, TapleafHash(sha, script, VersionOf(block)), Chunks(block[33..]))
  }

  /** The `Q` a leaf and its control block commit to. */
  function OutputKey(g: Group, sha: Sha256, script: bytes, block: bytes): Option<Digest> {
    if IsControlBlock(block)
    then KeyOfParity(TaprootTweak(g, sha, block[1..33], FoldedRoot(sha, script, block)), block[0] % 2)
    else None
  }

  lemma {:induction false} ChunksStep(s: bytes, at: nat)
    requires |s| % 32 == 0 && at < |s| / 32
    ensures s[32 * at..32 * at + 32] == Chunks(s)[at]
  {
    if at > 0 {
      var rest := s[32..];
      ChunksStep(rest, at - 1);
      assert Chunks(s) == [s[..32]] + Chunks(rest);
      var lo := 32 * (at - 1);
      SliceOfRest(s, 32, lo, lo + 32);
      assert 32 + lo == 32 * at;
    }
  }

  lemma FoldStep(sha: Sha256, node: Digest, path: seq<Digest>, level: nat)
    requires level < |path|
    ensures Fold(sha, node, path[..level + 1]) == TapbranchHash(sha, Fold(sha, node, path[..level]), path[level])
  {
    assert path[..level + 1][..level] == path[..level];
  }

  method FoldSiblings(sha: Sha256, leaf: Digest, siblings: bytes) returns (node: Digest)
    requires |siblings| % 32 == 0
    ensures node == Fold(sha, leaf, Chunks(siblings))
  {
    ghost var path := Chunks(siblings);
    node := leaf;
    var level := 0;
    while level < |siblings| / 32
      invariant level <= |path|
      invariant node == Fold(sha, leaf, path[..level])
    {
      ChunksStep(siblings, level);
      FoldStep(sha, leaf, path, level);
      node := TapbranchHash(sha, node, siblings[32 * level..32 * level + 32]);
      level := level + 1;
    }
    assert path[..level] == path;
  }

  /** `output_key_of`, folding the path in place. */
  method OutputKeyOf(g: Group, sha: Sha256, script: bytes, block: bytes) returns (key: Option<Digest>)
    ensures key == OutputKey(g, sha, script, block)
  {
    hide TaprootTweak, TapleafHash, KeyOfParity, Fold, Chunks;
    var len := |block|;
    if len < 33 || (len - 33) % 32 != 0 || (len - 33) / 32 > MAX_MERKLE_DEPTH {
      return None;
    }
    assert IsControlBlock(block);
    var node := FoldSiblings(sha, TapleafHash(sha, script, VersionOf(block)), block[33..]);
    assert node == FoldedRoot(sha, script, block);
    key := KeyOfParity(TaprootTweak(g, sha, block[1..33], node), block[0] % 2);
  }

  function ControlBlock(version: byte, parity: byte, internalKey: Digest, path: seq<Digest>): bytes
    requires version % 2 == 0 && parity <= 1
  {
    [version + parity] + internalKey + Joined(path)
  }

  lemma ControlBlockParts(version: byte, parity: byte, internalKey: Digest, path: seq<Digest>)
    requires version % 2 == 0 && parity <= 1
    ensures var block := ControlBlock(version, parity, internalKey, path);
            && |block| == 33 + 32 * |path| && block[0] % 2 == parity && VersionOf(block) == version
            && block[1..33] == internalKey && block[33..] == Joined(path)
  {
    hide Joined;
    var block := ControlBlock(version, parity, internalKey, path);
    EvenAndParity(version, parity);
    ThreeSlices([version + parity], internalKey, Joined(path));
    assert block[0] == version + parity;
  }

  lemma EvenAndParity(version: int, parity: int)
    requires version % 2 == 0 && 0 <= parity <= 1
    ensures (version + parity) % 2 == parity
  {
  }

  lemma ControlBlockDepth(block: bytes, depth: nat)
    requires |block| == 33 + 32 * depth
    ensures IsControlBlock(block) <==> depth <= MAX_MERKLE_DEPTH
  {
  }

  /** A leaf with its control block names the tree's `Q`, at every depth up to
      128 and at no depth beyond. */
  lemma LeafNamesOutputKey(g: Group, sha: Sha256, t: Tree, internalKey: Digest,
                           version: byte, script: bytes, path: seq<Digest>)
    requires version % 2 == 0 && LeafOf(sha, t, version, script, path)
    requires TaprootTweak(g, sha, internalKey, Root(sha, t)).Some?
    ensures var q := TaprootTweak(g, sha, internalKey, Root(sha, t)).value;
            OutputKey(g, sha, script, ControlBlock(version, q.parity, internalKey, path)) ==
            if |path| <= 128 then Some(q.outputKey) else None
  {
    var q := TaprootTweak(g, sha, internalKey, Root(sha, t)).value;
    var block := ControlBlock(version, q.parity, internalKey, path);
    ControlBlockParts(version, q.parity, internalKey, path);
    ControlBlockDepth(block, |path|);
    if |path| <= MAX_MERKLE_DEPTH {
      ChunksOfJoined(path);
      FoldComplete(sha, t, version, script, path);
      assert FoldedRoot(sha, script, block) == Root(sha, t);
    }
  }

  lemma ControlBlockOfParts(block: bytes)
    requires IsControlBlock(block)
    ensures block == ControlBlock(VersionOf(block), block[0] % 2, block[1..33], Chunks(block[33..]))
  {
    JoinedOfChunks(block[33..]);
    assert block == [block[0]] + block[1..33] + block[33..];
  }

  /** Every accepted control block is the one its parts build, and commits to
      their tweak: with `FoldIff`, a spend under a tree's root is a leaf of it. */
  lemma AcceptedControlBlock(g: Group, sha: Sha256, script: bytes, block: bytes)
      returns (version: byte, parity: byte, internalKey: Digest, path: seq<Digest>)
    requires OutputKey(g, sha, script, block).Some?
    ensures version % 2 == 0 && parity <= 1 && |path| <= MAX_MERKLE_DEPTH
    ensures block == ControlBlock(version, parity, internalKey, path)
    ensures TaprootTweak(g, sha, internalKey, Fold(sha, TapleafHash(sha, script, version), path))
            == Some(Tweaked(OutputKey(g, sha, script, block).value, parity))
  {
    hide Fold, TapleafHash, TaprootTweak, Chunks;
    version, parity, internalKey, path := VersionOf(block), block[0] % 2, block[1..33], Chunks(block[33..]);
    ControlBlockOfParts(block);
  }
}
