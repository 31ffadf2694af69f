// Key derivation: BIP-32 steps (src/cash.rs), LUD-26's note paths, shares and
// the superseded per-note tweak (src/recoverable.rs), and the tweaked secret
// key of a key-path spend (src/spend.rs). Every error here is a refusal, so
// an Option carries all of it.

module Keys {
  import opened Wrappers
  import opened Bytes
  import opened Hashing
  import opened Curve
  import opened Taproot

  const HARDENED: nat := 0x8000_0000

  type Wide = s: bytes | |s| == 64 witness seq(64, _ => 0)
  type Compressed = s: bytes | |s| == 33 witness seq(33, _ => 0)

  datatype Primitives = Primitives(g: Group, sha: Sha256, hmac512: (bytes, bytes) -> Wide)

  datatype CashNode = CashNode(privateKey: Digest, chainCode: Digest)

  // ---- scalars and points as bytes ----

  /** `SecretKey::from_secret_bytes`: a scalar in [1, n). */
  function SecretKey(p: Primitives, key: Digest): (k: Option<nat>)
    ensures k.Some? ==> p.g.Scalar(k.value)
  {
    var k := FromBigEndian(key);
    if p.g.Scalar(k) then Some(k) else None
  }

  function SecretBytes(k: nat): Digest {
    BigEndian(k, 32)
  }

  lemma SecretRoundTrip(p: Primitives, k: nat)
    requires p.g.Valid() && p.g.Scalar(k)
    ensures SecretKey(p, SecretBytes(k)) == Some(k)
  {
    BigEndianRoundTrip(k, 32);
  }

  /** A compressed point. */
  function Serialize(p: Primitives, k: nat): Compressed {
    [2 + p.g.Parity(k)] + p.g.x(k)
  }

  /** `PublicKey::from_byte_array_compressed`. */
  function ParsePoint(p: Primitives, key: Compressed): Option<nat> {
    if key[0] != 2 && key[0] != 3 then None
    else
      var even :- p.g.lift(key[1..]);
      if key[0] == 2 then Some(even) else Some(p.g.Negate(even))
  }

  lemma PointRoundTrip(p: Primitives, k: nat)
    requires p.g.Valid() && p.g.Scalar(k)
    ensures ParsePoint(p, Serialize(p, k)) == Some(k)
  {
    p.g.LiftOfX(k);
    assert Serialize(p, k)[1..] == p.g.x(k);
  }

  // ---- BIP-32 steps ----

  /** The tweak and chain code a step hashes out of its 37 bytes of data. */
  function StepMaterial(p: Primitives, chainCode: Digest, data: bytes): (r: Option<(nat, Digest)>)
    ensures r.Some? ==> r.value.0 < p.g.n
  {
    var material := p.hmac512(chainCode, data);
    var t := FromBigEndian(material[..32]);
    if t < p.g.n then Some((t, material[32..])) else None
  }

  /** What a private step hashes: the key itself when hardened, else its point. */
  function StepData(p: Primitives, k: nat, key: Digest, index: u32): (data: bytes)
    ensures |data| == 37
  {
    (if index >= HARDENED then [0] + key else Serialize(p, k)) + BigEndian(index, 4)
  }

  /** A hardened and a plain step never hash the same data, and neither do two
      indices or two keys: the leading zero is no point's parity byte. */
  lemma StepDataIsDistinct(p: Primitives, k: nat, key: Digest, i: u32, k': nat, key': Digest, j: u32)
    requires p.g.Valid() && p.g.Scalar(k) && p.g.Scalar(k')
    requires StepData(p, k, key, i) == StepData(p, k', key', j)
    ensures i == j && if i >= HARDENED then key == key' else k == k'
  {
    hide BigEndian;
    var head := if i >= HARDENED then [0] + key else Serialize(p, k);
    var head' := if j >= HARDENED then [0] + key' else Serialize(p, k');
    SplitConcat(head, BigEndian(i, 4), head', BigEndian(j, 4));
    Pow256Values();
    BigEndianRoundTrip(i, 4);
    BigEndianRoundTrip(j, 4);
    if i >= HARDENED {
      SplitConcat([0], key, [0], key');
    } else {
      PointRoundTrip(p, k);
      PointRoundTrip(p, k');
    }
  }

  /** CKDpriv. */
  function ChildPrivate(p: Primitives, node: CashNode, index: u32): Option<CashNode> {
    var k :- SecretKey(p, node.privateKey);
    var step :- StepMaterial(p, node.chainCode, StepData(p, k, node.privateKey, index));
    var child := p.g.Add(k, step.0);
    if child == 0 then None else Some(CashNode(SecretBytes(child), step.1))
  }

  /** CKDpub. */
  function ChildPublic(p: Primitives, pubkey: Compressed, chainCode: Digest, index: u32): Option<(Compressed, Digest)>
    requires p.g.n > 0
  {
    if index >= HARDENED then None
    else
      var k :- ParsePoint(p, pubkey);
      var step :- StepMaterial(p, chainCode, pubkey + BigEndian(index, 4));
      var child := p.g.Add(k, step.0);
      if child == 0 then None else Some((Serialize(p, child), step.1))
  }

  /** `derive_cash_child`, filling its 37 bytes of data in place. */
  method DeriveCashChild(p: Primitives, node: CashNode, index: u32) returns (child: Option<CashNode>)
    ensures child == ChildPrivate(p, node, index)
  {
    var parent := SecretKey(p, node.privateKey);
    if parent.None? {
      return None;
    }
    var data := new byte[37](_ => 0);
    if index >= HARDENED {
      forall i | 0 <= i < 32 { data[1 + i] := node.privateKey[i]; }
    } else {
      var point := Serialize(p, parent.value);
      forall i | 0 <= i < 33 { data[i] := point[i]; }
    }
    var suffix := BigEndian(index, 4);
    forall i | 0 <= i < 4 { data[33 + i] := suffix[i]; }
    assert data[..] == StepData(p, parent.value, node.privateKey, index);
    var step := StepMaterial(p, node.chainCode, data[..]);
    if step.None? {
      return None;
    }
    var k := p.g.Add(parent.value, step.value.0);
    if k == 0 {
      return None;
    }
    return Some(CashNode(SecretBytes(k), step.value.1));
  }

  /** `cash_node_public_key`. */
  function PublicKey(p: Primitives, node: CashNode): Option<Compressed> {
    var k :- SecretKey(p, node.privateKey);
    Some(Serialize(p, k))
  }

  /** Both halves of a node step to the two halves of one child, or neither steps. */
  lemma StepsCommute(p: Primitives, node: CashNode, index: u32)
    requires p.g.Valid() && index < HARDENED && PublicKey(p, node).Some?
    ensures var private := ChildPrivate(p, node, index);
            var public := ChildPublic(p, PublicKey(p, node).value, node.chainCode, index);
            && (private.Some? <==> public.Some?)
            && (private.Some? ==> PublicKey(p, private.value) == Some(public.value.0)
                                  && private.value.chainCode == public.value.1)
  {
    var k := SecretKey(p, node.privateKey).value;
    PointRoundTrip(p, k);
    var child := ChildPrivate(p, node, index);
    if child.Some? {
      var step := StepMaterial(p, node.chainCode, StepData(p, k, node.privateKey, index)).value;
      SecretRoundTrip(p, p.g.Add(k, step.0));
    }
  }

  lemma FitsScalar(p: Primitives, k: nat)
    requires p.g.Valid() && k < p.g.n
    ensures k < Pow256(32)
  {
  }

  /** BIP-32's CKDpriv over HMAC-SHA512 itself: the left half of the output is
      added to the key and the right half is the child's chain code. */
  lemma PrivateChildIs(p: Primitives, node: CashNode, index: u32)
    requires p.g.Valid()
    ensures var k, n := FromBigEndian(node.privateKey), p.g.n;
            var head: bytes := if index >= 0x8000_0000 then [0] + node.privateKey
                               else [if p.g.odd(k) then 3 else 2] + p.g.x(k);
            var material: bytes := p.hmac512(node.chainCode, head + BigEndian(index, 4));
            var left, child := FromBigEndian(material[..32]), ChildPrivate(p, node, index);
            && (child.Some? <==> 1 <= k < n && left < n && (left + k) % n != 0)
            && (child.Some? ==> FromBigEndian(child.value.privateKey) == (left + k) % n
                                && child.value.chainCode == material[32..])
  {
    hide FromBigEndian, BigEndian, Group.Valid;
    var k := FromBigEndian(node.privateKey);
    if ChildPrivate(p, node, index).Some? {
      var step := StepMaterial(p, node.chainCode, StepData(p, k, node.privateKey, index)).value;
      FitsScalar(p, p.g.Add(k, step.0));
      BigEndianRoundTrip(p.g.Add(k, step.0), 32);
    }
  }

  /** And CKDpub, over the point its parity byte and x name: hardened indices
      refused, the parent's own bytes hashed as they are. */
  lemma PublicChildIs(p: Primitives, pubkey: Compressed, chainCode: Digest, index: u32)
    requires p.g.Valid()
    ensures var even, n := p.g.lift(pubkey[1..]), p.g.n;
            var material: bytes := p.hmac512(chainCode, pubkey + BigEndian(index, 4));
            var left, child := FromBigEndian(material[..32]), ChildPublic(p, pubkey, chainCode, index);
            && (child.Some? ==> even.Some?)
            && (even.Some? ==>
                  var sum := (left + if pubkey[0] == 2 then even.value else n - even.value) % n;
                  && (child.Some? <==>
                        index < 0x8000_0000 && (pubkey[0] == 2 || pubkey[0] == 3) && left < n && sum != 0)
                  && (child.Some? ==>
                        child.value == ([if p.g.odd(sum) then 3 else 2] + p.g.x(sum), material[32..])))
  {
    hide FromBigEndian, BigEndian;
    PointIs(p, pubkey);
    hide ParsePoint, Group.Valid;
  }

  lemma PointIs(p: Primitives, pubkey: Compressed)
    requires p.g.Valid()
    ensures var even, k := p.g.lift(pubkey[1..]), ParsePoint(p, pubkey);
            && (k.Some? <==> even.Some? && (pubkey[0] == 2 || pubkey[0] == 3))
            && (k.Some? ==> k.value == if pubkey[0] == 2 then even.value else p.g.n - even.value)
  {
  }

  // ---- note paths ----

  datatype NotePath =
    | Wallet(account: u32, index: u32)
    | Change(account: u32, index: u32)
    | Share(account: u32, share: u32, index: u32)

  /** `NotePath::indices`: accounts and shares hardened, note indices not, and
      all of them below 2^31 before that. */
  function Indices(path: NotePath): Option<seq<u32>> {
    if path.account >= HARDENED || path.index >= HARDENED then None
    else
      match path
      case Wallet(account, index) => Some([account + HARDENED, 0, index])
      case Change(account, index) => Some([account + HARDENED, 1, index])
      case Share(account, share, index) =>
        if share >= HARDENED then None else Some([account + HARDENED, 2, share + HARDENED, index])
  }

  /** The paths themselves, a hardened index counting from 2^31, and the
      numbers refused. */
  lemma PathsAre(account: u32, share: u32, index: u32)
    ensures Indices(Wallet(account, index)) ==
            if account < 0x8000_0000 && index < 0x8000_0000 then Some([account + 0x8000_0000, 0, index]) else None
    ensures Indices(Change(account, index)) ==
            if account < 0x8000_0000 && index < 0x8000_0000 then Some([account + 0x8000_0000, 1, index]) else None
    ensures Indices(Share(account, share, index)) ==
            if account < 0x8000_0000 && share < 0x8000_0000 && index < 0x8000_0000
            then Some([account + 0x8000_0000, 2, share + 0x8000_0000, index]) else None
  {
  }

  /** No two notes share a path, and no note's path runs through another's. */
  lemma PathsAreDistinct(a: NotePath, b: NotePath)
    requires Indices(a).Some? && Indices(b).Some?
    requires Indices(a).value <= Indices(b).value
    ensures a == b
  {
    var i, j := Indices(a).value, Indices(b).value;
    assert i[0] == j[0] && i[1] == j[1] && i[2] == j[2];
    assert |i| == |j| ==> i[|i| - 1] == j[|j| - 1];
  }

  function DerivePath(p: Primitives, node: CashNode, indices: seq<u32>): Option<CashNode> {
    if indices == [] then Some(node)
    else
      var parent :- DerivePath(p, node, indices[..|indices| - 1]);
      ChildPrivate(p, parent, indices[|indices| - 1])
  }

  datatype NoteKey = NoteKey(secretKey: Digest, pubkey: Compressed, outputKey: Digest)

  function NoteKeyAt(p: Primitives, node: CashNode): Option<NoteKey> {
    var pubkey :- PublicKey(p, node);
    Some(NoteKey(node.privateKey, pubkey, pubkey[1..]))
  }

  function NoteKeyOf(p: Primitives, serviceRoot: CashNode, path: NotePath): Option<NoteKey> {
    var indices :- Indices(path);
    var node :- DerivePath(p, serviceRoot, indices);
    NoteKeyAt(p, node)
  }

  /** A note key's three parts are one key: the scalar, its compressed point,
      and that point's x. */
  lemma NoteKeyIsOneKey(p: Primitives, serviceRoot: CashNode, path: NotePath)
    requires NoteKeyOf(p, serviceRoot, path).Some?
    ensures var key := NoteKeyOf(p, serviceRoot, path).value;
            var k := FromBigEndian(key.secretKey);
            1 <= k < p.g.n && key.outputKey == p.g.x(k) && key.pubkey == [if p.g.odd(k) then 3 else 2] + p.g.x(k)
  {
    hide FromBigEndian, DerivePath;
  }

  /** The walk `derive_note_key` and `derive_cash_domain_node` share, one
      index at a time, stopping at the first that fails. */
  method Walk(p: Primitives, root: CashNode, indices: seq<u32>) returns (node: Option<CashNode>)
    ensures node == DerivePath(p, root, indices)
  {
    node := Some(root);
    var at := 0;
    while at < |indices|
      invariant at <= |indices|
      invariant node.Some? && node == DerivePath(p, root, indices[..at])
    {
      var child := DeriveCashChild(p, node.value, indices[at]);
      assert indices[..at + 1][..at] == indices[..at];
      if child.None? {
        PathFails(p, root, indices, at + 1);
        return None;
      }
      node, at := child, at + 1;
    }
    assert indices[..at] == indices;
  }

  lemma {:induction false} PathFails(p: Primitives, root: CashNode, indices: seq<u32>, at: nat)
    requires at <= |indices| && DerivePath(p, root, indices[..at]).None?
    ensures DerivePath(p, root, indices).None?
    decreases |indices|
  {
    if at == |indices| {
      assert indices[..at] == indices;
    } else {
      assert indices[..|indices| - 1][..at] == indices[..at];
      PathFails(p, root, indices[..|indices| - 1], at);
    }
  }

  method DeriveNoteKey(p: Primitives, serviceRoot: CashNode, path: NotePath) returns (key: Option<NoteKey>)
    ensures key == NoteKeyOf(p, serviceRoot, path)
  {
    var indices := Indices(path);
    if indices.None? {
      return None;
    }
    var node := Walk(p, serviceRoot, indices.value);
    if node.None? {
      return None;
    }
    return NoteKeyAt(p, node.value);
  }

  /** `derive_share_node`. */
  function ShareNode(p: Primitives, serviceRoot: CashNode, account: u32, share: u32): Option<CashNode> {
    if account >= HARDENED then None
    else
      var a :- ChildPrivate(p, serviceRoot, account + HARDENED);
      var s :- ChildPrivate(p, a, 2);
      if share >= HARDENED then None else ChildPrivate(p, s, share + HARDENED)
  }

  datatype Cx1 = Cx1(chainCode: Digest, pubkey: Compressed)

  function Cx1Of(p: Primitives, node: CashNode): Option<Cx1> {
    var pubkey :- PublicKey(p, node);
    Some(Cx1(node.chainCode, pubkey))
  }

  /** `derive_note_pubkey`: what a SERVICE credits, no private key anywhere. */
  function NotePubkey(p: Primitives, cx1: Cx1, index: u32): Option<Digest>
    requires p.g.n > 0
  {
    var child :- ChildPublic(p, cx1.pubkey, cx1.chainCode, index);
    Some(child.0[1..])
  }

  /** What a SERVICE derives from the `cx1` of a share node. */
  function CreditedOn(p: Primitives, node: CashNode, index: u32): Option<Digest>
    requires p.g.n > 0
  {
    var cx1 :- Cx1Of(p, node);
    NotePubkey(p, cx1, index)
  }

  /** What a SERVICE derives from a wallet's registered share. */
  function CreditedNote(p: Primitives, serviceRoot: CashNode, account: u32, share: u32, index: u32): Option<Digest>
    requires p.g.n > 0
  {
    var node :- ShareNode(p, serviceRoot, account, share);
    CreditedOn(p, node, index)
  }

  lemma PathStep(p: Primitives, root: CashNode, prefix: seq<u32>, index: u32)
    ensures DerivePath(p, root, prefix + [index]) ==
            var parent := DerivePath(p, root, prefix);
            if parent.None? then None else ChildPrivate(p, parent.value, index)
  {
    assert (prefix + [index])[..|prefix|] == prefix;
  }

  lemma SharePath(p: Primitives, root: CashNode, account: u32, share: u32)
    requires account < HARDENED && share < HARDENED
    ensures DerivePath(p, root, [account + HARDENED, 2, share + HARDENED]) == ShareNode(p, root, account, share)
  {
    var a, s := account + HARDENED, share + HARDENED;
    PathStep(p, root, [], a);
    PathStep(p, root, [a], 2);
    PathStep(p, root, [a, 2], s);
    assert [] + [a] == [a] && [a] + [2] == [a, 2] && [a, 2] + [s] == [a, 2, s];
  }

  lemma ChildIsUsable(p: Primitives, node: CashNode, index: u32)
    requires p.g.Valid() && ChildPrivate(p, node, index).Some?
    ensures PublicKey(p, ChildPrivate(p, node, index).value).Some?
  {
    var k := SecretKey(p, node.privateKey).value;
    var step := StepMaterial(p, node.chainCode, StepData(p, k, node.privateKey, index)).value;
    SecretRoundTrip(p, p.g.Add(k, step.0));
  }

  lemma ShareIsUsable(p: Primitives, root: CashNode, account: u32, share: u32)
    requires p.g.Valid() && ShareNode(p, root, account, share).Some?
    ensures PublicKey(p, ShareNode(p, root, account, share).value).Some?
  {
    var a := ChildPrivate(p, root, account + HARDENED).value;
    ChildIsUsable(p, ChildPrivate(p, a, 2).value, share + HARDENED);
  }

  /** The output key of the note below a node, if the step to it succeeds. */
  function OutputKeyBelow(p: Primitives, node: CashNode, index: u32): Option<Digest> {
    var child :- ChildPrivate(p, node, index);
    var key :- NoteKeyAt(p, child);
    Some(key.outputKey)
  }

  lemma CreditedIsChild(p: Primitives, node: CashNode, index: u32)
    requires p.g.Valid() && PublicKey(p, node).Some?
    ensures CreditedOn(p, node, index) == if index < HARDENED then OutputKeyBelow(p, node, index) else None
  {
    if index < HARDENED {
      StepsCommute(p, node, index);
    }
  }

  function OwnNote(p: Primitives, serviceRoot: CashNode, path: NotePath): Option<Digest> {
    var key :- NoteKeyOf(p, serviceRoot, path);
    Some(key.outputKey)
  }

  lemma OwnNoteBelow(p: Primitives, root: CashNode, prefix: seq<u32>, path: NotePath, node: Option<CashNode>)
    requires Indices(path) == Some(prefix + [path.index])
    requires node == DerivePath(p, root, prefix)
    ensures OwnNote(p, root, path) == if node.None? then None else OutputKeyBelow(p, node.value, path.index)
  {
    PathStep(p, root, prefix, path.index);
  }

  /** What the SERVICE credits on a share is the note the wallet's own path
      names, for every root, account, share and index, and one exists exactly
      when the other does. */
  lemma PublicAndPrivateAgree(p: Primitives, serviceRoot: CashNode, account: u32, share: u32, index: u32)
    requires p.g.Valid()
    ensures CreditedNote(p, serviceRoot, account, share, index)
            == OwnNote(p, serviceRoot, Share(account, share, index))
  {
    var node := ShareNode(p, serviceRoot, account, share);
    var path := Share(account, share, index);
    if account >= HARDENED || share >= HARDENED {
      assert node.None? && Indices(path).None?;
    } else {
      if node.Some? {
        ShareIsUsable(p, serviceRoot, account, share);
        CreditedIsChild(p, node.value, index);
      }
      if index < HARDENED {
        var prefix: seq<u32> := [account + HARDENED, 2, share + HARDENED];
        SharePath(p, serviceRoot, account, share);
        assert prefix + [index] == [account + HARDENED, 2, share + HARDENED, index];
        OwnNoteBelow(p, serviceRoot, prefix, path, node);
      }
    }
  }

  // ---- x-only tweaks ----

  /** `taproot_tweak_secret_key`: an odd-y key is negated first. */
  function TweakedSecretKey(p: Primitives, secretKey: Digest, merkleRoot: Digest): Option<Digest> {
    var k :- SecretKey(p, secretKey);
    var t :- TweakScalar(p.g, p.sha, p.g.x(k), merkleRoot);
    var tweaked := p.g.Add(p.g.EvenOf(k), t);
    if tweaked == 0 then None else Some(SecretBytes(tweaked))
  }

  /** The tweaked secret key signs for the tweaked output key, whichever
      parity the internal key had, and exists exactly when that key does. */
  lemma TweakSidesAgree(p: Primitives, secretKey: Digest, merkleRoot: Digest)
    requires p.g.Valid() && SecretKey(p, secretKey).Some?
    ensures var internal := p.g.x(SecretKey(p, secretKey).value);
            var secret := TweakedSecretKey(p, secretKey, merkleRoot);
            var public := TaprootTweak(p.g, p.sha, internal, merkleRoot);
            && (secret.Some? <==> public.Some?)
            && (secret.Some? ==>
                  && SecretKey(p, secret.value).Some?
                  && var k := SecretKey(p, secret.value).value;
                     public.value == Tweaked(p.g.x(k), p.g.Parity(k)))
  {
    var k := SecretKey(p, secretKey).value;
    p.g.LiftOfX(k);
    var t := TweakScalar(p.g, p.sha, p.g.x(k), merkleRoot);
    if t.Some? {
      var tweaked := p.g.Add(p.g.EvenOf(k), t.value);
      if tweaked != 0 { SecretRoundTrip(p, tweaked); }
    }
  }

  // ---- the superseded per-note tweak ----

  datatype LegacyCx1 = LegacyCx1(pubkeyXOnly: Digest, chainCode: Digest)

  function LegacyCx1Of(p: Primitives, node: CashNode): Option<LegacyCx1> {
    var k :- SecretKey(p, node.privateKey);
    Some(LegacyCx1(p.g.x(k), node.chainCode))
  }

  /** What the superseded tweak hashes. No purpose is the scheme before
      purposes existed. */
  function LegacyTweakMessage(x: Digest, chainCode: Digest, purpose: Option<u32>, index: u32): bytes {
    x + chainCode + (if purpose.Some? then BigEndian(purpose.value, 4) else []) + BigEndian(index, 4)
  }

  /** No two notes of a branch, in whichever scheme, hash the same message. */
  lemma LegacyTweakMessageInjective(x: Digest, c: Digest, p: Option<u32>, i: u32, x': Digest, c': Digest,
                                    q: Option<u32>, j: u32)
    requires LegacyTweakMessage(x, c, p, i) == LegacyTweakMessage(x', c', q, j)
    ensures x == x' && c == c' && p == q && i == j
  {
    hide BigEndian;
    var a, b := if p.Some? then BigEndian(p.value, 4) else [], if q.Some? then BigEndian(q.value, 4) else [];
    SplitConcat(x + c + a, BigEndian(i, 4), x' + c' + b, BigEndian(j, 4));
    SplitConcat(x + c, a, x' + c', b);
    SplitConcat(x, c, x', c');
    Pow256Values();
    BigEndianRoundTrip(i, 4);
    BigEndianRoundTrip(j, 4);
    assert |a| == |b|;
    if p.Some? {
      BigEndianRoundTrip(p.value, 4);
      BigEndianRoundTrip(q.value, 4);
    }
  }

  /** `tweak_for`: reduced modulo n, unlike BIP-341's. */
  function LegacyTweak(p: Primitives, x: Digest, chainCode: Digest, purpose: Option<u32>, index: u32): (t: nat)
    requires p.g.n > 0
    ensures t < p.g.n
  {
    p.g.Reduce(FromBigEndian(Tagged(p.sha, "LNURLcash/derive", LegacyTweakMessage(x, chainCode, purpose, index))))
  }

  /** The superseded tweak over SHA-256 itself, and the note it names: `t` past
      the even point of the branch. */
  lemma LegacyNoteIs(p: Primitives, cx1: LegacyCx1, purpose: Option<u32>, index: u32)
    requires p.g.n > 0
    ensures var tag: bytes := p.sha(Ascii("LNURLcash/derive"));
            var fields := cx1.pubkeyXOnly + cx1.chainCode
                          + (if purpose.Some? then BigEndian(purpose.value, 4) else []) + BigEndian(index, 4);
            var t := FromBigEndian(p.sha(tag + tag + fields)) % p.g.n;
            var branch := p.g.lift(cx1.pubkeyXOnly);
            LegacyNotePubkey(p, cx1, purpose, index) ==
            if branch.Some? && (branch.value + t) % p.g.n != 0 then Some(p.g.x((branch.value + t) % p.g.n)) else None
  {
    hide Ascii, BigEndian, FromBigEndian;
  }

  function LegacyNotePubkey(p: Primitives, cx1: LegacyCx1, purpose: Option<u32>, index: u32): Option<Digest>
    requires p.g.n > 0
  {
    var branch :- p.g.lift(cx1.pubkeyXOnly);
    var note := p.g.Add(branch, LegacyTweak(p, cx1.pubkeyXOnly, cx1.chainCode, purpose, index));
    if note == 0 then None else Some(p.g.x(note))
  }

  function LegacyNoteSecretKey(p: Primitives, node: CashNode, purpose: Option<u32>, index: u32): Option<Digest> {
    var k :- SecretKey(p, node.privateKey);
    var note := p.g.Add(p.g.EvenOf(k), LegacyTweak(p, p.g.x(k), node.chainCode, purpose, index));
    if note == 0 then None else Some(SecretBytes(note))
  }

  /** The two halves of the superseded scheme name one note, for every
      purpose and index, and fail on the same nodes. */
  lemma LegacySidesAgree(p: Primitives, node: CashNode, purpose: Option<u32>, index: u32)
    requires p.g.Valid()
    ensures var cx1 := LegacyCx1Of(p, node);
            var public := if cx1.None? then None else LegacyNotePubkey(p, cx1.value, purpose, index);
            var secret := LegacyNoteSecretKey(p, node, purpose, index);
            && (public.Some? <==> secret.Some?)
            && (secret.Some? ==> SecretKey(p, secret.value).Some?
                                 && public == Some(p.g.x(SecretKey(p, secret.value).value)))
  {
    var key := SecretKey(p, node.privateKey);
    if key.Some? {
      var k := key.value;
      p.g.LiftOfX(k);
      var note := p.g.Add(p.g.EvenOf(k), LegacyTweak(p, p.g.x(k), node.chainCode, purpose, index));
      if note != 0 { SecretRoundTrip(p, note); }
    }
  }
}
