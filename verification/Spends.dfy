// What a `k1` is and whether it opens its note (src/spend.rs,
// src/recoverable.rs): a 64-hex preimage, a `ck1` or a `cw1`.

module Spends {
  import opened Wrappers
  import opened Text
  import opened Bytes
  import opened Bech32
  import opened Hashing
  import opened Curve
  import opened Taproot
  import opened SpendMessage
  import opened Cw1
  import T = Tapscript

  /** Everything outside the model: the group, SHA-256, bech32m, BIP-340
      verification, recovery of a legacy `ck1`'s key, and the host of a URL. */
  datatype Env = Env(
    g: Group, sha: Sha256, codec: Codec,
    verify: (Digest, bytes, bytes) -> bool,
    legacyKey: bytes -> Option<Digest>,
    domainOf: string -> Option<bytes>
  )

  const MAX_STACK_ELEMENT: nat := 520
  const LEGACY_OWNERSHIP_MESSAGE: string := "LNURLcash"

  /** BIP-341's point with no known discrete logarithm. */
  const NUMS_H: Digest := [
    0x50, 0x92, 0x9b, 0x74, 0xc1, 0xa0, 0x49, 0x54, 0xb7, 0x8b, 0x4b, 0x60, 0x35, 0xe9, 0x7a, 0x5e,
    0x07, 0x8a, 0x5a, 0x0f, 0x28, 0xec, 0x96, 0xd5, 0x47, 0xbf, 0xee, 0x9a, 0xce, 0x80, 0x3a, 0xc0]

  // ---- preimages ----

  /** `is_preimage`: 64 hex digits, outer whitespace aside. */
  predicate IsPreimage(value: string) {
    var t := Trim(value);
    |t| == 64 && forall i | 0 <= i < |t| :: IsHexDigit(t[i])
  }

  function Hex32(value: string): (r: Option<Digest>)
    ensures r.Some? <==> IsPreimage(value)
  {
    if !IsPreimage(value) then None
    else
      HexDecodesDigits(Trim(value));
      Some(HexDecode(Trim(value)).value)
  }

  /** A preimage or a hash is 32 bytes in hexadecimal of any case, outer
      whitespace aside. */
  lemma Hex32Iff(value: string, d: Digest)
    ensures Hex32(value) == Some(d) <==> Lower(Trim(value)) == HexEncode(d)
  {
    var t := Trim(value);
    hide Lower, Trim, HexEncode, HexDecode;
    if Hex32(value) == Some(d) {
      HexDecodesDigits(t);
      HexOfDecoded(t);
    }
    if Lower(t) == HexEncode(d) {
      assert |t| == 64;
      forall i | 0 <= i < |t| ensures IsHexDigit(t[i]) {
        assert Lower(t)[i] == LowerChar(t[i]) && IsHexDigit(Lower(t)[i]);
      }
      HexDecodeIgnoresCase(t);
      HexRoundTrip(d);
    }
  }

  lemma Hex32OfEncoded(d: Digest)
    ensures Hex32(HexEncode(d)) == Some(d)
  {
    var t := HexEncode(d);
    assert forall i | 0 <= i < |t| :: IsHexDigit(t[i]) && !IsWhitespace(t[i]);
    TrimOfTrimmed(t);
    HexRoundTrip(d);
  }

  // ---- the bearer note ----

  /** `OP_SHA256 <h> OP_EQUAL`. */
  function BearerLeaf(h: Digest): (leaf: bytes)
    ensures |leaf| == 35
  {
    [0xa8, 0x20] + h + [0x87]
  }

  function BearerHashOfLeaf(script: bytes): Option<Digest> {
    if |script| == 35 && script[0] == 0xa8 && script[1] == 0x20 && script[34] == 0x87
    then Some(script[2..34]) else None
  }

  lemma BearerLeafHash(h: Digest)
    ensures BearerHashOfLeaf(BearerLeaf(h)) == Some(h)
  {
    assert BearerLeaf(h)[2..34] == h;
  }

  lemma LeafOfBearerHash(script: bytes)
    requires BearerHashOfLeaf(script).Some?
    ensures script == BearerLeaf(BearerHashOfLeaf(script).value)
  {
    assert script == [script[0], script[1]] + script[2..34] + [script[34]];
  }

  datatype BearerNote = BearerNote(outputKey: Digest, controlBlock: bytes, leaf: bytes)

  function BearerNoteOf(env: Env, h: Digest): Option<BearerNote> {
    var leaf := BearerLeaf(h);
    var q :- TaprootTweak(env.g, env.sha, NUMS_H, TapleafHash(env.sha, leaf, TAPLEAF_VERSION));
    Some(BearerNote(q.outputKey, [TAPLEAF_VERSION + q.parity] + NUMS_H, leaf))
  }

  function BearerCw1(env: Env, preimage: bytes): Option<ScriptSpend> {
    var note :- BearerNoteOf(env, env.sha(preimage));
    Some(ScriptSpend(KEY_PATH_LOCKTIME, KEY_PATH_SEQUENCE, note.leaf, note.controlBlock, [preimage]))
  }

  // ---- naming a note ----

  function DecodeCp1(env: Env, value: string): Option<Digest> {
    var key :- env.codec.DecodeFixed(32, "cp", value);
    if env.g.lift(key).Some? then Some(key) else None
  }

  /** The `Q` of an output: a `cp1`, or a bearer note's 64-hex hash. */
  function DecodeNote(env: Env, value: string): Option<Digest> {
    var h := Hex32(value);
    if h.None? then DecodeCp1(env, value)
    else
      var note :- BearerNoteOf(env, h.value);
      Some(note.outputKey)
  }

  datatype Spend =
    | KeyPath(key: Digest, signature: bytes)
    | LegacyKeyPath(key: Digest)
    | ScriptPath(key: Digest, cw1: ScriptSpend)

  function ScriptPathOf(env: Env, cw1: ScriptSpend): Option<Spend> {
    var key :- OutputKey(env.g, env.sha, cw1.script, cw1.controlBlock);
    Some(ScriptPath(key, cw1))
  }

  /** A `ck1`'s payload as a spend, in either length. */
  function KeyPathOf(env: Env, payload: bytes): Option<Spend> {
    if |payload| == 96 then
      (if env.g.lift(payload[..32]).Some? then Some(KeyPath(payload[..32], payload[32..])) else None)
    else
      var key :- env.legacyKey(payload);
      Some(LegacyKeyPath(key))
  }

  function DecodeSpend(env: Env, k1: string): Option<Spend> {
    var value := Trim(k1);
    var preimage := Hex32(value);
    if preimage.Some? then
      var cw1 :- BearerCw1(env, preimage.value);
      ScriptPathOf(env, cw1)
    else
      var ck1 := env.codec.Decode("ck", value);
      if ck1.Some? && (|ck1.value| == 96 || |ck1.value| == 65) then KeyPathOf(env, ck1.value)
      else
        var cw1 :- DecodeCw1(env.codec, env.g, env.sha, value);
        ScriptPathOf(env, cw1)
  }

  // ---- judging a spend ----

  datatype Failure = LeafRefused(reason: T.Refusal) | WitnessFails | SignatureFails

  datatype Verdict = Opens | OpensLegacy | Unevaluated | Fails(why: Failure)

  datatype SpendCheck = SpendCheck(outputKey: Digest, verdict: Verdict)

  function ScriptPathVerdict(env: Env, cw1: ScriptSpend): Verdict
    requires cw1.controlBlock != []
  {
    var refusal := T.CheckLeaf(cw1.controlBlock[0], cw1.script);
    if refusal.Some? then Fails(LeafRefused(refusal.value))
    else
      var h := BearerHashOfLeaf(cw1.script);
      if h.None? then Unevaluated
      else if |cw1.stack| == 1 && |cw1.stack[0]| <= MAX_STACK_ELEMENT && env.sha(cw1.stack[0]) == h.value then Opens
      else Fails(WitnessFails)
  }

  /** `recover_note_ownership_pubkey` of a 96-byte payload: `Some(false)` for a
      current signature, `Some(true)` for one over a fixed message. */
  function SignedLegacy(env: Env, key: Digest, signature: bytes, domain: string): Option<bool> {
    var host := env.domainOf(domain);
    if host.Some? && env.verify(key, KeyPathSighash(env.sha, key, host.value), signature) then Some(false)
    else if env.verify(key, env.sha(Ascii(LEGACY_OWNERSHIP_MESSAGE)), signature)
            || env.verify(key, Ascii(LEGACY_OWNERSHIP_MESSAGE), signature) then Some(true)
    else None
  }

  function VerdictOf(env: Env, spend: Spend, domain: string): Verdict
    requires spend.ScriptPath? ==> spend.cw1.controlBlock != []
  {
    match spend
    case KeyPath(key, signature) =>
      var legacy := SignedLegacy(env, key, signature, domain);
      if legacy.None? then Fails(SignatureFails) else if legacy.value then OpensLegacy else Opens
    case LegacyKeyPath(_) => OpensLegacy
    case ScriptPath(_, cw1) => ScriptPathVerdict(env, cw1)
  }

  lemma SpendHasControlBlock(env: Env, k1: string)
    requires DecodeSpend(env, k1).Some?
    ensures var spend := DecodeSpend(env, k1).value; spend.ScriptPath? ==> |spend.cw1.controlBlock| >= 33
  {
    hide Hex32, BearerCw1, DecodeCw1, KeyPathSighash, TaprootTweak, FoldedRoot, Trim;
  }

  function CheckSpend(env: Env, k1: string, domain: string): Option<SpendCheck> {
    var spend :- DecodeSpend(env, k1);
    SpendHasControlBlock(env, k1);
    Some(SpendCheck(spend.key, VerdictOf(env, spend, domain)))
  }

  // ---- letter case ----

  lemma HexDigitsIgnoreCase(t: string)
    ensures forall i | 0 <= i < |t| :: IsHexDigit(Lower(t)[i]) <==> IsHexDigit(t[i])
  {
    hide Lower;
  }

  lemma PreimageIgnoresCase(value: string)
    ensures IsPreimage(Lower(value)) <==> IsPreimage(value)
  {
    hide Lower, LowerChar, Trim, IsHexDigit;
    TrimOfLower(value);
    HexDigitsIgnoreCase(Trim(value));
  }

  lemma Hex32IgnoresCase(value: string)
    ensures Hex32(Lower(value)) == Hex32(value)
  {
    hide Lower, Trim, IsPreimage, HexDecode;
    TrimOfLower(value);
    PreimageIgnoresCase(value);
    HexDecodeIgnoresCase(Trim(value));
  }

  lemma PayloadIgnoresCase(codec: Codec, value: string)
    requires codec.Valid() && (codec.Decode("ck", value).Some? || codec.Decode("cw", value).Some?)
    ensures codec.Decode("ck", Lower(value)) == codec.Decode("ck", value)
    ensures codec.Decode("cw", Lower(value)) == codec.Decode("cw", value)
  {
    hide Lower, Trim;
    assert AllPrefixChars("ck") && AllPrefixChars("cw");
    if codec.Decode("ck", value).Some? {
      codec.DecodeIgnoresCase("ck", value);
      OnePrefix(codec, "ck", "cw", value);
    }
    if codec.Decode("cw", value).Some? {
      codec.DecodeIgnoresCase("cw", value);
      OnePrefix(codec, "cw", "ck", value);
    }
  }

  /** No spelling of an accepted string is accepted under another prefix. */
  lemma OnePrefix(codec: Codec, hrp: string, other: string, value: string)
    requires codec.Valid() && IsPrefix(hrp) && IsPrefix(other) && hrp != other && codec.Decode(hrp, value).Some?
    ensures codec.Decode(other, value).None? && codec.Decode(other, Lower(value)).None?
  {
    hide Lower, Trim, IsPrefixChar;
    var payload := codec.Decode(hrp, value).value;
    codec.Canonical(hrp, value);
    codec.OtherPrefix(hrp, other, payload);
    codec.EncodedShape(hrp, payload);
    TrimOfLower(value);
    if codec.Decode(other, value).Some? {
      codec.DecodeIgnoresCase(other, value);
    }
  }

  /** Letter case never changes what a k1 spends: every note URL carries it in
      lowercase. */
  lemma SpendIgnoresCase(env: Env, k1: string)
    requires env.codec.Valid() && DecodeSpend(env, k1).Some?
    ensures DecodeSpend(env, Lower(k1)) == DecodeSpend(env, k1)
  {
    hide Trim, Lower, Hex32, KeyPathOf, BearerCw1, ScriptPathOf, DecodePayload, OutputKey, Codec.Valid, Codec.Decode;
    var value := Trim(k1);
    TrimOfLower(k1);
    Hex32IgnoresCase(value);
    if Hex32(value).None? {
      PayloadIgnoresCase(env.codec, value);
    }
  }

  // ---- a preimage and its full cw1 ----

  lemma BearerNamesItsKey(env: Env, h: Digest)
    requires BearerNoteOf(env, h).Some?
    ensures var note := BearerNoteOf(env, h).value;
            OutputKey(env.g, env.sha, note.leaf, note.controlBlock) == Some(note.outputKey)
  {
    hide TaprootTweak, TapleafHash, OutputKey;
    var tree := Leaf(TAPLEAF_VERSION, BearerLeaf(h));
    var q := TaprootTweak(env.g, env.sha, NUMS_H, Root(env.sha, tree)).value;
    LeafNamesOutputKey(env.g, env.sha, tree, NUMS_H, TAPLEAF_VERSION, BearerLeaf(h), []);
    assert ControlBlock(TAPLEAF_VERSION, q.parity, NUMS_H, []) == [TAPLEAF_VERSION + q.parity] + NUMS_H;
  }

  function BearerCode(h: Digest): seq<T.Instruction> {
    [T.Op(0xa8), T.PushShort(h), T.Op(0x87)]
  }

  lemma BearerCodeIsLeaf(h: Digest)
    ensures T.AllWellFormed(BearerCode(h)) && T.SerializeAll(BearerCode(h)) == BearerLeaf(h)
  {
    var last := [T.Op(0x87)] + [];
    var tail := [T.PushShort(h)] + last;
    assert T.SerializeAll([]) == [];
    hide T.SerializeAll;
    T.SerializeCons(T.Op(0x87), []);
    T.SerializeCons(T.PushShort(h), last);
    T.SerializeCons(T.Op(0xa8), tail);
    assert BearerCode(h) == [T.Op(0xa8)] + tail;
    assert T.SerializeAll(BearerCode(h)) == [0xa8] + (([0x20] + h) + ([0x87] + []));
  }

  /** The bearer leaf is one push between two allowed opcodes, whatever the
      hash holds. */
  lemma BearerLeafPasses(h: Digest, version: byte)
    requires version - version % 2 == TAPLEAF_VERSION
    ensures T.CheckLeaf(version, BearerLeaf(h)) == None
  {
    BearerCodeIsLeaf(h);
    assert BearerLeaf(h) + [] == BearerLeaf(h);
    T.CheckLeafReadsInstructions(BearerCode(h), []);
    assert !T.UsesOpSuccess(BearerCode(h));
  }

  lemma BearerOpens(env: Env, preimage: Digest)
    requires BearerCw1(env, preimage).Some?
    ensures ScriptPathVerdict(env, BearerCw1(env, preimage).value) == Opens
  {
    var cw1 := BearerCw1(env, preimage).value;
    BearerLeafPasses(env.sha(preimage), cw1.controlBlock[0]);
    BearerLeafHash(env.sha(preimage));
  }

  lemma BearerPayload(env: Env, preimage: Digest)
    requires BearerCw1(env, preimage).Some?
    ensures var payload := EncodePayload(BearerCw1(env, preimage).value);
            payload.Some? && |payload.value| == 114
  {
    hide BigEndian, TaprootTweak, TapleafHash;
    var cw1 := BearerCw1(env, preimage).value;
    var last: seq<bytes> := [preimage];
    var tail: seq<bytes> := [cw1.controlBlock, preimage];
    var items := cw1.Items();
    assert items == [cw1.script, cw1.controlBlock, preimage];
    assert items[1..] == tail && tail[1..] == last && last[1..] == [];
    assert EncodeItems(last).Some? && |EncodeItems(last).value| == 34;
    assert EncodeItems(tail).Some? && |EncodeItems(tail).value| == 69;
    assert EncodeItems(items).Some? && |EncodeItems(items).value| == 106;
  }

  function FullSpelling(env: Env, preimage: Digest): Option<string> {
    var cw1 :- BearerCw1(env, preimage);
    EncodeCw1(env.codec, cw1)
  }

  lemma Cw1IsNeither(codec: Codec, payload: bytes)
    requires codec.Valid()
    ensures var full := codec.Encode("cw", payload);
            Trim(full) == full && Hex32(full).None? && codec.Decode("ck", full).None?
  {
    assert IsPrefix("cw");
    codec.EncodedShape("cw", payload);
    codec.OtherPrefix("cw", "ck", payload);
    hide Trim, Lower;
    assert codec.Encode("cw", payload)[1] == 'w';
    assert !IsHexDigit('w');
  }

  /** Every script spend that fits a string is read back from it as itself. */
  lemma Cw1StringIsItsSpend(env: Env, cw1: ScriptSpend)
    requires env.codec.Valid() && EncodePayload(cw1).Some? && |EncodePayload(cw1).value| <= MAX_PAYLOAD
    requires OutputKey(env.g, env.sha, cw1.script, cw1.controlBlock).Some?
    ensures DecodeSpend(env, EncodeCw1(env.codec, cw1).value) == ScriptPathOf(env, cw1)
  {
    Cw1IsNeither(env.codec, EncodePayload(cw1).value);
    StringRoundTrip(env.codec, env.g, env.sha, cw1);
    hide Hex32, Trim, DecodeCw1, EncodePayload, OutputKey;
  }

  lemma FullSpellingDecodes(env: Env, preimage: Digest)
    requires env.codec.Valid() && BearerCw1(env, preimage).Some?
    ensures FullSpelling(env, preimage).Some?
    ensures DecodeSpend(env, FullSpelling(env, preimage).value) == ScriptPathOf(env, BearerCw1(env, preimage).value)
  {
    hide TaprootTweak, OutputKey, EncodePayload, DecodeSpend, ScriptPathOf;
    BearerPayload(env, preimage);
    BearerNamesItsKey(env, env.sha(preimage));
    Cw1StringIsItsSpend(env, BearerCw1(env, preimage).value);
  }

  lemma PreimageDecodes(env: Env, k1: string, preimage: Digest)
    requires Hex32(k1) == Some(preimage) && BearerCw1(env, preimage).Some?
    ensures DecodeSpend(env, k1) == ScriptPathOf(env, BearerCw1(env, preimage).value)
  {
    hide BearerCw1, ScriptPathOf, HexDecode, DecodeCw1, KeyPathOf;
    TrimIdempotent(k1);
    assert Hex32(Trim(k1)) == Some(preimage);
    hide Hex32, Trim;
  }

  /** A preimage is short for this spend and no other: no time claimed, the
      hashlock of its hash, the NUMS key's control block, and itself alone. */
  lemma PreimageIsThisSpend(env: Env, k1: string, preimage: Digest)
    requires Hex32(k1) == Some(preimage)
    ensures var leaf: bytes := [0xa8, 0x20] + env.sha(preimage) + [0x87];
            var q := TaprootTweak(env.g, env.sha, NUMS_H, TapleafHash(env.sha, leaf, 0xc0));
            DecodeSpend(env, k1) ==
            if q.None? then None
            else Some(ScriptPath(q.value.outputKey,
                                 ScriptSpend(0, 0xffff_ffff, leaf, [0xc0 + q.value.parity] + NUMS_H, [preimage])))
  {
    hide TaprootTweak, TapleafHash, OutputKey, Hex32, Trim, DecodeCw1;
    PreimageTrims(k1, preimage);
    if BearerCw1(env, preimage).Some? { BearerNamesItsKey(env, env.sha(preimage)); }
  }

  lemma PreimageTrims(k1: string, preimage: Digest)
    requires Hex32(k1) == Some(preimage)
    ensures Hex32(Trim(k1)) == Some(preimage)
  {
    hide HexDecode;
    TrimIdempotent(k1);
  }

  /** A bearer preimage and its full `cw1` are one spend: however the 64 hex
      digits are spelled, both decode to the same spend of the note its hash
      names, and both open it at every domain. */
  lemma BearerIsOneSpend(env: Env, k1: string, preimage: Digest, domain: string, domain': string)
    requires env.codec.Valid()
    requires Hex32(k1) == Some(preimage) && BearerNoteOf(env, env.sha(preimage)).Some?
    ensures FullSpelling(env, preimage).Some?
    ensures var full := FullSpelling(env, preimage).value;
            var q := BearerNoteOf(env, env.sha(preimage)).value.outputKey;
            && DecodeSpend(env, k1) == DecodeSpend(env, full)
            && CheckSpend(env, k1, domain) == Some(SpendCheck(q, Opens))
            && CheckSpend(env, full, domain') == Some(SpendCheck(q, Opens))
  {
    hide DecodeSpend, Hex32, FullSpelling, TaprootTweak, TapleafHash, OutputKey, BearerLeaf, ScriptPathVerdict,
         Codec.Valid;
    PreimageDecodes(env, k1, preimage);
    BearerNamesItsKey(env, env.sha(preimage));
    BearerOpens(env, preimage);
    FullSpellingDecodes(env, preimage);
  }

  // ---- the secret behind an output ----

  /** `hash_k1`. */
  function HashK1(env: Env, k1: string): Option<string> {
    var secret :- HexDecode(k1);
    Some(HexEncode(env.sha(secret)))
  }

  /** `note_id_of`, as the key rather than its hex. */
  function NoteIdOf(env: Env, k1: string): Option<Digest> {
    var spend :- DecodeSpend(env, k1);
    Some(spend.key)
  }

  /** A generated secret opens the note its disclosed hash names. */
  lemma SecretOpensItsOutput(env: Env, secret: Digest)
    requires BearerNoteOf(env, env.sha(secret)).Some?
    ensures var k1 := HexEncode(secret);
            && HashK1(env, k1).Some?
            && DecodeNote(env, HashK1(env, k1).value).Some?
            && NoteIdOf(env, k1) == DecodeNote(env, HashK1(env, k1).value)
  {
    var k1 := HexEncode(secret);
    HexRoundTrip(secret);
    Hex32OfEncoded(secret);
    Hex32OfEncoded(env.sha(secret));
    BearerNamesItsKey(env, env.sha(secret));
    TrimIdempotent(k1);
    assert Hex32(Trim(k1)) == Some(secret);
  }

  // ---- what else can open a bearer note ----

  /** Of every script spend, those that open are the hashlocks of their one
      witness item: no other leaf, version or stack is ever reported open. */
  lemma ScriptOpensIff(env: Env, cw1: ScriptSpend)
    requires cw1.controlBlock != []
    ensures ScriptPathVerdict(env, cw1) == Opens <==>
            && (cw1.controlBlock[0] == 0xc0 || cw1.controlBlock[0] == 0xc1)
            && |cw1.stack| == 1 && |cw1.stack[0]| <= 520
            && cw1.script == [0xa8, 0x20] + env.sha(cw1.stack[0]) + [0x87]
  {
    hide BearerHashOfLeaf, T.UsesOpSuccess;
    if BearerHashOfLeaf(cw1.script).Some? {
      LeafOfBearerHash(cw1.script);
    }
    if VersionOf(cw1.controlBlock) == TAPLEAF_VERSION && |cw1.stack| == 1
        && cw1.script == BearerLeaf(env.sha(cw1.stack[0])) {
      BearerLeafHash(env.sha(cw1.stack[0]));
      BearerLeafPasses(env.sha(cw1.stack[0]), cw1.controlBlock[0]);
    }
  }

  /** A spend whose control block folds to a bearer note's merkle root. */
  predicate UnderBearerRoot(env: Env, h: Digest, cw1: ScriptSpend) {
    && IsControlBlock(cw1.controlBlock) && |cw1.script| < MAX_LENGTH
    && FoldedRoot(env.sha, cw1.script, cw1.controlBlock) == TapleafHash(env.sha, BearerLeaf(h), TAPLEAF_VERSION)
  }

  /** Everything that root and that fold hash. */
  ghost function BearerRootInputs(env: Env, h: Digest, cw1: ScriptSpend): set<bytes>
    requires IsControlBlock(cw1.controlBlock)
  {
    TreeInputs(env.sha, Leaf(TAPLEAF_VERSION, BearerLeaf(h)))
    + FoldInputs(env.sha, VersionOf(cw1.controlBlock), cw1.script, Chunks(cw1.controlBlock[33..]))
  }

  /** Under a bearer note's merkle root there is its one leaf, and only a
      lone preimage of its hash opens it. */
  lemma OnlyAPreimageOpens(env: Env, h: Digest, cw1: ScriptSpend)
    requires UnderBearerRoot(env, h, cw1) && CollisionFree(env.sha, BearerRootInputs(env, h, cw1))
    ensures ScriptPathVerdict(env, cw1) == Opens <==>
            |cw1.stack| == 1 && |cw1.stack[0]| <= 520 && env.sha(cw1.stack[0]) == h
  {
    hide TaprootTweak, TapleafHash, Chunks, TreeInputs, FoldInputs, CollisionFree, BearerLeaf, BearerHashOfLeaf,
         T.CheckLeaf;
    var tree := Leaf(TAPLEAF_VERSION, BearerLeaf(h));
    FoldIff(env.sha, tree, VersionOf(cw1.controlBlock), cw1.script, Chunks(cw1.controlBlock[33..]));
    BearerLeafHash(h);
    BearerLeafPasses(h, cw1.controlBlock[0]);
  }

  // ---- a key-path spend opens one mint ----

  /** The messages a check of a 96-byte `ck1` at a domain tries: at most three. */
  function TriedAt(env: Env, key: Digest, domain: string): set<bytes> {
    var host := env.domainOf(domain);
    {env.sha(Ascii(LEGACY_OWNERSHIP_MESSAGE)), Ascii(LEGACY_OWNERSHIP_MESSAGE)}
    + if host.Some? then {KeyPathSighash(env.sha, key, host.value)} else {}
  }

  /** A signature of `owned` that passes for no other message tried at a
      domain. What else it might verify is left open. */
  ghost predicate SignsOnly(env: Env, key: Digest, signature: bytes, owned: bytes, domain: string) {
    && env.verify(key, owned, signature)
    && forall m | m in TriedAt(env, key, domain) && env.verify(key, m, signature) :: m == owned
  }

  /** A signature that opens a note at one mint under the current scheme opens
      it at no other, when it passes for nothing else tried there and nothing
      hashed collides. */
  lemma KeyPathOpensOneMint(env: Env, key: Digest, signature: bytes, domain: string, domain': string)
    requires env.domainOf(domain).Some? && env.domainOf(domain').Some?
    requires SignsOnly(env, key, signature, KeyPathSighash(env.sha, key, env.domainOf(domain).value), domain')
    requires CollisionFree(env.sha, SighashInputs(env.sha, KeyPathClaim(key, env.domainOf(domain).value))
                                    + SighashInputs(env.sha, KeyPathClaim(key, env.domainOf(domain').value)))
    requires SignedLegacy(env, key, signature, domain) == Some(false)
    ensures SignedLegacy(env, key, signature, domain') == Some(false)
            <==> LowerBytes(env.domainOf(domain).value) == LowerBytes(env.domainOf(domain').value)
  {
    hide Sighash, SighashInputs, CollisionFree, LowerBytes, Ascii;
    var a, b := KeyPathClaim(key, env.domainOf(domain).value), KeyPathClaim(key, env.domainOf(domain').value);
    SighashBinds(env.sha, a, b);
    assert env.verify(key, Sighash(env.sha, a), signature);
  }

  function EncodeCk1(env: Env, key: Digest, signature: bytes): string {
    env.codec.Encode("ck", key + signature)
  }

  lemma Ck1Reads(env: Env, key: Digest, signature: bytes)
    requires env.codec.Valid() && |signature| == 64
    ensures var value := EncodeCk1(env, key, signature);
            Trim(value) == value && Hex32(value).None? && env.codec.Decode("ck", value) == Some(key + signature)
  {
    var payload := key + signature;
    assert IsPrefix("ck");
    env.codec.EncodedShape("ck", payload);
    env.codec.RoundTrip("ck", payload);
    hide Trim, Lower;
    assert EncodeCk1(env, key, signature)[1] == 'k';
    assert !IsHexDigit('k');
  }

  /** A `ck1` whose signature verifies for a mint opens its own `Q` there. */
  lemma SignedCk1Opens(env: Env, key: Digest, signature: bytes, domain: string)
    requires env.codec.Valid() && env.g.lift(key).Some? && |signature| == 64
    requires env.domainOf(domain).Some?
    requires env.verify(key, KeyPathSighash(env.sha, key, env.domainOf(domain).value), signature)
    ensures DecodeSpend(env, EncodeCk1(env, key, signature)) == Some(KeyPath(key, signature))
    ensures CheckSpend(env, EncodeCk1(env, key, signature), domain) == Some(SpendCheck(key, Opens))
  {
    Ck1Reads(env, key, signature);
    var payload := key + signature;
    assert payload[..32] == key && payload[32..] == signature;
    hide Hex32, Trim, KeyPathSighash, DecodeCw1, EncodeCk1;
  }

  /** `sign_note_ownership`, with BIP-340 signing a parameter: the key a
      scalar names, then its signature of the spend at a mint's domain. */
  function SignNoteOwnership(env: Env, sign: (nat, bytes) -> Option<bytes>, secret: nat, domain: string)
    : Option<bytes>
  {
    if !env.g.Scalar(secret) then None
    else
      var host :- env.domainOf(domain);
      var key := env.g.x(secret);
      var signature :- sign(secret, KeyPathSighash(env.sha, key, host));
      Some(key + signature)
  }

  /** Signing fails only for a secret that is no scalar, a domain that names
      none, or a signer that fails on that spend's sighash. */
  lemma SignsIff(env: Env, sign: (nat, bytes) -> Option<bytes>, secret: nat, domain: string)
    requires env.g.n > 0
    ensures var host := env.domainOf(domain);
            SignNoteOwnership(env, sign, secret, domain).Some? <==>
              && 1 <= secret < env.g.n && host.Some?
              && sign(secret, KeyPathSighash(env.sha, env.g.x(secret), host.value)).Some?
  {
    hide KeyPathSighash;
  }

  /** A `ck1` signed for `home`, and passing for nothing else tried elsewhere,
      opens at another mint exactly when the two are one domain. */
  lemma OwnedOpensIff(env: Env, key: Digest, signature: bytes, home: string, domain: string)
    requires env.codec.Valid() && env.g.lift(key).Some? && |signature| == 64
    requires env.domainOf(home).Some? && env.domainOf(domain).Some?
    requires SignsOnly(env, key, signature, KeyPathSighash(env.sha, key, env.domainOf(home).value), domain)
    requires CollisionFree(env.sha, OwnershipInputs(env, key, home, domain))
    ensures CheckSpend(env, EncodeCk1(env, key, signature), domain) == Some(SpendCheck(key,
              if LowerBytes(env.domainOf(home).value) == LowerBytes(env.domainOf(domain).value) then Opens
              else Fails(SignatureFails)))
  {
    var owned := KeyPathSighash(env.sha, key, env.domainOf(home).value);
    SignedCk1Opens(env, key, signature, home);
    OwnedAtIff(env, key, home, domain);
    hide DecodeSpend, CollisionFree, OwnershipInputs, KeyPathSighash, LowerBytes, OwnedAt, IsLegacyOwnership, EncodeCk1;
    IdealVerdict(env, key, signature, owned, domain);
  }

  lemma OwnershipParts(env: Env, sign: (nat, bytes) -> Option<bytes>, secret: nat, home: string)
      returns (signature: bytes)
    requires env.g.Valid() && SignNoteOwnership(env, sign, secret, home).Some?
    ensures var key := env.g.x(secret);
            && env.domainOf(home).Some? && env.g.lift(key).Some?
            && sign(secret, KeyPathSighash(env.sha, key, env.domainOf(home).value)) == Some(signature)
            && SignNoteOwnership(env, sign, secret, home).value == key + signature
            && (key + signature)[32..] == signature
  {
    var key := env.g.x(secret);
    env.g.LiftOfX(secret);
    hide KeyPathSighash;
    signature := sign(secret, KeyPathSighash(env.sha, key, env.domainOf(home).value)).value;
    assert (key + signature)[32..] == signature;
  }

  /** What signing a note's ownership produces is what checking it accepts: as
      a `ck1` it reads back as itself, opens its own note at the mint signed
      for, and at another mint exactly when the two are one domain. */
  lemma OwnershipOpensItsMint(env: Env, sign: (nat, bytes) -> Option<bytes>, secret: nat, home: string, domain: string)
    requires env.codec.Valid() && env.g.Valid()
    requires SignNoteOwnership(env, sign, secret, home).Some? && env.domainOf(domain).Some?
    requires var payload := SignNoteOwnership(env, sign, secret, home).value;
             |payload| == 96 && SignsOnly(env, env.g.x(secret), payload[32..],
                                          KeyPathSighash(env.sha, env.g.x(secret), env.domainOf(home).value), domain)
    requires CollisionFree(env.sha, OwnershipInputs(env, env.g.x(secret), home, domain))
    ensures var payload := SignNoteOwnership(env, sign, secret, home).value;
            var ck1, key := env.codec.Encode("ck", payload), env.g.x(secret);
            && DecodeSpend(env, ck1) == Some(KeyPath(key, payload[32..]))
            && CheckSpend(env, ck1, home) == Some(SpendCheck(key, Opens))
            && CheckSpend(env, ck1, domain) == Some(SpendCheck(key,
                 if LowerBytes(env.domainOf(home).value) == LowerBytes(env.domainOf(domain).value) then Opens
                 else Fails(SignatureFails)))
  {
    hide DecodeSpend, CheckSpend, CollisionFree, OwnershipInputs, KeyPathSighash, LowerBytes;
    var key := env.g.x(secret);
    var signature := OwnershipParts(env, sign, secret, home);
    hide SignNoteOwnership;
    SignedCk1Opens(env, key, signature, home);
    OwnedOpensIff(env, key, signature, home, domain);
  }

  /** Whether a message is the spend of a key at a domain. */
  predicate OwnedAt(env: Env, key: Digest, owned: bytes, domain: string) {
    var host := env.domainOf(domain);
    host.Some? && owned == KeyPathSighash(env.sha, key, host.value)
  }

  /** The fixed messages older `ck1`s signed. */
  predicate IsLegacyOwnership(sha: Sha256, owned: bytes) {
    owned == sha(Ascii("LNURLcash")) || owned == Ascii("LNURLcash")
  }

  /** A signature of one message is judged by that message alone. */
  lemma IdealVerdict(env: Env, key: Digest, signature: bytes, owned: bytes, domain: string)
    requires SignsOnly(env, key, signature, owned, domain)
    ensures VerdictOf(env, KeyPath(key, signature), domain) ==
            if OwnedAt(env, key, owned, domain) then Opens
            else if IsLegacyOwnership(env.sha, owned) then OpensLegacy
            else Fails(SignatureFails)
  {
    hide KeyPathSighash, Ascii;
  }

  ghost function OwnershipInputs(env: Env, key: Digest, home: string, domain: string): set<bytes>
    requires env.domainOf(home).Some? && env.domainOf(domain).Some?
  {
    SighashInputs(env.sha, KeyPathClaim(key, env.domainOf(home).value))
    + SighashInputs(env.sha, KeyPathClaim(key, env.domainOf(domain).value))
    + {Ascii(LEGACY_OWNERSHIP_MESSAGE)}
  }

  /** The spend of a key at one domain is its spend at another exactly when
      the two are one, and is never a legacy message. */
  lemma OwnedAtIff(env: Env, key: Digest, home: string, domain: string)
    requires env.domainOf(home).Some? && env.domainOf(domain).Some?
    requires CollisionFree(env.sha, OwnershipInputs(env, key, home, domain))
    ensures var owned := KeyPathSighash(env.sha, key, env.domainOf(home).value);
            && (OwnedAt(env, key, owned, domain)
                <==> LowerBytes(env.domainOf(home).value) == LowerBytes(env.domainOf(domain).value))
            && !IsLegacyOwnership(env.sha, owned)
  {
    var a, b := KeyPathClaim(key, env.domainOf(home).value), KeyPathClaim(key, env.domainOf(domain).value);
    hide LowerBytes, Ascii, ClaimInputs, SigMsg;
    SighashBinds(env.sha, a, b);
    NoLegacySighash(env.sha, OwnershipInputs(env, key, home, domain), a);
  }

  lemma NoLegacySighash(sha: Sha256, inputs: set<bytes>, c: Claim)
    requires CollisionFree(sha, inputs) && SighashInputs(sha, c) <= inputs && Ascii(LEGACY_OWNERSHIP_MESSAGE) in inputs
    ensures !IsLegacyOwnership(sha, Sighash(sha, c))
  {
    hide SigMsg, ClaimInputs, Ascii, CollisionFree;
    var legacy, hashed := Ascii(LEGACY_OWNERSHIP_MESSAGE), TagPrefix(sha, "TapSighash") + ([0x00] + SigMsg(sha, c));
    assert |legacy| == 9 && |hashed| > 64;
    if sha(legacy) == sha(hashed) {
      NoCollision(sha, inputs, legacy, hashed);
    }
  }

  // ---- the other spellings of a key ----

  lemma CkEncodingReads(env: Env, payload: bytes)
    requires env.codec.Valid() && |payload| <= 96
    ensures var value := env.codec.Encode("ck", payload);
            && Trim(value) == value && Hex32(value).None? && env.codec.Decode("ck", value) == Some(payload)
            && env.codec.Decode("cw", value).None?
  {
    assert IsPrefix("ck");
    env.codec.EncodedShape("ck", payload);
    env.codec.RoundTrip("ck", payload);
    env.codec.OtherPrefix("ck", "cw", payload);
    hide Trim, Lower, Codec.Valid;
    assert env.codec.Encode("ck", payload)[1] == 'k';
    assert !IsHexDigit('k');
  }

  /** A `ck1` is read by its length: 96 bytes are a key that must be a point and
      a signature, 65 the recoverable shape, which opens whatever key it
      recovers to, at every domain, as legacy; anything else is no spend. */
  lemma Ck1IsReadByLength(env: Env, payload: bytes, domain: string)
    requires env.codec.Valid() && |payload| <= 96
    ensures var ck1 := env.codec.Encode("ck", payload);
            && (|payload| == 96 ==>
                  DecodeSpend(env, ck1) ==
                  if env.g.lift(payload[..32]).Some? then Some(KeyPath(payload[..32], payload[32..])) else None)
            && (|payload| == 65 ==>
                  var key := env.legacyKey(payload);
                  && DecodeSpend(env, ck1) == (if key.Some? then Some(LegacyKeyPath(key.value)) else None)
                  && CheckSpend(env, ck1, domain) ==
                     if key.Some? then Some(SpendCheck(key.value, OpensLegacy)) else None)
            && (|payload| != 96 && |payload| != 65 ==> DecodeSpend(env, ck1) == None)
  {
    CkEncodingReads(env, payload);
    hide Hex32, Trim, Codec.Valid, Codec.Decode;
  }

  /** What names a note to mint to: a `cp1` whose key is a point, or the hash of
      a bearer note that tweaks. */
  lemma OutputsNameNotes(env: Env, key: Digest)
    requires env.codec.Valid()
    ensures DecodeNote(env, env.codec.Encode("cp", key)) == if env.g.lift(key).Some? then Some(key) else None
    ensures var note := BearerNoteOf(env, key);
            DecodeNote(env, HexEncode(key)) == if note.Some? then Some(note.value.outputKey) else None
  {
    assert IsPrefix("cp");
    env.codec.EncodedShape("cp", key);
    env.codec.RoundTrip("cp", key);
    Hex32OfEncoded(key);
    hide Trim, Lower, BearerNoteOf, HexEncode, Codec.Valid;
    assert env.codec.Encode("cp", key)[1] == 'p';
    assert !IsHexDigit('p');
  }

  /** Every verdict on a script spend: refused by the leaf rules, a hashlock
      that its one item opens or does not, or another script, left to the mint. */
  lemma ScriptVerdicts(env: Env, cw1: ScriptSpend)
    requires cw1.controlBlock != []
    ensures var verdict, refusal := ScriptPathVerdict(env, cw1), T.CheckLeaf(cw1.controlBlock[0], cw1.script);
            && (refusal.Some? ==> verdict == Fails(LeafRefused(refusal.value)))
            && (refusal.None? ==>
                  && (verdict == Unevaluated <==> forall h: Digest :: cw1.script != BearerLeaf(h))
                  && (verdict == Fails(WitnessFails) <==>
                        (exists h: Digest :: cw1.script == BearerLeaf(h)) && verdict != Opens))
  {
    hide BearerLeaf, BearerHashOfLeaf;
    if BearerHashOfLeaf(cw1.script).Some? { LeafOfBearerHash(cw1.script); }
    forall h: Digest | cw1.script == BearerLeaf(h) ensures BearerHashOfLeaf(cw1.script) == Some(h) {
      BearerLeafHash(h);
    }
  }

  // ---- the bearer hash a spend names ----

  /** `Spend::bearer_hash`. */
  function BearerHashOf(env: Env, spend: Spend): Option<Digest> {
    if !spend.ScriptPath? then None
    else
      var h :- BearerHashOfLeaf(spend.cw1.script);
      var note :- BearerNoteOf(env, h);
      if note.outputKey == spend.key then Some(h) else None
  }

  /** A spend names a bearer hash exactly when it is a script spend of that
      hash's own leaf and its `Q` is that hash's own note. */
  lemma BearerHashIff(env: Env, spend: Spend, h: Digest)
    ensures BearerHashOf(env, spend) == Some(h) <==>
            && spend.ScriptPath? && spend.cw1.script == BearerLeaf(h)
            && BearerNoteOf(env, h).Some? && BearerNoteOf(env, h).value.outputKey == spend.key
  {
    hide BearerLeaf, BearerHashOfLeaf, BearerNoteOf;
    BearerLeafHash(h);
    if spend.ScriptPath? && BearerHashOfLeaf(spend.cw1.script).Some? { LeafOfBearerHash(spend.cw1.script); }
  }

  /** A preimage's spend names its own hash. */
  lemma PreimageNamesItsHash(env: Env, k1: string, preimage: Digest)
    requires Hex32(k1) == Some(preimage) && BearerNoteOf(env, env.sha(preimage)).Some?
    ensures DecodeSpend(env, k1).Some?
    ensures BearerHashOf(env, DecodeSpend(env, k1).value) == Some(env.sha(preimage))
  {
    BearerNamesItsKey(env, env.sha(preimage));
    BearerLeafHash(env.sha(preimage));
    TrimIdempotent(k1);
    assert Hex32(Trim(k1)) == Some(preimage);
    hide Hex32, Trim, TaprootTweak, OutputKey, BearerHashOfLeaf, BearerLeaf;
  }
}
