// What a spend's signature signs (src/spend.rs): the BIP-341 message of the
// canonical transaction, and what it binds.

module SpendMessage {
  import opened Wrappers
  import opened Bytes
  import opened Hashing
  import opened Taproot

  const KEY_PATH_LOCKTIME: u32 := 0
  const KEY_PATH_SEQUENCE: u32 := 0xffff_ffff

  /** Everything a spend commits to. A leaf makes it a script path. */
  datatype Claim = Claim(outputKey: Digest, domain: bytes, locktime: u32, sequence: u32, leaf: Option<bytes>)

  function LowerByte(b: byte): byte {
    if 65 <= b <= 90 then b + 32 else b
  }

  /** `to_ascii_lowercase` over a domain's bytes. */
  function LowerBytes(s: bytes): (r: bytes)
    ensures |r| == |s|
    ensures forall i | 0 <= i < |s| :: r[i] as int == s[i] as int + if 0x41 <= s[i] <= 0x5a then 0x20 else 0
  {
    if s == [] then [] else [LowerByte(s[0])] + LowerBytes(s[1..])
  }

  function Prevout(sha: Sha256, domain: bytes): Digest {
    Tagged(sha, "LNURLcash/mint", LowerBytes(domain))
  }

  function Outpoint(sha: Sha256, domain: bytes): bytes {
    Prevout(sha, domain) + LittleEndian(0, 4)
  }

  /** The length-prefixed `OP_1 <Q>`. */
  function SpentScript(outputKey: Digest): bytes {
    [34, 0x51, 0x20] + outputKey
  }

  /** BIP-341's fields, every one of a fixed width. */
  function BaseFields(sha: Sha256, c: Claim): (f: seq<bytes>)
    ensures |f| == 10
  {
    [[0x00], LittleEndian(2, 4), LittleEndian(c.locktime, 4),
     sha(Outpoint(sha, c.domain)), sha(LittleEndian(0, 8)), sha(SpentScript(c.outputKey)),
     sha(LittleEndian(c.sequence, 4)), sha(seq(9, _ => 0)),
     [if c.leaf.Some? then 0x02 else 0x00], LittleEndian(0, 4)]
  }

  /** BIP-342's extension, for a script path. */
  function ExtensionFields(sha: Sha256, leaf: bytes): (f: seq<bytes>)
    ensures |f| == 3
  {
    [TapleafHash(sha, leaf, TAPLEAF_VERSION), [0x00], LittleEndian(0xffff_ffff, 4)]
  }

  /** The message a claim's signature signs. */
  function SigMsg(sha: Sha256, c: Claim): bytes {
    Concat(BaseFields(sha, c)) + if c.leaf.Some? then Concat(ExtensionFields(sha, c.leaf.value)) else []
  }

  lemma FieldsAre(sha: Sha256, c: Claim)
    ensures var f := BaseFields(sha, c);
            && f[0] == [0x00] && f[1] == LittleEndian(2, 4) && f[2] == LittleEndian(c.locktime, 4)
            && f[3] == sha(Outpoint(sha, c.domain)) && f[4] == sha(LittleEndian(0, 8))
            && f[5] == sha(SpentScript(c.outputKey))
            && f[6] == sha(LittleEndian(c.sequence, 4)) && f[7] == sha(seq(9, _ => 0))
            && f[8] == [if c.leaf.Some? then 0x02 else 0x00] && f[9] == LittleEndian(0, 4)
  {
    hide LittleEndian, Outpoint, SpentScript;
  }

  /** BIP-341's offsets: where each field starts. */
  lemma BaseOffsets(sha: Sha256, c: Claim)
    ensures var f := BaseFields(sha, c);
            && |Concat(f[..0])| == 0 && |Concat(f[..1])| == 1 && |Concat(f[..2])| == 5 && |Concat(f[..3])| == 9
            && |Concat(f[..4])| == 41 && |Concat(f[..5])| == 73 && |Concat(f[..6])| == 105 && |Concat(f[..7])| == 137
            && |Concat(f[..8])| == 169 && |Concat(f[..9])| == 170 && |Concat(f)| == 174
  {
    hide LittleEndian, Outpoint, SpentScript;
    var f := BaseFields(sha, c);
    assert f[..10] == f && Concat(f[..0]) == [];
    hide Concat;
    ConcatTake(f, 0);
    ConcatTake(f, 1);
    ConcatTake(f, 2);
    ConcatTake(f, 3);
    ConcatTake(f, 4);
    ConcatTake(f, 5);
    ConcatTake(f, 6);
    ConcatTake(f, 7);
    ConcatTake(f, 8);
    ConcatTake(f, 9);
  }

  lemma ExtensionOffsets(sha: Sha256, leaf: bytes)
    ensures var f := ExtensionFields(sha, leaf);
            |Concat(f[..0])| == 0 && |Concat(f[..1])| == 32 && |Concat(f[..2])| == 33 && |Concat(f)| == 37
  {
    hide LittleEndian;
    var f := ExtensionFields(sha, leaf);
    assert f[..3] == f && Concat(f[..0]) == [];
    hide Concat;
    ConcatTake(f, 0);
    ConcatTake(f, 1);
    ConcatTake(f, 2);
  }

  /** 174 bytes for a key path and 211 for a script path, so no message is both. */
  lemma MessageLength(sha: Sha256, c: Claim)
    ensures |SigMsg(sha, c)| == if c.leaf.Some? then 211 else 174
  {
    BaseOffsets(sha, c);
    if c.leaf.Some? { ExtensionOffsets(sha, c.leaf.value); }
  }

  lemma FieldAt(f: seq<bytes>, k: nat)
    requires k < |f|
    ensures var start := |Concat(f[..k])|;
            start + |f[k]| <= |Concat(f)| && Concat(f)[start..start + |f[k]|] == f[k]
    decreases |f|
  {
    var last := |f| - 1;
    if k < last {
      FieldAt(f[..last], k);
      assert f[..last][..k] == f[..k];
      var start := |Concat(f[..k])|;
      assert Concat(f) == Concat(f[..last]) + f[last];
      assert Concat(f)[start..start + |f[k]|] == Concat(f[..last])[start..start + |f[k]|];
    } else {
      assert f[..k] == f[..last];
    }
  }

  /** `spend_sig_msg`, growing the message field by field. */
  method SpendSigMsg(sha: Sha256, outputKey: Digest, domain: bytes, locktime: u32, sequence: u32, leaf: Option<bytes>)
    returns (msg: bytes)
    ensures msg == SigMsg(sha, Claim(outputKey, domain, locktime, sequence, leaf))
  {
    hide LittleEndian, Tagged, LowerBytes;
    ghost var f := BaseFields(sha, Claim(outputKey, domain, locktime, sequence, leaf));
    var scriptPubkey: bytes := [0x51, 0x20];
    scriptPubkey := scriptPubkey + outputKey;
    var outpoint: bytes := Prevout(sha, domain);
    outpoint := outpoint + LittleEndian(0, 4);
    var prefixed: bytes := [34] + scriptPubkey;
    assert prefixed == SpentScript(outputKey);
    hide SpentScript;
    FieldsAre(sha, Claim(outputKey, domain, locktime, sequence, leaf));
    assert f[..10] == f && Concat(f[..0]) == [];
    hide Concat, BaseFields;
    msg := [];
    msg := Push(msg, [0x00], f, 0);
    msg := Push(msg, LittleEndian(2, 4), f, 1);
    msg := Push(msg, LittleEndian(locktime, 4), f, 2);
    msg := Push(msg, sha(outpoint), f, 3);
    msg := Push(msg, sha(LittleEndian(0, 8)), f, 4);
    msg := Push(msg, sha(prefixed), f, 5);
    msg := Push(msg, sha(LittleEndian(sequence, 4)), f, 6);
    msg := Push(msg, sha(seq(9, _ => 0)), f, 7);
    msg := Push(msg, [if leaf.Some? then 0x02 else 0x00], f, 8);
    msg := Push(msg, LittleEndian(0, 4), f, 9);
    if leaf.Some? {
      var extension := GrowExtension(sha, leaf.value);
      msg := msg + extension;
    } else {
      assert msg == msg + [];
    }
  }

  method GrowExtension(sha: Sha256, leaf: bytes) returns (extension: bytes)
    ensures extension == Concat(ExtensionFields(sha, leaf))
  {
    hide LittleEndian;
    ghost var f := ExtensionFields(sha, leaf);
    assert f[..3] == f && Concat(f[..0]) == [];
    extension := [];
    extension := Push(extension, TapleafHash(sha, leaf, TAPLEAF_VERSION), f, 0);
    extension := Push(extension, [0x00], f, 1);
    extension := Push(extension, LittleEndian(0xffff_ffff, 4), f, 2);
  }

  /** `extend_from_slice` of the next field. */
  method Push(msg: bytes, field: bytes, ghost fields: seq<bytes>, ghost k: nat) returns (longer: bytes)
    requires k < |fields| && msg == Concat(fields[..k]) && field == fields[k]
    ensures longer == Concat(fields[..k + 1])
  {
    ConcatTake(fields, k);
    longer := msg + field;
  }

  /** The message at BIP-341's and BIP-342's offsets. */
  lemma MessageLayout(sha: Sha256, c: Claim)
    ensures |SigMsg(sha, c)| == if c.leaf.Some? then 211 else 174
    ensures var m := SigMsg(sha, c);
            && m[0..1] == [0x00] && m[1..5] == LittleEndian(2, 4) && m[5..9] == LittleEndian(c.locktime, 4)
            && m[9..41] == sha(Outpoint(sha, c.domain)) && m[41..73] == sha(LittleEndian(0, 8))
            && m[73..105] == sha(SpentScript(c.outputKey)) && m[105..137] == sha(LittleEndian(c.sequence, 4))
            && m[137..169] == sha(seq(9, _ => 0)) && m[169..170] == [if c.leaf.Some? then 0x02 else 0x00]
            && m[170..174] == LittleEndian(0, 4)
            && (c.leaf.Some? ==>
                  && m[174..206] == TapleafHash(sha, c.leaf.value, TAPLEAF_VERSION)
                  && m[206..207] == [0x00] && m[207..211] == LittleEndian(0xffff_ffff, 4))
  {
    MessageLength(sha, c);
    BaseOffsets(sha, c);
    hide LittleEndian, Outpoint, SpentScript, Concat;
    var f, m := BaseFields(sha, c), SigMsg(sha, c);
    forall k: nat | k < 10
      ensures var start := |Concat(f[..k])|; start + |f[k]| <= 174 && m[start..start + |f[k]|] == f[k]
    {
      FieldAt(f, k);
      var start := |Concat(f[..k])|;
      assert m[start..start + |f[k]|] == Concat(f)[start..start + |f[k]|];
    }
    if c.leaf.Some? {
      var g := ExtensionFields(sha, c.leaf.value);
      ExtensionOffsets(sha, c.leaf.value);
      FieldAt(g, 0);
      FieldAt(g, 1);
      FieldAt(g, 2);
      assert m[174..206] == Concat(g)[0..32] && m[206..207] == Concat(g)[32..33] && m[207..211] == Concat(g)[33..37];
    }
  }

  lemma ConstantFields()
    ensures LittleEndian(0, 4) == [0, 0, 0, 0] && LittleEndian(2, 4) == [2, 0, 0, 0]
    ensures LittleEndian(0xffff_ffff, 4) == [255, 255, 255, 255]
    ensures LittleEndian(0, 8) == [0, 0, 0, 0, 0, 0, 0, 0]
    ensures seq<byte>(9, _ => 0) == [0, 0, 0, 0, 0, 0, 0, 0, 0]
  {
    assert LittleEndian(0, 4) == [0] + LittleEndian(0, 3) && LittleEndian(0, 3) == [0] + LittleEndian(0, 2);
    assert LittleEndian(0, 8) == [0] + ([0] + ([0] + ([0] + LittleEndian(0, 4))));
    assert LittleEndian(2, 4) == [2] + LittleEndian(0, 3);
    assert LittleEndian(0xffff_ffff, 4) == [255] + LittleEndian(0xff_ffff, 3);
    assert LittleEndian(0xff_ffff, 3) == [255] + LittleEndian(0xffff, 2);
  }

  /** The same in bytes: what is constant, what each hash is of, and how the
      two times are spelled. */
  lemma MessageInBytes(sha: Sha256, c: Claim)
    ensures var m := SigMsg(sha, c);
            var tag: bytes := sha(Ascii("LNURLcash/mint"));
            var prevout: bytes := sha(tag + tag + LowerBytes(c.domain));
            var sequence := LittleEndian(c.sequence, 4);
            && |m| == (if c.leaf.Some? then 211 else 174)
            && m[0..5] == [0, 2, 0, 0, 0] && FromLittleEndian(m[5..9]) == c.locktime
            && m[9..41] == sha(prevout + [0, 0, 0, 0]) && m[41..73] == sha([0, 0, 0, 0, 0, 0, 0, 0])
            && m[73..105] == sha([34, 0x51, 0x20] + c.outputKey)
            && m[105..137] == sha(sequence) && FromLittleEndian(sequence) == c.sequence
            && m[137..169] == sha([0, 0, 0, 0, 0, 0, 0, 0, 0])
            && m[169..174] == [if c.leaf.Some? then 2 else 0, 0, 0, 0, 0]
            && (c.leaf.Some? ==>
                  m[174..206] == TapleafHash(sha, c.leaf.value, 0xc0) && m[206..211] == [0, 255, 255, 255, 255])
  {
    hide LittleEndian, FromLittleEndian, Ascii, LowerBytes, SigMsg, TapleafHash;
    MessageLayout(sha, c);
    ConstantFields();
    Pow256Values();
    LittleEndianRoundTrip(c.locktime, 4);
    LittleEndianRoundTrip(c.sequence, 4);
    var m := SigMsg(sha, c);
    assert m[0..5] == m[0..1] + m[1..5] && m[169..174] == m[169..170] + m[170..174];
    if c.leaf.Some? { assert m[206..211] == m[206..207] + m[207..211]; }
    var tag: bytes := sha(Ascii("LNURLcash/mint"));
    assert Outpoint(sha, c.domain) == sha(tag + tag + LowerBytes(c.domain)) + [0, 0, 0, 0];
  }

  // ---- binding ----

  /** Everything the message of a claim feeds to SHA-256 that depends on it. */
  ghost function ClaimInputs(sha: Sha256, c: Claim): set<bytes> {
    {Outpoint(sha, c.domain), SpentScript(c.outputKey), LittleEndian(c.sequence, 4)}
    + TaggedInputs(sha, "LNURLcash/mint", LowerBytes(c.domain))
    + (if c.leaf.Some? then TaggedInputs(sha, "TapLeaf", LeafMessage(TAPLEAF_VERSION, c.leaf.value)) else {})
  }

  predicate LeafFits(c: Claim) {
    c.leaf.Some? ==> |c.leaf.value| < MAX_LENGTH
  }

  /** Two claims agree on everything a signature is meant to bind. */
  predicate SameSpend(a: Claim, b: Claim) {
    && a.outputKey == b.outputKey && LowerBytes(a.domain) == LowerBytes(b.domain)
    && a.locktime == b.locktime && a.sequence == b.sequence && a.leaf == b.leaf
  }

  lemma LeafBinds(sha: Sha256, inputs: set<bytes>, a: bytes, b: bytes)
    requires CollisionFree(sha, inputs) && |a| < MAX_LENGTH && |b| < MAX_LENGTH
    requires TaggedInputs(sha, "TapLeaf", LeafMessage(TAPLEAF_VERSION, a)) <= inputs
    requires TaggedInputs(sha, "TapLeaf", LeafMessage(TAPLEAF_VERSION, b)) <= inputs
    requires TapleafHash(sha, a, TAPLEAF_VERSION) == TapleafHash(sha, b, TAPLEAF_VERSION)
    ensures a == b
  {
    TaggedBinds(sha, inputs, "TapLeaf", LeafMessage(TAPLEAF_VERSION, a), "TapLeaf", LeafMessage(TAPLEAF_VERSION, b));
    LeafMessageInjective(TAPLEAF_VERSION, a, TAPLEAF_VERSION, b);
  }

  lemma SameBaseFields(sha: Sha256, a: Claim, b: Claim)
    requires Concat(BaseFields(sha, a)) == Concat(BaseFields(sha, b))
    ensures LittleEndian(a.locktime, 4) == LittleEndian(b.locktime, 4)
    ensures sha(Outpoint(sha, a.domain)) == sha(Outpoint(sha, b.domain))
    ensures sha(SpentScript(a.outputKey)) == sha(SpentScript(b.outputKey))
    ensures sha(LittleEndian(a.sequence, 4)) == sha(LittleEndian(b.sequence, 4))
  {
    hide LittleEndian, Outpoint, SpentScript;
    var f, g := BaseFields(sha, a), BaseFields(sha, b);
    ConcatInjective(f, g);
    assert f[2] == g[2] && f[3] == g[3] && f[5] == g[5] && f[6] == g[6];
  }

  lemma SameExtension(sha: Sha256, a: bytes, b: bytes)
    requires Concat(ExtensionFields(sha, a)) == Concat(ExtensionFields(sha, b))
    ensures TapleafHash(sha, a, TAPLEAF_VERSION) == TapleafHash(sha, b, TAPLEAF_VERSION)
  {
    var f, g := ExtensionFields(sha, a), ExtensionFields(sha, b);
    ConcatInjective(f, g);
    assert f[0] == g[0];
  }

  /** Equal messages have equal bases and equal extensions. */
  lemma EqualMessages(sha: Sha256, a: Claim, b: Claim)
    requires SigMsg(sha, a) == SigMsg(sha, b)
    ensures a.leaf.Some? == b.leaf.Some?
    ensures Concat(BaseFields(sha, a)) == Concat(BaseFields(sha, b))
    ensures a.leaf.Some? ==>
              Concat(ExtensionFields(sha, a.leaf.value)) == Concat(ExtensionFields(sha, b.leaf.value))
  {
    MessageLength(sha, a);
    MessageLength(sha, b);
    BaseOffsets(sha, a);
    BaseOffsets(sha, b);
    SplitConcat(Concat(BaseFields(sha, a)), if a.leaf.Some? then Concat(ExtensionFields(sha, a.leaf.value)) else [],
                Concat(BaseFields(sha, b)), if b.leaf.Some? then Concat(ExtensionFields(sha, b.leaf.value)) else []);
  }

  lemma DomainBinds(sha: Sha256, inputs: set<bytes>, a: bytes, b: bytes)
    requires CollisionFree(sha, inputs)
    requires {Outpoint(sha, a), Outpoint(sha, b)} <= inputs
    requires TaggedInputs(sha, "LNURLcash/mint", LowerBytes(a)) <= inputs
    requires TaggedInputs(sha, "LNURLcash/mint", LowerBytes(b)) <= inputs
    requires sha(Outpoint(sha, a)) == sha(Outpoint(sha, b))
    ensures LowerBytes(a) == LowerBytes(b)
  {
    hide LittleEndian, LowerBytes, CollisionFree;
    NoCollision(sha, inputs, Outpoint(sha, a), Outpoint(sha, b));
    SplitConcat(Prevout(sha, a), LittleEndian(0, 4), Prevout(sha, b), LittleEndian(0, 4));
    TaggedBinds(sha, inputs, "LNURLcash/mint", LowerBytes(a), "LNURLcash/mint", LowerBytes(b));
  }

  lemma KeyBinds(sha: Sha256, inputs: set<bytes>, a: Digest, b: Digest)
    requires CollisionFree(sha, inputs) && SpentScript(a) in inputs && SpentScript(b) in inputs
    requires sha(SpentScript(a)) == sha(SpentScript(b))
    ensures a == b
  {
    NoCollision(sha, inputs, SpentScript(a), SpentScript(b));
    SplitConcat([34, 0x51, 0x20], a, [34, 0x51, 0x20], b);
  }

  lemma SequenceBinds(sha: Sha256, inputs: set<bytes>, a: u32, b: u32)
    requires CollisionFree(sha, inputs) && LittleEndian(a, 4) in inputs && LittleEndian(b, 4) in inputs
    requires sha(LittleEndian(a, 4)) == sha(LittleEndian(b, 4))
    ensures a == b
  {
    hide LittleEndian;
    NoCollision(sha, inputs, LittleEndian(a, 4), LittleEndian(b, 4));
    Pow256Values();
    LittleEndianInjective(a, b, 4);
  }

  lemma FieldsBind(sha: Sha256, inputs: set<bytes>, a: Claim, b: Claim)
    requires CollisionFree(sha, inputs) && ClaimInputs(sha, a) <= inputs && ClaimInputs(sha, b) <= inputs
    requires LittleEndian(a.locktime, 4) == LittleEndian(b.locktime, 4)
    requires sha(Outpoint(sha, a.domain)) == sha(Outpoint(sha, b.domain))
    requires sha(SpentScript(a.outputKey)) == sha(SpentScript(b.outputKey))
    requires sha(LittleEndian(a.sequence, 4)) == sha(LittleEndian(b.sequence, 4))
    ensures a.outputKey == b.outputKey && LowerBytes(a.domain) == LowerBytes(b.domain)
    ensures a.locktime == b.locktime && a.sequence == b.sequence
  {
    hide LittleEndian, LowerBytes, CollisionFree, TaggedInputs, Outpoint, SpentScript, LeafMessage;
    Pow256Values();
    LittleEndianInjective(a.locktime, b.locktime, 4);
    DomainBinds(sha, inputs, a.domain, b.domain);
    KeyBinds(sha, inputs, a.outputKey, b.outputKey);
    SequenceBinds(sha, inputs, a.sequence, b.sequence);
  }

  /** A message determines the note, the mint, the time claim and the leaf:
      two are equal exactly for the same spend. Key-path and script-path
      messages are never equal, whatever collides. */
  lemma MessageBinds(sha: Sha256, inputs: set<bytes>, a: Claim, b: Claim)
    requires LeafFits(a) && LeafFits(b)
    requires CollisionFree(sha, inputs) && ClaimInputs(sha, a) <= inputs && ClaimInputs(sha, b) <= inputs
    ensures SigMsg(sha, a) == SigMsg(sha, b) <==> SameSpend(a, b)
  {
    if SigMsg(sha, a) == SigMsg(sha, b) {
      EqualMessages(sha, a, b);
      SameBaseFields(sha, a, b);
      FieldsBind(sha, inputs, a, b);
      if a.leaf.Some? {
        SameExtension(sha, a.leaf.value, b.leaf.value);
        LeafBinds(sha, inputs, a.leaf.value, b.leaf.value);
      }
    }
  }

  // ---- sighashes ----

  function Sighash(sha: Sha256, c: Claim): Digest {
    Tagged(sha, "TapSighash", [0x00] + SigMsg(sha, c))
  }

  function KeyPathClaim(outputKey: Digest, domain: bytes): Claim {
    Claim(outputKey, domain, KEY_PATH_LOCKTIME, KEY_PATH_SEQUENCE, None)
  }

  function KeyPathSighash(sha: Sha256, outputKey: Digest, domain: bytes): Digest {
    Sighash(sha, KeyPathClaim(outputKey, domain))
  }

  /** A sighash is the message behind the tag, twice, and BIP-341's zero epoch;
      a key path claims no time. */
  lemma SighashIsTagged(sha: Sha256, c: Claim, outputKey: Digest, domain: bytes)
    ensures var tag: bytes := sha(Ascii("TapSighash"));
            Sighash(sha, c) == sha(tag + tag + [0x00] + SigMsg(sha, c))
    ensures KeyPathSighash(sha, outputKey, domain) == Sighash(sha, Claim(outputKey, domain, 0, 0xffff_ffff, None))
  {
    hide Ascii, SigMsg;
    var tag: bytes := sha(Ascii("TapSighash"));
    assert tag + tag + ([0x00] + SigMsg(sha, c)) == tag + tag + [0x00] + SigMsg(sha, c);
  }

  ghost function SighashInputs(sha: Sha256, c: Claim): set<bytes> {
    ClaimInputs(sha, c) + TaggedInputs(sha, "TapSighash", [0x00] + SigMsg(sha, c))
  }

  /** Two sighashes are equal exactly for the same spend, so a signature over
      one signs no other note, mint, time or leaf. */
  lemma SighashBinds(sha: Sha256, a: Claim, b: Claim)
    requires LeafFits(a) && LeafFits(b)
    requires CollisionFree(sha, SighashInputs(sha, a) + SighashInputs(sha, b))
    ensures Sighash(sha, a) == Sighash(sha, b) <==> SameSpend(a, b)
  {
    var inputs := SighashInputs(sha, a) + SighashInputs(sha, b);
    MessageBinds(sha, inputs, a, b);
    if Sighash(sha, a) == Sighash(sha, b) {
      TaggedBinds(sha, inputs, "TapSighash", [0x00] + SigMsg(sha, a), "TapSighash", [0x00] + SigMsg(sha, b));
      SplitConcat([0x00], SigMsg(sha, a), [0x00], SigMsg(sha, b));
    }
  }
}
