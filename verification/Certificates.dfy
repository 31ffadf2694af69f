// LUD-25 certificates (src/signature.rs): the messages a SERVICE signs, how a
// certificate's bytes are read, and which message a check reports.

module Certificates {
  import opened Wrappers
  import opened Text
  import opened Bytes
  import opened Hashing
  import opened Bech32
  import opened Amounts

  /** Everything outside the model: SHA-256, bech32m, the host of a URL, and
      whether an ECDSA signature recovers to a mint's key over a digest. */
  datatype Env = Env(
    sha: Sha256, codec: Codec,
    domainOf: string -> Option<bytes>,
    recovers: (Digest, bytes, byte, string) -> bool
  )

  const COLON: byte := 58
  const DOMAIN_TAG: bytes := Ascii("LNURLcash")

  // ---- messages ----

  function IdBytes(id: string): bytes {
    Ascii(Lower(Trim(id)))
  }

  /** `<amount>:<id>`, how every message ends. */
  function Ending(amount: nat, id: string): bytes {
    Ascii(Decimal(amount)) + ([COLON] + IdBytes(id))
  }

  /** `LNURLcash:<domain>:<amount>:<id>`. */
  function Message(domain: bytes, amount: nat, id: string): bytes {
    (DOMAIN_TAG + ([COLON] + domain)) + ([COLON] + Ending(amount, id))
  }

  /** `LNURLcash:<amount>:<id>`, read and never written. */
  function LegacyMessage(amount: nat, id: string): bytes {
    DOMAIN_TAG + ([COLON] + Ending(amount, id))
  }

  /** `is_hex_id` of a trimmed id. */
  predicate IsHexId(id: string) {
    var t := Trim(id);
    |t| == 64 && forall i | 0 <= i < |t| :: IsHexDigit(t[i])
  }

  predicate IsAscii(s: string) {
    forall i | 0 <= i < |s| :: (s[i] as int) < 128
  }

  lemma {:induction false} AsciiBytes(s: string)
    requires IsAscii(s)
    ensures forall i | 0 <= i < |s| :: Ascii(s)[i] == s[i] as int
  {
    if s != [] {
      AsciiBytes(s[1..]);
      assert forall i | 0 < i < |s| :: Ascii(s)[i] == Ascii(s[1..])[i - 1];
    }
  }

  lemma AsciiInjective(s: string, t: string)
    requires IsAscii(s) && IsAscii(t) && Ascii(s) == Ascii(t)
    ensures s == t
  {
    AsciiBytes(s);
    AsciiBytes(t);
    assert |s| == |t|;
    forall i | 0 <= i < |s| ensures s[i] == t[i] {
      assert s[i] as int == t[i] as int;
    }
  }

  lemma DecimalBytes(n: nat)
    ensures IsAscii(Decimal(n)) && COLON !in Ascii(Decimal(n))
  {
    AsciiBytes(Decimal(n));
  }

  lemma HexIdBytes(id: string)
    requires IsHexId(id)
    ensures IsAscii(Lower(Trim(id))) && |IdBytes(id)| == 64
  {
  }

  /** The last colon is where the digits begin. */
  lemma SplitAtLastColon(a: bytes, d: bytes, b: bytes, e: bytes)
    requires a + ([COLON] + d) == b + ([COLON] + e)
    requires COLON !in d && COLON !in e
    ensures a == b && d == e
  {
    var s := a + ([COLON] + d);
    assert s[|a|] == COLON && s[|b|] == COLON;
    assert forall i | |a| < i < |s| :: s[i] == d[i - |a| - 1];
    assert forall i | |b| < i < |s| :: s[i] == e[i - |b| - 1];
    assert |a| == |b|;
    SplitConcat(a, [COLON] + d, b, [COLON] + e);
    SplitConcat([COLON], d, [COLON], e);
  }

  /** What precedes an ending, the amount and the id are all determined. */
  lemma EndingDetermines(p: bytes, amount: nat, id: string, q: bytes, amount': nat, id': string)
    requires IsHexId(id) && IsHexId(id')
    requires p + ([COLON] + Ending(amount, id)) == q + ([COLON] + Ending(amount', id'))
    ensures p == q && amount == amount' && Lower(Trim(id)) == Lower(Trim(id'))
  {
    HexIdBytes(id);
    HexIdBytes(id');
    DecimalBytes(amount);
    DecimalBytes(amount');
    hide Decimal, Lower, Trim, Ascii;
    var d, e := Ascii(Decimal(amount)), Ascii(Decimal(amount'));
    assert p + ([COLON] + Ending(amount, id)) == (p + ([COLON] + d)) + ([COLON] + IdBytes(id));
    assert q + ([COLON] + Ending(amount', id')) == (q + ([COLON] + e)) + ([COLON] + IdBytes(id'));
    SplitConcat(p + ([COLON] + d), [COLON] + IdBytes(id), q + ([COLON] + e), [COLON] + IdBytes(id'));
    SplitConcat([COLON], IdBytes(id), [COLON], IdBytes(id'));
    SplitAtLastColon(p, d, q, e);
    AsciiInjective(Decimal(amount), Decimal(amount'));
    DecimalInjective(amount, amount');
    AsciiInjective(Lower(Trim(id)), Lower(Trim(id')));
  }

  /** A current message determines its domain, amount and note, whatever
      colons the domain itself holds. */
  lemma MessageInjective(domain: bytes, amount: nat, id: string, domain': bytes, amount': nat, id': string)
    requires IsHexId(id) && IsHexId(id')
    ensures Message(domain, amount, id) == Message(domain', amount', id')
            <==> domain == domain' && amount == amount' && Lower(Trim(id)) == Lower(Trim(id'))
  {
    if Message(domain, amount, id) == Message(domain', amount', id') {
      EndingDetermines(DOMAIN_TAG + ([COLON] + domain), amount, id, DOMAIN_TAG + ([COLON] + domain'), amount', id');
      SplitConcat(DOMAIN_TAG, [COLON] + domain, DOMAIN_TAG, [COLON] + domain');
      SplitConcat([COLON], domain, [COLON], domain');
    }
  }

  lemma LegacyMessageInjective(amount: nat, id: string, amount': nat, id': string)
    requires IsHexId(id) && IsHexId(id')
    ensures LegacyMessage(amount, id) == LegacyMessage(amount', id')
            <==> amount == amount' && Lower(Trim(id)) == Lower(Trim(id'))
  {
    if LegacyMessage(amount, id) == LegacyMessage(amount', id') {
      EndingDetermines(DOMAIN_TAG, amount, id, DOMAIN_TAG, amount', id');
    }
  }

  /** No legacy message is a current one, at any domain. */
  lemma FamiliesDisjoint(domain: bytes, amount: nat, id: string, amount': nat, id': string)
    requires IsHexId(id) && IsHexId(id')
    ensures Message(domain, amount, id) != LegacyMessage(amount', id')
  {
    if Message(domain, amount, id) == LegacyMessage(amount', id') {
      EndingDetermines(DOMAIN_TAG + ([COLON] + domain), amount, id, DOMAIN_TAG, amount', id');
    }
  }

  lemma {:induction false} AsciiConcat(a: string, b: string)
    ensures Ascii(a + b) == Ascii(a) + Ascii(b)
  {
    if a == [] {
      assert a + b == b;
    } else {
      assert (a + b)[1..] == a[1..] + b;
      AsciiConcat(a[1..], b);
    }
  }

  lemma TagInBytes()
    ensures Ascii("LNURLcash:") == DOMAIN_TAG + [COLON] && Ascii(":") == [COLON]
  {
    AsciiBytes(":");
    hide Ascii;
    AsciiConcat("LNURLcash", ":");
    assert "LNURLcash" + ":" == "LNURLcash:";
  }

  /** The two messages as text: tag, domain in the current one alone, amount in
      decimal, id in lowercase, a colon between each. */
  lemma MessagesAsText(domain: bytes, amount: nat, id: string)
    ensures Message(domain, amount, id)
         == Ascii("LNURLcash:") + domain + Ascii(":" + Decimal(amount) + ":" + Lower(Trim(id)))
    ensures LegacyMessage(amount, id) == Ascii("LNURLcash:" + Decimal(amount) + ":" + Lower(Trim(id)))
  {
    hide Ascii, Decimal, Lower, Trim;
    var number, name := Decimal(amount), Lower(Trim(id));
    TagInBytes();
    AsciiConcat(":" + number, ":" + name);
    AsciiConcat(":", number);
    AsciiConcat(":", name);
    assert ":" + number + ":" + name == (":" + number) + (":" + name);
    assert Message(domain, amount, id)
        == (DOMAIN_TAG + [COLON]) + domain + (([COLON] + Ascii(number)) + ([COLON] + Ascii(name)));
    AsciiConcat("LNURLcash:", number);
    AsciiConcat("LNURLcash:" + number, ":" + name);
    assert "LNURLcash:" + number + ":" + name == ("LNURLcash:" + number) + (":" + name);
    assert LegacyMessage(amount, id)
        == (DOMAIN_TAG + [COLON]) + Ascii(number) + ([COLON] + Ascii(name));
  }

  // ---- digests ----

  const SIGNED_PREFIX: string := "Lightning Signed Message:"

  function SignedBytes(message: bytes): bytes {
    Ascii(SIGNED_PREFIX) + message
  }

  function LightningDigest(sha: Sha256, message: bytes): Digest {
    sha(sha(SignedBytes(message)))
  }

  // ---- a certificate's bytes ----

  function DecodeAnyCs1Bytes(codec: Codec, value: string): Option<bytes> {
    var fixed := codec.DecodeFixed(65, "cs", value);
    if fixed.Some? then fixed
    else
      var separator :- LastIndexOf(value, '1');
      var hrp := Lower(value[..separator]);
      if "cs" <= hrp then codec.decodeRaw(hrp, value) else None
  }

  function CertificateBytes(codec: Codec, signature: string, amount: nat, lenient: bool): (r: Option<bytes>)
    ensures r.Some? ==> |r.value| == 65
  {
    var trimmed := Trim(signature);
    var cs1 := DecodeCs1WithAmount(codec, trimmed);
    if cs1.Some? then (if cs1.value.amountMsat == amount then Some(cs1.value.signature) else None)
    else if !lenient then None
    else
      var any := DecodeAnyCs1Bytes(codec, trimmed);
      var found := if any.Some? then any else HexDecode(trimmed);
      if found.Some? && |found.value| == 65 then found else None
  }

  /** `recovers_to`: `r || s || id` always, `id || r || s` when asked. */
  predicate RecoversTo(env: Env, digest: Digest, signature: bytes, bothLayouts: bool, mint: string)
    requires |signature| == 65
  {
    env.recovers(digest, signature[..64], signature[64], mint)
    || (bothLayouts && env.recovers(digest, signature[1..65], signature[0], mint))
  }

  predicate VerifyCurrent(env: Env, id: string, domain: string, amount: nat, signature: string, mint: string) {
    var host := env.domainOf(domain);
    var cert := CertificateBytes(env.codec, signature, amount, false);
    IsHexId(id) && host.Some? && cert.Some?
    && RecoversTo(env, LightningDigest(env.sha, Message(host.value, amount, Trim(id))), cert.value, false, mint)
  }

  predicate VerifyLegacy(env: Env, id: string, amount: nat, signature: string, mint: string) {
    var cert := CertificateBytes(env.codec, signature, amount, true);
    IsHexId(id) && cert.Some?
    && RecoversTo(env, LightningDigest(env.sha, LegacyMessage(amount, Trim(id))), cert.value, true, mint)
  }

  datatype Over = OverOutputKey | OverLegacyOutputKey | OverLegacyHash

  function CertifiedOver(env: Env, key: Digest, bearerHash: Option<Digest>, domain: string, amount: nat,
                         signature: string, mint: string): Option<Over> {
    if VerifyCurrent(env, HexEncode(key), domain, amount, signature, mint) then Some(OverOutputKey)
    else if VerifyLegacy(env, HexEncode(key), amount, signature, mint) then Some(OverLegacyOutputKey)
    else if bearerHash.Some? && VerifyLegacy(env, HexEncode(bearerHash.value), amount, signature, mint) then
      Some(OverLegacyHash)
    else None
  }

  // ---- a certificate as issued ----

  /** What a Lightning node signs: two SHA-256s of the fixed words and the
      message after them. */
  lemma DigestIsDouble(sha: Sha256, message: bytes)
    ensures LightningDigest(sha, message) == sha(sha(Ascii("Lightning Signed Message:") + message))
  {
  }

  /** The recovery id is read last, and for a legacy message first as well. */
  lemma LayoutsRead(env: Env, d: Digest, rs: bytes, id: byte, mint: string)
    requires |rs| == 64
    ensures RecoversTo(env, d, rs + [id], false, mint) <==> env.recovers(d, rs, id, mint)
    ensures env.recovers(d, rs, id, mint) ==> RecoversTo(env, d, rs + [id], true, mint)
    ensures env.recovers(d, rs, id, mint) ==> RecoversTo(env, d, [id] + rs, true, mint)
    ensures RecoversTo(env, d, [id] + rs, true, mint) ==>
              env.recovers(d, rs, id, mint) || env.recovers(d, ([id] + rs)[..64], rs[63], mint)
  {
    assert (rs + [id])[..64] == rs && ([id] + rs)[1..65] == rs;
  }

  /** A current certificate as issued, `r || s || id` in an amount-bearing
      `cs1`, is reported as the key's own. */
  lemma CurrentAsIssued(env: Env, key: Digest, bearerHash: Option<Digest>, domain: string, host: bytes, amount: nat,
                        rs: bytes, id: byte, mint: string)
    requires env.codec.Valid() && amount <= U64_MAX && |rs| == 64 && id <= 3 && env.domainOf(domain) == Some(host)
    requires var text := Ascii("LNURLcash:") + host + Ascii(":" + Decimal(amount) + ":" + HexEncode(key));
             env.recovers(env.sha(env.sha(Ascii("Lightning Signed Message:") + text)), rs, id, mint)
    ensures CertifiedOver(env, key, bearerHash, domain, amount, EncodeCs1WithAmount(env.codec, amount, rs + [id]), mint)
         == Some(OverOutputKey)
  {
    hide Ascii, Decimal, HexEncode, Lower, Trim, Message, DecodeCs1WithAmount, EncodeAmountSuffix, RecoversTo,
         Codec.Valid, LightningDigest, IsHexId;
    HexIdOfDigest(key);
    MessagesAsText(host, amount, HexEncode(key));
    DigestIsDouble(env.sha, Message(host, amount, HexEncode(key)));
    LayoutsRead(env, LightningDigest(env.sha, Message(host, amount, HexEncode(key))), rs, id, mint);
    EncodedIsTidy(env.codec, amount, rs + [id]);
    Cs1RoundTrip(env.codec, amount, rs + [id]);
  }

  lemma EncodedIsTidy(codec: Codec, amount: nat, cert: bytes)
    requires codec.Valid() && amount <= U64_MAX
    ensures Trim(EncodeCs1WithAmount(codec, amount, cert)) == EncodeCs1WithAmount(codec, amount, cert)
  {
    SuffixLength(amount);
    CsPrefix(EncodeAmountSuffix(amount));
    codec.EncodedShape("cs" + EncodeAmountSuffix(amount), cert);
  }

  /** And a legacy one as its mint issued it, raw hex in either layout over the
      key or a bearer hash, passes the legacy check for that id. */
  lemma LegacyAsIssued(env: Env, id: Digest, amount: nat, rs: bytes, recovery: byte, mint: string)
    requires env.codec.Valid() && |rs| == 64
    requires var text := Ascii("LNURLcash:" + Decimal(amount) + ":" + HexEncode(id));
             env.recovers(env.sha(env.sha(Ascii("Lightning Signed Message:") + text)), rs, recovery, mint)
    ensures VerifyLegacy(env, HexEncode(id), amount, HexEncode(rs + [recovery]), mint)
    ensures VerifyLegacy(env, HexEncode(id), amount, HexEncode([recovery] + rs), mint)
  {
    hide Ascii, Decimal, HexEncode, Lower, Trim, LegacyMessage, CertificateBytes, RecoversTo, Codec.Valid,
         LightningDigest, IsHexId;
    HexIdOfDigest(id);
    MessagesAsText([], amount, HexEncode(id));
    DigestIsDouble(env.sha, LegacyMessage(amount, HexEncode(id)));
    LayoutsRead(env, LightningDigest(env.sha, LegacyMessage(amount, HexEncode(id))), rs, recovery, mint);
    HexIsLegacy(env.codec, rs + [recovery], amount);
    HexIsLegacy(env.codec, [recovery] + rs, amount);
  }

  // ---- which message was signed ----

  /** The message each report stands for. */
  function MessageOf(env: Env, over: Over, key: Digest, bearerHash: Option<Digest>, domain: string, amount: nat)
    : Option<bytes>
  {
    match over
    case OverOutputKey =>
      var host :- env.domainOf(domain);
      Some(Message(host, amount, HexEncode(key)))
    case OverLegacyOutputKey => Some(LegacyMessage(amount, HexEncode(key)))
    case OverLegacyHash =>
      var h :- bearerHash;
      Some(LegacyMessage(amount, HexEncode(h)))
  }

  /** The messages one check tries: at most three. */
  ghost predicate Tried(env: Env, key: Digest, bearerHash: Option<Digest>, domain: string, amount: nat,
                        message: bytes) {
    exists over :: MessageOf(env, over, key, bearerHash, domain, amount) == Some(message)
  }

  /** In one layout or the other, these bytes recover to the mint's key over a
      message. */
  predicate RecoversOver(env: Env, cert: bytes, mint: string, message: bytes)
    requires |cert| == 65
  {
    RecoversTo(env, LightningDigest(env.sha, message), cert, true, mint)
  }

  lemma HexIdOfDigest(d: Digest)
    ensures IsHexId(HexEncode(d)) && Trim(HexEncode(d)) == HexEncode(d) && Lower(HexEncode(d)) == HexEncode(d)
  {
    var t := HexEncode(d);
    assert forall i | 0 <= i < |t| :: !IsWhitespace(t[i]);
    TrimOfTrimmed(t);
    LowerOfLower(t);
  }

  /** Every certificate the code accepts, as an amount-bearing `cs1` that
      states `amount`, a `cs1` of any other prefix or raw hex, is in some
      layout the mint's signature of `signed`; and of the messages a check
      tries, it is no other's. What it recovers over messages nobody tries is
      left open, as the second layout of 65 bytes always has some digest. */
  ghost predicate SignedFor(env: Env, key: Digest, bearerHash: Option<Digest>, domain: string, amount: nat,
                            signature: string, mint: string, signed: bytes)
  {
    var cert := CertificateBytes(env.codec, signature, amount, true);
    cert.Some? ==>
      && RecoversOver(env, cert.value, mint, signed)
      && forall m | Tried(env, key, bearerHash, domain, amount, m) && RecoversOver(env, cert.value, mint, m) ::
           m == signed
  }

  /** Whether a certificate has LUD-25's current form: an amount-bearing `cs1`
      that states `amount`, with its recovery id last. */
  predicate IsCurrentForm(env: Env, signature: string, amount: nat, mint: string, signed: bytes) {
    var cert := CertificateBytes(env.codec, signature, amount, false);
    cert.Some? && RecoversTo(env, LightningDigest(env.sha, signed), cert.value, false, mint)
  }

  /** A certificate a current check accepts is the one a legacy check does. */
  lemma CurrentIsLenient(codec: Codec, signature: string, amount: nat)
    requires CertificateBytes(codec, signature, amount, false).Some?
    ensures CertificateBytes(codec, signature, amount, true) == CertificateBytes(codec, signature, amount, false)
  {
  }

  lemma RecoversExactly(env: Env, key: Digest, bearerHash: Option<Digest>, domain: string, amount: nat,
                        signature: string, mint: string, signed: bytes, over: Over, message: bytes, both: bool)
    requires SignedFor(env, key, bearerHash, domain, amount, signature, mint, signed)
    requires CertificateBytes(env.codec, signature, amount, true).Some?
    requires MessageOf(env, over, key, bearerHash, domain, amount) == Some(message)
    ensures var cert := CertificateBytes(env.codec, signature, amount, true).value;
            RecoversTo(env, LightningDigest(env.sha, message), cert, both, mint) <==>
            message == signed && (both || RecoversTo(env, LightningDigest(env.sha, signed), cert, false, mint))
  {
    hide LightningDigest, CertificateBytes, MessageOf;
    assert Tried(env, key, bearerHash, domain, amount, message);
  }

  lemma CurrentIff(env: Env, key: Digest, bearerHash: Option<Digest>, domain: string, amount: nat,
                   signature: string, mint: string, signed: bytes)
    requires SignedFor(env, key, bearerHash, domain, amount, signature, mint, signed)
    ensures VerifyCurrent(env, HexEncode(key), domain, amount, signature, mint) <==>
            MessageOf(env, OverOutputKey, key, bearerHash, domain, amount) == Some(signed)
            && IsCurrentForm(env, signature, amount, mint, signed)
  {
    hide HexEncode, IsHexId, Trim, Lower, Message, CertificateBytes, RecoversTo, LightningDigest, SignedFor;
    var cert := CertificateBytes(env.codec, signature, amount, false);
    HexIdOfDigest(key);
    if cert.Some? { CurrentIsLenient(env.codec, signature, amount); }
    if env.domainOf(domain).Some? && cert.Some? {
      var message := Message(env.domainOf(domain).value, amount, HexEncode(key));
      RecoversExactly(env, key, bearerHash, domain, amount, signature, mint, signed, OverOutputKey, message, false);
    }
  }

  lemma LegacyIff(env: Env, key: Digest, bearerHash: Option<Digest>, domain: string, amount: nat,
                  signature: string, mint: string, signed: bytes, id: Digest, over: Over)
    requires SignedFor(env, key, bearerHash, domain, amount, signature, mint, signed)
    requires (over == OverLegacyOutputKey && id == key) || (over == OverLegacyHash && bearerHash == Some(id))
    ensures VerifyLegacy(env, HexEncode(id), amount, signature, mint) <==>
            CertificateBytes(env.codec, signature, amount, true).Some?
            && MessageOf(env, over, key, bearerHash, domain, amount) == Some(signed)
  {
    hide HexEncode, IsHexId, Trim, Lower, LegacyMessage, CertificateBytes, RecoversTo, LightningDigest, SignedFor;
    var cert := CertificateBytes(env.codec, signature, amount, true);
    HexIdOfDigest(id);
    if cert.Some? {
      var message := LegacyMessage(amount, HexEncode(id));
      RecoversExactly(env, key, bearerHash, domain, amount, signature, mint, signed, over, message, true);
    }
  }

  lemma HexInjective(a: bytes, b: bytes)
    requires HexEncode(a) == HexEncode(b)
    ensures a == b
  {
    HexRoundTrip(a);
    HexRoundTrip(b);
  }

  /** The messages behind distinct reports differ, but for a bearer hash
      equal to its own `Q`. */
  lemma ReportsDiffer(domain: bytes, key: Digest, h: Digest, amount: nat)
    ensures Message(domain, amount, HexEncode(key)) != LegacyMessage(amount, HexEncode(key))
    ensures Message(domain, amount, HexEncode(key)) != LegacyMessage(amount, HexEncode(h))
    ensures LegacyMessage(amount, HexEncode(key)) == LegacyMessage(amount, HexEncode(h)) <==> key == h
  {
    var q, t := HexEncode(key), HexEncode(h);
    HexIdOfDigest(key);
    HexIdOfDigest(h);
    FamiliesDisjoint(domain, amount, q, amount, q);
    FamiliesDisjoint(domain, amount, q, amount, t);
    LegacyMessageInjective(amount, q, amount, t);
    if q == t { HexInjective(key, h); }
  }

  /** What a report asks of the certificate besides its message: only the
      current message needs the current form. */
  predicate FormAllows(env: Env, over: Over, signature: string, amount: nat, mint: string, signed: bytes) {
    && CertificateBytes(env.codec, signature, amount, true).Some?
    && (over == OverOutputKey ==> IsCurrentForm(env, signature, amount, mint, signed))
  }

  /** With a signature no other message it tries would pass for, a check
      reports exactly the message the mint signed, whatever spelling and layout
      the certificate comes in: each report stands for that message and no
      other, in whatever order they are tried, and a current message signed in
      a legacy form is no report at all. A bearer hash equal to its own `Q` is
      the one ambiguity, and is reported as the key. */
  lemma ReportsWhatWasSigned(env: Env, key: Digest, bearerHash: Option<Digest>, domain: string, amount: nat,
                             signature: string, mint: string, signed: bytes, over: Over)
    requires SignedFor(env, key, bearerHash, domain, amount, signature, mint, signed)
    ensures CertifiedOver(env, key, bearerHash, domain, amount, signature, mint) == Some(over) <==>
            MessageOf(env, over, key, bearerHash, domain, amount) == Some(signed)
            && FormAllows(env, over, signature, amount, mint, signed)
            && (over == OverLegacyHash ==> bearerHash != Some(key))
  {
    hide HexEncode, Message, LegacyMessage, SignedFor, VerifyCurrent, VerifyLegacy, CertificateBytes, RecoversTo,
         LightningDigest;
    CurrentIff(env, key, bearerHash, domain, amount, signature, mint, signed);
    LegacyIff(env, key, bearerHash, domain, amount, signature, mint, signed, key, OverLegacyOutputKey);
    if IsCurrentForm(env, signature, amount, mint, signed) { CurrentIsLenient(env.codec, signature, amount); }
    hide IsCurrentForm;
    var host := if env.domainOf(domain).Some? then env.domainOf(domain).value else [];
    var h := if bearerHash.Some? then bearerHash.value else key;
    ReportsDiffer(host, key, h, amount);
    if bearerHash.Some? {
      LegacyIff(env, key, bearerHash, domain, amount, signature, mint, signed, h, OverLegacyHash);
    }
  }

  lemma NotCsPrefix(value: string, n: nat)
    requires |value| >= 2 && LowerChar(value[1]) != 's' && n <= |value|
    ensures !("cs" <= Lower(value[..n]))
  {
    var lowered := Lower(value[..n]);
    if n >= 2 {
      assert lowered[1] == LowerChar(value[1]);
      assert "cs"[1] == 's';
    }
  }

  lemma UnderCs(codec: Codec, value: string)
    requires codec.Valid() && codec.Decode("cs", value).Some? && Trim(value) == value
    ensures |value| >= 2 && LowerChar(value[1]) == 's'
  {
    hide Trim, Lower, LowerChar, Codec.Valid;
    codec.Canonical("cs", value);
    var encoded := codec.Encode("cs", codec.Decode("cs", value).value);
    assert encoded[1] == 's' && Lower(value)[1] == encoded[1];
  }

  lemma SecondDigitIsNoS(cert: bytes)
    requires |cert| > 0
    ensures var value := HexEncode(cert); Trim(value) == value && LowerChar(value[1]) != 's'
  {
    var value := HexEncode(cert);
    hide HexEncode, Trim, Lower;
    assert forall i | 0 <= i < |value| :: !IsWhitespace(value[i]);
    TrimOfTrimmed(value);
  }

  lemma HexIsNoCs1(codec: Codec, cert: bytes)
    requires codec.Valid() && |cert| > 0
    ensures var value := HexEncode(cert);
            Trim(value) == value && DecodeCs1WithAmount(codec, value).None? && DecodeAnyCs1Bytes(codec, value).None?
  {
    var value := HexEncode(cert);
    SecondDigitIsNoS(cert);
    if codec.Decode("cs", value).Some? { UnderCs(codec, value); }
    hide HexEncode, Lower, Trim, LowerChar, DecodeAmountSuffix;
    var separator := LastIndexOf(value, '1');
    if separator.Some? {
      NotCsPrefix(value, separator.value);
    }
  }

  /** Raw hex is a certificate of a legacy message only, read as its bytes. */
  lemma HexIsLegacy(codec: Codec, cert: bytes, amount: nat)
    requires codec.Valid() && |cert| == 65
    ensures CertificateBytes(codec, HexEncode(cert), amount, false) == None
    ensures CertificateBytes(codec, HexEncode(cert), amount, true) == Some(cert)
  {
    HexIsNoCs1(codec, cert);
    HexRoundTrip(cert);
    hide HexEncode, Trim, HexDecode, DecodeAnyCs1Bytes, DecodeCs1WithAmount;
  }

  lemma CsEncodingReads(codec: Codec, suffix: string, cert: bytes)
    requires codec.Valid() && |cert| == 65 && AllPrefixChars(suffix) && |suffix| <= 22
    ensures var hrp, value := "cs" + suffix, codec.Encode("cs" + suffix, cert);
            && Trim(value) == value && LastIndexOf(value, '1') == Some(|hrp|) && value[..|hrp|] == hrp
            && Lower(hrp) == hrp
            && IsPrefix(hrp) && codec.decodeRaw(hrp, value) == Some(cert) && codec.Decode(hrp, value) == Some(cert)
            && (suffix != "" ==> codec.Decode("cs", value).None?)
  {
    var hrp := "cs" + suffix;
    var value := codec.Encode(hrp, cert);
    assert IsPrefix(hrp) by {
      assert forall i | 0 <= i < |hrp| :: hrp[i] == if i < 2 then "cs"[i] else suffix[i - 2];
    }
    LowerOfLower(hrp);
    codec.EncodedShape(hrp, cert);
    codec.RoundTrip(hrp, cert);
    if suffix != "" { codec.OtherPrefix(hrp, "cs", cert); }
    hide Trim, Lower, LastIndexOf, AllPrefixChars;
  }

  /** And so are the fixed-prefix `cs1`, and an amount-bearing one whose last
      byte is no recovery id. */
  lemma OtherCs1IsLegacy(codec: Codec, suffix: string, cert: bytes, amount: nat)
    requires codec.Valid() && |cert| == 65 && AllPrefixChars(suffix) && |suffix| <= 22
    requires DecodeAmountSuffix(suffix).None? || cert[64] > 3
    ensures var value := codec.Encode("cs" + suffix, cert);
            && CertificateBytes(codec, value, amount, false) == None
            && CertificateBytes(codec, value, amount, true) == Some(cert)
  {
    var hrp := "cs" + suffix;
    var value := codec.Encode(hrp, cert);
    CsEncodingReads(codec, suffix, cert);
    assert "cs" <= hrp && hrp[2..] == suffix;
    hide Trim, Lower, DecodeAmountSuffix, LastIndexOf, AllPrefixChars, IsPrefix;
    assert DecodeCs1WithAmount(codec, value).None?;
    assert suffix == "" ==> hrp == "cs";
    assert DecodeAnyCs1Bytes(codec, value) == Some(cert);
  }

  /** Nothing under a prefix that does not begin with cs is any kind of `cs1`. */
  lemma OtherPrefixIsNoCs1(codec: Codec, hrp: string, payload: bytes)
    requires codec.Valid() && IsPrefix(hrp) && !("cs" <= hrp)
    ensures DecodeCs1WithAmount(codec, codec.Encode(hrp, payload)) == None
    ensures DecodeAnyCs1Bytes(codec, codec.Encode(hrp, payload)) == None
  {
    hide Lower, Trim, LastIndexOf, DecodeAmountSuffix, Codec.Valid, IsPrefix;
    assert AllPrefixChars("cs");
    PrefixReads(codec, hrp, payload);
    codec.OtherPrefix(hrp, "cs", payload);
  }

  lemma PrefixReads(codec: Codec, hrp: string, payload: bytes)
    requires codec.Valid() && IsPrefix(hrp)
    ensures var value := codec.Encode(hrp, payload);
            && Trim(value) == value && LastIndexOf(value, '1') == Some(|hrp|) && value[..|hrp|] == hrp
            && Lower(hrp) == hrp
  {
    hide Lower, Trim, LastIndexOf, Codec.Valid, LowerChar, DataLength, IsPrefix;
    PrefixIsLower(hrp);
    codec.EncodedShape(hrp, payload);
  }

  lemma PrefixIsLower(hrp: string)
    requires IsPrefix(hrp)
    ensures Lower(hrp) == hrp
  {
    hide Lower;
    LowerOfLower(hrp);
  }

  /** What is a `cs1` of any kind is read in whatever case the codec reads it. */
  lemma AnyCs1Reads(codec: Codec, hrp: string, value: string, cert: bytes)
    requires codec.Valid() && IsPrefix(hrp) && "cs" <= hrp && |cert| == 65
    requires Lower(value) == codec.Encode(hrp, cert) && codec.decodeRaw(hrp, value) == Some(cert)
    ensures DecodeAnyCs1Bytes(codec, value) == Some(cert)
  {
    hide Lower, Trim, LowerChar, LastIndexOf, Codec.Valid, DataLength;
    codec.SeparatorOfLower(hrp, value, cert);
    if codec.Decode("cs", value).Some? { SameCert(codec, hrp, value, cert); }
  }

  lemma SameCert(codec: Codec, hrp: string, value: string, cert: bytes)
    requires codec.Valid() && IsPrefix(hrp) && codec.Decode("cs", value).Some?
    requires Lower(value) == codec.Encode(hrp, cert) && codec.decodeRaw(hrp, value) == Some(cert)
    ensures codec.Decode("cs", value) == Some(cert)
  {
    hide Trim, Lower, LastIndexOf, Codec.Valid, DataLength, LowerChar;
    var other := codec.Decode("cs", value).value;
    assert IsPrefix("cs");
    codec.EncodedShape(hrp, cert);
    TrimmedInLower(value);
    codec.Canonical("cs", value);
    codec.PrefixOf(hrp, cert, "cs", other);
  }

  /** Outer whitespace changes nothing, of an id or of a certificate. */
  lemma OuterSpaceIsNothing(env: Env, id: string, domain: string, amount: nat, signature: string, mint: string)
    ensures VerifyCurrent(env, id, domain, amount, signature, mint)
         == VerifyCurrent(env, Trim(id), domain, amount, Trim(signature), mint)
    ensures VerifyLegacy(env, id, amount, signature, mint) == VerifyLegacy(env, Trim(id), amount, Trim(signature), mint)
  {
    hide Trim, Lower, DecodeCs1WithAmount, DecodeAnyCs1Bytes, HexDecode, RecoversTo, LightningDigest, Message,
         LegacyMessage;
    TrimIdempotent(id);
    TrimIdempotent(signature);
  }

  /** An id is the hexadecimal of 32 bytes in any case, or nothing is certified
      for it. */
  lemma HexIdIff(id: string)
    ensures IsHexId(id) <==> exists d: Digest :: HexEncode(d) == Lower(Trim(id))
  {
    var t := Trim(id);
    if IsHexId(id) {
      HexDecodesDigits(t);
      HexOfDecoded(t);
      var d: Digest := HexDecode(t).value;
      assert HexEncode(d) == Lower(t);
    }
    if d: Digest :| HexEncode(d) == Lower(t) {
      hide Lower, HexEncode, Trim;
      assert |t| == 64;
      forall i | 0 <= i < |t| ensures IsHexDigit(t[i]) {
        assert Lower(t)[i] == LowerChar(t[i]) && IsHexDigit(Lower(t)[i]);
      }
    }
  }

  lemma VerifiesOnlyHexIds(env: Env, id: string, domain: string, amount: nat, signature: string, mint: string,
                           d: Digest)
    ensures VerifyCurrent(env, id, domain, amount, signature, mint)
            || VerifyLegacy(env, id, amount, signature, mint) ==>
              exists d: Digest :: HexEncode(d) == Lower(Trim(id))
    ensures HexEncode(d) == Lower(Trim(id)) ==>
              && VerifyCurrent(env, id, domain, amount, signature, mint)
                 == VerifyCurrent(env, HexEncode(d), domain, amount, signature, mint)
              && VerifyLegacy(env, id, amount, signature, mint)
                 == VerifyLegacy(env, HexEncode(d), amount, signature, mint)
  {
    hide Trim, Lower, HexEncode, CertificateBytes, RecoversTo, LightningDigest, IsHexId;
    HexIdIff(id);
    HexIdOfDigest(d);
    HexIsTidy(d);
    TrimIdempotent(id);
    if HexEncode(d) == Lower(Trim(id)) { assert IdBytes(Trim(id)) == IdBytes(HexEncode(d)); }
  }

  /** An amount-bearing certificate checked against any other amount
      certifies nothing. */
  lemma WrongAmountCertifiesNothing(env: Env, key: Digest, bearerHash: Option<Digest>, domain: string, amount: nat,
                                    signature: string, mint: string)
    requires DecodeCs1WithAmount(env.codec, Trim(signature)).Some?
    requires DecodeCs1WithAmount(env.codec, Trim(signature)).value.amountMsat != amount
    ensures CertifiedOver(env, key, bearerHash, domain, amount, signature, mint) == None
  {
    assert CertificateBytes(env.codec, signature, amount, true) == None;
    assert CertificateBytes(env.codec, signature, amount, false) == None;
  }
}
