// BIP-350 strings as the crate uses them (src/long_bech32.rs,
// src/recoverable.rs): the checksum and the regrouping are parameters, and
// everything the model needs of them is in `Valid`.

module Bech32 {
  import opened Wrappers
  import opened Text
  import opened Bytes

  const MAX_BECH32_CHARS: nat := 8192

  predicate IsDataChar(c: char) {
    ('a' <= c <= 'z' || '0' <= c <= '9') && c != '1'
  }

  predicate IsPrefixChar(c: char) {
    'a' <= c <= 'z' || '0' <= c <= '9'
  }

  predicate AllPrefixChars(hrp: string) {
    forall i | 0 <= i < |hrp| :: IsPrefixChar(hrp[i])
  }

  /** The human-readable parts the crate writes: 1 to 83 lowercase characters.
      Decoding admits others, of which nothing is asked. */
  predicate IsPrefix(hrp: string) {
    1 <= |hrp| <= 83 && AllPrefixChars(hrp)
  }

  /** Characters after the separator for a payload: 5-bit groups and a
      6-character checksum. */
  function DataLength(payload: nat): nat {
    (8 * payload + 4) / 5 + 6
  }

  datatype Codec = Codec(data: (string, bytes) -> string, decodeRaw: (string, string) -> Option<bytes>) {

    /** `long_bech32::encode::<Bech32m>`. */
    function Encode(hrp: string, payload: bytes): string {
      hrp + "1" + data(hrp, payload)
    }

    /** `decode_bytes`: trimmed, and capped at 8192 characters. */
    function Decode(hrp: string, value: string): Option<bytes> {
      var trimmed := Trim(value);
      if |trimmed| > MAX_BECH32_CHARS then None else decodeRaw(hrp, trimmed)
    }

    /** `decode_fixed`. */
    function DecodeFixed(width: nat, hrp: string, value: string): (r: Option<bytes>)
      ensures r.Some? ==> |r.value| == width
    {
      var payload := Decode(hrp, value);
      if payload.Some? && |payload.value| == width then payload else None
    }

    /** What BIP-350 gives for prefixes of lowercase letters and digits: data
        characters never include the separator, a string decodes under its
        own prefix only, and every accepted string is the encoding of what it
        decodes to, up to case. */
    ghost predicate Valid() {
      && (forall hrp, payload | IsPrefix(hrp) ::
            && |data(hrp, payload)| == DataLength(|payload|)
            && (forall i | 0 <= i < |data(hrp, payload)| :: IsDataChar(data(hrp, payload)[i]))
            && decodeRaw(hrp, Encode(hrp, payload)) == Some(payload))
      && (forall hrp, value | AllPrefixChars(hrp) && decodeRaw(hrp, value).Some? ::
            IsPrefix(hrp) && Lower(value) == Encode(hrp, decodeRaw(hrp, value).value))
    }

    lemma EncodedShape(hrp: string, payload: bytes)
      requires Valid() && IsPrefix(hrp)
      ensures |Encode(hrp, payload)| == |hrp| + 1 + DataLength(|payload|)
      ensures Trim(Encode(hrp, payload)) == Encode(hrp, payload)
      ensures Lower(Encode(hrp, payload)) == Encode(hrp, payload)
      ensures LastIndexOf(Encode(hrp, payload), '1') == Some(|hrp|)
    {
      var s, d := Encode(hrp, payload), data(hrp, payload);
      assert forall i | 0 <= i < |s| ::
          s[i] == if i < |hrp| then hrp[i] else if i == |hrp| then '1' else d[i - |hrp| - 1];
      assert forall i | 0 <= i < |s| :: IsPrefixChar(s[i]);
      TrimOfTrimmed(s);
      LowerOfLower(s);
      LastIndexIs(hrp, '1', d);
    }

    /** Decoding undoes encoding exactly when the string fits the cap. */
    lemma RoundTrip(hrp: string, payload: bytes)
      requires Valid() && IsPrefix(hrp)
      ensures Decode(hrp, Encode(hrp, payload)) ==
              if |hrp| + 1 + DataLength(|payload|) <= 8192 then Some(payload) else None
    {
      EncodedShape(hrp, payload);
    }

    /** Outer whitespace changes nothing. */
    lemma DecodeIgnoresSpace(hrp: string, value: string)
      ensures Decode(hrp, Trim(value)) == Decode(hrp, value)
    {
      TrimIdempotent(value);
    }

    /** The separator stands where the prefix ends, in either case. */
    lemma SeparatorOfLower(hrp: string, value: string, payload: bytes)
      requires Valid() && IsPrefix(hrp) && Lower(value) == Encode(hrp, payload)
      ensures LastIndexOf(value, '1') == Some(|hrp|) && Lower(value[..|hrp|]) == hrp
    {
      hide Trim, LastIndexOf, Valid, DataLength, Lower;
      EncodedShape(hrp, payload);
      LastIndexOfLower(value, '1');
      assert Lower(value[..|hrp|]) == Encode(hrp, payload)[..|hrp|];
    }

    /** What decodes is the encoding of what it decodes to, up to case. */
    lemma Canonical(hrp: string, value: string)
      requires Valid() && AllPrefixChars(hrp) && Decode(hrp, value).Some?
      ensures Lower(Trim(value)) == Encode(hrp, Decode(hrp, value).value)
    {
      assert decodeRaw(hrp, Trim(value)).Some?;
    }

    /** Letter case never changes what an accepted string decodes to. */
    lemma DecodeIgnoresCase(hrp: string, value: string)
      requires Valid() && AllPrefixChars(hrp) && Decode(hrp, value).Some?
      ensures Decode(hrp, Lower(value)) == Decode(hrp, value)
    {
      hide Trim, Lower, AllPrefixChars;
      var payload := Decode(hrp, value).value;
      Canonical(hrp, value);
      TrimOfLower(value);
      assert IsPrefix(hrp) by {
        assert decodeRaw(hrp, Trim(value)).Some?;
      }
      EncodedShape(hrp, payload);
    }

    lemma PrefixOf(hrp: string, payload: bytes, other: string, payload': bytes)
      requires Valid() && IsPrefix(hrp) && IsPrefix(other)
      requires Encode(hrp, payload) == Encode(other, payload')
      ensures hrp == other
    {
      EncodedShape(hrp, payload);
      EncodedShape(other, payload');
      hide LastIndexOf, Lower, LowerChar, Trim, IsPrefix, AllPrefixChars, Valid;
      SplitConcat(hrp + "1", data(hrp, payload), other + "1", data(other, payload'));
      SplitConcat(hrp, "1", other, "1");
    }

    /** A string carries one prefix: another type's decoder refuses it. */
    lemma OtherPrefix(hrp: string, other: string, payload: bytes)
      requires Valid() && IsPrefix(hrp) && AllPrefixChars(other) && other != hrp
      ensures Decode(other, Encode(hrp, payload)).None?
    {
      EncodedShape(hrp, payload);
      var r := decodeRaw(other, Encode(hrp, payload));
      if r.Some? {
        PrefixOf(hrp, payload, other, r.value);
      }
    }
  }

  // ---- a codec that meets `Valid` ----

  lemma {:induction false} Pow256IsPow2(k: nat)
    ensures Pow256(k) == Pow2(8 * k)
  {
    if k > 0 {
      Pow256IsPow2(k - 1);
      assert 8 * k - 8 == 8 * (k - 1);
      EightDoublings(8 * k - 8);
    }
  }

  lemma EightDoublings(k: nat)
    ensures Pow2(k + 8) == 256 * Pow2(k)
  {
    assert Pow2(k + 2) == 4 * Pow2(k);
    assert Pow2(k + 4) == 16 * Pow2(k);
    assert Pow2(k + 6) == 64 * Pow2(k);
  }

  function GroupChar(v: nat): (c: char)
    requires v < 32
    ensures IsDataChar(c)
  {
    if v < 8 then ('2' as int + v) as char else ('a' as int + v - 8) as char
  }

  /** A number in `width` groups of five bits. */
  function Groups(n: nat, width: nat): (s: string)
    ensures |s| == width && forall i | 0 <= i < |s| :: IsDataChar(s[i])
  {
    if width == 0 then "" else Groups(n / 32, width - 1) + [GroupChar(n % 32)]
  }

  lemma {:induction false} GroupsInjective(m: nat, n: nat, width: nat)
    requires m < Pow2(5 * width) && n < Pow2(5 * width) && Groups(m, width) == Groups(n, width)
    ensures m == n
  {
    if width > 0 {
      var k := 5 * (width - 1);
      FiveDoublings(k);
      assert 5 * width == k + 5;
      SplitConcat(Groups(m / 32, width - 1), [GroupChar(m % 32)], Groups(n / 32, width - 1), [GroupChar(n % 32)]);
      assert [GroupChar(m % 32)][0] == [GroupChar(n % 32)][0];
      GroupsInjective(m / 32, n / 32, width - 1);
    }
  }

  lemma FiveDoublings(k: nat)
    ensures Pow2(k + 5) == 32 * Pow2(k)
  {
    assert Pow2(k + 2) == 4 * Pow2(k);
    assert Pow2(k + 4) == 16 * Pow2(k);
  }

  function PlainData(payload: bytes): string {
    Groups(FromBigEndian(payload), DataLength(|payload|))
  }

  lemma PlainDataInjective(a: bytes, b: bytes)
    requires PlainData(a) == PlainData(b)
    ensures a == b
  {
    assert DataLength(|a|) == DataLength(|b|);
    assert |a| == |b|;
    BigEndianOfValue(a);
    BigEndianOfValue(b);
    Pow256IsPow2(|a|);
    Pow2Monotone(8 * |a|, 5 * DataLength(|a|));
    GroupsInjective(FromBigEndian(a), FromBigEndian(b), DataLength(|a|));
  }

  ghost predicate PlainlySpells(hrp: string, value: string, payload: bytes) {
    IsPrefix(hrp) && Lower(value) == hrp + "1" + PlainData(payload)
  }

  ghost function PlainDecode(hrp: string, value: string): (r: Option<bytes>)
    ensures r.Some? ==> PlainlySpells(hrp, value, r.value)
    ensures r.None? ==> forall payload: bytes :: !PlainlySpells(hrp, value, payload)
  {
    if exists payload: bytes :: PlainlySpells(hrp, value, payload) then
      var payload: bytes :| PlainlySpells(hrp, value, payload);
      Some(payload)
    else None
  }

  /** Five bits a character, and no checksum worth the name. */
  ghost function PlainCodec(): Codec {
    Codec((hrp, payload) => PlainData(payload), (hrp, value) => PlainDecode(hrp, value))
  }

  lemma SpelledInLower(hrp: string, data: string)
    requires AllPrefixChars(hrp) && forall i | 0 <= i < |data| :: IsDataChar(data[i])
    ensures Lower(hrp + "1" + data) == hrp + "1" + data
  {
    LowerOfLower(hrp);
    LowerOfLower("1");
    LowerOfLower(data);
    hide Lower, AllPrefixChars, IsDataChar;
    LowerConcat(hrp, "1");
    LowerConcat(hrp + "1", data);
  }

  lemma PlainRoundTrip(hrp: string, payload: bytes)
    requires IsPrefix(hrp)
    ensures PlainDecode(hrp, hrp + "1" + PlainData(payload)) == Some(payload)
  {
    var d := PlainData(payload);
    var s := hrp + "1" + d;
    SpelledInLower(hrp, d);
    hide PlainData, IsPrefix, Lower, LowerChar;
    assert PlainlySpells(hrp, s, payload);
    var found := PlainDecode(hrp, s).value;
    SplitConcat(hrp + "1", PlainData(found), hrp + "1", d);
    PlainDataInjective(found, payload);
  }

  /** Nothing asked of a codec contradicts itself. */
  lemma CodecsExist()
    ensures PlainCodec().Valid()
  {
    var codec := PlainCodec();
    forall hrp, payload: bytes | IsPrefix(hrp)
      ensures codec.decodeRaw(hrp, codec.Encode(hrp, payload)) == Some(payload)
    {
      PlainRoundTrip(hrp, payload);
    }
    hide PlainDecode, Lower, Groups;
  }
}
