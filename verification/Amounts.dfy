// Amounts in human-readable parts: the `cs1` suffix (src/recoverable.rs), the
// certificate string that carries it, and the BOLT-11 decoder (src/bolt11.rs).

module Amounts {
  import opened Wrappers
  import opened Text
  import opened Bytes
  import opened Bech32

  const U128_MAX: nat := 0xFFFF_FFFF_FFFF_FFFF_FFFF_FFFF_FFFF_FFFF

  /** A value kept only up to `max`: `checked_mul` and `try_into`. */
  function AtMost(value: nat, max: nat): Option<nat> {
    if value <= max then Some(value) else None
  }

  function StripPrefix(s: string, prefix: string): (r: Option<string>)
    ensures r.Some? <==> prefix <= s
    ensures r.Some? ==> s == prefix + r.value
  {
    if prefix <= s then Some(s[|prefix|..]) else None
  }

  // ---- the cs1 suffix ----

  predicate IsUnit(c: char) {
    c == '0' || c == 'm' || c == 'u' || c == 'n' || c == 'p'
  }

  /** A number and its BOLT-11 multiplier, `'0'` standing for none. */
  function WithUnit(value: nat, unit: char): (s: string)
    requires IsUnit(unit)
    ensures s != [] && AllPrefixChars(s)
  {
    if unit == '0' then Decimal(value) else Decimal(value) + [unit]
  }

  /** The coarsest unit that states `amount` msat exactly. */
  function CoarsestUnit(amount: nat): (r: (nat, char))
    ensures IsUnit(r.1)
  {
    if amount % 100_000_000_000 == 0 then (amount / 100_000_000_000, '0')
    else if amount % 100_000_000 == 0 then (amount / 100_000_000, 'm')
    else if amount % 100_000 == 0 then (amount / 100_000, 'u')
    else if amount % 100 == 0 then (amount / 100, 'n')
    else (amount * 10, 'p')
  }

  function EncodeAmountSuffix(amount: nat): (s: string)
    ensures s != [] && AllPrefixChars(s)
  {
    var (value, unit) := CoarsestUnit(amount);
    WithUnit(value, unit)
  }

  /** The digits and the unit of a suffix. */
  function SplitUnit(value: string): (r: (string, char))
    ensures IsUnit(r.1)
  {
    if value != [] && value[|value| - 1] != '0' && IsUnit(value[|value| - 1])
    then (value[..|value| - 1], value[|value| - 1])
    else (value, '0')
  }

  function AmountFrom(digits: nat, unit: char): Option<nat>
    requires IsUnit(unit)
  {
    var amount :- match unit
      case 'm' => AtMost(digits * 100_000_000, U128_MAX)
      case 'u' => AtMost(digits * 100_000, U128_MAX)
      case 'n' => AtMost(digits * 100, U128_MAX)
      case 'p' => if digits % 10 == 0 then Some(digits / 10) else None
      case _ => AtMost(digits * 100_000_000_000, U128_MAX);
    AtMost(amount, U64_MAX)
  }

  function DecodeAmountSuffix(value: string): Option<nat> {
    var (text, unit) := SplitUnit(value);
    var digits :- ParseDigits(text, U128_MAX);
    AmountFrom(digits, unit)
  }

  lemma SplitWithUnit(value: nat, unit: char)
    requires IsUnit(unit)
    ensures SplitUnit(WithUnit(value, unit)) == (Decimal(value), unit)
    ensures value <= U128_MAX ==> DecodeAmountSuffix(WithUnit(value, unit)) == AmountFrom(value, unit)
    ensures DecimalValue(Decimal(value)) == value
    ensures IsDigit(WithUnit(value, unit)[0])
  {
    DecimalRoundTrip(value);
    var digits := Decimal(value);
    assert IsDigit(digits[|digits| - 1]);
    assert (digits + [unit])[..|digits|] == digits;
  }

  /** What a number means under each multiplier, and when it is no u64 amount;
      a multiplier alone is none. */
  lemma UnitsMean(d: nat)
    ensures DecodeAmountSuffix(Decimal(d)) == UpToU64(d * 100_000_000_000)
    ensures DecodeAmountSuffix(Decimal(d) + "m") == UpToU64(d * 100_000_000)
    ensures DecodeAmountSuffix(Decimal(d) + "u") == UpToU64(d * 100_000)
    ensures DecodeAmountSuffix(Decimal(d) + "n") == UpToU64(d * 100)
    ensures DecodeAmountSuffix(Decimal(d) + "p") == if d % 10 == 0 then UpToU64(d / 10) else None
    ensures forall s | s in ["", "m", "u", "n", "p"] :: DecodeAmountSuffix(s) == None
  {
    SplitWithUnit(d, '0');
    SplitWithUnit(d, 'm');
    SplitWithUnit(d, 'u');
    SplitWithUnit(d, 'n');
    SplitWithUnit(d, 'p');
    hide DecodeAmountSuffix, Decimal;
  }

  function UpToU64(amount: nat): Option<nat> {
    if amount <= 0xFFFF_FFFF_FFFF_FFFF then Some(amount) else None
  }

  /** The unit chosen states the amount exactly. */
  lemma CoarsestStates(amount: nat)
    requires amount <= U64_MAX
    ensures var (value, unit) := CoarsestUnit(amount); AmountFrom(value, unit) == Some(amount) && value <= 10 * amount
  {
    if amount % 100_000_000_000 == 0 {
      StatesBitcoin(amount);
    } else if amount % 100_000_000 == 0 {
      StatesMilli(amount);
    } else if amount % 100_000 == 0 {
      StatesMicro(amount);
    } else if amount % 100 == 0 {
      StatesNano(amount);
    } else {
      assert AmountFrom(amount * 10, 'p') == Some(amount);
    }
    hide AmountFrom;
  }

  lemma StatesBitcoin(amount: nat)
    requires amount % 100_000_000_000 == 0 && amount <= U64_MAX
    ensures AmountFrom(amount / 100_000_000_000, '0') == Some(amount)
  {
    assert amount / 100_000_000_000 * 100_000_000_000 == amount;
  }

  lemma StatesMilli(amount: nat)
    requires amount % 100_000_000 == 0 && amount <= U64_MAX
    ensures AmountFrom(amount / 100_000_000, 'm') == Some(amount)
  {
    assert amount / 100_000_000 * 100_000_000 == amount;
  }

  lemma StatesMicro(amount: nat)
    requires amount % 100_000 == 0 && amount <= U64_MAX
    ensures AmountFrom(amount / 100_000, 'u') == Some(amount)
  {
    assert amount / 100_000 * 100_000 == amount;
  }

  lemma StatesNano(amount: nat)
    requires amount % 100 == 0 && amount <= U64_MAX
    ensures AmountFrom(amount / 100, 'n') == Some(amount)
  {
    assert amount / 100 * 100 == amount;
  }

  /** The suffix written is the coarsest that states the amount. */
  lemma CoarsestIsWritten(d: nat)
    ensures EncodeAmountSuffix(d * 100_000_000_000) == Decimal(d)
    ensures d % 1000 != 0 ==> EncodeAmountSuffix(d * 100_000_000) == Decimal(d) + "m"
    ensures d % 1000 != 0 ==> EncodeAmountSuffix(d * 100_000) == Decimal(d) + "u"
    ensures d % 1000 != 0 ==> EncodeAmountSuffix(d * 100) == Decimal(d) + "n"
    ensures d % 100 != 0 ==> EncodeAmountSuffix(d) == Decimal(d * 10) + "p"
  {
    hide Decimal, CoarsestUnit;
    CoarsestBitcoin(d);
    CoarsestMilli(d);
    CoarsestMicro(d);
    CoarsestNano(d);
    CoarsestPico(d);
  }

  lemma CoarsestBitcoin(d: nat)
    ensures CoarsestUnit(d * 100_000_000_000) == (d, '0')
  {
    var amount := d * 100_000_000_000;
    assert amount / 100_000_000_000 == d && amount % 100_000_000_000 == 0;
  }

  lemma CoarsestMilli(d: nat)
    ensures d % 1000 != 0 ==> CoarsestUnit(d * 100_000_000) == (d, 'm')
  {
    var q, r := d / 1000, d % 1000;
    var amount := d * 100_000_000;
    assert amount == 100_000_000_000 * q + 100_000_000 * r;
    assert amount / 100_000_000_000 == q && amount / 100_000_000 == d;
    assert amount % 100_000_000_000 == 100_000_000 * r && amount % 100_000_000 == 0;
  }

  lemma CoarsestMicro(d: nat)
    ensures d % 1000 != 0 ==> CoarsestUnit(d * 100_000) == (d, 'u')
  {
    var q, r := d / 1000, d % 1000;
    var amount := d * 100_000;
    assert amount == 100_000_000 * q + 100_000 * r;
    assert amount / 100_000_000 == q && amount / 100_000 == d;
    assert amount % 100_000_000 == 100_000 * r && amount % 100_000 == 0;
    Coarser(amount);
  }

  lemma CoarsestNano(d: nat)
    ensures d % 1000 != 0 ==> CoarsestUnit(d * 100) == (d, 'n')
  {
    var q, r := d / 1000, d % 1000;
    var amount := d * 100;
    assert amount == 100_000 * q + 100 * r;
    assert amount / 100_000 == q && amount / 100 == d;
    assert amount % 100_000 == 100 * r && amount % 100 == 0;
    Coarser(amount);
  }

  lemma CoarsestPico(d: nat)
    ensures d % 100 != 0 ==> CoarsestUnit(d) == (d * 10, 'p')
  {
    Coarser(d);
  }

  /** What a unit divides, every finer one does. */
  lemma Coarser(amount: nat)
    ensures amount % 100_000_000_000 == 0 ==> amount % 100_000_000 == 0
    ensures amount % 100_000_000 == 0 ==> amount % 100_000 == 0
    ensures amount % 100_000 == 0 ==> amount % 100 == 0
  {
    CoarserMilli(amount);
    CoarserMicro(amount);
    CoarserNano(amount);
  }

  lemma CoarserMilli(amount: nat)
    ensures amount % 100_000_000_000 == 0 ==> amount % 100_000_000 == 0
  {
    var q := amount / 100_000_000_000;
    assert amount % 100_000_000_000 == 0 ==> amount == 100_000_000 * (1000 * q);
  }

  lemma CoarserMicro(amount: nat)
    ensures amount % 100_000_000 == 0 ==> amount % 100_000 == 0
  {
    var q := amount / 100_000_000;
    assert amount % 100_000_000 == 0 ==> amount == 100_000 * (1000 * q);
  }

  lemma CoarserNano(amount: nat)
    ensures amount % 100_000 == 0 ==> amount % 100 == 0
  {
    var q := amount / 100_000;
    assert amount % 100_000 == 0 ==> amount == 100 * (1000 * q);
  }

  /** Every u64 amount survives its suffix. */
  lemma AmountSuffixRoundTrip(amount: nat)
    requires amount <= U64_MAX
    ensures DecodeAmountSuffix(EncodeAmountSuffix(amount)) == Some(amount)
  {
    var (value, unit) := CoarsestUnit(amount);
    CoarsestStates(amount);
    hide CoarsestUnit, AmountFrom;
    SplitWithUnit(value, unit);
  }

  lemma SuffixLength(amount: nat)
    requires amount <= U64_MAX
    ensures |EncodeAmountSuffix(amount)| <= 22
  {
    assert Pow10(5) == 100_000;
    assert Pow10(10) == 100_000 * 100_000;
    assert Pow10(15) == 100_000 * 100_000 * 100_000;
    assert Pow10(20) == 100_000 * 100_000 * 100_000 * 100_000;
    CoarsestStates(amount);
    hide CoarsestUnit, AmountFrom;
    DecimalLength(CoarsestUnit(amount).0, 21);
  }

  // ---- cs1 ----

  datatype Cs1 = Cs1(amountMsat: nat, signature: bytes)

  function EncodeCs1WithAmount(codec: Codec, amount: nat, signature: bytes): string {
    codec.Encode("cs" + EncodeAmountSuffix(amount), signature)
  }

  function DecodeUnderPrefix(codec: Codec, hrp: string, trimmed: string): (r: Option<Cs1>)
    ensures r.Some? ==> |r.value.signature| == 65 && r.value.signature[64] <= 3
  {
    var suffix :- StripPrefix(hrp, "cs");
    var amount :- DecodeAmountSuffix(suffix);
    var signature :- codec.DecodeFixed(65, hrp, trimmed);
    if signature[64] > 3 then None else Some(Cs1(amount, signature))
  }

  function DecodeCs1WithAmount(codec: Codec, value: string): (r: Option<Cs1>)
    ensures r.Some? ==> |r.value.signature| == 65 && r.value.signature[64] <= 3
  {
    var trimmed := Trim(value);
    var separator :- LastIndexOf(trimmed, '1');
    DecodeUnderPrefix(codec, Lower(trimmed[..separator]), trimmed)
  }

  lemma CsPrefix(suffix: string)
    requires 1 <= |suffix| <= 22 && AllPrefixChars(suffix)
    ensures IsPrefix("cs" + suffix) && Lower("cs" + suffix) == "cs" + suffix
    ensures StripPrefix("cs" + suffix, "cs") == Some(suffix)
  {
    hide Lower, LowerChar;
    var hrp := "cs" + suffix;
    assert "cs"[0] == 'c' && "cs"[1] == 's';
    assert forall i | 0 <= i < |hrp| :: hrp[i] == if i < 2 then "cs"[i] else suffix[i - 2];
    assert AllPrefixChars(hrp);
    LowerOfLower(hrp);
    assert hrp[2..] == suffix;
  }

  lemma DecodeOfEncoded(codec: Codec, hrp: string, payload: bytes)
    requires codec.Valid() && IsPrefix(hrp) && Lower(hrp) == hrp
    ensures DecodeCs1WithAmount(codec, codec.Encode(hrp, payload)) ==
            DecodeUnderPrefix(codec, hrp, codec.Encode(hrp, payload))
  {
    hide DecodeUnderPrefix, Lower, Trim, LastIndexOf, LowerChar, IsPrefix, DataLength, Codec.Valid;
    codec.EncodedShape(hrp, payload);
    assert codec.Encode(hrp, payload)[..|hrp|] == hrp;
  }

  /** A certificate's amount and signature come back for every u64 amount,
      whatever '1's its digits hold, exactly when the recovery id is 0 to 3. */
  lemma Cs1RoundTrip(codec: Codec, amount: nat, signature: bytes)
    requires codec.Valid() && amount <= U64_MAX && |signature| == 65
    ensures DecodeCs1WithAmount(codec, EncodeCs1WithAmount(codec, amount, signature)) ==
            if signature[64] <= 3 then Some(Cs1(amount, signature)) else None
  {
    var suffix := EncodeAmountSuffix(amount);
    var hrp := "cs" + suffix;
    SuffixLength(amount);
    AmountSuffixRoundTrip(amount);
    CsPrefix(suffix);
    codec.RoundTrip(hrp, signature);
    DecodeOfEncoded(codec, hrp, signature);
  }

  /** A certificate is read in whatever case the codec reads it, outer
      whitespace aside, and refused exactly for a last byte that is no recovery id. */
  lemma Cs1Reads(codec: Codec, suffix: string, value: string, signature: bytes)
    requires codec.Valid() && |signature| == 65 && IsPrefix("cs" + suffix) && |Trim(value)| <= 8192
    requires Lower(Trim(value)) == codec.Encode("cs" + suffix, signature)
    requires codec.decodeRaw("cs" + suffix, Trim(value)) == Some(signature)
    ensures DecodeCs1WithAmount(codec, value) ==
            match DecodeAmountSuffix(suffix)
            case None => None
            case Some(amount) => if signature[64] <= 3 then Some(Cs1(amount, signature)) else None
  {
    hide Trim, Lower, LastIndexOf, DecodeAmountSuffix, IsPrefix, Codec.Valid, DataLength;
    codec.SeparatorOfLower("cs" + suffix, Trim(value), signature);
    codec.DecodeIgnoresSpace("cs" + suffix, value);
    assert ("cs" + suffix)[2..] == suffix;
  }

  /** A suffix that states an amount is digits and at most one multiplier. */
  lemma SuffixChars(suffix: string)
    requires DecodeAmountSuffix(suffix).Some?
    ensures AllPrefixChars("cs" + suffix)
  {
    var (digits, unit) := SplitUnit(suffix);
    hide DecimalValue, AmountFrom;
    assert forall i | 0 <= i < |digits| :: IsDigit(digits[i]) && digits[i] == suffix[i];
    assert AllPrefixChars(suffix);
    hide SplitUnit;
    var hrp := "cs" + suffix;
    assert forall i | 0 <= i < |hrp| :: hrp[i] == if i < 2 then "cs"[i] else suffix[i - 2];
  }

  lemma UnderPrefixIsEncoding(codec: Codec, hrp: string, trimmed: string)
    requires codec.Valid() && DecodeUnderPrefix(codec, hrp, trimmed).Some? && Trim(trimmed) == trimmed
    ensures "cs" <= hrp
    ensures var cs1 := DecodeUnderPrefix(codec, hrp, trimmed).value;
            DecodeAmountSuffix(hrp[2..]) == Some(cs1.amountMsat) && Lower(trimmed) == codec.Encode(hrp, cs1.signature)
  {
    var suffix := StripPrefix(hrp, "cs").value;
    SuffixChars(suffix);
    assert hrp == "cs" + suffix && hrp[2..] == suffix;
    hide DecodeAmountSuffix, Lower, Trim;
    codec.Canonical(hrp, trimmed);
  }

  /** No certificate string can be moved under another amount's prefix: what
      decodes is the encoding, up to case, of a prefix stating that amount. */
  lemma Cs1StatesItsAmount(codec: Codec, value: string) returns (suffix: string)
    requires codec.Valid() && DecodeCs1WithAmount(codec, value).Some?
    ensures var cs1 := DecodeCs1WithAmount(codec, value).value;
            && DecodeAmountSuffix(suffix) == Some(cs1.amountMsat)
            && Lower(Trim(value)) == codec.Encode("cs" + suffix, cs1.signature)
  {
    var trimmed := Trim(value);
    TrimIdempotent(value);
    var hrp := Lower(trimmed[..LastIndexOf(trimmed, '1').value]);
    UnderPrefixIsEncoding(codec, hrp, trimmed);
    suffix := hrp[2..];
    assert hrp == "cs" + suffix;
  }

  // ---- BOLT-11 ----

  /** What follows "ln" and the network, the longest network name first. */
  function StripNetworkPrefix(lowered: string): Option<string> {
    var rest :- StripPrefix(lowered, "ln");
    if "bcrt" <= rest then StripPrefix(rest, "bcrt")
    else if "bc" <= rest then StripPrefix(rest, "bc")
    else if "tbs" <= rest then StripPrefix(rest, "tbs")
    else if "tb" <= rest then StripPrefix(rest, "tb")
    else StripPrefix(rest, "sb")
  }

  function SplitAtSeparator(lowered: string): (r: Option<(string, string)>)
    ensures r.Some? ==> lowered == r.value.0 + "1" + r.value.1 && '1' !in r.value.1 && |r.value.0| >= 2
    ensures r.None? ==> forall i | 2 <= i < |lowered| :: lowered[i] != '1'
  {
    var separator :- LastIndexOf(lowered, '1');
    if separator < 2 then None else Some((lowered[..separator], lowered[separator + 1..]))
  }

  function LeadingDigits(s: string): (n: nat)
    ensures n <= |s| && AllDigits(s[..n])
    ensures n < |s| ==> !IsDigit(s[n])
  {
    if s == [] || !IsDigit(s[0]) then 0
    else
      assert forall i | 0 <= i < LeadingDigits(s[1..]) :: s[i + 1] == s[1..][i];
      1 + LeadingDigits(s[1..])
  }

  /** The amount and multiplier after "ln" and the network, and nothing else. */
  function ParseHrp(hrp: string): Option<(Option<nat>, string)> {
    var rest :- StripNetworkPrefix(hrp);
    var end := LeadingDigits(rest);
    var digits, multiplier := rest[..end], rest[end..];
    if multiplier != "" && multiplier != "m" && multiplier != "u" && multiplier != "n" && multiplier != "p" then None
    else if digits == "" then Some((None, multiplier))
    else
      var amount :- ParseDigits(digits, U64_MAX);
      Some((Some(amount), multiplier))
  }

  function AmountOfHrp(hrp: string): Option<nat> {
    var parsed :- ParseHrp(hrp);
    var value :- parsed.0;
    AmountIn(value, parsed.1)
  }

  function AmountIn(value: nat, multiplier: string): Option<nat> {
    if multiplier == "" then AtMost(value * 100_000_000_000, U64_MAX)
    else if multiplier == "m" then AtMost(value * 100_000_000, U64_MAX)
    else if multiplier == "u" then AtMost(value * 100_000, U64_MAX)
    else if multiplier == "n" then AtMost(value * 100, U64_MAX)
    else if value % 10 == 0 then Some(value / 10)
    else None
  }

  function DecodeBolt11AmountMsat(invoice: string): Option<nat> {
    var parts :- SplitAtSeparator(Lower(Trim(invoice)));
    AmountOfHrp(parts.0)
  }

  /** The networks an invoice may name. */
  predicate IsNetwork(network: string) {
    network == "bc" || network == "tb" || network == "tbs" || network == "bcrt" || network == "sb"
  }

  lemma StripsNetwork(network: string, rest: string)
    requires IsNetwork(network) && (rest == "" || IsDigit(rest[0]))
    ensures StripNetworkPrefix("ln" + network + rest) == Some(rest)
  {
    var tail := network + rest;
    assert "ln" + network + rest == "ln" + tail;
    assert ("ln" + tail)[2..] == tail;
    assert tail[|network|..] == rest;
    assert forall i | 0 <= i < |network| :: tail[i] == network[i];
    assert |tail| > |network| ==> tail[|network|] == rest[0];
    StripsFirst(network, tail);
  }

  lemma StripsFirst(network: string, tail: string)
    requires IsNetwork(network) && network <= tail && (|tail| == |network| || IsDigit(tail[|network|]))
    ensures StripNetworkPrefix("ln" + tail) == Some(tail[|network|..])
  {
    assert ("ln" + tail)[2..] == tail;
    assert "bcrt" <= tail ==> tail[1] == 'c' && tail[2] == 'r';
    assert "tbs" <= tail ==> tail[2] == 's';
    assert "tb" <= tail ==> tail[0] == 't';
    assert "bc" <= tail ==> tail[0] == 'b';
  }

  /** A whole invoice, on every network and in any case of its data, states the
      amount its suffix does: the last '1' is where the amount ends. */
  lemma WholeInvoice(network: string, amount: nat, data: string)
    requires IsNetwork(network) && amount <= U64_MAX && InvoiceCanState(amount)
    requires '1' !in data && AllPrefixChars(data)
    ensures DecodeBolt11AmountMsat("ln" + network + EncodeAmountSuffix(amount) + "1" + data) == Some(amount)
  {
    hide DecodeAmountSuffix, AmountOfHrp, StripNetworkPrefix, EncodeAmountSuffix, IsWidePico, InvoiceCanState, Lower,
         Trim, LastIndexOf;
    var suffix := EncodeAmountSuffix(amount);
    var hrp := "ln" + network + suffix;
    var invoice := hrp + "1" + data;
    AmountSuffixRoundTrip(amount);
    NarrowSuffix(amount);
    StripsNetwork(network, suffix);
    InvoiceIsTidy(hrp, data);
    LastIndexIs(hrp, '1', data);
    assert invoice[..|hrp|] == hrp;
    DecodersAgree(hrp);
  }

  lemma InvoiceIsTidy(hrp: string, data: string)
    requires AllPrefixChars(hrp) && AllPrefixChars(data) && hrp != ""
    ensures Lower(Trim(hrp + "1" + data)) == hrp + "1" + data
  {
    var s := hrp + "1" + data;
    assert forall i | 0 <= i < |s| ::
        s[i] == if i < |hrp| then hrp[i] else if i == |hrp| then '1' else data[i - |hrp| - 1];
    assert AllPrefixChars(s);
    PrefixCharsAreTidy(s);
  }

  lemma PrefixCharsAreTidy(s: string)
    requires AllPrefixChars(s)
    ensures Lower(Trim(s)) == s
  {
    TrimOfTrimmed(s);
    LowerOfLower(s);
  }

  /** Letter case and outer whitespace of an invoice say nothing. */
  lemma InvoiceInAnyCase(invoice: string)
    ensures DecodeBolt11AmountMsat(invoice) == DecodeBolt11AmountMsat(Lower(Trim(invoice)))
  {
    hide Lower, Trim;
    TrimOfLower(Trim(invoice));
    TrimIdempotent(invoice);
    LowerIdempotent(Trim(invoice));
  }

  /** An invoice without an amount states none. */
  lemma AmountlessInvoice(network: string, data: string)
    requires IsNetwork(network) && '1' !in data && AllPrefixChars(data)
    ensures DecodeBolt11AmountMsat("ln" + network + "1" + data) == None
  {
    hide Lower, Trim, LastIndexOf, StripNetworkPrefix;
    var hrp := "ln" + network;
    InvoiceIsTidy(hrp, data);
    LastIndexIs(hrp, '1', data);
    assert (hrp + "1" + data)[..|hrp|] == hrp;
    StripsNetwork(network, "");
    assert hrp + "" == hrp;
  }

  /** A pico suffix whose digits alone pass a u64. */
  predicate IsWidePico(suffix: string) {
    var (digits, unit) := SplitUnit(suffix);
    unit == 'p' && AllDigits(digits) && DecimalValue(digits) > U64_MAX
  }

  /** A suffix whose digits are all digits is read up to its unit by both. */
  lemma AllDigitsLead(s: string)
    requires AllDigits(SplitUnit(s).0)
    ensures LeadingDigits(s) == |SplitUnit(s).0|
    ensures s == SplitUnit(s).0 + if SplitUnit(s).1 == '0' then "" else [SplitUnit(s).1]
  {
    hide LeadingDigits;
  }

  lemma LeadingDigitsOf(s: string)
    ensures var n := LeadingDigits(s); var (digits, unit) := SplitUnit(s);
            AllDigits(digits) <==> (s[n..] == "" || (|s[n..]| == 1 && IsUnit(s[n]) && s[n] != '0'))
    ensures var n := LeadingDigits(s); var (digits, unit) := SplitUnit(s);
            AllDigits(digits) ==> s[..n] == digits && s[n..] == if unit == '0' then "" else [unit]
  {
    var n := LeadingDigits(s);
    var (digits, unit) := SplitUnit(s);
    hide LeadingDigits;
    if AllDigits(digits) {
      AllDigitsLead(s);
    } else {
      if n == |s| || (n + 1 == |s| && IsUnit(s[n]) && s[n] != '0') {
        UnitFollowsDigits(s, n);
      }
    }
  }

  lemma UnitFollowsDigits(s: string, n: nat)
    requires n <= |s| && AllDigits(s[..n]) && (n == |s| || (n + 1 == |s| && IsUnit(s[n]) && s[n] != '0'))
    ensures AllDigits(SplitUnit(s).0)
  {
    assert n == |s| ==> s[..n] == s;
    assert s != [] && n == |s| ==> IsDigit(s[|s| - 1]);
  }

  /** The two decoders agree on every suffix but a wide pico one: BOLT-11's
      reads digits into a u64 and so refuses those, the `cs1` one reads them
      into a u128. */
  lemma DecodersAgree(hrp: string)
    requires StripNetworkPrefix(hrp).Some?
    ensures var suffix := StripNetworkPrefix(hrp).value;
            AmountOfHrp(hrp) == if IsWidePico(suffix) then None else DecodeAmountSuffix(suffix)
  {
    hide StripNetworkPrefix, LeadingDigits, SplitUnit, DecimalValue;
    var suffix := StripNetworkPrefix(hrp).value;
    LeadingDigitsOf(suffix);
    var (digits, unit) := SplitUnit(suffix);
    var n := LeadingDigits(suffix);
    if !AllDigits(digits) || digits == "" {
      assert DecodeAmountSuffix(suffix).None?;
    } else {
      var v := DecimalValue(digits);
      if v <= U64_MAX {
        assert ParseHrp(hrp) == Some((Some(v), suffix[n..]));
      } else {
        assert ParseHrp(hrp).None?;
      }
    }
  }

  /** Every amount an invoice states is the one its suffix states as a `cs1`. */
  lemma InvoiceAmountIsItsSuffix(invoice: string)
    requires DecodeBolt11AmountMsat(invoice).Some?
    ensures var hrp := SplitAtSeparator(Lower(Trim(invoice))).value.0;
            StripNetworkPrefix(hrp).Some?
            && DecodeAmountSuffix(StripNetworkPrefix(hrp).value) == DecodeBolt11AmountMsat(invoice)
  {
    DecodersAgree(SplitAtSeparator(Lower(Trim(invoice))).value.0);
  }

  /** Whether BOLT-11's decoder can be made to state an amount. */
  predicate InvoiceCanState(amount: nat) {
    amount % 100 == 0 || 10 * amount <= U64_MAX
  }

  lemma Hundreds(n: nat)
    ensures (n * 100) % 100 == 0
  {
  }

  lemma AmountInReach(value: nat, multiplier: string)
    requires value <= U64_MAX && AmountIn(value, multiplier).Some?
    ensures InvoiceCanState(AmountIn(value, multiplier).value)
  {
    Hundreds(value * 1_000_000_000);
    Hundreds(value * 1_000_000);
    Hundreds(value * 1_000);
    Hundreds(value);
  }

  lemma StatedAmount(hrp: string)
    requires AmountOfHrp(hrp).Some?
    ensures InvoiceCanState(AmountOfHrp(hrp).value)
  {
    HrpDigits(hrp);
    hide ParseHrp, AmountIn, InvoiceCanState;
    var (value, multiplier) := ParseHrp(hrp).value;
    AmountInReach(value.value, multiplier);
  }

  lemma HrpDigits(hrp: string)
    requires ParseHrp(hrp).Some? && ParseHrp(hrp).value.0.Some?
    ensures ParseHrp(hrp).value.0.value <= U64_MAX
  {
    hide StripNetworkPrefix, LeadingDigits, DecimalValue;
  }

  /** A suffix whose digits fit a u64 is not a wide pico one. */
  lemma NarrowSuffix(amount: nat)
    requires amount <= U64_MAX && InvoiceCanState(amount)
    ensures !IsWidePico(EncodeAmountSuffix(amount))
    ensures IsDigit(EncodeAmountSuffix(amount)[0])
  {
    var (value, unit) := CoarsestUnit(amount);
    SplitWithUnit(value, unit);
  }

  lemma InvoiceForNarrow(amount: nat)
    requires amount <= U64_MAX && InvoiceCanState(amount)
    ensures AmountOfHrp("lnbc" + EncodeAmountSuffix(amount)) == Some(amount)
  {
    hide DecodeAmountSuffix, AmountOfHrp, StripNetworkPrefix, EncodeAmountSuffix, IsWidePico, InvoiceCanState;
    var suffix := EncodeAmountSuffix(amount);
    AmountSuffixRoundTrip(amount);
    NarrowSuffix(amount);
    StripsNetwork("bc", suffix);
    assert "ln" + "bc" + suffix == "lnbc" + suffix;
    DecodersAgree("lnbc" + suffix);
  }

  /** Where they part: an amount is out of every prefix's reach, on every
      network, exactly when only pico digits past a u64 state it. */
  lemma StatableIff(amount: nat)
    requires amount <= U64_MAX
    ensures (exists hrp :: AmountOfHrp(hrp) == Some(amount)) <==> InvoiceCanState(amount)
  {
    hide AmountOfHrp, EncodeAmountSuffix, InvoiceCanState;
    forall hrp | AmountOfHrp(hrp) == Some(amount) ensures InvoiceCanState(amount) {
      StatedAmount(hrp);
    }
    if InvoiceCanState(amount) {
      InvoiceForNarrow(amount);
    }
  }

  /** The `cs1` suffix of such an amount states it; no invoice does. */
  lemma WidePicoAmounts(amount: nat, invoice: string)
    requires amount <= U64_MAX && !InvoiceCanState(amount)
    ensures DecodeAmountSuffix(EncodeAmountSuffix(amount)) == Some(amount)
    ensures DecodeBolt11AmountMsat(invoice) != Some(amount)
  {
    AmountSuffixRoundTrip(amount);
    hide DecodeAmountSuffix, AmountOfHrp, EncodeAmountSuffix, SplitAtSeparator, Lower, Trim, InvoiceCanState;
    if DecodeBolt11AmountMsat(invoice).Some? {
      StatedAmount(SplitAtSeparator(Lower(Trim(invoice))).value.0);
    }
  }

  /** And a suffix with such digits is refused in every invoice. */
  lemma WidePicoIsRefused(invoice: string)
    requires SplitAtSeparator(Lower(Trim(invoice))).Some?
    requires var suffix := StripNetworkPrefix(SplitAtSeparator(Lower(Trim(invoice))).value.0);
             suffix.Some? && IsWidePico(suffix.value)
    ensures DecodeBolt11AmountMsat(invoice) == None
  {
    DecodersAgree(SplitAtSeparator(Lower(Trim(invoice))).value.0);
  }
}
