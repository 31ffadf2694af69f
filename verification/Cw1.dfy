// The `cw1` script-path spend (src/recoverable.rs): a length-prefixed payload
// in a bech32m string.

module Cw1 {
  import opened Wrappers
  import opened Text
  import opened Bytes
  import opened Hashing
  import opened Bech32
  import opened Curve
  import opened Taproot

  datatype ScriptSpend = ScriptSpend(locktime: u32, sequence: u32, script: bytes, controlBlock: bytes,
                                     stack: seq<bytes>) {
    function Items(): seq<bytes> {
      [script, controlBlock] + stack
    }
  }

  const MAX_ITEM: nat := 0xffff

  // ---- the payload ----

  function EncodeItems(items: seq<bytes>): Option<bytes> {
    if items == [] then Some([])
    else if |items[0]| > MAX_ITEM then None
    else
      var rest :- EncodeItems(items[1..]);
      Some(BigEndian(|items[0]|, 2) + items[0] + rest)
  }

  function EncodePayload(spend: ScriptSpend): Option<bytes> {
    var items :- EncodeItems(spend.Items());
    Some(BigEndian(spend.locktime, 4) + BigEndian(spend.sequence, 4) + items)
  }

  function DecodeItems(s: bytes): Option<seq<bytes>> {
    if s == [] then Some([])
    else if |s| < 2 || |s| < 2 + FromBigEndian(s[..2]) then None
    else
      var end := 2 + FromBigEndian(s[..2]);
      var rest :- DecodeItems(s[end..]);
      Some([s[2..end]] + rest)
  }

  function FromItems(locktime: u32, sequence: u32, items: seq<bytes>): Option<ScriptSpend> {
    if |items| < 2 then None else Some(ScriptSpend(locktime, sequence, items[0], items[1], items[2..]))
  }

  function ReadU32(s: bytes): u32
    requires |s| == 4
  {
    BigEndianOfValue(s);
    Pow256Values();
    FromBigEndian(s)
  }

  function DecodePayload(payload: bytes): Option<ScriptSpend> {
    if |payload| < 8 then None
    else
      var items :- DecodeItems(payload[8..]);
      FromItems(ReadU32(payload[..4]), ReadU32(payload[4..8]), items)
  }

  lemma {:induction false} EncodeItemsSnoc(items: seq<bytes>, item: bytes)
    ensures EncodeItems(items + [item]) ==
            var init := EncodeItems(items);
            if init.None? || |item| > MAX_ITEM then None
            else Some(init.value + (BigEndian(|item|, 2) + item))
  {
    if items == [] {
      assert items + [item] == [item];
      assert [item][1..] == [];
      if |item| <= MAX_ITEM {
        var last := BigEndian(|item|, 2) + item;
        assert last + [] == last && [] + last == last;
      }
    } else {
      EncodeItemsSnoc(items[1..], item);
      assert (items + [item])[1..] == items[1..] + [item];
      var rest := EncodeItems(items[1..]);
      if |items[0]| <= MAX_ITEM && rest.Some? && |item| <= MAX_ITEM {
        var head, last := BigEndian(|items[0]|, 2) + items[0], BigEndian(|item|, 2) + item;
        assert head + (rest.value + last) == (head + rest.value) + last;
      }
    }
  }

  lemma {:induction false} EncodeItemsFails(items: seq<bytes>, at: nat)
    requires at < |items| && |items[at]| > MAX_ITEM
    ensures EncodeItems(items).None?
  {
    if at > 0 { EncodeItemsFails(items[1..], at - 1); }
  }

  /** `encode_cw1`'s payload, grown item by item. */
  method EncodeCw1Payload(spend: ScriptSpend) returns (payload: Option<bytes>)
    ensures payload == EncodePayload(spend)
  {
    var items := spend.Items();
    var header := BigEndian(spend.locktime, 4) + BigEndian(spend.sequence, 4);
    var out := header;
    var at := 0;
    while at < |items|
      invariant at <= |items|
      invariant EncodeItems(items[..at]).Some? && out == header + EncodeItems(items[..at]).value
    {
      if |items[at]| > MAX_ITEM {
        EncodeItemsFails(items, at);
        return None;
      }
      assert items[..at + 1] == items[..at] + [items[at]];
      EncodeItemsSnoc(items[..at], items[at]);
      out := out + (BigEndian(|items[at]|, 2) + items[at]);
      at := at + 1;
    }
    assert items[..at] == items;
    return Some(out);
  }

  lemma DecodeItemsAt(payload: bytes, at: nat)
    requires at <= |payload|
    ensures at == |payload| ==> DecodeItems(payload[at..]) == Some([])
    ensures at < |payload| < at + 2 ==> DecodeItems(payload[at..]) == None
    ensures at + 2 <= |payload| ==>
              var end := at + 2 + FromBigEndian(payload[at..at + 2]);
              if end > |payload| then DecodeItems(payload[at..]) == None
              else var rest := DecodeItems(payload[end..]);
                   DecodeItems(payload[at..]) == if rest.None? then None else Some([payload[at + 2..end]] + rest.value)
  {
    hide FromBigEndian;
    var left := payload[at..];
    if at + 2 <= |payload| {
      assert left[..2] == payload[at..at + 2];
      var len := FromBigEndian(left[..2]);
      if at + 2 + len <= |payload| {
        assert left[2..2 + len] == payload[at + 2..at + 2 + len];
        assert left[2 + len..] == payload[at + 2 + len..];
      }
    }
  }

  /** `decode_cw1`'s item loop, moving an index over the payload. */
  method DecodeItemList(payload: bytes) returns (decoded: Option<seq<bytes>>)
    requires |payload| >= 8
    ensures decoded == DecodeItems(payload[8..])
  {
    hide FromBigEndian, DecodeItems;
    var items: seq<bytes> := [];
    var at := 8;
    ghost var rest := DecodeItems(payload[8..]);
    while at < |payload|
      invariant 8 <= at <= |payload|
      invariant rest == DecodeItems(payload[at..])
      invariant rest.Some? <==> DecodeItems(payload[8..]).Some?
      invariant rest.Some? ==> DecodeItems(payload[8..]).value == items + rest.value
    {
      DecodeItemsAt(payload, at);
      if |payload| < at + 2 {
        return None;
      }
      var len := FromBigEndian(payload[at..at + 2]);
      at := at + 2;
      if |payload| < at + len {
        return None;
      }
      var item := payload[at..at + len];
      at := at + len;
      ghost var next := DecodeItems(payload[at..]);
      assert rest == if next.None? then None else Some([item] + next.value);
      if next.Some? {
        assert items + ([item] + next.value) == (items + [item]) + next.value;
      }
      items := items + [item];
      rest := next;
    }
    DecodeItemsAt(payload, at);
    assert items + [] == items;
    return Some(items);
  }

  /** `decode_cw1`, up to the key its control block commits to. */
  method DecodeCw1Payload(payload: bytes) returns (spend: Option<ScriptSpend>)
    ensures spend == DecodePayload(payload)
  {
    if |payload| < 8 {
      return None;
    }
    var items := DecodeItemList(payload);
    if items.None? {
      return None;
    }
    return FromItems(ReadU32(payload[..4]), ReadU32(payload[4..8]), items.value);
  }

  lemma {:induction false} ItemsRoundTrip(items: seq<bytes>)
    requires EncodeItems(items).Some?
    ensures DecodeItems(EncodeItems(items).value) == Some(items)
  {
    if items != [] {
      ItemsRoundTrip(items[1..]);
      var item, rest := items[0], EncodeItems(items[1..]).value;
      var prefix := BigEndian(|item|, 2);
      var s := prefix + item + rest;
      Pow256Values();
      BigEndianRoundTrip(|item|, 2);
      assert s[..2] == prefix;
      assert s[2..2 + |item|] == item;
      assert s[2 + |item|..] == rest;
      assert items == [item] + items[1..];
    }
  }

  lemma {:induction false} ItemsCanonical(s: bytes)
    requires DecodeItems(s).Some?
    ensures EncodeItems(DecodeItems(s).value) == Some(s)
    decreases |s|
  {
    if s != [] {
      var end := 2 + FromBigEndian(s[..2]);
      BigEndianOfValue(s[..2]);
      Pow256Values();
      ItemsCanonical(s[end..]);
      var items := DecodeItems(s).value;
      assert items[1..] == DecodeItems(s[end..]).value;
      assert s == s[..2] + s[2..end] + s[end..];
    }
  }

  /** Decoding undoes encoding, for every spend whose items fit their
      16-bit lengths. */
  lemma PayloadRoundTrip(spend: ScriptSpend)
    requires EncodePayload(spend).Some?
    ensures DecodePayload(EncodePayload(spend).value) == Some(spend)
  {
    var items := EncodeItems(spend.Items()).value;
    var l, q := BigEndian(spend.locktime, 4), BigEndian(spend.sequence, 4);
    var payload := l + q + items;
    ItemsRoundTrip(spend.Items());
    Pow256Values();
    BigEndianRoundTrip(spend.locktime, 4);
    BigEndianRoundTrip(spend.sequence, 4);
    assert payload[..4] == l && payload[4..8] == q && payload[8..] == items;
    assert spend.Items()[2..] == spend.stack;
  }

  lemma {:induction false} EncodesWhenItemsFit(items: seq<bytes>)
    requires forall i | 0 <= i < |items| :: |items[i]| <= MAX_ITEM
    ensures EncodeItems(items).Some?
  {
    if items != [] { EncodesWhenItemsFit(items[1..]); }
  }

  /** Every accepted payload is the one its spend encodes to: no two payloads
      decode alike. */
  lemma PayloadCanonical(payload: bytes)
    requires DecodePayload(payload).Some?
    ensures EncodePayload(DecodePayload(payload).value) == Some(payload)
  {
    hide BigEndian, FromBigEndian, EncodeItems, DecodeItems;
    var items := DecodeItems(payload[8..]).value;
    ItemsCanonical(payload[8..]);
    assert DecodePayload(payload).value.Items() == items;
    BigEndianOfValue(payload[..4]);
    BigEndianOfValue(payload[4..8]);
    assert payload == payload[..4] + payload[4..8] + payload[8..];
  }

  /** One item of a payload: its length in two bytes, the high one first, then
      itself, then the rest. */
  lemma ItemInBytes(items: seq<bytes>)
    requires items != [] && EncodeItems(items).Some?
    ensures EncodeItems(items[1..]).Some?
    ensures var s := EncodeItems(items).value;
            && |s| >= 2 + |items[0]| && 0x100 * s[0] as int + s[1] as int == |items[0]|
            && s[2..2 + |items[0]|] == items[0] && s[2 + |items[0]|..] == EncodeItems(items[1..]).value
  {
    hide BigEndian, FromBigEndian;
    var prefix, item, rest := BigEndian(|items[0]|, 2), items[0], EncodeItems(items[1..]).value;
    assert EncodeItems(items).value == prefix + item + rest;
    hide EncodeItems;
    Pow256Values();
    BigEndianRoundTrip(|item|, 2);
    BigEndianWeights(prefix);
    ThreeSlices(prefix, item, rest);
  }

  /** The payload in bytes: the two times, the script, the control block, and
      the witness after them, bottom of the stack first. */
  lemma PayloadInBytes(spend: ScriptSpend)
    requires EncodePayload(spend).Some?
    ensures EncodeItems([spend.script, spend.controlBlock] + spend.stack).Some?
    ensures var p := EncodePayload(spend).value;
            && |p| >= 8 && p[8..] == EncodeItems([spend.script, spend.controlBlock] + spend.stack).value
            && 0x100_0000 * p[0] as int + 0x1_0000 * p[1] as int + 0x100 * p[2] as int + p[3] as int == spend.locktime
            && 0x100_0000 * p[4] as int + 0x1_0000 * p[5] as int + 0x100 * p[6] as int + p[7] as int == spend.sequence
  {
    hide BigEndian, FromBigEndian, EncodeItems;
    var l, q := BigEndian(spend.locktime, 4), BigEndian(spend.sequence, 4);
    Pow256Values();
    BigEndianRoundTrip(spend.locktime, 4);
    BigEndianRoundTrip(spend.sequence, 4);
    BigEndianWeights(l);
    BigEndianWeights(q);
    ThreeSlices(l, q, EncodeItems(spend.Items()).value);
  }

  /** A spend encodes exactly when every item's length fits two bytes. */
  lemma {:induction false} EncodesIff(items: seq<bytes>)
    ensures EncodeItems(items).Some? <==> forall i | 0 <= i < |items| :: |items[i]| <= 65535
  {
    if items != [] {
      EncodesIff(items[1..]);
      assert forall i | 1 <= i < |items| :: items[i] == items[1..][i - 1];
    }
  }

  // ---- the string ----

  const MAX_PAYLOAD: nat := 5114

  function EncodeCw1(codec: Codec, spend: ScriptSpend): Option<string> {
    var payload :- EncodePayload(spend);
    Some(codec.Encode("cw", payload))
  }

  function DecodeCw1(codec: Codec, g: Group, sha: Sha256, value: string): Option<ScriptSpend> {
    var payload :- codec.Decode("cw", value);
    var spend :- DecodePayload(payload);
    if OutputKey(g, sha, spend.script, spend.controlBlock).Some? then Some(spend) else None
  }

  /** The string comes back exactly when its control block commits to a key
      and its payload fits the 8192-character cap. */
  lemma StringRoundTrip(codec: Codec, g: Group, sha: Sha256, spend: ScriptSpend)
    requires codec.Valid() && EncodePayload(spend).Some?
    ensures DecodeCw1(codec, g, sha, EncodeCw1(codec, spend).value) ==
            if |EncodePayload(spend).value| <= MAX_PAYLOAD && OutputKey(g, sha, spend.script, spend.controlBlock).Some?
            then Some(spend) else None
  {
    assert IsPrefix("cw");
    codec.RoundTrip("cw", EncodePayload(spend).value);
    PayloadRoundTrip(spend);
  }

  lemma AcceptedPayload(codec: Codec, g: Group, sha: Sha256, value: string)
    requires DecodeCw1(codec, g, sha, value).Some?
    ensures codec.Decode("cw", value).Some?
    ensures DecodePayload(codec.Decode("cw", value).value) == DecodeCw1(codec, g, sha, value)
  {
    hide DecodePayload, OutputKey;
  }

  /** Every accepted string is, up to case and outer whitespace, the one its
      spend encodes to. */
  lemma StringCanonical(codec: Codec, g: Group, sha: Sha256, value: string)
    requires codec.Valid() && DecodeCw1(codec, g, sha, value).Some?
    ensures EncodeCw1(codec, DecodeCw1(codec, g, sha, value).value) == Some(Lower(Trim(value)))
  {
    hide Lower, Trim, DecodePayload, EncodePayload, DecodeCw1, Codec.Valid;
    AcceptedPayload(codec, g, sha, value);
    codec.Canonical("cw", value);
    PayloadCanonical(codec.Decode("cw", value).value);
  }
}
