// String operations the crate takes from Rust's standard library, and the
// facts about them the codecs rest on.

module Text {
  import opened Wrappers

  // ---- ASCII case, search and trimming ----

  function LowerChar(c: char): char {
    if 'A' <= c <= 'Z' then (c as int + 32) as char else c
  }

  predicate IsLetter(c: char) {
    'a' <= c <= 'z' || 'A' <= c <= 'Z'
  }

  /** `to_ascii_lowercase`. */
  function Lower(s: string): (r: string)
    ensures |r| == |s|
    ensures forall i | 0 <= i < |s| :: r[i] == LowerChar(s[i])
  {
    if s == [] then [] else [LowerChar(s[0])] + Lower(s[1..])
  }

  /** The 26 capitals become the 26 small letters; nothing else changes. */
  lemma LowerIsAscii(c: char, k: nat)
    requires k < 26
    ensures LowerChar("ABCDEFGHIJKLMNOPQRSTUVWXYZ"[k]) == "abcdefghijklmnopqrstuvwxyz"[k]
    ensures c !in "ABCDEFGHIJKLMNOPQRSTUVWXYZ" ==> LowerChar(c) == c
  {
    var capitals, small := "ABCDEFGHIJKLMNOPQRSTUVWXYZ", "abcdefghijklmnopqrstuvwxyz";
    assert forall i | 0 <= i < 26 :: capitals[i] as int == 'A' as int + i;
    assert forall i | 0 <= i < 26 :: small[i] as int == 'a' as int + i;
    if 'A' <= c <= 'Z' { assert capitals[c as int - 'A' as int] == c; }
  }

  lemma LowerIdempotent(s: string)
    ensures Lower(Lower(s)) == Lower(s)
  {
  }

  lemma LowerOfLower(s: string)
    requires forall i | 0 <= i < |s| :: !('A' <= s[i] <= 'Z')
    ensures Lower(s) == s
  {
  }

  lemma LowerConcat(a: string, b: string)
    ensures Lower(a + b) == Lower(a) + Lower(b)
  {
  }

  /** `str::contains`. */
  predicate Contains(s: string, pattern: string) {
    pattern <= s || (s != [] && Contains(s[1..], pattern))
  }

  lemma {:induction false} ContainsMiddle(a: string, pattern: string, b: string)
    ensures Contains(a + pattern + b, pattern)
  {
    if a == [] {
      assert a + pattern + b == pattern + b;
    } else {
      ContainsMiddle(a[1..], pattern, b);
      assert (a + pattern + b)[1..] == a[1..] + pattern + b;
    }
  }

  lemma {:induction false} ContainsAt(s: string, pattern: string) returns (i: nat)
    requires Contains(s, pattern)
    ensures i + |pattern| <= |s| && forall k | 0 <= k < |pattern| :: s[i + k] == pattern[k]
  {
    if pattern <= s {
      i := 0;
    } else {
      var j := ContainsAt(s[1..], pattern);
      i := j + 1;
      assert s == [s[0]] + s[1..];
    }
  }

  /** Unicode's White_Space property, what `str::trim` removes. */
  predicate IsWhitespace(c: char) {
    '\t' <= c <= '\r' || c == ' ' || c == '\U{85}' || c == '\U{A0}' || c == '\U{1680}'
    || '\U{2000}' <= c <= '\U{200A}' || c == '\U{2028}' || c == '\U{2029}' || c == '\U{202F}'
    || c == '\U{205F}' || c == '\U{3000}'
  }

  /** Its 25 code points. */
  lemma WhitespaceCodePoints(c: char)
    ensures IsWhitespace(c) <==> c as int in {9, 10, 11, 12, 13, 32, 133, 160, 5760, 8192, 8193, 8194, 8195, 8196, 8197,
                                              8198, 8199, 8200, 8201, 8202, 8232, 8233, 8239, 8287, 12288}
  {
  }

  function Trim(s: string): (r: string)
    ensures r != [] ==> !IsWhitespace(r[0]) && !IsWhitespace(r[|r| - 1])
    decreases |s|
  {
    if s == [] then []
    else if IsWhitespace(s[0]) then Trim(s[1..])
    else if IsWhitespace(s[|s| - 1]) then Trim(s[..|s| - 1])
    else s
  }

  lemma TrimOfTrimmed(s: string)
    requires forall i | 0 <= i < |s| :: !IsWhitespace(s[i])
    ensures Trim(s) == s
  {
  }

  lemma {:induction false} TrimIdempotent(s: string)
    ensures Trim(Trim(s)) == Trim(s)
  {
  }

  /** Trimming takes whitespace off both ends, and nothing else. */
  lemma {:induction false} TrimTakesOnlyWhitespace(s: string) returns (front: string, back: string)
    ensures s == front + Trim(s) + back
    ensures forall i | 0 <= i < |front| :: IsWhitespace(front[i])
    ensures forall i | 0 <= i < |back| :: IsWhitespace(back[i])
    decreases |s|
  {
    hide IsWhitespace;
    front, back := [], [];
    if s == [] {
    } else if IsWhitespace(s[0]) {
      front, back := TrimTakesOnlyWhitespace(s[1..]);
      front := [s[0]] + front;
      assert s == [s[0]] + s[1..];
    } else if IsWhitespace(s[|s| - 1]) {
      front, back := TrimTakesOnlyWhitespace(s[..|s| - 1]);
      back := back + [s[|s| - 1]];
      assert s == s[..|s| - 1] + [s[|s| - 1]];
    }
  }

  /** Trimming and lowercasing do not disturb each other. */
  lemma {:induction false} TrimOfLower(s: string)
    ensures Trim(Lower(s)) == Lower(Trim(s))
    decreases |s|
  {
    if s != [] {
      var last := |s| - 1;
      assert IsWhitespace(Lower(s)[0]) <==> IsWhitespace(s[0]);
      assert IsWhitespace(Lower(s)[last]) <==> IsWhitespace(s[last]);
      assert Lower(s)[1..] == Lower(s[1..]) && Lower(s)[..last] == Lower(s[..last]);
      TrimOfLower(s[1..]);
      TrimOfLower(s[..last]);
    }
  }

  lemma TrimmedInLower(s: string)
    requires Trim(Lower(s)) == Lower(s)
    ensures Trim(s) == s
  {
    hide Trim, LowerChar;
    TrimOfLower(s);
    var front, back := TrimTakesOnlyWhitespace(s);
    assert |Trim(s)| == |s|;
    assert front == [] && back == [];
  }

  /** `rfind(c)`: the last index of `c`. */
  function LastIndexOf(s: string, c: char): (r: Option<nat>)
    ensures r.Some? ==> r.value < |s| && s[r.value] == c && c !in s[r.value + 1..]
    ensures r.None? ==> c !in s
  {
    if s == [] then None
    else if s[|s| - 1] == c then Some(|s| - 1)
    else
      var r := LastIndexOf(s[..|s| - 1], c);
      assert r.Some? ==> s[r.value + 1..] == s[..|s| - 1][r.value + 1..] + [s[|s| - 1]];
      assert s == s[..|s| - 1] + [s[|s| - 1]];
      r
  }

  lemma {:induction false} LastIndexIs(a: string, c: char, b: string)
    requires c !in b
    ensures LastIndexOf(a + [c] + b, c) == Some(|a|)
  {
    var s := a + [c] + b;
    if b == [] {
      assert s[|s| - 1] == c;
    } else {
      var init := b[..|b| - 1];
      assert s[|s| - 1] == b[|b| - 1] && b[|b| - 1] in b;
      assert s[..|s| - 1] == a + [c] + init;
      LastIndexIs(a, c, init);
    }
  }

  /** Lowercasing moves no character but letters. */
  lemma {:induction false} LastIndexOfLower(s: string, c: char)
    requires !IsLetter(c)
    ensures LastIndexOf(Lower(s), c) == LastIndexOf(s, c)
    decreases |s|
  {
    hide Lower;
    if s != [] {
      var last := |s| - 1;
      assert Lower(s)[last] == LowerChar(s[last]);
      LowerOfInit(s);
      hide LowerChar, IsLetter;
      LastIndexOfLower(s[..last], c);
    }
  }

  lemma LowerOfInit(s: string)
    requires s != []
    ensures Lower(s)[..|s| - 1] == Lower(s[..|s| - 1])
  {
    hide Lower, LowerChar;
  }

  // ---- decimal numbers ----

  predicate IsDigit(c: char) {
    '0' <= c <= '9'
  }

  predicate AllDigits(s: string) {
    forall i | 0 <= i < |s| :: IsDigit(s[i])
  }

  function DigitChar(d: nat): char
    requires d < 10
  {
    ('0' as int + d) as char
  }

  /** A number in decimal, without leading zeros. */
  function Decimal(n: nat): (s: string)
    ensures s != [] && AllDigits(s)
  {
    if n < 10 then [DigitChar(n)] else Decimal(n / 10) + [DigitChar(n % 10)]
  }

  /** The value of a digit string, leading zeros allowed. */
  function DecimalValue(s: string): nat
    requires AllDigits(s)
  {
    if s == [] then 0 else DecimalValue(s[..|s| - 1]) * 10 + (s[|s| - 1] as int - '0' as int)
  }

  lemma {:induction false} DecimalRoundTrip(n: nat)
    ensures DecimalValue(Decimal(n)) == n
  {
    if n < 10 {
      assert Decimal(n)[..0] == [];
    } else {
      DecimalRoundTrip(n / 10);
      assert Decimal(n)[..|Decimal(n)| - 1] == Decimal(n / 10);
    }
  }

  lemma DecimalInjective(m: nat, n: nat)
    requires Decimal(m) == Decimal(n)
    ensures m == n
  {
    DecimalRoundTrip(m);
    DecimalRoundTrip(n);
  }

  /** Digits that do not start with a needless zero are the decimal of their value. */
  lemma {:induction false} DecimalOfValue(s: string)
    requires s != [] && AllDigits(s) && (|s| > 1 ==> s[0] != '0')
    ensures Decimal(DecimalValue(s)) == s
    ensures s[0] != '0' ==> DecimalValue(s) > 0
  {
    var init, last := s[..|s| - 1], s[|s| - 1];
    var d := last as int - '0' as int;
    assert s == init + [last] && DigitChar(d) == last;
    assert DecimalValue(s) == DecimalValue(init) * 10 + d;
    assert DecimalValue([]) == 0;
    hide DecimalValue;
    if init != [] {
      DecimalOfValue(init);
    }
  }

  function Pow10(k: nat): (p: nat)
    ensures p >= 1
  {
    if k == 0 then 1 else 10 * Pow10(k - 1)
  }

  lemma {:induction false} DecimalLength(n: nat, k: nat)
    requires k >= 1 && n < Pow10(k)
    ensures |Decimal(n)| <= k
  {
    if n >= 10 {
      assert k >= 2 by { assert Pow10(1) == 10; }
      DecimalLength(n / 10, k - 1);
    }
  }

  /** The value of a nonempty digit string up to `max`, as `str::parse` reads
      one into an unsigned integer. */
  function ParseDigits(s: string, max: nat): (r: Option<nat>)
  {
    if s != [] && AllDigits(s) && DecimalValue(s) <= max then Some(DecimalValue(s)) else None
  }
}
