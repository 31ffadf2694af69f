// Bytes, fixed-width integers in either byte order, and hexadecimal.

module Bytes {
  import opened Wrappers
  import opened Text

  type byte = x: int | 0 <= x < 256
  type bytes = seq<byte>
  const U64_MAX: nat := 0xFFFF_FFFF_FFFF_FFFF
  type u32 = x: int | 0 <= x <= 0xFFFF_FFFF

  function Pow256(k: nat): (p: nat)
    ensures p >= 1
  {
    if k == 0 then 1 else 256 * Pow256(k - 1)
  }

  function Pow2(k: nat): (p: nat)
    ensures p >= 1
  {
    if k == 0 then 1 else 2 * Pow2(k - 1)
  }

  lemma Pow2Step(k: nat)
    ensures Pow2(k + 1) == 2 * Pow2(k)
  {
  }

  lemma {:induction false} Pow2Monotone(j: nat, k: nat)
    requires j <= k
    ensures Pow2(j) <= Pow2(k)
    decreases k - j
  {
    if j < k { Pow2Monotone(j, k - 1); }
  }

  /** `to_be_bytes` of a `width`-byte integer. */
  function BigEndian(n: nat, width: nat): (s: bytes)
    ensures |s| == width
  {
    if width == 0 then [] else BigEndian(n / 256, width - 1) + [n % 256]
  }

  function FromBigEndian(s: bytes): nat {
    if s == [] then 0 else FromBigEndian(s[..|s| - 1]) * 256 + s[|s| - 1]
  }

  /** `to_le_bytes` of a `width`-byte integer. */
  function LittleEndian(n: nat, width: nat): (s: bytes)
    ensures |s| == width
  {
    if width == 0 then [] else [n % 256] + LittleEndian(n / 256, width - 1)
  }

  function FromLittleEndian(s: bytes): nat {
    if s == [] then 0 else s[0] + 256 * FromLittleEndian(s[1..])
  }

  lemma {:induction false} BigEndianRoundTrip(n: nat, width: nat)
    requires n < Pow256(width)
    ensures FromBigEndian(BigEndian(n, width)) == n
  {
    if width > 0 {
      BigEndianRoundTrip(n / 256, width - 1);
      assert BigEndian(n, width)[..width - 1] == BigEndian(n / 256, width - 1);
    }
  }

  lemma {:induction false} BigEndianOfValue(s: bytes)
    ensures FromBigEndian(s) < Pow256(|s|)
    ensures BigEndian(FromBigEndian(s), |s|) == s
  {
    if s != [] {
      var init := s[..|s| - 1];
      BigEndianOfValue(init);
      assert s == init + [s[|s| - 1]];
    }
  }

  lemma {:induction false} LittleEndianRoundTrip(n: nat, width: nat)
    requires n < Pow256(width)
    ensures FromLittleEndian(LittleEndian(n, width)) == n
  {
    if width > 0 {
      LittleEndianRoundTrip(n / 256, width - 1);
      assert LittleEndian(n, width)[1..] == LittleEndian(n / 256, width - 1);
    }
  }

  lemma {:induction false} LittleEndianOfValue(s: bytes)
    ensures FromLittleEndian(s) < Pow256(|s|)
    ensures LittleEndian(FromLittleEndian(s), |s|) == s
  {
    if s != [] {
      LittleEndianOfValue(s[1..]);
      assert s == [s[0]] + s[1..];
    }
  }

  /** What two and four bytes are worth, least significant first. */
  lemma LittleEndianWeights(s: bytes)
    ensures |s| == 2 ==> FromLittleEndian(s) == s[0] as int + 0x100 * s[1] as int
    ensures |s| == 4 ==>
              FromLittleEndian(s) ==
              s[0] as int + 0x100 * s[1] as int + 0x1_0000 * s[2] as int + 0x100_0000 * s[3] as int
  {
    if |s| == 2 {
      assert s[1..][1..] == [];
    } else if |s| == 4 {
      assert s[1..][1..] == s[2..] && s[2..][1..] == s[3..] && s[3..][1..] == [];
      assert FromLittleEndian(s[2..]) == s[2] as int + 0x100 * FromLittleEndian(s[3..]);
    }
  }

  /** And most significant first. */
  lemma BigEndianWeights(s: bytes)
    ensures |s| == 2 ==> FromBigEndian(s) == 0x100 * s[0] as int + s[1] as int
    ensures |s| == 4 ==>
              FromBigEndian(s) ==
              0x100_0000 * s[0] as int + 0x1_0000 * s[1] as int + 0x100 * s[2] as int + s[3] as int
  {
    if |s| == 2 || |s| == 4 {
      assert s[..2][..1] == s[..1] && s[..1][..0] == [] && s[..|s|] == s;
      assert FromBigEndian(s[..1]) == s[0];
      assert FromBigEndian(s[..2]) == 0x100 * FromBigEndian(s[..1]) + s[1] as int;
    }
    if |s| == 4 {
      assert s[..3][..2] == s[..2];
      assert FromBigEndian(s[..3]) == 0x100 * FromBigEndian(s[..2]) + s[2] as int;
    }
  }

  /** A big-endian value by its first byte. */
  lemma {:induction false} FromBigEndianHead(s: bytes)
    requires s != []
    ensures FromBigEndian(s) == s[0] * Pow256(|s| - 1) + FromBigEndian(s[1..])
  {
    var last := |s| - 1;
    if last > 0 {
      var init := s[..last];
      FromBigEndianHead(init);
      assert init[1..] == s[1..][..last - 1];
      assert s[1..][|s[1..]| - 1] == s[last];
      assert FromBigEndian(s) == FromBigEndian(init) * 256 + s[last];
      assert Pow256(last) == 256 * Pow256(last - 1);
      assert (s[0] * Pow256(last - 1)) * 256 == s[0] * Pow256(last);
    } else {
      assert s[..0] == [] && s[1..] == [];
    }
  }

  lemma LittleEndianInjective(m: nat, n: nat, width: nat)
    requires m < Pow256(width) && n < Pow256(width)
    requires LittleEndian(m, width) == LittleEndian(n, width)
    ensures m == n
  {
    LittleEndianRoundTrip(m, width);
    LittleEndianRoundTrip(n, width);
  }

  lemma Pow256Values()
    ensures Pow256(2) == 0x1_0000 && Pow256(4) == 0x1_0000_0000
    ensures Pow256(8) == 0x1_0000_0000_0000_0000
  {
    assert Pow256(2) == 256 * 256;
    assert Pow256(3) == 0x100_0000;
    assert Pow256(5) == 0x100_0000_0000;
    assert Pow256(6) == 0x1_0000_0000_0000;
    assert Pow256(7) == 0x100_0000_0000_0000;
  }

  /** Equal-length pieces of equal concatenations are equal. */
  lemma SplitConcat<T>(a: seq<T>, b: seq<T>, c: seq<T>, d: seq<T>)
    requires a + b == c + d && (|a| == |c| || |b| == |d|)
    ensures a == c && b == d
  {
    assert |a| == |c|;
    assert (a + b)[..|a|] == a && (c + d)[..|a|] == c;
    assert (a + b)[|a|..] == b && (c + d)[|a|..] == d;
  }

  lemma SliceOfRest<T>(s: seq<T>, from: nat, lo: nat, hi: nat)
    requires lo <= hi && from + hi <= |s|
    ensures s[from..][lo..hi] == s[from + lo..from + hi]
  {
  }

  lemma ThreeSlices<T>(a: seq<T>, b: seq<T>, c: seq<T>)
    ensures var s := a + b + c;
            s[..|a|] == a && s[|a|..|a| + |b|] == b && s[|a| + |b|..] == c
  {
  }

  /** A message as the fields it was grown from. */
  function Concat(fields: seq<bytes>): bytes {
    if fields == [] then [] else Concat(fields[..|fields| - 1]) + fields[|fields| - 1]
  }

  lemma ConcatTake(fields: seq<bytes>, k: nat)
    requires k < |fields|
    ensures Concat(fields[..k + 1]) == Concat(fields[..k]) + fields[k]
  {
    assert fields[..k + 1][..k] == fields[..k];
  }

  /** Fields of agreeing widths are determined by their concatenation. */
  lemma {:induction false} ConcatInjective(f: seq<bytes>, g: seq<bytes>)
    requires |f| == |g| && forall i | 0 <= i < |f| :: |f[i]| == |g[i]|
    requires Concat(f) == Concat(g)
    ensures f == g
  {
    if f != [] {
      var last := |f| - 1;
      SplitConcat(Concat(f[..last]), f[last], Concat(g[..last]), g[last]);
      ConcatInjective(f[..last], g[..last]);
      assert f == f[..last] + [f[last]] && g == g[..last] + [g[last]];
    }
  }

  // ---- hexadecimal ----

  predicate IsHexDigit(c: char) {
    '0' <= c <= '9' || 'a' <= c <= 'f' || 'A' <= c <= 'F'
  }

  function HexDigit(v: nat): (c: char)
    requires v < 16
    ensures IsHexDigit(c) && LowerChar(c) == c
  {
    if v < 10 then ('0' as int + v) as char else ('a' as int + v - 10) as char
  }

  function HexValue(c: char): (v: nat)
    requires IsHexDigit(c)
    ensures v < 16
  {
    if '0' <= c <= '9' then c as int - '0' as int
    else if 'a' <= c <= 'f' then c as int - 'a' as int + 10
    else c as int - 'A' as int + 10
  }

  /** `hex::encode`: lowercase, two digits a byte. */
  function HexEncode(s: bytes): (t: string)
    ensures |t| == 2 * |s|
    ensures forall i | 0 <= i < |t| :: IsHexDigit(t[i]) && LowerChar(t[i]) == t[i]
  {
    if s == [] then [] else [HexDigit(s[0] / 16), HexDigit(s[0] % 16)] + HexEncode(s[1..])
  }

  /** `hex::decode`: either case, an even number of digits. */
  function HexDecode(t: string): (r: Option<bytes>)
    ensures r.Some? ==> |t| == 2 * |r.value|
  {
    if t == [] then Some([])
    else if |t| == 1 || !IsHexDigit(t[0]) || !IsHexDigit(t[1]) then None
    else
      var rest := HexDecode(t[2..]);
      if rest.None? then None else Some([HexValue(t[0]) * 16 + HexValue(t[1])] + rest.value)
  }

  lemma {:induction false} HexRoundTrip(s: bytes)
    ensures HexDecode(HexEncode(s)) == Some(s)
  {
    if s != [] {
      HexRoundTrip(s[1..]);
      var t, hi, lo := HexEncode(s), s[0] / 16, s[0] % 16;
      assert t[0] == HexDigit(hi) && t[1] == HexDigit(lo) && t[2..] == HexEncode(s[1..]);
      assert HexValue(t[0]) * 16 + HexValue(t[1]) == s[0];
      assert [s[0]] + s[1..] == s;
    }
  }

  lemma {:induction false} HexDecodesDigits(t: string)
    requires |t| % 2 == 0 && forall i | 0 <= i < |t| :: IsHexDigit(t[i])
    ensures HexDecode(t).Some?
  {
    if t != [] { HexDecodesDigits(t[2..]); }
  }

  lemma {:induction false} HexDecodeIgnoresCase(t: string)
    ensures HexDecode(Lower(t)) == HexDecode(t)
    decreases |t|
  {
    if |t| >= 2 {
      assert Lower(t)[2..] == Lower(t[2..]);
      HexDecodeIgnoresCase(t[2..]);
    }
  }

  /** What decodes is, up to case, the hexadecimal of what it decodes to. */
  lemma {:induction false} HexOfDecoded(t: string)
    requires HexDecode(t).Some?
    ensures HexEncode(HexDecode(t).value) == Lower(t)
  {
    if t != [] {
      HexOfDecoded(t[2..]);
      DigitsOfByte(t[0], t[1]);
      assert Lower(t) == [LowerChar(t[0]), LowerChar(t[1])] + Lower(t[2..]);
      var s := HexDecode(t).value;
      assert s[1..] == HexDecode(t[2..]).value;
    }
  }

  lemma DigitsOfByte(hi: char, lo: char)
    requires IsHexDigit(hi) && IsHexDigit(lo)
    ensures var v := HexValue(hi) * 16 + HexValue(lo);
            HexDigit(v / 16) == LowerChar(hi) && HexDigit(v % 16) == LowerChar(lo)
  {
    var v := HexValue(hi) * 16 + HexValue(lo);
    assert v / 16 == HexValue(hi) && v % 16 == HexValue(lo);
  }

  lemma HexIsTidy(s: bytes)
    ensures Trim(HexEncode(s)) == HexEncode(s) && Lower(HexEncode(s)) == HexEncode(s)
  {
    var t := HexEncode(s);
    assert forall i | 0 <= i < |t| :: IsHexDigit(t[i]) && !IsWhitespace(t[i]);
    TrimOfTrimmed(t);
    LowerOfLower(t);
  }
}
