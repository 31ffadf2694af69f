// LUD-25 mint fees (src/fees.rs): the split floor-division that cannot
// overflow, the fee it computes, and the binary search that inverts it.

module Fees {
  import opened Wrappers
  import opened Bytes

  const MILLION: int := 1_000_000

  // Every intermediate of u64 arithmetic is checked to stay in range, so a
  // body that verifies never wraps.
  newtype u64 = x: int | 0 <= x <= U64_MAX

  datatype MintFee = MintFee(baseFeeMsat: u64, feePpm: u64, addressFeeMsat: Option<u64>)

  // ---- the mathematical fee, over unbounded integers ----

  function ExactFee(gross: nat, ppm: nat): nat {
    gross * ppm / MILLION
  }

  /** What is left of `gross`, never below zero. */
  function Net(gross: nat, base: nat, ppm: nat): nat {
    if gross <= base + ExactFee(gross, ppm) then 0 else gross - base - ExactFee(gross, ppm)
  }

  /** The least gross amount that nets at least `net`. */
  ghost predicate IsLeastGross(gross: nat, net: nat, base: nat, ppm: nat) {
    Net(gross, base, ppm) >= net && forall g: nat | g < gross :: Net(g, base, ppm) < net
  }

  // ---- the code's u64 arithmetic ----

  function SaturatingAdd(a: u64, b: u64): (r: u64)
    ensures r as int == if a as int + b as int <= U64_MAX then a as int + b as int else U64_MAX
  {
    if a <= 0xFFFF_FFFF_FFFF_FFFF - b then a + b else 0xFFFF_FFFF_FFFF_FFFF
  }

  function SaturatingSub(a: u64, b: u64): (r: u64)
    ensures r as int == if a >= b then a as int - b as int else 0
  {
    if a >= b then a - b else 0
  }

  lemma {:induction false} MulBounds(a: nat, b: nat, aMax: nat, bMax: nat)
    requires a <= aMax && b <= bMax
    ensures a * b <= aMax * bMax
  {
    assert a * b <= aMax * b by { assert (aMax - a) * b >= 0; }
    assert aMax * b <= aMax * bMax by { assert aMax * (bMax - b) >= 0; }
  }

  lemma SplitProduct(gross: nat, ppm: nat)
    ensures gross / MILLION * ppm + gross % MILLION * ppm / MILLION == ExactFee(gross, ppm)
  {
    var q, r := gross / MILLION, gross % MILLION;
    assert gross * ppm == (q * ppm) * MILLION + r * ppm by {
      assert gross == q * MILLION + r;
      assert (q * MILLION + r) * ppm == q * MILLION * ppm + r * ppm;
      assert q * MILLION * ppm == (q * ppm) * MILLION;
    }
    DivOfSum(q * ppm, r * ppm);
  }

  lemma DivOfSum(a: nat, b: nat)
    ensures (a * MILLION + b) / MILLION == a + b / MILLION
  {
  }

  /** `floor(gross * ppm / 1_000_000)`, with no product above 2^64. */
  function ProportionalFee(gross: u64, ppm: u64): (fee: u64)
    requires ppm < 1_000_000
    ensures fee as int == ExactFee(gross as int, ppm as int)
    ensures fee <= gross
  {
    assert gross as int / MILLION * ppm as int <= 18446744073709 * 999_999 by {
      MulBounds(gross as int / MILLION, ppm as int, 18446744073709, 999_999);
    }
    assert gross as int % MILLION * ppm as int <= 999_999 * 999_999 by {
      MulBounds(gross as int % MILLION, ppm as int, 999_999, 999_999);
    }
    SplitProduct(gross as int, ppm as int);
    FeeAtMostGross(gross as int, ppm as int);
    (gross / 1_000_000) * ppm + ((gross % 1_000_000) * ppm) / 1_000_000
  }

  lemma FeeAtMostGross(gross: nat, ppm: nat)
    requires ppm < MILLION
    ensures ExactFee(gross, ppm) <= gross
  {
    MulBounds(gross, ppm, gross, MILLION);
  }

  function ApplyMintFee(gross: u64, fee: MintFee): (net: u64)
    requires fee.feePpm < 1_000_000
    ensures net as int == Net(gross as int, fee.baseFeeMsat as int, fee.feePpm as int)
  {
    SaturatingSub(SaturatingSub(gross, fee.baseFeeMsat), ProportionalFee(gross, fee.feePpm))
  }

  // ---- the shape of Net ----

  /** One more msat paid nets zero or one more msat. */
  lemma NetStep(gross: nat, base: nat, ppm: nat)
    requires ppm < MILLION
    ensures Net(gross, base, ppm) <= Net(gross + 1, base, ppm) <= Net(gross, base, ppm) + 1
  {
    assert (gross + 1) * ppm == gross * ppm + ppm;
    assert ExactFee(gross, ppm) <= ExactFee(gross + 1, ppm) <= ExactFee(gross, ppm) + 1;
  }

  lemma {:induction false} NetMonotone(g: nat, h: nat, base: nat, ppm: nat)
    requires g <= h && ppm < MILLION
    ensures Net(g, base, ppm) <= Net(h, base, ppm)
    decreases h - g
  {
    if g < h {
      NetStep(g, base, ppm);
      NetMonotone(g + 1, h, base, ppm);
    }
  }

  /** The least gross nets exactly what was asked, never more. */
  lemma LeastNetsExactly(gross: nat, net: nat, base: nat, ppm: nat)
    requires ppm < MILLION && IsLeastGross(gross, net, base, ppm)
    ensures Net(gross, base, ppm) == net
  {
    if gross > 0 {
      NetStep(gross - 1, base, ppm);
      assert Net(gross - 1, base, ppm) < net;
    }
  }

  lemma LeastIsUnique(g: nat, h: nat, net: nat, base: nat, ppm: nat)
    requires IsLeastGross(g, net, base, ppm) && IsLeastGross(h, net, base, ppm)
    ensures g == h
  {
    assert g < h ==> Net(g, base, ppm) < net;
    assert h < g ==> Net(h, base, ppm) < net;
  }

  /** Any gross with `(net + base) * 10^6 <= gross * (10^6 - ppm)` nets enough. */
  lemma EnoughGross(gross: nat, net: nat, base: nat, ppm: nat)
    requires ppm < MILLION
    requires (net + base) * MILLION <= gross * (MILLION - ppm)
    ensures Net(gross, base, ppm) >= net
  {
    assert gross * (MILLION - ppm) == gross * MILLION - gross * ppm;
    assert ExactFee(gross, ppm) * MILLION <= gross * ppm;
    assert (net + base + ExactFee(gross, ppm)) * MILLION <= gross * MILLION;
  }

  lemma {:induction false} LeastAtOrBelow(gross: nat, net: nat, base: nat, ppm: nat) returns (least: nat)
    requires Net(gross, base, ppm) >= net && ppm < MILLION
    ensures least <= gross && IsLeastGross(least, net, base, ppm)
    decreases gross
  {
    if gross > 0 && Net(gross - 1, base, ppm) >= net {
      least := LeastAtOrBelow(gross - 1, net, base, ppm);
    } else {
      least := gross;
      forall g: nat | g < gross ensures Net(g, base, ppm) < net {
        NetMonotone(g, gross - 1, base, ppm);
      }
    }
  }

  /** Every amount has a least gross, whatever the fee. */
  lemma LeastExists(net: nat, base: nat, ppm: nat)
    requires ppm < MILLION
    ensures exists least: nat :: IsLeastGross(least, net, base, ppm)
  {
    var g := (net + base) * MILLION;
    MulBounds(g, 1, g, MILLION - ppm);
    EnoughGross(g, net, base, ppm);
    var least := LeastAtOrBelow(g, net, base, ppm);
  }

  ghost function LeastGross(net: nat, base: nat, ppm: nat): (least: nat)
    requires ppm < MILLION
    ensures IsLeastGross(least, net, base, ppm)
    ensures Net(least, base, ppm) == net
  {
    LeastExists(net, base, ppm);
    var least: nat :| IsLeastGross(least, net, base, ppm);
    LeastNetsExactly(least, net, base, ppm);
    least
  }

  ghost function LeastFor(net: u64, fee: MintFee): (least: nat)
    requires fee.feePpm < 1_000_000
  {
    LeastGross(net as int, fee.baseFeeMsat as int, fee.feePpm as int)
  }

  // ---- the search ----

  /** The last value the doubling loop can reach before a product overflows. */
  function TopDoubling(start: u64): (top: u64)
    requires start >= 1
    ensures top >= start && top >= 0x8000_0000_0000_0000
    decreases 0xFFFF_FFFF_FFFF_FFFF - start
  {
    if start > 0x7FFF_FFFF_FFFF_FFFF then start else TopDoubling(2 * start)
  }

  lemma Pow2Is64()
    ensures Pow2(64) == U64_MAX + 1
  {
    assert Pow2(8) == 256;
    assert Pow2(16) == 65536;
    assert Pow2(24) == 0x100_0000;
    assert Pow2(32) == 0x1_0000_0000;
    assert Pow2(40) == 0x100_0000_0000;
    assert Pow2(48) == 0x1_0000_0000_0000;
    assert Pow2(56) == 0x100_0000_0000_0000;
  }

  lemma BelowPow2(k: nat)
    requires Pow2(k) <= U64_MAX
    ensures k <= 63
  {
    Pow2Is64();
    if k >= 64 {
      Pow2Monotone(64, k);
    }
  }

  function SearchStart(net: u64, fee: MintFee): (start: u64)
    ensures start >= 1
  {
    var sum := SaturatingAdd(net, fee.baseFeeMsat);
    if sum < 1 then 1 else sum
  }

  lemma {:induction false} DoublingStops(start: u64) returns (k: nat)
    requires start >= 1
    ensures TopDoubling(start) as int == start as int * Pow2(k)
    decreases 0xFFFF_FFFF_FFFF_FFFF - start
  {
    if start > 0x7FFF_FFFF_FFFF_FFFF {
      k := 0;
    } else {
      var j := DoublingStops(2 * start);
      k := j + 1;
      assert 2 * start as int * Pow2(j) == start as int * Pow2(k);
    }
  }

  /** Doubling starts at net and base together, kept within 1 and `u64::MAX`,
      and stops only where one more doubling would overflow. */
  lemma SearchStops(net: u64, fee: MintFee) returns (k: nat)
    ensures var sum := net as int + fee.baseFeeMsat as int;
            var start := if sum == 0 then 1 else if sum > 0xFFFF_FFFF_FFFF_FFFF then 0xFFFF_FFFF_FFFF_FFFF else sum;
            var top := TopDoubling(SearchStart(net, fee)) as int;
            top == start * Pow2(k) && top <= 0xFFFF_FFFF_FFFF_FFFF < 2 * top
  {
    k := DoublingStops(SearchStart(net, fee));
  }

  /** Whether the doubling loop finds an upper bound: the exact guard of the
      `u64::MAX` fallback. */
  predicate SearchSucceeds(net: u64, fee: MintFee)
    requires fee.feePpm < 1_000_000
  {
    net == 0 || ApplyMintFee(TopDoubling(SearchStart(net, fee)), fee) >= net
  }

  /** The search succeeds exactly when the least gross is within the last doubling. */
  lemma SearchSucceedsIff(net: u64, fee: MintFee)
    requires fee.feePpm < 1_000_000
    ensures SearchSucceeds(net, fee) <==> LeastFor(net, fee) <= TopDoubling(SearchStart(net, fee)) as int
    ensures LeastFor(net, fee) <= 0x8000_0000_0000_0000 ==> SearchSucceeds(net, fee)
  {
    var top, least := TopDoubling(SearchStart(net, fee)), LeastFor(net, fee);
    if net == 0 {
      assert Net(0, fee.baseFeeMsat as int, fee.feePpm as int) == 0;
    }
    if least <= top as int {
      NetMonotone(least, top as int, fee.baseFeeMsat as int, fee.feePpm as int);
    }
  }

  /** A gross that falls short leaves everything below it short. */
  lemma BelowThrough(mid: nat, net: nat, base: nat, ppm: nat)
    requires ppm < MILLION && Net(mid, base, ppm) < net
    ensures forall g: nat | g < mid + 1 :: Net(g, base, ppm) < net
  {
    forall g: nat | g < mid + 1 ensures Net(g, base, ppm) < net {
      NetMonotone(g, mid, base, ppm);
    }
  }

  /** The smallest invoice whose note nets `net`, or `u64::MAX` when doubling
      runs out of bits first. At most 127 loop iterations for every input. */
  method GrossUpForMintFee(net: u64, fee: MintFee) returns (gross: u64, ghost iterations: nat)
    requires fee.feePpm < 1_000_000
    ensures SearchSucceeds(net, fee) ==> gross as int == LeastFor(net, fee) && ApplyMintFee(gross, fee) == net
    ensures !SearchSucceeds(net, fee) ==> gross == 0xFFFF_FFFF_FFFF_FFFF
    ensures LeastFor(net, fee) <= 0x8000_0000_0000_0000 ==>
              gross as int == LeastFor(net, fee) && ApplyMintFee(gross, fee) == net
    ensures iterations <= 127
  {
    ghost var base, ppm := fee.baseFeeMsat as int, fee.feePpm as int;
    SearchSucceedsIff(net, fee);
    hide LeastFor, SearchSucceeds;
    iterations := 0;
    if net == 0 {
      gross := 0;
      LeastIsUnique(0, LeastFor(net, fee), 0, base, ppm);
      return;
    }
    var hi := SearchStart(net, fee);
    Pow2Is64();
    assert Pow2(0) == 1;
    hide Pow2, ApplyMintFee, SearchStart, Net, ExactFee;
    while ApplyMintFee(hi, fee) < net
      invariant hi >= 1 && hi as int >= Pow2(iterations)
      invariant TopDoubling(hi) == TopDoubling(SearchStart(net, fee))
      invariant iterations <= 63
      decreases 0xFFFF_FFFF_FFFF_FFFF - hi
    {
      if hi > 0x7FFF_FFFF_FFFF_FFFF {
        iterations := iterations + 1;
        gross := 0xFFFF_FFFF_FFFF_FFFF;
        return;
      }
      hi := 2 * hi;
      Pow2Step(iterations);
      iterations := iterations + 1;
      BelowPow2(iterations);
    }
    NetMonotone(hi as int, TopDoubling(hi) as int, base, ppm);
    var lo: u64 := 0;
    ghost var halvings: nat := 0;
    while lo < hi
      invariant lo <= hi
      invariant ApplyMintFee(hi, fee) >= net
      invariant forall g: nat | g < lo as int :: Net(g, base, ppm) < net as int
      invariant halvings <= 64 && hi as int - lo as int < Pow2(64 - halvings)
      invariant iterations <= 63 + halvings
    {
      var mid := lo + (hi - lo) / 2;
      if ApplyMintFee(mid, fee) >= net {
        hi := mid;
      } else {
        BelowThrough(mid as int, net as int, base, ppm);
        lo := mid + 1;
      }
      Pow2Step(63 - halvings);
      halvings, iterations := halvings + 1, iterations + 1;
    }
    gross := lo;
    LeastIsUnique(gross as int, LeastFor(net, fee), net as int, base, ppm);
  }

  /** A closed-form condition under which the answer is exact. */
  lemma ExactWhenAffordable(net: u64, fee: MintFee)
    requires fee.feePpm < 1_000_000
    requires (net as int + fee.baseFeeMsat as int) * MILLION <= 0x8000_0000_0000_0000 * (MILLION - fee.feePpm as int)
    ensures LeastFor(net, fee) <= 0x8000_0000_0000_0000
  {
    var base, ppm := fee.baseFeeMsat as int, fee.feePpm as int;
    EnoughGross(0x8000_0000_0000_0000, net as int, base, ppm);
  }

  /** The fallback the source calls unreachable is reached with a fee below
      100%, even when the least gross still fits a u64: at 500_001 ppm and
      2^62 msat, doubling stops at 2^63, which nets too little. */
  lemma FallbackIsReachable()
    ensures var fee := MintFee(0, 500_001, None);
            !SearchSucceeds(0x4000_0000_0000_0000, fee) && LeastFor(0x4000_0000_0000_0000, fee) < U64_MAX
  {
    var fee := MintFee(0, 500_001, None);
    var net: u64 := 0x4000_0000_0000_0000;
    assert SearchStart(net, fee) == net;
    assert TopDoubling(net) == TopDoubling(0x8000_0000_0000_0000) == 0x8000_0000_0000_0000;
    assert Net(0x8000_0000_0000_0000, 0, 500_001) < net as int;
    EnoughGross(0x9000_0000_0000_0000, net as int, 0, 500_001);
  }
}
