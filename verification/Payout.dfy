/** Coinbase outputs built for a payout mode, and the check of outputs built by somebody else. */
module Payout {
  import opened Prelude

  const U64_END: nat := 0x1_0000_0000_0000_0000
  const OP_RETURN: nat := 0x6a
  const MIN_LEGACY_SOLO_PAYOUT_PERCENTAGE: nat := 90

  type U64 = n: nat | n < U64_END
  type U8 = n: nat | n < 256
  type Script = seq<Byte>

  datatype TxOut = TxOut(value: U64, script: Script)

  datatype PayoutMode =
    | Solo(address: string, script: Script)
    | LegacySolo(address: string, script: Script)
    | Donate(percentage: U8, address: string, script: Script)
    | FullDonation

  datatype Verdict =
    | Accepted
    | NoSpendableOutputs
    | PayoutMismatch(address: string, expectedSats: U64, expectedPercentage: U8,
                     totalSpendableSats: U64, actualSats: U64)

  // -- u64 arithmetic, which wraps in a release build ------------------------------------------

  function Wrapped(n: nat): U64 {
    n % U64_END
  }

  lemma NoWrap(n: nat)
    requires n < U64_END
    ensures Wrapped(n) == n
  {
  }

  lemma WrapStep(a: nat, b: nat)
    ensures Wrapped(Wrapped(a) + b) == Wrapped(a + b)
  {
  }

  function WrappingMul(a: U64, b: U64): U64 {
    Wrapped(a * b)
  }

  function SaturatingSub(a: U64, b: U64): U64 {
    if a < b then 0 else a - b
  }

  function DivCeil(a: U64, b: U64): U64
    requires b > 1
  {
    a / b + if a % b == 0 then 0 else 1
  }

  function WrappingSum(values: seq<U64>): U64 {
    if values == [] then 0 else Wrapped(WrappingSum(values[..|values| - 1]) + values[|values| - 1])
  }

  // -- The builder ------------------------------------------------------------------------------

  function PoolValue(total: U64, percentage: U8): U64 {
    WrappingMul(total, percentage) / 100
  }

  function CoinbaseOutputs(mode: PayoutMode, total: U64, poolScript: Script): seq<TxOut> {
    match mode
    case Solo(_, script) => [TxOut(total, script)]
    case LegacySolo(_, script) => [TxOut(total, script)]
    case Donate(percentage, _, script) =>
      var poolValue := PoolValue(total, percentage);
      [TxOut(poolValue, poolScript), TxOut(SaturatingSub(total, poolValue), script)]
    case FullDonation => [TxOut(total, poolScript)]
  }

  // -- The check --------------------------------------------------------------------------------

  predicate IsOpReturn(script: Script) {
    script != [] && script[0] == OP_RETURN
  }

  predicate IsSpendable(out: TxOut) {
    !IsOpReturn(out.script)
  }

  function Values(outputs: seq<TxOut>, keep: TxOut -> bool): seq<U64> {
    if outputs == [] then []
    else var last := outputs[|outputs| - 1];
         Values(outputs[..|outputs| - 1], keep) + if keep(last) then [last.value] else []
  }

  function PaysTo(script: Script): TxOut -> bool {
    out => IsSpendable(out) && out.script == script
  }

  function ExpectedMinerSats(mode: PayoutMode, total: U64): U64
    requires !mode.FullDonation?
  {
    match mode
    case Donate(percentage, _, _) => SaturatingSub(total, PoolValue(total, percentage))
    case _ => total
  }

  function ExpectedLegacySoloMinerSats(total: U64): U64 {
    DivCeil(WrappingMul(total, MIN_LEGACY_SOLO_PAYOUT_PERCENTAGE), 100)
  }

  function ExpectedMinerPercentage(mode: PayoutMode): U8
    requires !mode.FullDonation?
  {
    if mode.Donate? then (100 - mode.percentage) % 256 else 100
  }

  function ValidateCoinbaseOutputs(mode: PayoutMode, outputs: seq<TxOut>): Verdict {
    if mode.FullDonation? then Accepted
    else
      var total := WrappingSum(Values(outputs, IsSpendable));
      var actual := WrappingSum(Values(outputs, PaysTo(mode.script)));
      if total == 0 then NoSpendableOutputs
      else if mode.LegacySolo? then
        var expected := ExpectedLegacySoloMinerSats(total);
        if actual < expected
        then PayoutMismatch(mode.address, expected, MIN_LEGACY_SOLO_PAYOUT_PERCENTAGE, total, actual)
        else Accepted
      else
        var expected := ExpectedMinerSats(mode, total);
        if actual != expected
        then PayoutMismatch(mode.address, expected, ExpectedMinerPercentage(mode), total, actual)
        else Accepted
  }

  // -- What the sums mean -----------------------------------------------------------------------

  /** The satoshis of the outputs that `keep` selects, without any wrap-around. */
  function Sats(outputs: seq<TxOut>, keep: TxOut -> bool): nat {
    if outputs == [] then 0
    else var last := outputs[|outputs| - 1];
         Sats(outputs[..|outputs| - 1], keep) + if keep(last) then last.value else 0
  }

  function SpendableSats(outputs: seq<TxOut>): nat {
    Sats(outputs, IsSpendable)
  }

  function MinerSats(outputs: seq<TxOut>, script: Script): nat {
    Sats(outputs, PaysTo(script))
  }

  function OtherSats(outputs: seq<TxOut>, script: Script): nat {
    Sats(outputs, out => IsSpendable(out) && out.script != script)
  }

  lemma {:induction false} SumsWrap(outputs: seq<TxOut>, keep: TxOut -> bool)
    ensures WrappingSum(Values(outputs, keep)) == Wrapped(Sats(outputs, keep))
  {
    hide *;
    if outputs == [] {
      NothingSummed(keep);
    } else {
      var n, last := |outputs| - 1, outputs[|outputs| - 1];
      SumsWrap(outputs[..n], keep);
      OneMoreSummed(Values(outputs[..n], keep), Sats(outputs[..n], keep), last.value);
      LastOutput(outputs, keep);
    }
  }

  lemma NothingSummed(keep: TxOut -> bool)
    ensures WrappingSum(Values([], keep)) == Wrapped(Sats([], keep))
  {
  }

  lemma LastOutput(outputs: seq<TxOut>, keep: TxOut -> bool)
    requires outputs != []
    ensures var n, last := |outputs| - 1, outputs[|outputs| - 1];
            && Values(outputs, keep) == Values(outputs[..n], keep) + (if keep(last) then [last.value] else [])
            && Sats(outputs, keep) == Sats(outputs[..n], keep) + if keep(last) then last.value else 0
  {
    hide Wrapped;
  }

  lemma OneMoreSummed(values: seq<U64>, n: nat, value: U64)
    requires WrappingSum(values) == Wrapped(n)
    ensures WrappingSum(values + [value]) == Wrapped(n + value)
    ensures values + [] == values
  {
    assert (values + [value])[..|values|] == values;
    WrapStep(n, value);
  }

  lemma {:induction false} MinerAndOthers(outputs: seq<TxOut>, script: Script)
    ensures SpendableSats(outputs) == MinerSats(outputs, script) + OtherSats(outputs, script)
  {
    if outputs != [] {
      MinerAndOthers(outputs[..|outputs| - 1], script);
    }
  }

  /** What the documentation allows: a donation of 1 to 99 percent. */
  predicate Documented(mode: PayoutMode) {
    mode.Donate? ==> 1 <= mode.percentage <= 99
  }

  /** The products stay in 64 bits, so no build differs from another. */
  predicate Fits(mode: PayoutMode, total: nat) {
    && total < U64_END
    && (mode.Donate? ==> total * mode.percentage < U64_END)
    && (mode.LegacySolo? ==> total * MIN_LEGACY_SOLO_PAYOUT_PERCENTAGE < U64_END)
  }

  /** The share of the outputs that may go elsewhere, as documented for each mode. */
  predicate HonoursMode(mode: PayoutMode, total: nat, others: nat) {
    match mode
    case Solo(_, _) => others == 0
    case LegacySolo(_, _) => 10 * others <= total
    case Donate(percentage, _, _) => others == total * percentage / 100
    case FullDonation => true
  }

  // -- The check against the documentation ------------------------------------------------------

  lemma MulIsExact(a: U64, b: U64)
    requires a * b < U64_END
    ensures WrappingMul(a, b) == a * b
  {
    hide Wrapped;
    NoWrap(a * b);
  }

  lemma PoolValueIsExact(total: U64, percentage: U8)
    requires total * percentage < U64_END
    ensures PoolValue(total, percentage) == total * percentage / 100
  {
    hide Wrapped, WrappingMul;
    MulIsExact(total, percentage);
  }

  /** Even a product that wrapped stays below the total it was taken from. */
  lemma PoolValueBounded(total: U64, percentage: U8)
    requires percentage <= 100
    ensures PoolValue(total, percentage) <= total
  {
    hide Wrapped, WrappingMul;
    assert total * percentage <= total * 100;
    if total * percentage < U64_END {
      MulIsExact(total, percentage);
    }
  }

  /** 90 percent, rounded up, leave at most a tenth, rounded down. */
  lemma LegacyBound(total: U64, actual: nat)
    requires total * MIN_LEGACY_SOLO_PAYOUT_PERCENTAGE < U64_END && actual <= total
    ensures var expected := ExpectedLegacySoloMinerSats(total);
            && 10 * (expected - 1) < 9 * total <= 10 * expected
            && (actual >= expected <==> 10 * (total - actual) <= total)
  {
    hide Wrapped, WrappingMul;
    MulIsExact(total, MIN_LEGACY_SOLO_PAYOUT_PERCENTAGE);
  }

  lemma DonateBound(total: U64, percentage: U8)
    requires total * percentage < U64_END && percentage <= 100
    ensures SaturatingSub(total, PoolValue(total, percentage)) == total - total * percentage / 100
  {
    hide PoolValue;
    PoolValueIsExact(total, percentage);
    PoolValueBounded(total, percentage);
  }

  /** What the check adds up: the true sums modulo 2^64, the miner's and the others' making up the total. */
  lemma SumsModulo(outputs: seq<TxOut>, script: Script)
    ensures var total, others := Wrapped(SpendableSats(outputs)), Wrapped(OtherSats(outputs, script));
            var actual := WrappingSum(Values(outputs, PaysTo(script)));
            && WrappingSum(Values(outputs, IsSpendable)) == total
            && actual == Wrapped(MinerSats(outputs, script))
            && (total == actual + others || total + U64_END == actual + others)
  {
    hide *;
    MinerAndOthers(outputs, script);
    SpendableIs(outputs);
    MinerIs(outputs, script);
    SumsWrap(outputs, IsSpendable);
    SumsWrap(outputs, PaysTo(script));
    WrappedParts(MinerSats(outputs, script), OtherSats(outputs, script));
  }

  lemma SpendableIs(outputs: seq<TxOut>)
    ensures SpendableSats(outputs) == Sats(outputs, IsSpendable)
  {
  }

  lemma MinerIs(outputs: seq<TxOut>, script: Script)
    ensures MinerSats(outputs, script) == Sats(outputs, PaysTo(script))
  {
  }

  lemma WrappedParts(a: nat, b: nat)
    ensures Wrapped(a + b) == Wrapped(a) + Wrapped(b) || Wrapped(a + b) + U64_END == Wrapped(a) + Wrapped(b)
  {
  }

  /** What the others may get so that the check accepts, all sums being taken modulo 2^64. */
  predicate AcceptedModulo(mode: PayoutMode, total: U64, others: U64, actual: U64) {
    match mode
    case Solo(_, _) => others == 0
    case LegacySolo(_, _) => 100 * actual >= WrappingMul(total, MIN_LEGACY_SOLO_PAYOUT_PERCENTAGE)
    case Donate(percentage, _, _) => others == PoolValue(total, percentage)
    case FullDonation => true
  }

  lemma CeilingReached(n: U64, actual: U64)
    ensures actual >= DivCeil(n, 100) <==> 100 * actual >= n
  {
  }

  /** The exact condition of the check, for all outputs whatever their sums. */
  lemma ValidatesModulo(mode: PayoutMode, outputs: seq<TxOut>)
    requires Documented(mode) && !mode.FullDonation?
    ensures var total, others := Wrapped(SpendableSats(outputs)), Wrapped(OtherSats(outputs, mode.script));
            match ValidateCoinbaseOutputs(mode, outputs)
            case Accepted =>
              total != 0 && AcceptedModulo(mode, total, others, Wrapped(MinerSats(outputs, mode.script)))
            case NoSpendableOutputs => total == 0
            case PayoutMismatch(address, expected, percentage, reportedTotal, actual) =>
              && total != 0 && !AcceptedModulo(mode, total, others, actual)
              && address == mode.address && reportedTotal == total && actual == Wrapped(MinerSats(outputs, mode.script))
              && (mode.LegacySolo? ==> expected == ExpectedLegacySoloMinerSats(total) && percentage == 90)
              && (!mode.LegacySolo? ==> expected == ExpectedMinerSats(mode, total))
              && (mode.Solo? ==> expected == total && percentage == 100)
              && (mode.Donate? ==> percentage + mode.percentage == 100)
  {
    hide Wrapped, SpendableSats, OtherSats, MinerSats, Sats, Values, PaysTo, WrappingSum, PoolValue, DivCeil,
      WrappingMul;
    var total := Wrapped(SpendableSats(outputs));
    SumsModulo(outputs, mode.script);
    if mode.Donate? {
      PoolValueBounded(total, mode.percentage);
    } else if mode.LegacySolo? {
      CeilingReached(WrappingMul(total, MIN_LEGACY_SOLO_PAYOUT_PERCENTAGE), Wrapped(MinerSats(outputs, mode.script)));
    }
  }

  /**
   * Where no sum and no product wraps, the check accepts exactly the outputs that honour the mode,
   * and otherwise reports the true totals and the payout that was missed.
   */
  lemma ValidatesExactly(mode: PayoutMode, outputs: seq<TxOut>)
    requires Documented(mode) && !mode.FullDonation? && Fits(mode, SpendableSats(outputs))
    ensures var total, others := SpendableSats(outputs), OtherSats(outputs, mode.script);
            match ValidateCoinbaseOutputs(mode, outputs)
            case Accepted => total > 0 && HonoursMode(mode, total, others)
            case NoSpendableOutputs => total == 0
            case PayoutMismatch(address, expected, percentage, reportedTotal, actual) =>
              && total > 0 && !HonoursMode(mode, total, others)
              && address == mode.address && reportedTotal == total && actual == total - others
              && (mode.LegacySolo? ==>
                    actual < expected && 10 * (expected - 1) < 9 * total <= 10 * expected && percentage == 90)
              && (!mode.LegacySolo? ==> actual != expected && HonoursMode(mode, total, total - expected))
              && (mode.Solo? ==> percentage == 100)
              && (mode.Donate? ==> percentage + mode.percentage == 100)
  {
    hide Wrapped, SpendableSats, OtherSats, MinerSats, Sats, Values, PaysTo, WrappingSum, PoolValue, SaturatingSub,
      ExpectedLegacySoloMinerSats, ValidateCoinbaseOutputs, WrappingMul;
    var total, others := SpendableSats(outputs), OtherSats(outputs, mode.script);
    MinerAndOthers(outputs, mode.script);
    ValidatesModulo(mode, outputs);
    NoWrap(total);
    NoWrap(others);
    NoWrap(MinerSats(outputs, mode.script));
    if mode.Donate? {
      PoolValueIsExact(total, mode.percentage);
      DonateBound(total, mode.percentage);
    } else if mode.LegacySolo? {
      LegacyBound(total, total - others);
      MulIsExact(total, MIN_LEGACY_SOLO_PAYOUT_PERCENTAGE);
    }
  }

  /** Exactly where solo falls short of its documentation: sums that are positive multiples of 2^64. */
  lemma SoloMeetsExactly(address: string, script: Script, outputs: seq<TxOut>)
    ensures var total, others := SpendableSats(outputs), OtherSats(outputs, script);
            (ValidateCoinbaseOutputs(Solo(address, script), outputs).Accepted? <==> total > 0 && others == 0)
            <==> if others == 0 then total == 0 || Wrapped(total) != 0 else Wrapped(total) == 0 || Wrapped(others) != 0
  {
    hide ValidateCoinbaseOutputs, Wrapped, SpendableSats, OtherSats, MinerSats;
    ValidatesModulo(Solo(address, script), outputs);
    NoWrap(0);
  }

  /** Exactly where the legacy check meets its documentation.  Sums that fit are not enough: the product by
      90 may wrap, and a payout between the wrapped and the true product passes wrongly. */
  lemma LegacyMeetsExactly(address: string, script: Script, outputs: seq<TxOut>)
    ensures var total, others := SpendableSats(outputs), OtherSats(outputs, script);
            var miner, low := MinerSats(outputs, script), Wrapped(total);
            (ValidateCoinbaseOutputs(LegacySolo(address, script), outputs).Accepted?
             <==> total > 0 && 10 * others <= total)
            <==> if total < U64_END then !(Wrapped(90 * total) <= 100 * miner < 90 * total)
                 else (10 * others <= total <==> low != 0 && Wrapped(90 * low) <= 100 * Wrapped(miner))
  {
    hide ValidateCoinbaseOutputs, Wrapped, SpendableSats, OtherSats, MinerSats, WrappingMul, PoolValue;
    var total := SpendableSats(outputs);
    ValidatesModulo(LegacySolo(address, script), outputs);
    MinerAndOthers(outputs, script);
    NinetyPercent(Wrapped(total));
    if total < U64_END {
      NoWrap(total);
      NoWrap(MinerSats(outputs, script));
    }
  }

  lemma NinetyPercent(total: U64)
    ensures WrappingMul(total, MIN_LEGACY_SOLO_PAYOUT_PERCENTAGE) == Wrapped(90 * total) <= 90 * total
  {
  }

  /** Exactly where the donate check meets its documentation: where the product by the percentage fits, or
      the others get neither the true share nor the one the wrapped product gives. */
  lemma DonateMeetsExactly(n: U8, address: string, script: Script, outputs: seq<TxOut>)
    requires Documented(Donate(n, address, script))
    ensures var total, others := SpendableSats(outputs), OtherSats(outputs, script);
            var low := Wrapped(total);
            (ValidateCoinbaseOutputs(Donate(n, address, script), outputs).Accepted?
             <==> total > 0 && others == total * n / 100)
            <==> if total < U64_END
                 then total * n < U64_END || (others != total * n / 100 && others != Wrapped(total * n) / 100)
                 else (others == total * n / 100 <==> low != 0 && Wrapped(others) == PoolValue(low, n))
  {
    hide ValidateCoinbaseOutputs, Wrapped, SpendableSats, OtherSats, MinerSats, PoolValue;
    var total, others := SpendableSats(outputs), OtherSats(outputs, script);
    ValidatesModulo(Donate(n, address, script), outputs);
    MinerAndOthers(outputs, script);
    if total < U64_END {
      NoWrap(total);
      NoWrap(others);
      PoolValueIs(total, n);
      WrappedShareDiffers(total * n);
    }
  }

  lemma PoolValueIs(total: U64, n: U8)
    ensures PoolValue(total, n) == Wrapped(total * n) / 100
  {
  }

  /** A product that wraps loses more than a hundred, so its hundredth is another. */
  lemma WrappedShareDiffers(product: nat)
    ensures product < U64_END ==> Wrapped(product) == product
    ensures product >= U64_END ==> Wrapped(product) / 100 < product / 100
  {
  }

  /** What counts as spendable: everything that does not start with the OP_RETURN byte 0x6a. */
  lemma SpendableExactly(value: U64, script: Script)
    ensures SpendableSats([TxOut(value, script)]) == if script != [] && script[0] == 0x6a then 0 else value
    ensures forall address: string, miner: Script ::
              ValidateCoinbaseOutputs(Solo(address, miner), [TxOut(value, script)]).NoSpendableOutputs?
              <==> value == 0 || (script != [] && script[0] == 0x6a)
  {
    hide ValidateCoinbaseOutputs, Sats, OtherSats, MinerSats;
    var outputs := [TxOut(value, script)];
    OneOutput(outputs[0], IsSpendable);
    SpendableIs(outputs);
    NoWrap(SpendableSats(outputs));
    forall address: string, miner: Script
      ensures ValidateCoinbaseOutputs(Solo(address, miner), outputs).NoSpendableOutputs?
              <==> SpendableSats(outputs) == 0
    {
      ValidatesModulo(Solo(address, miner), outputs);
    }
  }

  /** A total that fits is not enough: all of 2^63 satoshis go to others, and the legacy check accepts. */
  lemma WrapDefeatsLegacy(address: string, script: Script, other: Script)
    requires !IsOpReturn(other) && script != other
    ensures var outputs := [TxOut(0x8000_0000_0000_0000, other)];
            && SpendableSats(outputs) == 0x8000_0000_0000_0000 && MinerSats(outputs, script) == 0
            && ValidateCoinbaseOutputs(LegacySolo(address, script), outputs).Accepted?
  {
    hide ValidateCoinbaseOutputs, Sats, MinerSats, OtherSats, SpendableSats;
    var outputs := [TxOut(U64_END / 2, other)];
    OneOutput(outputs[0], IsSpendable);
    OneOutput(outputs[0], PaysTo(script));
    SpendableIs(outputs);
    MinerIs(outputs, script);
    ValidatesModulo(LegacySolo(address, script), outputs);
  }

  /** Where sums wrap the documentation is not met: others get 2^64 satoshis and solo is accepted. */
  lemma WrapDefeatsSolo(address: string, script: Script, other: Script)
    requires !IsOpReturn(script) && !IsOpReturn(other) && script != other
    ensures var half := U64_END / 2;
            var outputs := [TxOut(5, script), TxOut(half, other), TxOut(half, other)];
            && ValidateCoinbaseOutputs(Solo(address, script), outputs).Accepted?
            && OtherSats(outputs, script) == 0x1_0000_0000_0000_0000
            && !HonoursMode(Solo(address, script), SpendableSats(outputs), OtherSats(outputs, script))
  {
    hide ValidateCoinbaseOutputs, Sats, MinerSats, OtherSats, SpendableSats, PoolValue, WrappingMul;
    var half := U64_END / 2;
    var outputs := [TxOut(5, script), TxOut(half, other), TxOut(half, other)];
    ThreeOutputs(outputs, IsSpendable);
    ThreeOutputs(outputs, PaysTo(script));
    SpendableIs(outputs);
    MinerIs(outputs, script);
    MinerAndOthers(outputs, script);
    ValidatesModulo(Solo(address, script), outputs);
  }

  lemma ThreeOutputs(outputs: seq<TxOut>, keep: TxOut -> bool)
    requires |outputs| == 3
    ensures Sats(outputs, keep) == (if keep(outputs[0]) then outputs[0].value else 0)
                                   + (if keep(outputs[1]) then outputs[1].value else 0)
                                   + (if keep(outputs[2]) then outputs[2].value else 0)
  {
    assert outputs[..2][..1][..0] == [] && outputs[..2][..1][0] == outputs[0] && outputs[..2][1] == outputs[1];
    assert Sats(outputs[..2][..1][..0], keep) == 0;
    assert Sats(outputs[..2], keep) == Sats(outputs[..2][..1], keep) + if keep(outputs[1]) then outputs[1].value else 0;
  }

  // -- Order and OP_RETURN outputs do not matter --------------------------------------------------

  lemma {:induction false} SatsJoin(a: seq<TxOut>, b: seq<TxOut>, keep: TxOut -> bool)
    ensures Sats(a + b, keep) == Sats(a, keep) + Sats(b, keep)
  {
    if b == [] {
      assert a + b == a;
    } else {
      SatsJoin(a, b[..|b| - 1], keep);
      assert (a + b)[..|a + b| - 1] == a + b[..|b| - 1];
    }
  }

  lemma Cancel<T>(a: multiset<T>, b: multiset<T>, x: T)
    requires a + multiset{x} == b + multiset{x}
    ensures a == b
  {
    assert a == (a + multiset{x}) - multiset{x} && b == (b + multiset{x}) - multiset{x};
  }

  /** Taking one output out of the list. */
  lemma TakeOut(b: seq<TxOut>, i: nat, keep: TxOut -> bool)
    requires i < |b|
    ensures var rest := b[..i] + b[i + 1..];
            && multiset(b) == multiset(rest) + multiset{b[i]}
            && Sats(b, keep) == Sats(rest, keep) + if keep(b[i]) then b[i].value else 0
  {
    assert b == b[..i] + ([b[i]] + b[i + 1..]);
    SatsJoin(b[..i], b[i + 1..], keep);
    SatsJoin(b[..i], [b[i]] + b[i + 1..], keep);
    SatsJoin([b[i]], b[i + 1..], keep);
  }

  lemma {:induction false} SatsPermute(a: seq<TxOut>, b: seq<TxOut>, keep: TxOut -> bool)
    requires multiset(a) == multiset(b)
    ensures Sats(a, keep) == Sats(b, keep)
    decreases |a|
  {
    if a == [] {
      assert |multiset(b)| == 0;
    } else {
      var n := |a| - 1;
      assert a == a[..n] + [a[n]] && a[n] in multiset(b);
      var i :| 0 <= i < |b| && b[i] == a[n];
      TakeOut(b, i, keep);
      Cancel(multiset(a[..n]), multiset(b[..i] + b[i + 1..]), a[n]);
      SatsPermute(a[..n], b[..i] + b[i + 1..], keep);
    }
  }

  function SpendableOutputs(outputs: seq<TxOut>): seq<TxOut> {
    if outputs == [] then []
    else var last := outputs[|outputs| - 1];
         SpendableOutputs(outputs[..|outputs| - 1]) + if IsSpendable(last) then [last] else []
  }

  lemma {:induction false} OnlySpendableCounts(outputs: seq<TxOut>, keep: TxOut -> bool)
    requires forall out :: keep(out) ==> IsSpendable(out)
    ensures Sats(outputs, keep) == Sats(SpendableOutputs(outputs), keep)
  {
    if outputs != [] {
      var n := |outputs| - 1;
      OnlySpendableCounts(outputs[..n], keep);
      SatsJoin(SpendableOutputs(outputs[..n]), [outputs[n]], keep);
      assert SpendableOutputs(outputs[..n]) + [] == SpendableOutputs(outputs[..n]);
    }
  }

  lemma SameSats(a: seq<TxOut>, b: seq<TxOut>, keep: TxOut -> bool)
    requires forall out :: keep(out) ==> IsSpendable(out)
    requires multiset(SpendableOutputs(a)) == multiset(SpendableOutputs(b))
    ensures WrappingSum(Values(a, keep)) == WrappingSum(Values(b, keep))
  {
    SumsWrap(a, keep);
    SumsWrap(b, keep);
    OnlySpendableCounts(a, keep);
    OnlySpendableCounts(b, keep);
    SatsPermute(SpendableOutputs(a), SpendableOutputs(b), keep);
  }

  /** The verdict, errors included, depends only on which spendable outputs there are. */
  lemma OrderAndOpReturnsDoNotMatter(mode: PayoutMode, a: seq<TxOut>, b: seq<TxOut>)
    requires multiset(SpendableOutputs(a)) == multiset(SpendableOutputs(b))
    ensures ValidateCoinbaseOutputs(mode, a) == ValidateCoinbaseOutputs(mode, b)
  {
    if !mode.FullDonation? {
      SameSats(a, b, IsSpendable);
      SameSats(a, b, PaysTo(mode.script));
    }
  }

  // -- The builder against the check ------------------------------------------------------------

  /** No satoshi is lost or made up, whatever the total: a product that wraps only moves the split. */
  lemma BuilderConserves(mode: PayoutMode, total: U64, poolScript: Script)
    requires Documented(mode)
    ensures Sats(CoinbaseOutputs(mode, total, poolScript), _ => true) == total
  {
    var built := CoinbaseOutputs(mode, total, poolScript);
    if mode.Donate? {
      PoolValueBounded(total, mode.percentage);
      TwoOutputs(built[0], built[1], _ => true);
    } else {
      OneOutput(built[0], _ => true);
    }
  }

  lemma TwoOutputs(first: TxOut, second: TxOut, keep: TxOut -> bool)
    ensures Sats([first, second], keep)
            == (if keep(first) then first.value else 0) + (if keep(second) then second.value else 0)
  {
    SatsJoin([first], [second], keep);
    assert [first, second] == [first] + [second];
  }

  /** What the pool is meant to get. */
  function PoolShare(mode: PayoutMode, total: nat): nat {
    match mode
    case Donate(percentage, _, _) => total * percentage / 100
    case FullDonation => total
    case _ => 0
  }

  /** Each side gets its documented share, on its own script. */
  lemma BuilderPaysShares(mode: PayoutMode, total: U64, poolScript: Script)
    requires Documented(mode) && Fits(mode, total) && !IsOpReturn(poolScript)
    requires mode.FullDonation? || (!IsOpReturn(mode.script) && mode.script != poolScript)
    ensures var built := CoinbaseOutputs(mode, total, poolScript);
            && Sats(built, PaysTo(poolScript)) == PoolShare(mode, total)
            && (!mode.FullDonation? ==> Sats(built, PaysTo(mode.script)) == total - PoolShare(mode, total))
  {
    if mode.Donate? {
      var built := CoinbaseOutputs(mode, total, poolScript);
      PoolValueIsExact(total, mode.percentage);
      PoolValueBounded(total, mode.percentage);
      TwoOutputs(built[0], built[1], PaysTo(poolScript));
      TwoOutputs(built[0], built[1], PaysTo(mode.script));
    }
  }

  /** When the builder's own outputs pass: there is something to pay, and the pool is not the miner. */
  predicate BuilderPasses(mode: PayoutMode, total: U64, poolScript: Script) {
    mode.FullDonation? ||
    (total > 0 && (mode.Donate? && poolScript == mode.script ==> PoolValue(total, mode.percentage) == 0))
  }

  lemma OneOutput(out: TxOut, keep: TxOut -> bool)
    ensures Sats([out], keep) == if keep(out) then out.value else 0
  {
    assert [out][..0] == [];
  }

  function DonatedSats(mode: PayoutMode, total: U64): (n: nat)
    requires Documented(mode)
    ensures n <= total
  {
    if mode.Donate? then PoolValueBounded(total, mode.percentage); PoolValue(total, mode.percentage) else 0
  }

  /** What the check adds up on the builder's own outputs, and what it expects. */
  lemma BuiltSums(mode: PayoutMode, total: U64, poolScript: Script)
    requires Documented(mode) && !IsOpReturn(poolScript) && !mode.FullDonation? && !IsOpReturn(mode.script)
    ensures var built := CoinbaseOutputs(mode, total, poolScript);
            && Sats(built, IsSpendable) == total
            && Sats(built, PaysTo(mode.script))
               == (if poolScript == mode.script then total else total - DonatedSats(mode, total))
            && ExpectedMinerSats(mode, total) == total - DonatedSats(mode, total)
  {
    hide Sats, PoolValue, Wrapped;
    var donated := DonatedSats(mode, total);
    var toMiner := TxOut(total - donated, mode.script);
    if mode.Donate? {
      var toPool := TxOut(donated, poolScript);
      assert CoinbaseOutputs(mode, total, poolScript) == [toPool, toMiner];
      TwoOutputs(toPool, toMiner, IsSpendable);
      TwoOutputs(toPool, toMiner, PaysTo(mode.script));
    } else {
      assert CoinbaseOutputs(mode, total, poolScript) == [toMiner];
      OneOutput(toMiner, IsSpendable);
      OneOutput(toMiner, PaysTo(mode.script));
    }
  }

  /** The whole total is 90 percent of it at least, even where the product wraps. */
  lemma WholeTotalIsEnough(total: U64)
    ensures 100 * total >= WrappingMul(total, MIN_LEGACY_SOLO_PAYOUT_PERCENTAGE)
  {
    var product := total * MIN_LEGACY_SOLO_PAYOUT_PERCENTAGE;
    if product < U64_END {
      NoWrap(product);
    }
  }

  lemma BuiltOthers(mode: PayoutMode, total: U64, poolScript: Script)
    requires Documented(mode) && !IsOpReturn(poolScript) && !mode.FullDonation? && !IsOpReturn(mode.script)
    ensures var built := CoinbaseOutputs(mode, total, poolScript);
            && Wrapped(SpendableSats(built)) == total
            && Wrapped(OtherSats(built, mode.script))
               == (if poolScript == mode.script then 0 else DonatedSats(mode, total))
            && (poolScript == mode.script || !mode.Donate? ==> Wrapped(MinerSats(built, mode.script)) == total)
  {
    hide *;
    var built := CoinbaseOutputs(mode, total, poolScript);
    BuiltSums(mode, total, poolScript);
    SpendableIs(built);
    MinerIs(built, mode.script);
    MinerAndOthers(built, mode.script);
    NoWrap(total);
    NoWrap(OtherSats(built, mode.script));
    DonationsOnly(mode, total);
  }

  lemma DonationsOnly(mode: PayoutMode, total: U64)
    requires Documented(mode)
    ensures DonatedSats(mode, total) == if mode.Donate? then PoolValue(total, mode.percentage) else 0
  {
  }

  lemma BuiltOutputsPass(mode: PayoutMode, total: U64, poolScript: Script)
    requires Documented(mode) && !IsOpReturn(poolScript) && (mode.FullDonation? || !IsOpReturn(mode.script))
    ensures ValidateCoinbaseOutputs(mode, CoinbaseOutputs(mode, total, poolScript)).Accepted?
            <==> BuilderPasses(mode, total, poolScript)
  {
    if !mode.FullDonation? {
      hide CoinbaseOutputs, ValidateCoinbaseOutputs, Wrapped, SpendableSats, OtherSats, MinerSats, PoolValue,
        WrappingMul, DonatedSats;
      BuiltOthers(mode, total, poolScript);
      DonationsOnly(mode, total);
      ValidatesModulo(mode, CoinbaseOutputs(mode, total, poolScript));
      WholeTotalIsEnough(total);
    }
  }

  /**
   * The outputs a pool builds are the ones a client accepts, in any order and with any OP_RETURN
   * outputs added on the way.
   */
  lemma BuilderAndCheckAgree(mode: PayoutMode, total: U64, poolScript: Script, received: seq<TxOut>)
    requires Documented(mode) && !IsOpReturn(poolScript) && (mode.FullDonation? || !IsOpReturn(mode.script))
    requires multiset(SpendableOutputs(received)) == multiset(CoinbaseOutputs(mode, total, poolScript))
    ensures ValidateCoinbaseOutputs(mode, received).Accepted? <==> BuilderPasses(mode, total, poolScript)
  {
    var built := CoinbaseOutputs(mode, total, poolScript);
    AllSpendable(built);
    OrderAndOpReturnsDoNotMatter(mode, received, built);
    BuiltOutputsPass(mode, total, poolScript);
  }

  lemma {:induction false} AllSpendable(outputs: seq<TxOut>)
    requires forall i :: 0 <= i < |outputs| ==> IsSpendable(outputs[i])
    ensures SpendableOutputs(outputs) == outputs
  {
    if outputs != [] {
      AllSpendable(outputs[..|outputs| - 1]);
    }
  }
}
