/** Fee arithmetic (`src/report/fee_calc.rs`): scaled fees that clamp to the stroop range, and the
    apportionment of a total into tenths of a percent. */
module FeeCalc {
  import XlmText
  import opened Arithmetic
  import opened Wrappers

  // ----- Fees -----

  datatype FeeRates = FeeRates(per10kInsns: int, perReadEntry: int, perWriteEntry: int, perRead1Kb: int, per1Kb: int)
  {
    predicate InRange() {
      IsI64(per10kInsns) && IsI64(perReadEntry) && IsI64(perWriteEntry) && IsI64(perRead1Kb) && IsI64(per1Kb)
    }

    predicate NonNegative() {
      per10kInsns >= 0 && perReadEntry >= 0 && perWriteEntry >= 0 && perRead1Kb >= 0 && per1Kb >= 0
    }
  }

  datatype Usage = Usage(cpuInsns: nat, readEntries: nat, writeEntries: nat, readBytes: nat, txSize: nat)
  {
    predicate InRange() {
      IsU64(cpuInsns) && IsU32(readEntries) && IsU32(writeEntries) && IsU32(readBytes) && IsU32(txSize)
    }
  }

  datatype FeeBreakdown = FeeBreakdown(
    nonRefundable: int,
    refundable: int,
    cpuFee: int,
    storageFee: int,
    bandwidthFee: int,
    baseFee: int,
    total: int,
    totalXlm: string,
    permilles: seq<int>
  )

  function ScaledFee(units: int, rate: int, divisor: int): int
    requires divisor > 0
  {
    ClampI64(TruncDiv(ClampI128(units * rate), divisor))
  }

  /** `units * rate / divisor` over the unbounded integers. */
  function Exact(units: int, rate: int, divisor: int): int
    requires divisor > 0
  {
    TruncDiv(units * rate, divisor)
  }

  lemma ProductFits(units: int, rate: int)
    requires IsU64(units) && IsI64(rate)
    ensures ClampI128(units * rate) == units * rate
    ensures rate >= 0 ==> units * rate >= 0
  {
    var m := if rate >= 0 then rate else -rate;
    ProductMonotone(units, 0xffff_ffff_ffff_ffff, m, 0x8000_0000_0000_0000);
    assert units * rate == if rate >= 0 then units * m else -(units * m);
  }

  /** The wide multiplication never saturates, so the only loss is the final clamp. */
  lemma ScaledFeeIsExact(units: int, rate: int, divisor: int)
    requires IsU64(units) && IsI64(rate) && divisor > 0
    ensures ScaledFee(units, rate, divisor) == ClampI64(Exact(units, rate, divisor))
    ensures rate >= 0 ==> 0 <= Exact(units, rate, divisor)
  {
    ProductFits(units, rate);
  }

  /** A fee the rates make non-negative is the price of its units rounded down, unless 64 bits cannot hold
      it. */
  lemma FeeIsRoundedDown(units: int, rate: int, divisor: int)
    requires IsU64(units) && 0 <= rate && IsI64(rate) && divisor > 0
    requires ScaledFee(units, rate, divisor) < 0x7fff_ffff_ffff_ffff
    ensures divisor * ScaledFee(units, rate, divisor) <= units * rate
    ensures units * rate < divisor * (ScaledFee(units, rate, divisor) + 1)
  {
    ProductFits(units, rate);
    var q := units * rate / divisor;
    QuotientNonNegative(units * rate, divisor);
    assert units * rate == divisor * q + units * rate % divisor;
    Distribute(divisor, q, 1);
  }

  /** A negative rate gives the opposite of what its opposite gives. */
  lemma NegativeRatesMirror(units: int, rate: int, divisor: int)
    requires IsU64(units) && IsI64(rate) && rate < 0 && divisor > 0
    ensures Exact(units, rate, divisor) == -Exact(units, -rate, divisor)
  {
    assert units * -rate == -(units * rate);
    assert units * -rate >= 0;
  }

  // ----- Apportionment -----

  /** One part's share of `total` in tenths of a percent, rounded half away from zero. */
  function Permille(part: int, total: int): (r: int)
    ensures IsI64(r)
  {
    if total <= 0 then 0
    else
      var num := part * 1000;
      var half := total / 2;
      ClampI64(if num >= 0 then TruncDiv(num + half, total) else TruncDiv(num - half, total))
  }

  function Permilles(parts: seq<int>, total: int): (r: seq<int>)
    ensures |r| == |parts|
    ensures forall i :: 0 <= i < |r| ==> r[i] == Permille(parts[i], total)
  {
    seq(|parts|, i requires 0 <= i < |parts| => Permille(parts[i], total))
  }

  function Sum(s: seq<int>): int {
    if s == [] then 0 else s[0] + Sum(s[1..])
  }

  /** Rust's `max_by_key` keeps the last of several equal maxima. */
  predicate IsLastMax(parts: seq<int>, idx: nat) {
    && idx < |parts|
    && (forall i :: 0 <= i < |parts| ==> parts[i] <= parts[idx])
    && (forall i :: idx < i < |parts| ==> parts[i] < parts[idx])
  }

  function LastMax(parts: seq<int>): (idx: nat)
    requires parts != []
    ensures IsLastMax(parts, idx)
  {
    if |parts| == 1 then 0
    else
      var rest := LastMax(parts[1..]);
      assert parts[1..][rest] == parts[rest + 1];
      assert forall i :: 1 <= i < |parts| ==> parts[i] == parts[1..][i - 1];
      if parts[rest + 1] >= parts[0] then rest + 1 else 0
  }

  /** The shares after the rounding error is moved onto the largest part. */
  function Corrected(parts: seq<int>, total: int): (r: seq<int>)
    requires parts != []
    ensures |r| == |parts|
  {
    var raw := Permilles(parts, total);
    if total > 0 && IsI64(Sum(raw)) then
      var idx := LastMax(parts);
      var diff := ClampI64(1000 - Sum(raw));
      if diff == 0 then raw else raw[idx := ClampI64(raw[idx] + diff)]
    else raw
  }

  lemma {:induction false} SumOfUpdate(s: seq<int>, i: nat, v: int)
    requires i < |s|
    ensures Sum(s[i := v]) == Sum(s) - s[i] + v
  {
    if i == 0 {
      assert s[i := v][1..] == s[1..];
    } else {
      SumOfUpdate(s[1..], i - 1, v);
      assert s[i := v][1..] == s[1..][i - 1 := v];
    }
  }

  lemma {:induction false} SumOfNonNegative(s: seq<int>, i: nat)
    requires i < |s|
    requires forall j :: 0 <= j < |s| ==> s[j] >= 0
    ensures 0 <= s[i] <= Sum(s)
  {
    if |s| > 1 {
      SumOfNonNegative(s[1..], if i == 0 then 0 else i - 1);
    }
  }

  lemma QuotientNonNegative(a: nat, b: nat)
    requires b > 0
    ensures a / b >= 0
  {
  }

  lemma PermilleNonNegative(part: int, total: int)
    requires 0 <= part
    ensures 0 <= Permille(part, total)
  {
    if total > 0 {
      QuotientNonNegative(part * 1000 + total / 2, total);
    }
  }

  /** The rounding keeps a share within half a unit of exact, measured in `1 / total`. */
  lemma PermilleIsClose(part: int, total: int)
    requires 0 <= part <= total && 0 < total
    ensures 0 <= Permille(part, total) <= 1000
    ensures -(total / 2) <= total * Permille(part, total) - 1000 * part <= total / 2
    ensures total / 2 - total < total * Permille(part, total) - 1000 * part
  {
    var num := part * 1000 + total / 2;
    var q := num / total;
    var rem := num % total;
    assert num == total * q + rem;
    assert num < total * 1001;
    assert 0 <= q <= 1000 by {
      DivBounds(num, total, 1001);
    }
  }

  /** A part beyond the total is rounded the same way until its share leaves 64 bits, and then clamped;
      a negative part is rounded as its opposite. */
  lemma PermilleOfAnyPart(part: int, total: int)
    requires total > 0
    ensures var r := Permille(part, total);
            && (part >= 0 && r < 0x7fff_ffff_ffff_ffff ==> total / 2 - total < total * r - 1000 * part <= total / 2)
            && (part >= 0 && r == 0x7fff_ffff_ffff_ffff ==> total * r - 1000 * part <= total / 2)
            && (part < 0 && Permille(-part, total) < 0x7fff_ffff_ffff_ffff ==> r == -Permille(-part, total))
            && (part < 0 && Permille(-part, total) == 0x7fff_ffff_ffff_ffff ==> r <= -0x7fff_ffff_ffff_ffff)
  {
    if part >= 0 {
      var num := part * 1000 + total / 2;
      QuotientNonNegative(num, total);
      var q := num / total;
      assert num == total * q + num % total;
      if q > 0x7fff_ffff_ffff_ffff {
        ProductOrder(total, 0x7fff_ffff_ffff_ffff, q);
      }
    } else {
      QuotientNonNegative(-part * 1000 + total / 2, total);
      assert -(part * 1000 - total / 2) == -part * 1000 + total / 2;
    }
  }

  lemma CorrectionFits(sum: int, top: int)
    requires IsI64(sum) && IsI64(top) && top >= 0
    ensures sum - top + ClampI64(top + ClampI64(1000 - sum)) == 1000 <==> sum == 1000 || IsI64(1000 - (sum - top))
  {
  }

  /** Neither the raw sum nor the corrected share leaves 64 bits. */
  predicate Correctable(parts: seq<int>, total: int)
    requires parts != []
  {
    var raw := Permilles(parts, total);
    IsI64(Sum(raw)) && (Sum(raw) == 1000 || IsI64(1000 - (Sum(raw) - raw[LastMax(parts)])))
  }

  lemma {:induction false} SumOfZeros(s: seq<int>)
    requires forall i :: 0 <= i < |s| ==> s[i] == 0
    ensures Sum(s) == 0
  {
    if s == [] {
    } else {
      SumOfZeros(s[1..]);
    }
  }

  /** Whatever the parts, the corrected shares add up to exactly 1000 just when there is a positive
      total and the correction does not overflow. With no total they are all zero. */
  lemma CorrectedSum(parts: seq<int>, total: int)
    requires parts != [] && parts[LastMax(parts)] >= 0
    ensures Sum(Corrected(parts, total)) == 1000 <==> total > 0 && Correctable(parts, total)
    ensures total <= 0 ==> forall i :: 0 <= i < |parts| ==> Corrected(parts, total)[i] == 0
  {
    hide Permilles, Sum, LastMax;
    var raw := Permilles(parts, total);
    if total <= 0 {
      SumOfZeros(raw);
    } else {
      CorrectedSumOfTotal(parts, total);
    }
  }

  lemma CorrectedSumOfTotal(parts: seq<int>, total: int)
    requires parts != [] && parts[LastMax(parts)] >= 0 && total > 0
    ensures Sum(Corrected(parts, total)) == 1000 <==> Correctable(parts, total)
  {
    hide Permille, Permilles, Sum, LastMax;
    var raw := Permilles(parts, total);
    var idx := LastMax(parts);
    PermilleNonNegative(parts[idx], total);
    if IsI64(Sum(raw)) {
      var diff := ClampI64(1000 - Sum(raw));
      SumOfUpdate(raw, idx, ClampI64(raw[idx] + diff));
      CorrectionFits(Sum(raw), raw[idx]);
      assert raw[idx := raw[idx]] == raw;
    }
  }

  /** Where it does not overflow, the correction is the only way to make the rounded shares of a
      positive total add up by changing none but the last largest part's. */
  lemma CorrectionIsTheOnlyOne(parts: seq<int>, total: int, shares: seq<int>)
    requires parts != [] && parts[LastMax(parts)] >= 0
    requires total > 0 && Correctable(parts, total)
    ensures shares == Corrected(parts, total) <==>
              && |shares| == |parts|
              && (forall i :: 0 <= i < |parts| && i != LastMax(parts) ==> shares[i] == Permille(parts[i], total))
              && Sum(shares) == 1000
  {
    hide Permille, Permilles, Sum, LastMax;
    var raw, idx := Permilles(parts, total), LastMax(parts);
    var corrected := Corrected(parts, total);
    CorrectedSumOfTotal(parts, total);
    SumOfUpdate(raw, idx, corrected[idx]);
    assert raw[idx := corrected[idx]] == corrected;
    if |shares| == |parts| && forall i :: 0 <= i < |parts| && i != idx ==> shares[i] == Permille(parts[i], total) {
      assert raw[idx := shares[idx]] == shares;
      SumOfUpdate(raw, idx, shares[idx]);
    }
  }

  lemma {:induction false} ErrorsAdd(parts: seq<int>, total: int)
    requires total > 0
    requires forall i :: 0 <= i < |parts| ==> 0 <= parts[i] <= total
    ensures var e := total * Sum(Permilles(parts, total)) - 1000 * Sum(parts);
            -(total / 2 * |parts|) <= e <= total / 2 * |parts|
  {
    hide Permille;
    if parts == [] {
    } else {
      var raw := Permilles(parts, total);
      ErrorsAdd(parts[1..], total);
      assert raw[1..] == Permilles(parts[1..], total);
      PermilleIsClose(parts[0], total);
      Distribute(total, raw[0], Sum(raw[1..]));
      Distribute(total / 2, 1, |parts[1..]|);
    }
  }

  lemma {:induction false} SumAtMost(s: seq<int>, top: int)
    requires forall i :: 0 <= i < |s| ==> s[i] <= top
    ensures Sum(s) <= |s| * top
  {
    if s == [] {
    } else {
      SumAtMost(s[1..], top);
      assert |s| * top == top + |s[1..]| * top;
    }
  }

  /** When five non-negative parts make up the whole total, rounding is off by at most two tenths
      of a percent, and the corrected shares are real shares adding up to the whole. */
  lemma SharesOfWhole(parts: seq<int>, total: int)
    requires |parts| == 5 && total > 0 && Sum(parts) == total
    requires forall i :: 0 <= i < |parts| ==> 0 <= parts[i]
    ensures var shares, raw := Corrected(parts, total), Permilles(parts, total);
            && Sum(shares) == 1000
            && (forall i :: 0 <= i < 5 ==> 0 <= shares[i] <= 1000)
            && -2 <= 1000 - Sum(raw) <= 2
            && shares == raw[LastMax(parts) := raw[LastMax(parts)] + 1000 - Sum(raw)]
  {
    hide Permille, Permilles, Corrected, LastMax, Sum;
    var raw := Permilles(parts, total);
    var idx := LastMax(parts);
    RawShares(parts, total);
    var off := 1000 - Sum(raw);
    var shares := raw[idx := raw[idx] + off];
    CorrectedBy(parts, total, off);
    SumOfUpdate(raw, idx, raw[idx] + off);
    forall i | 0 <= i < 5
      ensures shares[i] <= 1000
    {
      SumOfNonNegative(shares, i);
    }
  }

  lemma ErrorsOfFive(parts: seq<int>, total: int)
    requires |parts| == 5 && total > 0
    requires forall i :: 0 <= i < |parts| ==> 0 <= parts[i] <= total
    ensures var e := total * Sum(Permilles(parts, total)) - 1000 * Sum(parts);
            -5 * (total / 2) <= e <= 5 * (total / 2)
  {
    hide Permilles, Sum;
    ErrorsAdd(parts, total);
  }

  lemma RawSumIsClose(parts: seq<int>, total: int)
    requires |parts| == 5 && total > 0 && Sum(parts) == total
    requires forall i :: 0 <= i < |parts| ==> 0 <= parts[i] <= total
    ensures -2 <= 1000 - Sum(Permilles(parts, total)) <= 2
  {
    hide Permilles, Sum;
    ErrorsOfFive(parts, total);
    OffByTwo(total, Sum(Permilles(parts, total)));
  }

  lemma FiveAtMost(parts: seq<int>, top: int)
    requires |parts| == 5 && forall i :: 0 <= i < |parts| ==> parts[i] <= top
    ensures Sum(parts) <= 5 * top
  {
    hide Sum;
    SumAtMost(parts, top);
  }

  lemma RawShares(parts: seq<int>, total: int)
    requires |parts| == 5 && total > 0 && Sum(parts) == total
    requires forall i :: 0 <= i < |parts| ==> 0 <= parts[i]
    ensures var raw := Permilles(parts, total);
            && (forall i :: 0 <= i < 5 ==> 0 <= raw[i] <= 1000)
            && -2 <= 1000 - Sum(raw) <= 2
            && raw[LastMax(parts)] >= 2
  {
    hide Permille, Permilles, Corrected, LastMax, Sum;
    var raw := Permilles(parts, total);
    var idx := LastMax(parts);
    forall i | 0 <= i < 5
      ensures parts[i] <= total && 0 <= raw[i] <= 1000
    {
      SumOfNonNegative(parts, i);
      PermilleIsClose(parts[i], total);
    }
    RawSumIsClose(parts, total);
    FiveAtMost(parts, parts[idx]);
    PermilleIsClose(parts[idx], total);
    LargestShare(parts[idx], total, raw[idx]);
  }

  lemma CorrectedBy(parts: seq<int>, total: int, off: int)
    requires parts != [] && total > 0
    requires var raw := Permilles(parts, total);
             off == 1000 - Sum(raw) && -2 <= off <= 2 && 0 <= raw[LastMax(parts)] <= 1000
    ensures var raw := Permilles(parts, total);
            Corrected(parts, total) == raw[LastMax(parts) := raw[LastMax(parts)] + off]
  {
    hide Permille, Permilles, LastMax, Sum;
    var raw := Permilles(parts, total);
    assert raw[LastMax(parts) := raw[LastMax(parts)]] == raw;
  }

  /** A part no smaller than the average of five leaves room for the correction. */
  lemma LargestShare(part: int, total: int, share: int)
    requires total > 0 && 5 * part >= total && -(total / 2) <= total * share - 1000 * part
    ensures share >= 2
  {
    ProductOrder(total, share, 2);
  }

  lemma OffByTwo(total: int, sum: int)
    requires total > 0 && -5 * (total / 2) <= total * sum - 1000 * total <= 5 * (total / 2)
    ensures -2 <= 1000 - sum <= 2
  {
    ProductOrder(total, 1003, sum);
    ProductOrder(total, sum, 997);
  }

  // ----- The breakdown -----

  /** The five reported parts: CPU, storage, transaction size, base fee, refundable rest. */
  function Parts(b: FeeBreakdown): seq<int> {
    [b.cpuFee, b.storageFee, b.bandwidthFee, b.baseFee, b.refundable]
  }

  function ExactStorage(u: Usage, r: FeeRates): int {
    Exact(u.readEntries, r.perReadEntry, 1) + Exact(u.writeEntries, r.perWriteEntry, 1)
    + Exact(u.readBytes, r.perRead1Kb, 1024)
  }

  function ExactNonRefundable(u: Usage, r: FeeRates): int {
    Exact(u.cpuInsns, r.per10kInsns, 10_000) + ExactStorage(u, r) + Exact(u.txSize, r.per1Kb, 1024)
  }

  /** Fees added one after the other, saturating at every step. */
  function SaturatingSum(fees: seq<int>): int {
    if fees == [] then 0
    else ClampI64(SaturatingSum(fees[..|fees| - 1]) + fees[|fees| - 1])
  }

  lemma SaturatingSums(a: int, b: int, c: int, d: int, e: int)
    requires IsI64(a)
    ensures SaturatingSum([a, b, c]) == ClampI64(ClampI64(a + b) + c)
    ensures SaturatingSum([a, b, c, d, e]) == ClampI64(ClampI64(ClampI64(ClampI64(a + b) + c) + d) + e)
  {
    assert [a][..0] == [] && SaturatingSum([a]) == a;
    assert [a, b][..1] == [a];
    assert [a, b, c][..2] == [a, b];
    assert [a, b, c, d][..3] == [a, b, c];
    assert [a, b, c, d, e][..4] == [a, b, c, d];
  }

  function CpuFee(u: Usage, r: FeeRates): int {
    ClampI64(Exact(u.cpuInsns, r.per10kInsns, 10_000))
  }

  /** Entries read, entries written, bytes read. */
  function StorageFees(u: Usage, r: FeeRates): seq<int> {
    [ClampI64(Exact(u.readEntries, r.perReadEntry, 1)), ClampI64(Exact(u.writeEntries, r.perWriteEntry, 1)),
     ClampI64(Exact(u.readBytes, r.perRead1Kb, 1024))]
  }

  function BandwidthFee(u: Usage, r: FeeRates): int {
    ClampI64(Exact(u.txSize, r.per1Kb, 1024))
  }

  /** The rounded shares, with the rounding error moved in place onto the largest part. */
  method Apportion(parts: seq<int>, total: int) returns (permilles: seq<int>)
    requires parts != []
    ensures permilles == Corrected(parts, total)
  {
    permilles := Permilles(parts, total);
    if total > 0 {
      var sum := Sum(permilles);
      if IsI64(sum) {
        var diff := ClampI64(1000 - sum);
        if diff != 0 {
          var idx := LastMax(parts);
          permilles := permilles[idx := ClampI64(permilles[idx] + diff)];
        }
      }
    }
  }

  function NonRefundableFees(u: Usage, r: FeeRates): seq<int> {
    [CpuFee(u, r)] + StorageFees(u, r) + [BandwidthFee(u, r)]
  }

  /** What a breakdown says about a total: each fee is the exact rate clamped once, sums saturate. */
  predicate Breaks(b: FeeBreakdown, totalResourceFee: int, u: Usage, r: FeeRates, precision: nat) {
    && b.cpuFee == CpuFee(u, r)
    && b.storageFee == SaturatingSum(StorageFees(u, r))
    && b.bandwidthFee == BandwidthFee(u, r)
    && b.nonRefundable == SaturatingSum(NonRefundableFees(u, r))
    && b.refundable == Max(ClampI64(totalResourceFee - b.nonRefundable), 0)
    && b.baseFee == (if totalResourceFee > 0 then 100 else 0)
    && b.total == ClampI64(totalResourceFee + b.baseFee)
    && b.totalXlm == XlmText.StroopsToXlm(b.total, precision)
    && b.permilles == Corrected(Parts(b), b.total)
  }

  /** The unit prices: per ten thousand instructions, per entry read or written, per 1024 bytes read or
      sent. */
  lemma UnitPrices(u: Usage, r: FeeRates, k: nat)
    ensures u.cpuInsns == 10_000 * k ==> CpuFee(u, r) == ClampI64(k * r.per10kInsns)
    ensures u.readEntries == k ==> StorageFees(u, r)[0] == ClampI64(k * r.perReadEntry)
    ensures u.writeEntries == k ==> StorageFees(u, r)[1] == ClampI64(k * r.perWriteEntry)
    ensures u.readBytes == 1024 * k ==> StorageFees(u, r)[2] == ClampI64(k * r.perRead1Kb)
    ensures u.txSize == 1024 * k ==> BandwidthFee(u, r) == ClampI64(k * r.per1Kb)
    ensures |StorageFees(u, r)| == 3
  {
    WholeUnits(k, r.per10kInsns, 10_000);
    WholeUnits(k, r.perReadEntry, 1);
    WholeUnits(k, r.perWriteEntry, 1);
    WholeUnits(k, r.perRead1Kb, 1024);
    WholeUnits(k, r.per1Kb, 1024);
  }

  lemma WholeUnits(k: nat, rate: int, divisor: int)
    requires divisor > 0
    ensures Exact(divisor * k, rate, divisor) == k * rate
  {
    assert divisor * k * rate == divisor * (k * rate);
    if k * rate >= 0 {
      DivModUnique(divisor * (k * rate), divisor, k * rate, 0);
    } else {
      assert -(divisor * (k * rate)) == divisor * -(k * rate);
      DivModUnique(divisor * -(k * rate), divisor, -(k * rate), 0);
    }
  }

  method ComputeFeeBreakdown(totalResourceFee: int, usage: Usage, rates: FeeRates, precision: nat)
    returns (b: FeeBreakdown)
    requires IsI64(totalResourceFee) && usage.InRange() && rates.InRange()
    ensures Breaks(b, totalResourceFee, usage, rates, precision)
    // The shares add up to the whole just when there is a fee and the correction does not overflow.
    ensures Sum(b.permilles) == 1000 <==> totalResourceFee > 0 && Correctable(Parts(b), b.total)
    ensures totalResourceFee <= 0 ==> forall i :: 0 <= i < 5 ==> b.permilles[i] == 0
    // Conservation: nothing of the total is lost, and the shares are shares of it.
    ensures (&& rates.NonNegative()
             && 0 < totalResourceFee <= 0x7fff_ffff_ffff_ffff - 100
             && b.nonRefundable <= totalResourceFee)
            ==>
            (&& Sum(Parts(b)) == b.total
             && Sum(b.permilles) == 1000
             && forall i :: 0 <= i < 5 ==> 0 <= b.permilles[i] <= 1000)
  {
    hide Permilles, Corrected, Sum, SaturatingSum, ScaledFee, Exact, XlmText.StroopsToXlm;
    var cpuFee := ScaledFee(usage.cpuInsns, rates.per10kInsns, 10_000);
    var readEntryFee := ScaledFee(usage.readEntries, rates.perReadEntry, 1);
    var writeEntryFee := ScaledFee(usage.writeEntries, rates.perWriteEntry, 1);
    var readBytesFee := ScaledFee(usage.readBytes, rates.perRead1Kb, 1024);
    var bandwidthFee := ScaledFee(usage.txSize, rates.per1Kb, 1024);

    var nonRefundable := ClampI64(cpuFee + readEntryFee);
    nonRefundable := ClampI64(nonRefundable + writeEntryFee);
    nonRefundable := ClampI64(nonRefundable + readBytesFee);
    nonRefundable := ClampI64(nonRefundable + bandwidthFee);

    var refundable := Max(ClampI64(totalResourceFee - nonRefundable), 0);
    var baseFee := if totalResourceFee > 0 then 100 else 0;
    var total := ClampI64(totalResourceFee + baseFee);
    var totalXlm := XlmText.StroopsToXlm(total, precision);
    var storageFee := ClampI64(ClampI64(readEntryFee + writeEntryFee) + readBytesFee);

    var parts := [cpuFee, storageFee, bandwidthFee, baseFee, refundable];
    var permilles := Apportion(parts, total);
    b := FeeBreakdown(nonRefundable, refundable, cpuFee, storageFee, bandwidthFee, baseFee, total, totalXlm, permilles);

    SumsOfFees(usage, rates);
    hide CpuFee, StorageFees, BandwidthFee, NonRefundableFees, ClampI64;
    assert Breaks(b, totalResourceFee, usage, rates, precision);
    hide Breaks, Parts;
    SharesOfBreakdown(b, totalResourceFee, usage, rates, precision);
    var fits := 0 < totalResourceFee <= 0x7fff_ffff_ffff_ffff - 100;
    if rates.NonNegative() && fits && b.nonRefundable <= totalResourceFee {
      BreakdownConserves(b, totalResourceFee, usage, rates, precision);
    }
  }

  /** The program's running sums are the fees it adds, each clamped once. */
  lemma SumsOfFees(u: Usage, r: FeeRates)
    requires u.InRange() && r.InRange()
    ensures var cpu, bandwidth := ScaledFee(u.cpuInsns, r.per10kInsns, 10_000), ScaledFee(u.txSize, r.per1Kb, 1024);
            var read := ScaledFee(u.readEntries, r.perReadEntry, 1);
            var write := ScaledFee(u.writeEntries, r.perWriteEntry, 1);
            var bytes := ScaledFee(u.readBytes, r.perRead1Kb, 1024);
            && cpu == CpuFee(u, r) && bandwidth == BandwidthFee(u, r)
            && SaturatingSum(StorageFees(u, r)) == ClampI64(ClampI64(read + write) + bytes)
            && SaturatingSum(NonRefundableFees(u, r))
                 == ClampI64(ClampI64(ClampI64(ClampI64(cpu + read) + write) + bytes) + bandwidth)
  {
    hide SaturatingSum, ScaledFee, Exact, ClampI64;
    FeesAreExact(u, r);
    var storage := StorageFees(u, r);
    SaturatingSums(storage[0], storage[1], storage[2], 0, 0);
    SaturatingSums(CpuFee(u, r), storage[0], storage[1], storage[2], BandwidthFee(u, r));
    assert NonRefundableFees(u, r) == [CpuFee(u, r), storage[0], storage[1], storage[2], BandwidthFee(u, r)];
  }

  lemma SharesOfBreakdown(b: FeeBreakdown, totalResourceFee: int, u: Usage, r: FeeRates, precision: nat)
    requires IsI64(totalResourceFee) && Breaks(b, totalResourceFee, u, r, precision)
    ensures Sum(b.permilles) == 1000 <==> totalResourceFee > 0 && Correctable(Parts(b), b.total)
    ensures totalResourceFee <= 0 ==> forall i :: 0 <= i < 5 ==> b.permilles[i] == 0
  {
    hide Permilles, Corrected, Correctable, Sum, SaturatingSum, LastMax;
    hide CpuFee, StorageFees, BandwidthFee, NonRefundableFees;
    var parts := Parts(b);
    assert parts[3] >= 0;
    CorrectedSum(parts, b.total);
  }

  /** With non-negative rates the fees are the exact ones, clamped once at the end. */
  lemma NonNegativeFees(u: Usage, r: FeeRates)
    requires u.InRange() && r.InRange() && r.NonNegative()
    ensures CpuFee(u, r) >= 0 && BandwidthFee(u, r) >= 0
    ensures 0 <= SaturatingSum(StorageFees(u, r)) == ClampI64(ExactStorage(u, r))
    ensures SaturatingSum(NonRefundableFees(u, r)) == ClampI64(ExactNonRefundable(u, r))
    ensures SaturatingSum(NonRefundableFees(u, r)) < 0x7fff_ffff_ffff_ffff ==>
              SaturatingSum(NonRefundableFees(u, r))
                == CpuFee(u, r) + SaturatingSum(StorageFees(u, r)) + BandwidthFee(u, r)
  {
    hide SaturatingSum, ScaledFee, Exact;
    FeesAreExact(u, r);
    var storage := StorageFees(u, r);
    SaturatingSums(storage[0], storage[1], storage[2], 0, 0);
    SaturatingSums(CpuFee(u, r), storage[0], storage[1], storage[2], BandwidthFee(u, r));
    assert NonRefundableFees(u, r) == [CpuFee(u, r), storage[0], storage[1], storage[2], BandwidthFee(u, r)];
  }

  /** Where the non-refundable part is within the total, the five parts make up the total and their
      shares make up the whole. */
  lemma BreakdownConserves(b: FeeBreakdown, totalResourceFee: int, u: Usage, r: FeeRates, precision: nat)
    requires u.InRange() && r.InRange() && r.NonNegative()
    requires Breaks(b, totalResourceFee, u, r, precision)
    requires 0 < totalResourceFee <= 0x7fff_ffff_ffff_ffff - 100 && b.nonRefundable <= totalResourceFee
    ensures Sum(Parts(b)) == b.total && Sum(b.permilles) == 1000
    ensures forall i :: 0 <= i < 5 ==> 0 <= b.permilles[i] <= 1000
  {
    hide Permilles, Corrected, Sum, SaturatingSum, CpuFee, StorageFees, BandwidthFee, NonRefundableFees, LastMax;
    NonNegativeFees(u, r);
    SumOfFive(b.cpuFee, b.storageFee, b.bandwidthFee, b.baseFee, b.refundable);
    SharesOfWhole(Parts(b), b.total);
  }

  /** With non-negative rates only the raw sum can overflow. */
  lemma SharesOfNonNegative(parts: seq<int>, total: int)
    requires parts != [] && total > 0
    requires forall i :: 0 <= i < |parts| ==> 0 <= parts[i]
    ensures Correctable(parts, total) <==> IsI64(Sum(Permilles(parts, total)))
  {
    hide Permille, LastMax, Sum;
    var raw := Permilles(parts, total);
    forall i | 0 <= i < |raw|
      ensures raw[i] >= 0
    {
      PermilleNonNegative(parts[i], total);
    }
    SumOfNonNegative(raw, LastMax(parts));
  }

  /** So with non-negative rates the shares add up exactly when there is a fee and their raw sum, the
      one thing the program tests, fits 64 bits. */
  lemma NonNegativeSharesIff(b: FeeBreakdown, totalResourceFee: int, u: Usage, r: FeeRates, precision: nat)
    requires IsI64(totalResourceFee) && u.InRange() && r.InRange() && r.NonNegative()
    requires Breaks(b, totalResourceFee, u, r, precision)
    ensures Sum(b.permilles) == 1000 <==> totalResourceFee > 0 && IsI64(Sum(Permilles(Parts(b), b.total)))
  {
    hide Permilles, Corrected, Correctable, Sum, SaturatingSum, CpuFee, StorageFees, BandwidthFee, NonRefundableFees;
    SharesOfBreakdown(b, totalResourceFee, u, r, precision);
    NonNegativeFees(u, r);
    if totalResourceFee > 0 {
      SharesOfNonNegative(Parts(b), b.total);
    }
  }

  /** Two ways to miss 100%: a simulation that reports no fee, and rates so large that the raw
      shares of a one-stroop fee leave 64 bits. */
  lemma SharesCanMiss(b: FeeBreakdown, u: Usage, r: FeeRates, precision: nat)
    requires u == Usage(10_000, 1, 0, 0, 0) && r == FeeRates(0x7fff_ffff_ffff_ffff, 0x7fff_ffff_ffff_ffff, 0, 0, 0)
    ensures Breaks(b, 0, u, r, precision) ==> Sum(b.permilles) == 0
    ensures Breaks(b, 1, u, r, precision) ==> Sum(b.permilles) != 1000
  {
    hide Corrected, LastMax, Correctable, SaturatingSum, CpuFee, StorageFees, BandwidthFee, Permille;
    var top := 0x7fff_ffff_ffff_ffff;
    LargeFees(u, r);
    if Breaks(b, 0, u, r, precision) {
      SharesOfBreakdown(b, 0, u, r, precision);
      SumOfZeros(b.permilles);
    }
    if Breaks(b, 1, u, r, precision) {
      assert Parts(b) == [top, top, 0, 100, 0];
      SharesOfBreakdown(b, 1, u, r, precision);
      LargeShares();
    }
  }

  lemma LargeFees(u: Usage, r: FeeRates)
    requires u == Usage(10_000, 1, 0, 0, 0) && r == FeeRates(0x7fff_ffff_ffff_ffff, 0x7fff_ffff_ffff_ffff, 0, 0, 0)
    ensures CpuFee(u, r) == 0x7fff_ffff_ffff_ffff && BandwidthFee(u, r) == 0
    ensures SaturatingSum(StorageFees(u, r)) == 0x7fff_ffff_ffff_ffff
    ensures SaturatingSum(NonRefundableFees(u, r)) == 0x7fff_ffff_ffff_ffff
  {
    hide SaturatingSum;
    var top := 0x7fff_ffff_ffff_ffff;
    SaturatingSums(top, 0, 0, 0, 0);
    SaturatingSums(top, top, 0, 0, 0);
    assert StorageFees(u, r) == [top, 0, 0];
    assert NonRefundableFees(u, r) == [top, top, 0, 0, 0];
  }

  lemma LargeShares()
    ensures !Correctable([0x7fff_ffff_ffff_ffff, 0x7fff_ffff_ffff_ffff, 0, 100, 0], 101)
  {
    hide Sum, LastMax;
    var top := 0x7fff_ffff_ffff_ffff;
    var raw := Permilles([top, top, 0, 100, 0], 101);
    assert raw[0] == top && raw[1] == top && raw[2] == 0 && raw[3] == 990 && raw[4] == 0;
    assert raw == [top, top, 0, 990, 0];
    SumOfFive(top, top, 0, 990, 0);
  }

  lemma SumOfFive(a: int, b: int, c: int, d: int, e: int)
    ensures Sum([a, b, c, d, e]) == a + b + c + d + e
  {
    assert [d, e][1..] == [e] && Sum([e]) == e;
    assert [c, d, e][1..] == [d, e] && Sum([d, e]) == d + e;
    assert [b, c, d, e][1..] == [c, d, e] && Sum([c, d, e]) == c + d + e;
    assert [a, b, c, d, e][1..] == [b, c, d, e] && Sum([b, c, d, e]) == b + c + d + e;
  }

  lemma FeesAreExact(u: Usage, r: FeeRates)
    requires u.InRange() && r.InRange()
    ensures ScaledFee(u.cpuInsns, r.per10kInsns, 10_000) == ClampI64(Exact(u.cpuInsns, r.per10kInsns, 10_000))
    ensures ScaledFee(u.readEntries, r.perReadEntry, 1) == ClampI64(Exact(u.readEntries, r.perReadEntry, 1))
    ensures ScaledFee(u.writeEntries, r.perWriteEntry, 1) == ClampI64(Exact(u.writeEntries, r.perWriteEntry, 1))
    ensures ScaledFee(u.readBytes, r.perRead1Kb, 1024) == ClampI64(Exact(u.readBytes, r.perRead1Kb, 1024))
    ensures ScaledFee(u.txSize, r.per1Kb, 1024) == ClampI64(Exact(u.txSize, r.per1Kb, 1024))
    ensures r.NonNegative() ==>
              && Exact(u.cpuInsns, r.per10kInsns, 10_000) >= 0 && Exact(u.readEntries, r.perReadEntry, 1) >= 0
              && Exact(u.writeEntries, r.perWriteEntry, 1) >= 0 && Exact(u.readBytes, r.perRead1Kb, 1024) >= 0
              && Exact(u.txSize, r.per1Kb, 1024) >= 0
  {
    hide ScaledFee, Exact;
    ScaledFeeIsExact(u.cpuInsns, r.per10kInsns, 10_000);
    ScaledFeeIsExact(u.readEntries, r.perReadEntry, 1);
    ScaledFeeIsExact(u.writeEntries, r.perWriteEntry, 1);
    ScaledFeeIsExact(u.readBytes, r.perRead1Kb, 1024);
    ScaledFeeIsExact(u.txSize, r.per1Kb, 1024);
  }

  // ----- Fee range -----

  datatype FeeRange = FeeRange(count: nat, min: int, max: int, avg: int)

  /** The summary of a batch of fees: bounds that are attained, and an average between them. */
  method Range(fees: seq<int>) returns (range: Option<FeeRange>)
    requires forall i :: 0 <= i < |fees| ==> IsI64(fees[i])
    ensures range.None? <==> fees == []
    ensures range.Some? ==>
              var r := range.value;
              && r.count == |fees|
              && r.min in fees && r.max in fees
              && (forall i :: 0 <= i < |fees| ==> r.min <= fees[i] <= r.max)
              && r.avg == TruncDiv(Sum(fees), |fees|)
              && r.min <= r.avg <= r.max
  {
    if fees == [] {
      return None;
    }
    var min, max, sum := 0x7fff_ffff_ffff_ffff, -0x8000_0000_0000_0000, 0;
    for i := 0 to |fees|
      invariant i == 0 ==> min == 0x7fff_ffff_ffff_ffff && max == -0x8000_0000_0000_0000
      invariant i > 0 ==> min in fees && max in fees
      invariant forall j :: 0 <= j < i ==> min <= fees[j] <= max
      invariant sum == Sum(fees[..i])
      invariant i * min <= sum <= i * max
    {
      SumAppend(fees[..i], fees[i]);
      assert fees[..i + 1] == fees[..i] + [fees[i]];
      RangeStep(i, min, max, sum, fees[i]);
      min := if fees[i] < min then fees[i] else min;
      max := if fees[i] > max then fees[i] else max;
      sum := sum + fees[i];
    }
    assert fees[..|fees|] == fees;
    AverageBetween(|fees|, min, max, sum);
    return Some(FeeRange(|fees|, min, max, TruncDiv(sum, |fees|)));
  }

  lemma {:induction false} SumAppend(s: seq<int>, x: int)
    ensures Sum(s + [x]) == Sum(s) + x
  {
    if s == [] {
      assert [x][1..] == [];
    } else {
      assert (s + [x])[1..] == s[1..] + [x];
      SumAppend(s[1..], x);
    }
  }

  lemma RangeStep(i: nat, min: int, max: int, sum: int, fee: int)
    requires i * min <= sum <= i * max
    ensures (i + 1) * (if fee < min then fee else min) <= sum + fee <= (i + 1) * (if fee > max then fee else max)
  {
    var lo := if fee < min then fee else min;
    var hi := if fee > max then fee else max;
    assert i * lo <= i * min && i * max <= i * hi;
    assert (i + 1) * lo == i * lo + lo && (i + 1) * hi == i * hi + hi;
  }

  lemma AverageBetween(n: nat, min: int, max: int, sum: int)
    requires n > 0 && n * min <= sum <= n * max
    ensures min <= TruncDiv(sum, n) <= max
  {
    if sum >= 0 {
      FloorBetween(n, min, max, sum);
    } else {
      FloorBetween(n, -max, -min, -sum);
    }
  }

  lemma FloorBetween(n: nat, min: int, max: int, sum: int)
    requires n > 0 && sum >= 0 && n * min <= sum <= n * max
    ensures min <= sum / n <= max
  {
    var q := sum / n;
    assert n * q <= sum < n * (q + 1);
    if q > max {
      ProductOrder(n, max, q);
    } else if q + 1 <= min {
      ProductOrder(n, q + 1, min);
    }
  }
}
