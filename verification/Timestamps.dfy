/** Timestamps as RFC 3339 text, and the instants they name. The cache and the change log order
    timestamps as text (`src/cache.rs`, `src/config_snapshot/history.rs`); here is when that is the
    order of time. Leap seconds are not considered. */
module Timestamps {
  import BuildDate
  import opened Arithmetic
  import opened SnapshotNames
  import opened Text

  // ----- The instant a stamp names -----

  predicate IsField(s: string, width: nat, limit: nat) {
    |s| == width && AllDigits(s) && Value(s) < limit
  }

  /** `YYYY-MM-DD`. */
  predicate IsDateForm(date: string) {
    && |date| == 10 && date[4] == '-' && date[7] == '-'
    && AllDigits(date[..4]) && AllDigits(date[5..7]) && AllDigits(date[8..])
  }

  function DateOf(date: string): BuildDate.Civil
    requires IsDateForm(date)
  {
    BuildDate.Civil(Value(date[..4]), Value(date[5..7]), Value(date[8..]))
  }

  /** Nothing, or a point and at least one digit. */
  predicate IsFraction(s: string) {
    s == "" || (|s| >= 2 && s[0] == '.' && AllDigits(s[1..]))
  }

  /** A full timestamp of section 5.6 of RFC 3339. */
  predicate IsMoment(t: Stamp) {
    && IsDateForm(t.date) && BuildDate.IsDate(DateOf(t.date))
    && IsField(t.hour, 2, 24) && IsField(t.minute, 2, 60)
    && |t.second| >= 2 && IsField(t.second[..2], 2, 60) && IsFraction(t.second[2..])
    && (!t.offset.Zulu? ==> IsField(t.offset.hours, 2, 24) && IsField(t.offset.minutes, 2, 60))
  }

  /** Nanoseconds; digits past the ninth are dropped. */
  function Nanos(fraction: string): nat
    requires IsFraction(fraction)
  {
    if fraction == "" then 0 else Value((fraction[1..] + Zeros(9))[..9])
  }

  function OffsetSeconds(o: Offset): int
    requires !o.Zulu? ==> AllDigits(o.hours) && AllDigits(o.minutes)
  {
    match o
    case Zulu => 0
    case Ahead(hours, minutes) => 3600 * Value(hours) + 60 * Value(minutes)
    case Behind(hours, minutes) => -(3600 * Value(hours) + 60 * Value(minutes))
  }

  /** Seconds since the epoch as the local clock shows them. */
  ghost function LocalSeconds(t: Stamp): int
    requires IsMoment(t)
  {
    86_400 * BuildDate.DaysFromCivil(DateOf(t.date)) + 3600 * Value(t.hour) + 60 * Value(t.minute)
      + Value(t.second[..2])
  }

  /** Nanoseconds since the epoch. */
  ghost function Instant(t: Stamp): int
    requires IsMoment(t)
  {
    1_000_000_000 * (LocalSeconds(t) - OffsetSeconds(t.offset)) + Nanos(t.second[2..])
  }

  // ----- Comparing text -----

  /** The first place where two texts differ decides their order. */
  lemma {:induction false} BeforeAt(p: string, q: string, i: nat)
    requires i < |p| && i < |q| && p[..i] == q[..i] && p[i] != q[i]
    ensures Before(p, q) <==> p[i] < q[i]
  {
    if i == 0 {
    } else {
      assert p[0] == p[..i][0] && q[0] == q[..i][0];
      assert p[1..][..i - 1] == p[..i][1..] && q[1..][..i - 1] == q[..i][1..];
      BeforeAt(p[1..], q[1..], i - 1);
    }
  }

  lemma {:induction false} FirstDifference(p: string, q: string) returns (i: nat)
    requires |p| == |q| && p != q
    ensures i < |p| && p[..i] == q[..i] && p[i] != q[i]
  {
    if p[0] != q[0] {
      i := 0;
    } else {
      assert p == [p[0]] + p[1..] && q == [q[0]] + q[1..];
      var k := FirstDifference(p[1..], q[1..]);
      i := k + 1;
      assert p[..i] == [p[0]] + p[1..][..k] && q[..i] == [q[0]] + q[1..][..k];
    }
  }

  lemma {:induction false} SamePrefix(p: string, x: string, y: string)
    ensures Before(p + x, p + y) <==> Before(x, y)
  {
    if p == "" {
      assert p + x == x && p + y == y;
    } else {
      SamePrefix(p[1..], x, y);
      assert (p + x)[1..] == p[1..] + x && (p + y)[1..] == p[1..] + y;
    }
  }

  /** Two numbers of the same width compare as their texts do, whatever follows. */
  lemma FieldDecides(p: string, q: string, x: string, y: string)
    requires |p| == |q| && p != q && AllDigits(p) && AllDigits(q)
    ensures Before(p + x, q + y) <==> Value(p) < Value(q)
    ensures Value(p) != Value(q)
  {
    hide Value, Before;
    var i := FirstDifference(p, q);
    assert (p + x)[..i] == p[..i] && (q + y)[..i] == q[..i];
    BeforeAt(p + x, q + y, i);
    if p[i] < q[i] {
      LessAt(p, q, i);
    } else {
      LessAt(q, p, i);
    }
  }

  lemma {:induction false} LessAt(p: string, q: string, i: nat)
    requires |p| == |q| && AllDigits(p) && AllDigits(q)
    requires i < |p| && p[..i] == q[..i] && p[i] < q[i]
    ensures Value(p) < Value(q)
    decreases |p|
  {
    hide Value;
    var n := |p| - 1;
    assert p == p[..n] + [p[n]] && q == q[..n] + [q[n]];
    ValueAppend(p[..n], p[n]);
    ValueAppend(q[..n], q[n]);
    if i < n {
      assert p[..n][..i] == p[..i] && q[..n][..i] == q[..i];
      LessAt(p[..n], q[..n], i);
    }
  }

  // ----- Dates and times of day -----

  lemma DateDecides(a: string, b: string, x: string, y: string)
    requires IsDateForm(a) && IsDateForm(b) && a != b
    requires BuildDate.IsDate(DateOf(a)) && BuildDate.IsDate(DateOf(b))
    ensures var m, n := BuildDate.DaysFromCivil(DateOf(a)), BuildDate.DaysFromCivil(DateOf(b));
            m != n && (Before(a + x, b + y) <==> m < n)
  {
    hide Value, Before, BuildDate.DaysFromCivil, BuildDate.IsDate;
    var p, q := a[8..] + x, b[8..] + y;
    assert a + x == a[..4] + ("-" + (a[5..7] + ("-" + p)));
    assert b + y == b[..4] + ("-" + (b[5..7] + ("-" + q)));
    if a[..4] != b[..4] {
      FieldDecides(a[..4], b[..4], "-" + (a[5..7] + ("-" + p)), "-" + (b[5..7] + ("-" + q)));
    } else {
      SamePrefix(a[..4], "-" + (a[5..7] + ("-" + p)), "-" + (b[5..7] + ("-" + q)));
      SamePrefix("-", a[5..7] + ("-" + p), b[5..7] + ("-" + q));
      if a[5..7] != b[5..7] {
        FieldDecides(a[5..7], b[5..7], "-" + p, "-" + q);
      } else {
        SamePrefix(a[5..7], "-" + p, "-" + q);
        SamePrefix("-", p, q);
        assert a == a[..4] + "-" + a[5..7] + "-" + a[8..] && b == b[..4] + "-" + b[5..7] + "-" + b[8..];
        FieldDecides(a[8..], b[8..], x, y);
      }
    }
    BuildDate.LaterDateLaterDay(DateOf(a), DateOf(b));
    BuildDate.LaterDateLaterDay(DateOf(b), DateOf(a));
  }

  /** The text from the seconds' fraction on. */
  function Tail(t: Stamp): string
    requires |t.second| >= 2
  {
    t.second[2..] + OffsetText(t.offset)
  }

  lemma NestedText(t: Stamp)
    requires |t.second| >= 2
    ensures StampText(t) == t.date + ("T" + (t.hour + (":" + (t.minute + (":" + (t.second[..2] + Tail(t)))))))
  {
    assert t.second == t.second[..2] + t.second[2..];
  }

  /** If the clocks show different seconds, the text compares as they do; otherwise what follows the
      seconds decides. */
  lemma ClocksDecide(a: Stamp, b: Stamp)
    requires IsMoment(a) && IsMoment(b)
    ensures LocalSeconds(a) != LocalSeconds(b) ==>
              (Before(StampText(a), StampText(b)) <==> LocalSeconds(a) < LocalSeconds(b))
    ensures LocalSeconds(a) == LocalSeconds(b) ==>
              && a.date == b.date && a.hour == b.hour && a.minute == b.minute && a.second[..2] == b.second[..2]
              && (Before(StampText(a), StampText(b)) <==> Before(Tail(a), Tail(b)))
    ensures a == b.(second := a.second) && a.second[..2] == b.second[..2] ==> LocalSeconds(a) == LocalSeconds(b)
  {
    hide Value, Before, StampText, Tail, IsDateForm, BuildDate.DaysFromCivil, BuildDate.IsDate;
    NestedText(a);
    NestedText(b);
    var a3, b3 := a.second[..2] + Tail(a), b.second[..2] + Tail(b);
    var a2, b2 := a.minute + (":" + a3), b.minute + (":" + b3);
    var a1, b1 := a.hour + (":" + a2), b.hour + (":" + b2);
    if a.date != b.date {
      DateDecides(a.date, b.date, "T" + a1, "T" + b1);
    } else {
      SamePrefix(a.date, "T" + a1, "T" + b1);
      SamePrefix("T", a1, b1);
      if a.hour != b.hour {
        FieldDecides(a.hour, b.hour, ":" + a2, ":" + b2);
      } else {
        SamePrefix(a.hour, ":" + a2, ":" + b2);
        SamePrefix(":", a2, b2);
        if a.minute != b.minute {
          FieldDecides(a.minute, b.minute, ":" + a3, ":" + b3);
        } else {
          SamePrefix(a.minute, ":" + a3, ":" + b3);
          SamePrefix(":", a3, b3);
          if a.second[..2] != b.second[..2] {
            FieldDecides(a.second[..2], b.second[..2], Tail(a), Tail(b));
          } else {
            SamePrefix(a.second[..2], Tail(a), Tail(b));
          }
        }
      }
    }
  }

  // ----- Fractions -----

  /** Of two fractions the smaller comes first, unless it is the other one cut short and is followed
      by something after the digits. */
  lemma FractionsDecide(f: string, g: string, end: string)
    requires IsFraction(f) && IsFraction(g) && Nanos(f) < Nanos(g)
    requires end != "" && (end[0] == 'Z' || end[0] == '+' || end[0] == '-')
    ensures Before(f + end, g + end) <==> !(f < g && end[0] == 'Z')
  {
    hide Value, Before;
    if f == "" {
      assert (f + end)[0] == end[0] && (g + end)[0] == '.';
      BeforeAt(f + end, g + end, 0);
    } else {
      var i := DigitsDiffer(f[1..], g[1..]);
      assert f == "." + f[1..] && g == "." + g[1..];
      var x, y := f + end, g + end;
      if i < |f| - 1 {
        assert x[..i + 1] == "." + f[1..][..i] && y[..i + 1] == "." + g[1..][..i];
        assert x[i + 1] == f[1..][i] && y[i + 1] == g[1..][i];
        assert !(f <= g);
        BeforeAt(x, y, i + 1);
      } else {
        assert x[..|f|] == f && y[..|f|] == "." + g[1..][..|f| - 1];
        assert x[|f|] == end[0] && y[|f|] == g[|f|] && IsDigit(g[1..][|f| - 1]);
        BeforeAt(x, y, |f|);
      }
    }
  }

  /** Where the digits of two fractions, zeros after them, first differ. */
  lemma DigitsDiffer(d: string, e: string) returns (i: nat)
    requires AllDigits(d) && AllDigits(e) && Value((d + Zeros(9))[..9]) < Value((e + Zeros(9))[..9])
    ensures i < |e|
    ensures i < |d| ==> d[..i] == e[..i] && d[i] < e[i]
    ensures i >= |d| ==> d == e[..|d|] && |d| < |e|
  {
    hide Value, Zeros;
    var p, q := (d + Zeros(9))[..9], (e + Zeros(9))[..9];
    i := FirstDifference(p, q);
    if q[i] < p[i] {
      LessAt(q, p, i);
    }
    assert q[i] > '0';
    ZerosAfter(e, i);
    assert q[..i] == e[..i];
    if i < |d| {
      assert p[..i] == d[..i];
    } else {
      assert p[..i][..|d|] == d && q[..i][..|d|] == e[..|d|];
    }
  }

  lemma ZerosAfter(e: string, i: nat)
    requires i < 9 && (e + Zeros(9))[i] != '0'
    ensures i < |e| && (e + Zeros(9))[i] == e[i]
  {
  }

  // ----- Text order and time order -----

  lemma PrefixAfter(p: string, q: string, n: nat)
    requires n <= |p| && n <= |q| && p[..n] == q[..n]
    ensures p < q <==> p[n..] < q[n..]
  {
    if p < q {
      assert forall i :: 0 <= i < |p| - n ==> p[n..][i] == q[n..][i];
    }
    if p[n..] < q[n..] {
      assert p == p[..n] + p[n..] && q == q[..n] + q[n..];
      forall i | 0 <= i < |p|
        ensures p[i] == q[i]
      {
        if i < n {
          assert p[..n][i] == q[..n][i];
        } else {
          assert p[n..][i - n] == q[n..][i - n];
        }
      }
    }
  }

  /** With one offset, text puts the earlier stamp first, except that `Z` sorts after the digits: a
      `Z` stamp comes after a later one that only adds digits to its fraction. */
  lemma TextOrderIsTimeOrderIff(a: Stamp, b: Stamp)
    requires IsMoment(a) && IsMoment(b) && a.offset == b.offset && Instant(a) < Instant(b)
    ensures Before(StampText(a), StampText(b)) <==>
              !(a.offset.Zulu? && a == b.(second := a.second) && a.second < b.second)
  {
    hide Before, StampText, LocalSeconds, IsFraction, Nanos, IsDateForm, OffsetSeconds;
    ClocksDecide(a, b);
    NanosBelow(a.second[2..]);
    NanosBelow(b.second[2..]);
    if LocalSeconds(a) == LocalSeconds(b) {
      var end := OffsetText(a.offset);
      FractionsDecide(a.second[2..], b.second[2..], end);
      PrefixAfter(a.second, b.second, 2);
      assert a.second == a.second[..2] + a.second[2..] && b.second == b.second[..2] + b.second[2..];
    } else if a == b.(second := a.second) {
      assert a.second[..2] != b.second[..2];
      assert !(a.second < b.second);
    }
  }

  lemma NanosBelow(fraction: string)
    requires IsFraction(fraction)
    ensures Nanos(fraction) < 1_000_000_000
  {
    hide Value;
    if fraction != "" {
      ValueBelow((fraction[1..] + Zeros(9))[..9]);
      assert Pow10(3) == 1000;
      assert Pow10(6) == 1_000_000;
      assert Pow10(9) == 1_000_000_000;
    }
  }

  /** So with one numeric offset, which is what the tool writes, text is never out of time order. */
  lemma NumericOffsetsSortByTime(a: Stamp, b: Stamp)
    requires IsMoment(a) && IsMoment(b) && a.offset == b.offset && !a.offset.Zulu?
    ensures Instant(a) < Instant(b) ==> Before(StampText(a), StampText(b))
    ensures AtMost(StampText(a), StampText(b)) ==> Instant(a) <= Instant(b)
  {
    hide StampText, Instant, IsMoment, AtMost;
    if Instant(a) < Instant(b) {
      TextOrderIsTimeOrderIff(a, b);
    } else if Instant(b) < Instant(a) {
      TextOrderIsTimeOrderIff(b, a);
    }
  }

  const NEW_YEAR := "2026-01-01"

  lemma NewYearIsDate()
    ensures IsDateForm(NEW_YEAR) && DateOf(NEW_YEAR) == BuildDate.Civil(2026, 1, 1)
  {
    hide Value;
    assert NEW_YEAR[..4] == "2026" && NEW_YEAR[5..7] == "01" && NEW_YEAR[8..] == "01";
    TwoDigits('2', '0');
    ValueAppend("20", '2');
    assert "20" + ['2'] == "202";
    ValueAppend("202", '6');
    assert "202" + ['6'] == "2026";
    TwoDigits('0', '1');
  }

  lemma TwoDigits(c: char, d: char)
    requires IsDigit(c) && IsDigit(d)
    ensures AllDigits([c, d]) && Value([c, d]) == 10 * DigitValue(c) + DigitValue(d)
  {
    hide Value;
    ValueOfNone();
    ValueAppend("", c);
    assert "" + [c] == [c];
    ValueAppend([c], d);
    assert [c] + [d] == [c, d];
  }

  /** A moment of New Year's Day 2026. */
  function NewYearAt(hour: string, minute: string, second: string, offset: Offset): Stamp {
    Stamp(NEW_YEAR, hour, minute, second, offset)
  }

  /** One in the morning at two hours ahead is before half past midnight without offset, and its text
      sorts after. */
  lemma OffsetsBreakTheOrder(a: Stamp, b: Stamp)
    requires a == NewYearAt("01", "00", "00", Ahead("02", "00")) && b == NewYearAt("00", "30", "00", Ahead("00", "00"))
    ensures IsMoment(a) && IsMoment(b)
    ensures Instant(a) < Instant(b) && Before(StampText(b), StampText(a))
  {
    hide Value, StampText, Before, IsDateForm;
    NewYearIsDate();
    TwoDigits('0', '1');
    TwoDigits('0', '0');
    TwoDigits('3', '0');
    TwoDigits('0', '2');
    assert "00"[..2] == "00" && "00"[2..] == "";
    ClocksDecide(b, a);
  }

  /** With `Z`, half a second past midnight is later than midnight, and its text sorts before. */
  lemma FractionsBreakTheOrderOfZulu(a: Stamp, b: Stamp)
    requires a == NewYearAt("00", "00", "00", Zulu) && b == NewYearAt("00", "00", "00.5", Zulu)
    ensures IsMoment(a) && IsMoment(b)
    ensures Instant(a) < Instant(b) && !Before(StampText(a), StampText(b))
  {
    hide Value, StampText, Before, IsDateForm;
    NewYearIsDate();
    TwoDigits('0', '0');
    assert "00"[..2] == "00" && "00"[2..] == "" && "00.5"[..2] == "00" && "00.5"[2..] == ".5" && ".5"[1..] == "5";
    HalfASecond();
    TextOrderIsTimeOrderIff(a, b);
  }

  lemma HalfASecond()
    ensures Value(("5" + Zeros(9))[..9]) > 0
  {
    var s := ("5" + Zeros(9))[..9];
    LessAt(Zeros(9), s, 0);
  }
}
