/** Text as the program prints, splits and compares it. A `string` is a sequence of Unicode
    scalar values, whose order is the byte order of their UTF-8 form. */
module Text {

  // ----- Decimal digits -----

  function Pow10(k: nat): (p: nat)
    ensures p > 0
  {
    if k == 0 then 1 else 10 * Pow10(k - 1)
  }

  predicate IsDigit(c: char) {
    '0' <= c <= '9'
  }

  predicate AllDigits(s: string) {
    forall i :: 0 <= i < |s| ==> IsDigit(s[i])
  }

  function DigitValue(c: char): (d: nat)
    requires IsDigit(c)
    ensures d < 10
  {
    c as int - '0' as int
  }

  function DigitChar(d: nat): (c: char)
    requires d < 10
    ensures IsDigit(c) && DigitValue(c) == d
  {
    ('0' as int + d) as char
  }

  /** The number a run of digits denotes; leading zeros are allowed. */
  function Value(s: string): nat
    requires AllDigits(s)
  {
    if s == "" then 0 else 10 * Value(s[..|s| - 1]) + DigitValue(s[|s| - 1])
  }

  /** The decimal form of an unsigned integer. */
  function Digits(n: nat): (s: string)
    ensures AllDigits(s) && s != ""
  {
    if n < 10 then [DigitChar(n)] else Digits(n / 10) + [DigitChar(n % 10)]
  }

  /** The decimal form of a signed integer. */
  function IntText(i: int): string {
    if i < 0 then "-" + Digits(-i) else Digits(i)
  }

  /** The low `width` digits of `n`. */
  function FixedDigits(n: nat, width: nat): (s: string)
    ensures AllDigits(s) && |s| == width
  {
    if width == 0 then "" else FixedDigits(n / 10, width - 1) + [DigitChar(n % 10)]
  }

  function Zeros(k: nat): (s: string)
    ensures AllDigits(s) && |s| == k
  {
    seq(k, _ => '0')
  }

  /** Rust's `{:0width$}` on an unsigned integer. */
  function ZeroPadded(n: nat, width: nat): (s: string)
    ensures AllDigits(s) && |s| >= width && s != ""
  {
    var d := Digits(n);
    if |d| >= width then d else Zeros(width - |d|) + d
  }

  lemma ValueOfNone()
    ensures Value("") == 0
  {
  }

  lemma ValueAppend(s: string, c: char)
    requires AllDigits(s) && IsDigit(c)
    ensures AllDigits(s + [c]) && Value(s + [c]) == 10 * Value(s) + DigitValue(c)
  {
    assert (s + [c])[..|s|] == s;
  }

  lemma {:induction false} ValueConcat(a: string, b: string)
    requires AllDigits(a) && AllDigits(b)
    ensures AllDigits(a + b) && Value(a + b) == Value(a) * Pow10(|b|) + Value(b)
    decreases |b|
  {
    hide Value, Pow10;
    if b == "" {
      assert a + b == a;
      ValueOfNone();
      Pow10Zero();
    } else {
      var n := |b| - 1;
      ValueConcat(a, b[..n]);
      assert a + b == a + b[..n] + [b[n]] && b == b[..n] + [b[n]];
      ValueAppend(a + b[..n], b[n]);
      ValueAppend(b[..n], b[n]);
      TenMore(n);
      Factor(Value(a), Pow10(n));
    }
  }

  lemma TenMore(k: nat)
    ensures Pow10(k + 1) == 10 * Pow10(k)
  {
  }

  lemma {:induction false} ValueBelow(s: string)
    requires AllDigits(s)
    ensures Value(s) < Pow10(|s|)
  {
    if s == "" {
    } else {
      ValueBelow(s[..|s| - 1]);
    }
  }

  lemma {:induction false} ValueOfZeros(k: nat)
    ensures Value(Zeros(k)) == 0
  {
    hide Value;
    if k == 0 {
      ValueOfNone();
    } else {
      ValueOfZeros(k - 1);
      ValueAppend(Zeros(k - 1), '0');
      assert Zeros(k) == Zeros(k - 1) + ['0'];
    }
  }

  lemma {:induction false} ValueOfDigits(n: nat)
    ensures Value(Digits(n)) == n
  {
    if n >= 10 {
      ValueOfDigits(n / 10);
      ValueAppend(Digits(n / 10), DigitChar(n % 10));
    }
  }

  lemma IntTextInjective(i: int, j: int)
    requires IntText(i) == IntText(j)
    ensures i == j
  {
    hide Digits, Value;
    assert IntText(i)[0] == IntText(j)[0];
    if i < 0 && j < 0 {
      assert IntText(i)[1..] == Digits(-i) && IntText(j)[1..] == Digits(-j);
      ValueOfDigits(-i);
      ValueOfDigits(-j);
    } else {
      ValueOfDigits(i);
      ValueOfDigits(j);
    }
  }

  lemma {:induction false} ValueOfFixedDigits(n: nat, width: nat)
    requires n < Pow10(width)
    ensures Value(FixedDigits(n, width)) == n
  {
    hide Value;
    if width == 0 {
      ValueOfNone();
    } else {
      ValueOfFixedDigits(n / 10, width - 1);
      ValueAppend(FixedDigits(n / 10, width - 1), DigitChar(n % 10));
    }
  }

  lemma {:induction false} FixedDigitsOfZero(width: nat)
    ensures FixedDigits(0, width) == Zeros(width)
  {
    if width == 0 {
    } else {
      FixedDigitsOfZero(width - 1);
    }
  }

  /** Below `10^width`, zero padding gives exactly the low `width` digits. */
  lemma {:induction false} ZeroPaddedIsFixed(n: nat, width: nat)
    requires n < Pow10(width) && width > 0
    ensures ZeroPadded(n, width) == FixedDigits(n, width)
  {
    if n < 10 {
      FixedDigitsOfZero(width - 1);
    } else {
      assert width > 1 by { assert Pow10(1) == 10; }
      ZeroPaddedIsFixed(n / 10, width - 1);
      assert Zeros(width - |Digits(n)|) + Digits(n)
               == Zeros(width - |Digits(n)|) + Digits(n / 10) + [DigitChar(n % 10)];
    }
  }

  lemma Pow10Zero()
    ensures Pow10(0) == 1
  {
  }

  lemma TenTimes(m: nat)
    ensures 10 * m / 10 == m && 10 * m % 10 == 0
  {
  }

  lemma ScaledByTen(n: nat, k: nat)
    requires k > 0
    ensures n * Pow10(k) / 10 == n * Pow10(k - 1) && n * Pow10(k) % 10 == 0
  {
    var p := Pow10(k - 1);
    assert Pow10(k) == 10 * p;
    Factor(n, p);
    TenTimes(n * p);
  }

  lemma Factor(n: nat, p: nat)
    ensures n * p >= 0
    ensures n * (10 * p) == 10 * (n * p)
  {
  }

  /** Appending `k` zeros multiplies by `10^k`. */
  lemma {:induction false} FixedDigitsScaled(n: nat, width: nat, k: nat)
    ensures n * Pow10(k) >= 0
    ensures FixedDigits(n * Pow10(k), width + k) == FixedDigits(n, width) + Zeros(k)
  {
    hide Pow10;
    if k == 0 {
      Pow10Zero();
      assert FixedDigits(n, width) + Zeros(0) == FixedDigits(n, width);
    } else {
      Factor(n, Pow10(k));
      ScaledByTen(n, k);
      FixedDigitsScaled(n, width, k - 1);
      assert Zeros(k) == Zeros(k - 1) + ['0'];
    }
  }

  lemma {:induction false} Pow10Sum(a: nat, b: nat)
    ensures Pow10(a + b) == Pow10(a) * Pow10(b)
  {
    if b == 0 {
    } else {
      Pow10Sum(a, b - 1);
      assert a + b - 1 == a + (b - 1);
    }
  }

  // ----- Splitting -----

  /** Rust's `str::split` on one character: always at least one piece. */
  function Split(s: string, sep: char): (parts: seq<string>)
    ensures |parts| >= 1
  {
    if s == "" then [""]
    else if s[0] == sep then [""] + Split(s[1..], sep)
    else var rest := Split(s[1..], sep); [[s[0]] + rest[0]] + rest[1..]
  }

  lemma {:induction false} SplitPlain(s: string, sep: char)
    requires sep !in s
    ensures Split(s, sep) == [s]
  {
    if s == "" {
    } else {
      SplitPlain(s[1..], sep);
      assert [s[0]] + s[1..] == s;
    }
  }

  lemma {:induction false} SplitAt(a: string, sep: char, b: string)
    requires sep !in a
    ensures Split(a + [sep] + b, sep) == [a] + Split(b, sep)
  {
    var s := a + [sep] + b;
    if a == "" {
      assert s[1..] == b;
    } else {
      SplitAt(a[1..], sep, b);
      assert s[1..] == a[1..] + [sep] + b;
      assert [a[0]] + a[1..] == a;
    }
  }

  /** The pieces with the separator between them. */
  function Rejoin(parts: seq<string>, sep: char): string
    requires |parts| >= 1
  {
    if |parts| == 1 then parts[0] else parts[0] + ([sep] + Rejoin(parts[1..], sep))
  }

  lemma RejoinsFirst(first: string, rest: seq<string>, sep: char)
    requires |rest| >= 1
    ensures Rejoin([first] + rest, sep) == first + ([sep] + Rejoin(rest, sep))
  {
    assert ([first] + rest)[1..] == rest;
  }

  lemma RejoinsLonger(c: char, parts: seq<string>, sep: char)
    requires |parts| >= 1
    ensures Rejoin([[c] + parts[0]] + parts[1..], sep) == [c] + Rejoin(parts, sep)
  {
    var longer := [[c] + parts[0]] + parts[1..];
    assert longer[1..] == parts[1..];
    if |parts| > 1 {
      assert [c] + (parts[0] + ([sep] + Rejoin(parts[1..], sep))) == [c] + parts[0] + ([sep] + Rejoin(parts[1..], sep));
    }
  }

  /** Splitting loses nothing, and leaves no separator in a piece. */
  lemma {:induction false} SplitRejoins(s: string, sep: char)
    ensures Rejoin(Split(s, sep), sep) == s
    ensures forall i :: 0 <= i < |Split(s, sep)| ==> sep !in Split(s, sep)[i]
  {
    hide Rejoin;
    if s == "" {
      assert Rejoin([""], sep) == "" by { RejoinsOne("", sep); }
    } else {
      SplitRejoins(s[1..], sep);
      var rest := Split(s[1..], sep);
      assert s == [s[0]] + s[1..];
      if s[0] == sep {
        RejoinsFirst("", rest, sep);
      } else {
        RejoinsLonger(s[0], rest, sep);
      }
    }
  }

  lemma RejoinsOne(s: string, sep: char)
    ensures Rejoin([s], sep) == s
  {
  }

  // ----- Order -----

  /** Rust's `<=` on strings. */
  predicate AtMost(a: string, b: string) {
    a == "" || (b != "" && (a[0] < b[0] || (a[0] == b[0] && AtMost(a[1..], b[1..]))))
  }

  /** Rust's `<` on strings. */
  predicate Before(a: string, b: string) {
    !AtMost(b, a)
  }

  lemma {:induction false} AtMostTotal(a: string, b: string)
    ensures AtMost(a, b) || AtMost(b, a)
  {
    if a != "" && b != "" {
      AtMostTotal(a[1..], b[1..]);
    }
  }

  lemma {:induction false} AtMostTransitive(a: string, b: string, c: string)
    requires AtMost(a, b) && AtMost(b, c)
    ensures AtMost(a, c)
  {
    if a != "" && a[0] == b[0] == c[0] {
      AtMostTransitive(a[1..], b[1..], c[1..]);
    }
  }

  lemma {:induction false} AtMostAntisymmetric(a: string, b: string)
    requires AtMost(a, b) && AtMost(b, a)
    ensures a == b
  {
    if a == "" {
    } else {
      AtMostAntisymmetric(a[1..], b[1..]);
      assert [a[0]] + a[1..] == a && [b[0]] + b[1..] == b;
    }
  }
}
