/**
  `format_size_dynamic`: a byte count shown as a number with two decimals and one of the
  units B, KB, MB, GB, TB, each 1024 times the one before.

  The scaled value is kept as an exact `real`. Dividing a double by 1024 only changes its
  exponent, so the loop of the source computes exactly `n / 1024^k` for every byte count
  a double holds exactly; `f"{size:.2f}"` then rounds that exact value to the nearest
  hundredth, a tie going to the even hundredth.
 */
module SizeFormat {

  const Units: seq<string> := ["B", "KB", "MB", "GB", "TB"]

  function Pow1024(k: nat): (r: nat)
    ensures r >= 1
  {
    if k == 0 then 1 else 1024 * Pow1024(k - 1)
  }

  lemma Pow1024Next(k: nat)
    ensures Pow1024(k + 1) as real == 1024.0 * Pow1024(k) as real
  {
    CastScale(Pow1024(k));
  }

  lemma CastScale(p: nat)
    ensures (1024 * p) as real == 1024.0 * p as real
  {
  }

  /**
    Unit `k` is the one chosen for `n` bytes: every smaller unit leaves a value of 1024
    or more, and `k` itself leaves one below 1024 unless it is the last unit, TB.
   */
  ghost predicate IsUnitFor(n: nat, k: nat)
  {
    && k < |Units|
    && (k < |Units| - 1 ==> n < Pow1024(k + 1))
    && forall j :: 1 <= j <= k ==> n >= Pow1024(j)
  }

  /** Index in `Units` of the unit chosen for `n` bytes. */
  function UnitIndex(n: nat): (k: nat)
    ensures IsUnitFor(n, k)
  {
    if n < Pow1024(1) then 0
    else if n < Pow1024(2) then 1
    else if n < Pow1024(3) then 2
    else if n < Pow1024(4) then 3
    else 4
  }

  /** Exactly one unit fits a byte count: the least `k` with `n < 1024^(k+1)`, capped at TB. */
  lemma UnitIndexUnique(n: nat, k: nat)
    requires IsUnitFor(n, k)
    ensures k == UnitIndex(n)
  {
    var u := UnitIndex(n);
    if k < u {
      assert false;
    } else if u < k {
      assert false;
    }
  }

  lemma BytesExactlyBelow1024(n: nat)
    ensures Units[UnitIndex(n)] == "B" <==> n < 1024
  {
    assert Pow1024(1) == 1024;
  }

  lemma TerabytesFrom1024To4(n: nat)
    ensures Units[UnitIndex(n)] == "TB" <==> n >= Pow1024(4)
  {
  }

  lemma DivTimes(x: real, p: real)
    requires p > 0.0
    ensures (x / p) * p == x
  {
  }

  lemma TimesCancel(a: real, b: real, p: real)
    requires p > 0.0 && a * p == b * p
    ensures a == b
  {
  }

  lemma TimesBelow(x: real, p: real, c: real)
    requires p > 0.0 && x < c
    ensures x * p < c * p
  {
  }

  lemma TimesAtLeast(x: real, p: real, c: real)
    requires p > 0.0 && x >= c
    ensures x * p >= c * p
  {
  }

  lemma BelowFromTimes(x: real, p: real, c: real)
    requires p > 0.0 && x * p < c * p
    ensures x < c
  {
    if x >= c {
      TimesAtLeast(x, p, c);
    }
  }

  lemma AtLeastFromTimes(x: real, p: real, c: real)
    requires p > 0.0 && x * p >= c * p
    ensures x >= c
  {
    if x < c {
      TimesBelow(x, p, c);
    }
  }

  /** `n` bytes in the chosen unit, `n / 1024^k`. */
  function Scaled(n: nat): real
  {
    n as real / Pow1024(UnitIndex(n)) as real
  }

  /**
    The scaled value times its unit is the byte count; it is below 1024 unless the unit
    is TB, and at least 1 unless the unit is B.
   */
  lemma ScaledBounds(n: nat)
    ensures Scaled(n) * Pow1024(UnitIndex(n)) as real == n as real
    ensures UnitIndex(n) < |Units| - 1 ==> Scaled(n) < 1024.0
    ensures UnitIndex(n) > 0 ==> Scaled(n) >= 1.0
  {
    var k := UnitIndex(n);
    var p := Pow1024(k);
    var r := Scaled(n);
    DivTimes(n as real, p as real);
    if k < |Units| - 1 {
      Pow1024Next(k);
      BelowFromTimes(r, p as real, 1024.0);
    }
    if k > 0 {
      assert n >= Pow1024(k);
      AtLeastFromTimes(r, p as real, 1.0);
    }
  }

  /** `x` to the nearest hundredth, as a count of hundredths; a tie goes to the even one. */
  function RoundHundredths(x: real): (h: nat)
    requires x >= 0.0
    ensures -0.5 <= h as real - 100.0 * x <= 0.5
    ensures h as real - 100.0 * x == 0.5 || h as real - 100.0 * x == -0.5 ==> h % 2 == 0
  {
    var t := 100.0 * x;
    var q := t.Floor;
    var f := t - q as real;
    if f > 0.5 || (f == 0.5 && q % 2 == 1) then q + 1 else q
  }

  /** The rounding is the only count of hundredths with the two properties above. */
  lemma RoundHundredthsUnique(x: real, h: nat)
    requires x >= 0.0
    requires -0.5 <= h as real - 100.0 * x <= 0.5
    requires h as real - 100.0 * x == 0.5 || h as real - 100.0 * x == -0.5 ==> h % 2 == 0
    ensures h == RoundHundredths(x)
  {
    var r := RoundHundredths(x);
    var e, e' := h as real - 100.0 * x, r as real - 100.0 * x;
    assert (h - r) as real == e - e';
    if h + 1 < r || h > r + 1 {
      assert false;
    } else if h + 1 == r || h == r + 1 {
      assert false;
    }
  }

  function Digit(d: nat): (c: char)
    requires d < 10
    ensures '0' <= c <= '9' && (c as int) - ('0' as int) == d
  {
    (('0' as int) + d) as char
  }

  ghost predicate AllDigits(s: string)
  {
    forall i :: 0 <= i < |s| ==> '0' <= s[i] <= '9'
  }

  /** `str(n)` for a non-negative int: decimal digits, no leading zero. */
  function Decimal(n: nat): (s: string)
    ensures |s| >= 1 && AllDigits(s)
    ensures s[0] == '0' ==> s == "0"
  {
    if n < 10 then [Digit(n)] else Decimal(n / 10) + [Digit(n % 10)]
  }

  /** The number a string of decimal digits denotes. */
  ghost function DecimalValue(s: string): nat
    requires AllDigits(s)
  {
    if s == [] then 0
    else 10 * DecimalValue(s[..|s| - 1]) + ((s[|s| - 1] as int) - ('0' as int))
  }

  lemma {:induction false} DecimalRoundTrip(n: nat)
    ensures DecimalValue(Decimal(n)) == n
  {
    if n >= 10 {
      DecimalRoundTrip(n / 10);
      var s := Decimal(n);
      assert s[..|s| - 1] == Decimal(n / 10);
    }
  }

  /** Every canonical decimal string is the rendering of the number it denotes. */
  lemma {:induction false} DecimalCanonical(s: string)
    requires |s| >= 1 && AllDigits(s) && (s[0] == '0' ==> s == "0")
    ensures Decimal(DecimalValue(s)) == s
    decreases |s|
  {
    var init := s[..|s| - 1];
    var d := (s[|s| - 1] as int) - ('0' as int);
    if init == [] {
      assert s == [s[0]];
    } else {
      DecimalCanonical(init);
      DecimalAtLeastOne(init);
      var v := DecimalValue(s);
      assert v / 10 == DecimalValue(init) && v % 10 == d;
      assert s == init + [s[|s| - 1]];
    }
  }

  lemma {:induction false} DecimalAtLeastOne(s: string)
    requires |s| >= 1 && AllDigits(s) && s[0] != '0'
    ensures DecimalValue(s) >= 1
    decreases |s|
  {
    if |s| > 1 {
      DecimalAtLeastOne(s[..|s| - 1]);
    }
  }

  /** `f"{x:.2f}"`: the integer part, a point, and two digits of hundredths. */
  function Fixed2(x: real): (s: string)
    requires x >= 0.0
  {
    var h := RoundHundredths(x);
    Decimal(h / 100) + "." + [Digit(h / 10 % 10), Digit(h % 10)]
  }

  /** Read back with its point taken out, the text of `Fixed2(x)` is `x` in rounded hundredths. */
  lemma Fixed2ReadsBack(x: real)
    requires x >= 0.0
    ensures |Fixed2(x)| >= 4 && Fixed2(x)[|Fixed2(x)| - 3] == '.'
    ensures var s := Fixed2(x);
      && AllDigits(s[..|s| - 3] + s[|s| - 2..])
      && DecimalValue(s[..|s| - 3] + s[|s| - 2..]) == RoundHundredths(x)
    ensures var s := Fixed2(x); s[..|s| - 3] == "0" || s[0] != '0'
  {
    var h := RoundHundredths(x);
    var s := Fixed2(x);
    var whole := Decimal(h / 100);
    var a, b := Digit(h / 10 % 10), Digit(h % 10);
    assert s == whole + ['.', a, b];
    assert s[..|s| - 3] == whole;
    assert s[..|s| - 3] + s[|s| - 2..] == whole + [a, b];
    TwoMoreDigits(whole, a, b);
    DecimalRoundTrip(h / 100);
    HundredthsSplit(h);
  }

  lemma TwoMoreDigits(d: string, a: char, b: char)
    requires AllDigits(d) && '0' <= a <= '9' && '0' <= b <= '9'
    ensures AllDigits(d + [a, b])
    ensures DecimalValue(d + [a, b]) ==
      100 * DecimalValue(d) + 10 * ((a as int) - ('0' as int)) + ((b as int) - ('0' as int))
  {
    var t := d + [a, b];
    assert t[..|t| - 1] == d + [a];
    assert (d + [a])[..|d|] == d;
  }

  lemma HundredthsSplit(h: nat)
    ensures h == 100 * (h / 100) + 10 * (h / 10 % 10) + h % 10
  {
    var t := h / 10;
    assert h == 10 * t + h % 10;
    assert t == 10 * (t / 10) + t % 10;
    assert t / 10 == h / 100;
  }

  lemma RoundWhole(m: nat)
    ensures RoundHundredths(m as real) == 100 * m
  {
    RoundHundredthsUnique(m as real, 100 * m);
  }

  lemma HundredthsOfWhole(m: nat)
    ensures (100 * m) / 100 == m && (100 * m) / 10 % 10 == 0 && (100 * m) % 10 == 0
  {
    assert (100 * m) / 10 == 10 * m;
  }

  /** A whole number shows as its digits followed by ".00". */
  lemma Fixed2Whole(m: nat)
    ensures Fixed2(m as real) == Decimal(m) + ".00"
  {
    var h := RoundHundredths(m as real);
    RoundWhole(m);
    HundredthsOfWhole(m);
    assert [Digit(h / 10 % 10), Digit(h % 10)] == "00";
  }

  /** The text `format_size_dynamic` returns for `n` bytes. */
  function FormatSize(n: nat): string
  {
    Fixed2(Scaled(n)) + " " + Units[UnitIndex(n)]
  }

  /** Where the loop below returns, its unit is the chosen one. */
  lemma StopsAtUnit(n: nat, i: nat, size: real)
    requires i < |Units| && size * Pow1024(i) as real == n as real
    requires forall j :: 1 <= j <= i ==> n >= Pow1024(j)
    requires size < 1024.0 || Units[i] == "TB"
    ensures IsUnitFor(n, i)
  {
    if i < |Units| - 1 {
      BelowNextUnit(n, i, size);
    }
  }

  lemma BelowNextUnit(n: nat, i: nat, size: real)
    requires size * Pow1024(i) as real == n as real && size < 1024.0
    ensures n < Pow1024(i + 1)
  {
    Pow1024Next(i);
    BelowScale(size, Pow1024(i) as real, Pow1024(i + 1) as real, n as real);
  }

  lemma BelowScale(x: real, p: real, q: real, y: real)
    requires p > 0.0 && x * p == y && x < 1024.0 && q == 1024.0 * p
    ensures y < q
  {
    TimesBelow(x, p, 1024.0);
  }

  /** Where the loop below returns, it returns the text of `FormatSize`. */
  lemma StopsAt(n: nat, i: nat, size: real)
    requires i < |Units| && size * Pow1024(i) as real == n as real
    requires forall j :: 1 <= j <= i ==> n >= Pow1024(j)
    requires size < 1024.0 || Units[i] == "TB"
    ensures i == UnitIndex(n) && size == Scaled(n)
  {
    StopsAtUnit(n, i, size);
    UnitIndexUnique(n, i);
    ScaledIs(n, i, size);
  }

  /** A value that is `n` bytes in the chosen unit is the scaled value. */
  lemma ScaledIs(n: nat, k: nat, size: real)
    requires k == UnitIndex(n) && size * Pow1024(k) as real == n as real
    ensures Scaled(n) == size
  {
    var p := Pow1024(k) as real;
    var r := Scaled(n);
    ScaledBounds(n);
    assert r * p == size * p;
    TimesCancel(r, size, p);
  }

  /** Where the loop below goes on, the next unit still fits the invariant. */
  lemma StepsPastUnit(n: nat, i: nat, size: real)
    requires i < |Units| && size * Pow1024(i) as real == n as real
    requires !(size < 1024.0 || Units[i] == "TB")
    ensures i + 1 < |Units|
    ensures (size / 1024.0) * Pow1024(i + 1) as real == n as real
    ensures n >= Pow1024(i + 1)
  {
    var p := Pow1024(i) as real;
    TimesAtLeast(size, p, 1024.0);
    assert (size / 1024.0) * (1024.0 * p) == size * p;
  }

  /**
    `format_size_dynamic`: walks the units, dividing by 1024 at each step, and returns at
    the first unit whose value is below 1024, or at TB whatever the value is. The test on
    TB is what keeps the loop from ever running past the last unit.
   */
  method FormatSizeDynamic(sizeInBytes: nat) returns (s: string)
    ensures s == FormatSize(sizeInBytes)
  {
    var size := sizeInBytes as real;
    for i := 0 to |Units|
      invariant i < |Units|
      invariant size * Pow1024(i) as real == sizeInBytes as real
      invariant forall j :: 1 <= j <= i ==> sizeInBytes >= Pow1024(j)
    {
      var unit := Units[i];
      if size < 1024.0 || unit == "TB" {
        StopsAt(sizeInBytes, i, size);
        return Fixed2(size) + " " + unit;
      }
      StepsPastUnit(sizeInBytes, i, size);
      size := size / 1024.0;
    }
    assert false;
  }

  lemma WholeQuotient(n: nat, p: nat, m: nat)
    requires p >= 1 && n % p == 0 && m == n / p
    ensures n as real / p as real == m as real
  {
    assert n == m * p;
    CastMul(m, p);
    DivTimes(n as real, p as real);
    TimesCancel(n as real / p as real, m as real, p as real);
  }

  lemma CastMul(a: nat, b: nat)
    ensures (a * b) as real == a as real * b as real
  {
  }

  /** A byte count that is a whole number of its unit shows that number and ".00". */
  lemma FormatSizeWhole(n: nat)
    requires n % Pow1024(UnitIndex(n)) == 0
    ensures FormatSize(n) == Decimal(n / Pow1024(UnitIndex(n))) + ".00 " + Units[UnitIndex(n)]
  {
    var p := Pow1024(UnitIndex(n));
    var m := n / p;
    WholeQuotient(n, p, m);
    assert Scaled(n) == m as real;
    Fixed2Whole(m);
  }

  /** Below 1024 bytes the count shows whole, in bytes. */
  lemma FormatSizeBytes(n: nat)
    requires n < 1024
    ensures FormatSize(n) == Decimal(n) + ".00 B"
  {
    assert UnitIndex(n) == 0;
    FormatSizeWhole(n);
  }

  /** The four format cases of the size tests. */
  lemma FormatSizeZero()
    ensures FormatSize(0) == "0.00 B"
  {
    FormatSizeWhole(0);
  }

  lemma FormatSizeJustBelowKilobyte()
    ensures FormatSize(1023) == "1023.00 B"
  {
    FormatSizeBytes(1023);
    assert Decimal(1023) == "1023" by {
      assert Decimal(102) == "102" by {
        assert Decimal(10) == "10";
      }
    }
  }

  lemma FormatSizeKilobyte()
    ensures FormatSize(1024) == "1.00 KB"
  {
    assert UnitIndex(1024) == 1;
    FormatSizeWhole(1024);
  }

  lemma FormatSizeMegabyte()
    ensures FormatSize(1024 * 1024) == "1.00 MB"
  {
    assert UnitIndex(1024 * 1024) == 2;
    FormatSizeWhole(1024 * 1024);
  }
}
