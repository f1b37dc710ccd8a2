/**
 * humanReadableSize: a byte count printed as a number with two decimals, a space and a unit.
 *
 * Go computes float64(i) / 1024^k and prints it with "%.2f". The model does the same
 * arithmetic exactly: float64(i) is the float nearest i (ties to an even significand), the
 * division by a power of two is exact, and "%.2f" rounds the exact binary value half to
 * even at the second decimal, as Go's strconv does for a fixed precision in 'f' format.
 */
module SizeFormat {
  import opened Wrappers

  /** Go's int64, the type of os.FileInfo.Size(). */
  newtype int64 = x: int | -0x8000_0000_0000_0000 <= x < 0x8000_0000_0000_0000

  const KiB: int := 1024
  const MiB: int := 1024 * 1024
  const GiB: int := 1024 * 1024 * 1024

  datatype Unit = B | KB | MB | GB

  function Label(u: Unit): string
  {
    match u
    case B => "B"
    case KB => "KB"
    case MB => "MB"
    case GB => "GB"
  }

  /** The divisor that goes with a unit. */
  function Scale(u: Unit): (d: int)
    ensures d > 0
  {
    match u
    case B => 1
    case KB => KiB
    case MB => MiB
    case GB => GiB
  }

  /** The case of the switch that humanReadableSize takes; negative counts fall to bytes. */
  function UnitOf(i: int64): (u: Unit)
    ensures u == GB <==> GiB <= i as int
    ensures u == MB <==> MiB <= i as int < GiB
    ensures u == KB <==> KiB <= i as int < MiB
    ensures u == B <==> i as int < KiB
  {
    if i as int >= GiB then GB
    else if i as int >= MiB then MB
    else if i as int >= KiB then KB
    else B
  }

  /** The quotient and remainder of n by d, and the product one above the quotient. */
  lemma DivMod(n: nat, d: int)
    requires d > 0
    ensures n == (n / d) * d + n % d && 0 <= n % d < d
    ensures (n / d + 1) * d == (n / d) * d + d
  {
  }

  /**
   * The choice RoundHalfEven makes, for n = q * d + r with 0 <= r < d: the lower quotient q
   * unless the remainder is past the half, or exactly the half with q odd. The choice is the
   * nearest quotient, and an even one on a tie.
   */
  lemma NearestChoice(n: int, d: int, q: int, r: int, c: int)
    requires d > 0 && 0 <= r < d && n == q * d + r
    requires c == if 2 * r < d || (2 * r == d && q % 2 == 0) then q else q + 1
    ensures 2 * (c * d) <= 2 * n + d && 2 * n <= 2 * (c * d) + d
    ensures 2 * n + d == 2 * (c * d) || 2 * n == 2 * (c * d) + d ==> c % 2 == 0
  {
    var m := q * d;
    if c == q + 1 {
      assert c * d == m + d;
    }
  }

  /** NearestChoice for the quotient and remainder of n by d. */
  lemma NearestQuotient(n: nat, d: int, c: int)
    requires d > 0
    requires c == if 2 * (n % d) < d || (2 * (n % d) == d && (n / d) % 2 == 0) then n / d else n / d + 1
    ensures c >= 0
    ensures 2 * (c * d) <= 2 * n + d && 2 * n <= 2 * (c * d) + d
    ensures 2 * n + d == 2 * (c * d) || 2 * n == 2 * (c * d) + d ==> c % 2 == 0
  {
    DivMod(n, d);
    NearestChoice(n, d, n / d, n % d, c);
  }

  /** n / d rounded to the nearest integer, a tie going to the even neighbour. */
  function RoundHalfEven(n: nat, d: int): (q: nat)
    requires d > 0
    ensures 2 * (q * d) <= 2 * n + d && 2 * n <= 2 * (q * d) + d
    ensures 2 * n + d == 2 * (q * d) || 2 * n == 2 * (q * d) + d ==> q % 2 == 0
  {
    var c := if 2 * (n % d) < d || (2 * (n % d) == d && (n / d) % 2 == 0) then n / d else n / d + 1;
    NearestQuotient(n, d, c);
    c
  }

  /** 2^53: every integer of smaller magnitude is a float64. */
  const Significand: int := 0x20_0000_0000_0000

  /** g is 2^k for some k >= 0. */
  predicate IsPowerOfTwo(g: int)
    decreases if g > 0 then g else 0
  {
    g == 1 || (g > 1 && g % 2 == 0 && IsPowerOfTwo(g / 2))
  }

  /** The distance between neighbouring float64 values around n: 1 below 2^53, doubling with each binade above. */
  function Gap(n: nat): (g: int)
    ensures g >= 1 && IsPowerOfTwo(g)
    ensures n < Significand * g
    ensures g > 1 ==> Significand * g <= 2 * n
    decreases n
  {
    if n < Significand then 1 else 2 * Gap(n / 2)
  }

  /** Dividing a multiple of g by g recovers the multiplier, with nothing left over. */
  lemma MultipleMod(q: nat, g: int)
    requires g > 0
    ensures (q * g) % g == 0 && (q * g) / g == q
  {
    DivMod(q * g, g);
    var a, r := (q * g) / g, (q * g) % g;
    assert (q - a) * g == r;
    MulSign(q - a, g);
  }

  lemma MulSign(x: int, g: int)
    requires g > 0
    ensures x >= 1 ==> x * g >= g
    ensures x <= -1 ==> x * g <= -g
  {
  }

  /** float64(n) for n >= 0: the multiple of the gap nearest n, a tie going to the even multiple. */
  function ToFloat64(n: nat): (f: nat)
    ensures f % Gap(n) == 0
    ensures 2 * f <= 2 * n + Gap(n) && 2 * n <= 2 * f + Gap(n)
    ensures 2 * f == 2 * n + Gap(n) || 2 * n == 2 * f + Gap(n) ==> (f / Gap(n)) % 2 == 0
    ensures n < Significand ==> f == n
  {
    var g := Gap(n);
    var q := RoundHalfEven(n, g);
    MultipleMod(q, g);
    q * g
  }

  /** 2^53 + 1 lies halfway between the float64 values 2^53 and 2^53 + 2, and rounds to the even one. */
  lemma TieToEvenExample()
    ensures Gap(0x20_0000_0000_0001) == 2
    ensures ToFloat64(0x20_0000_0000_0001) == 0x20_0000_0000_0000
  {
    assert Gap(0x10_0000_0000_0000) == 1;
  }

  function Magnitude(i: int64): nat
  {
    if i < 0 then -(i as int) else i as int
  }

  /**
   * The digits that "%.2f" prints for float64(i) / Scale(UnitOf(i)), as a count of hundredths,
   * without the sign: float64 is symmetric around zero, so this is the magnitude's rounding.
   */
  function Hundredths(i: int64): nat
  {
    RoundHalfEven(100 * ToFloat64(Magnitude(i)), Scale(UnitOf(i)))
  }

  predicate IsDigit(c: char)
  {
    '0' <= c <= '9'
  }

  predicate AllDigits(s: string)
  {
    forall k :: 0 <= k < |s| ==> IsDigit(s[k])
  }

  function DigitChar(d: nat): (c: char)
    requires d < 10
    ensures IsDigit(c)
  {
    (48 + d) as char
  }

  function DigitValue(c: char): (d: nat)
    requires IsDigit(c)
    ensures d < 10 && DigitChar(d) == c
  {
    c as int - '0' as int
  }

  /** The numeral of n as "%d" prints it: decimal digits only, with no leading zero. */
  function Decimal(n: nat): (s: string)
    ensures |s| >= 1 && AllDigits(s)
    ensures s[0] == '0' ==> n == 0 && s == "0"
    decreases n
  {
    if n < 10 then [DigitChar(n)] else Decimal(n / 10) + [DigitChar(n % 10)]
  }

  /** The number a string of decimal digits denotes. */
  function DecimalValue(s: string): nat
    requires AllDigits(s)
    decreases |s|
  {
    if s == [] then 0 else 10 * DecimalValue(s[..|s| - 1]) + DigitValue(s[|s| - 1])
  }

  lemma {:induction false} DecimalRoundTrip(n: nat)
    ensures DecimalValue(Decimal(n)) == n
    decreases n
  {
    if n >= 10 {
      var s := Decimal(n);
      assert s == Decimal(n / 10) + [DigitChar(n % 10)];
      assert s[..|s| - 1] == Decimal(n / 10);
      DecimalRoundTrip(n / 10);
    }
  }

  /** "%.2f" of a value given by its sign and its number of hundredths. */
  function Fixed2(negative: bool, h: nat): string
  {
    (if negative then "-" else "") + Decimal(h / 100) + "." + [DigitChar(h / 10 % 10), DigitChar(h % 10)]
  }

  /** Reads back a numeral of the form [-]d+.dd as a signed count of hundredths. */
  function ParseFixed2(s: string): Option<int>
  {
    var negative := |s| > 0 && s[0] == '-';
    var m := if negative then s[1..] else s;
    if |m| < 4 || m[|m| - 3] != '.' || !AllDigits(m[..|m| - 3]) || !IsDigit(m[|m| - 2]) || !IsDigit(m[|m| - 1]) then
      None
    else
      var h := 100 * DecimalValue(m[..|m| - 3]) + 10 * DigitValue(m[|m| - 2]) + DigitValue(m[|m| - 1]);
      Some(if negative then -h else h)
  }

  /** A numeral printed by Fixed2 reads back as the value it was printed from. */
  lemma Fixed2RoundTrip(negative: bool, h: nat)
    ensures ParseFixed2(Fixed2(negative, h)) == Some(if negative then -(h as int) else h as int)
  {
    var m := Decimal(h / 100) + "." + [DigitChar(h / 10 % 10), DigitChar(h % 10)];
    assert m[..|m| - 3] == Decimal(h / 100);
    assert m[|m| - 3] == '.';
    DecimalRoundTrip(h / 100);
    assert h == 100 * (h / 100) + 10 * (h / 10 % 10) + h % 10 by {
      assert h / 10 == 10 * (h / 100) + h / 10 % 10;
    }
    var s := Fixed2(negative, h);
    if negative {
      assert s == "-" + m && s[1..] == m;
    } else {
      assert s == m && IsDigit(s[0]);
    }
  }

  function HumanReadableSize(i: int64): string
  {
    Fixed2(i < 0, Hundredths(i)) + " " + Label(UnitOf(i))
  }

  /**
   * The text is a two-decimal numeral, one space and the unit label, and the numeral reads
   * back as the signed value in hundredths.
   */
  lemma SizeText(i: int64)
    ensures var r, u := HumanReadableSize(i), Label(UnitOf(i));
      && |r| > |u| + 1
      && r[|r| - |u| - 1..] == " " + u
      && ParseFixed2(r[..|r| - |u| - 1]) == Some(if i < 0 then -(Hundredths(i) as int) else Hundredths(i) as int)
  {
    var num, u := Fixed2(i < 0, Hundredths(i)), Label(UnitOf(i));
    var r := HumanReadableSize(i);
    assert r == num + (" " + u);
    assert r[..|num|] == num;
    assert r[|num|..] == " " + u;
    Fixed2RoundTrip(i < 0, Hundredths(i));
  }

  /**
   * The printed value is within half a hundredth of float64(i) / Scale; float64(i) is within
   * half a gap of i, and equal to it below 2^53.
   */
  lemma SizeRounding(i: int64)
    ensures var f, d, h := ToFloat64(Magnitude(i)), Scale(UnitOf(i)), Hundredths(i);
      && 2 * (h * d) <= 200 * f + d && 200 * f <= 2 * (h * d) + d
      && 2 * f <= 2 * Magnitude(i) + Gap(Magnitude(i)) && 2 * Magnitude(i) <= 2 * f + Gap(Magnitude(i))
      && (Magnitude(i) < Significand ==> f == Magnitude(i))
  {
  }

  /** Gaps of float64 values up to 2^63 are at most 2^11. */
  lemma GapOfInt64(n: nat)
    requires n <= 0x8000_0000_0000_0000
    ensures Gap(n) <= 2048
  {
  }

  /**
   * Each unit other than B is used only when the value in it is at least 1.00; in KB and MB the
   * value never exceeds 1024.00 (which 1048575 bytes reach), and non-negative byte counts stay
   * below 1024.00 B.
   */
  lemma SizeInUnitRange(i: int64)
    ensures UnitOf(i) != B ==> Hundredths(i) >= 100
    ensures UnitOf(i) == KB || UnitOf(i) == MB ==> Hundredths(i) <= 102400
    ensures UnitOf(i) == B && i >= 0 ==> Hundredths(i) <= 102300
  {
    var n, u := Magnitude(i), UnitOf(i);
    var f, h := ToFloat64(n), Hundredths(i);
    SizeRounding(i);
    if u == KB || u == MB {
      assert f == n;
      var d := Scale(u);
      assert d <= n < 1024 * d;
      assert 2 * (h * d) >= 200 * n - d >= 199 * d;
      assert 2 * (h * d) <= 200 * n + d < 204801 * d;
    } else if u == GB {
      GapOfInt64(n);
      assert 2 * f >= 2 * n - 2048;
      assert Scale(u) == 1073741824;
      assert 2 * (h * 1073741824) >= 200 * f - 1073741824;
    } else if i >= 0 {
      assert f == n && n <= 1023 && Scale(u) == 1;
    }
  }

  /** Whole bytes print with zero decimals, a negative count with its sign. */
  lemma SizeExamplesBytes()
    ensures HumanReadableSize(512) == "512.00 B"
    ensures HumanReadableSize(-5) == "-5.00 B"
  {
    assert Decimal(512) == "512" by {
      assert Decimal(5) == "5";
      assert Decimal(51) == Decimal(5) + [DigitChar(1)];
    }
    assert ToFloat64(512) == 512;
    assert Hundredths(512) == 51200;
    assert ToFloat64(5) == 5;
    assert Hundredths(-5) == 500;
  }

  /** 1024 bytes are exactly one kilobyte; 1152 bytes are 1.125 KB, a tie rounded to the even digit. */
  lemma SizeExamplesKilo()
    ensures HumanReadableSize(1024) == "1.00 KB"
    ensures HumanReadableSize(1152) == "1.12 KB"
  {
    assert ToFloat64(1024) == 1024;
    assert Hundredths(1024) == 100 by {
      DivMod(102400, 1024);
    }
    assert ToFloat64(1152) == 1152;
    assert Hundredths(1152) == 112 by {
      assert 115200 == 112 * 1024 + 512;
      DivMod(115200, 1024);
    }
  }

  /** One byte short of a megabyte rounds up to 1024.00 KB rather than moving to MB. */
  lemma SizeExampleBoundary()
    ensures HumanReadableSize(1048575) == "1024.00 KB"
  {
    assert Decimal(1024) == "1024" by {
      assert Decimal(10) == Decimal(1) + [DigitChar(0)];
      assert Decimal(102) == Decimal(10) + [DigitChar(2)];
    }
    assert ToFloat64(1048575) == 1048575;
    assert Hundredths(1048575) == 102400 by {
      assert 104857500 == 102399 * 1024 + 924;
      DivMod(104857500, 1024);
    }
  }
}
