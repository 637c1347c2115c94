/** `format_file_size`: a byte count as text, either the exact count in bytes or the
    count scaled to KB, MB or GB with two decimals. The divisors are powers of two, so
    the quotient Python formats is exact (for counts below 2^53), and `.2f` rounds that
    exact value to hundredths, ties going to the even neighbour. */
module FileSize {
  import opened Wrappers
  import opened Text

  datatype Unit = Bytes | KB | MB | GB

  function UnitName(u: Unit): (name: string)
    ensures |name| == 1 <==> u == Bytes
    ensures |name| == 1 || |name| == 2
  {
    match u
    case Bytes => "B"
    case KB => "KB"
    case MB => "MB"
    case GB => "GB"
  }

  /** The unit a suffix names, if any. */
  function UnitOfName(name: string): (u: Option<Unit>)
    ensures u.Some? ==> UnitName(u.value) == name
  {
    if name == "B" then Some(Bytes)
    else if name == "KB" then Some(KB)
    else if name == "MB" then Some(MB)
    else if name == "GB" then Some(GB)
    else None
  }

  /** How many bytes one of the unit is. */
  function Divisor(u: Unit): (d: nat)
    ensures d >= 1
  {
    match u
    case Bytes => 1
    case KB => 1024
    case MB => 1024 * 1024
    case GB => 1024 * 1024 * 1024
  }

  /** The unit `format_file_size` picks: the largest whose divisor does not exceed the
      count, with GB as the largest there is. */
  function UnitFor(n: nat): (u: Unit)
    ensures u == Bytes <==> n < 1024
    ensures u != Bytes ==> Divisor(u) <= n
    ensures u != GB ==> n < 1024 * Divisor(u)
  {
    if n < 1024 then Bytes
    else if n < 1024 * 1024 then KB
    else if n < 1024 * 1024 * 1024 then MB
    else GB
  }

  /** The two conditions above pick exactly one unit. */
  lemma UnitForUnique(n: nat, u: Unit)
    requires u != Bytes ==> Divisor(u) <= n
    requires u != GB ==> n < 1024 * Divisor(u)
    ensures u == UnitFor(n)
  {
  }

  /** `h` is `a / d` rounded to an integer, halves going to the even neighbour. */
  predicate IsRounded(h: int, a: int, d: int)
  {
    var err := h * d - a;
    -d <= 2 * err <= d && (2 * err == d || 2 * err == -d ==> h % 2 == 0)
  }

  /** Rounding `a / d` down misses by the remainder; rounding up, by what the remainder
      lacks of `d`. */
  lemma DivisionErrors(a: nat, d: nat, q: int, rem: int)
    requires d >= 1 && q == a / d && rem == a % d
    ensures 0 <= rem < d && q * d - a == -rem && (q + 1) * d - a == d - rem
  {
    assert q * d + rem == a;
    assert (q + 1) * d == q * d + d;
  }

  /** Which neighbour of `a / d` is the rounded one: the lower when the remainder is under
      half of `d`, the upper when it is over, and the even one when it is exactly half. */
  lemma RoundingChoice(a: nat, d: nat, q: int, rem: int)
    requires d >= 1 && q == a / d && rem == a % d
    ensures 2 * rem < d ==> IsRounded(q, a, d)
    ensures 2 * rem > d ==> IsRounded(q + 1, a, d)
    ensures 2 * rem == d && q % 2 == 0 ==> IsRounded(q, a, d)
    ensures 2 * rem == d && q % 2 != 0 ==> IsRounded(q + 1, a, d)
  {
    DivisionErrors(a, d, q, rem);
  }

  /** Round half to even of `a / d`: never below the truncated quotient. */
  function RoundHalfEven(a: nat, d: nat): (h: nat)
    requires d >= 1
    ensures a / d <= h
  {
    var q := a / d;
    var rem := a % d;
    if 2 * rem < d then q
    else if 2 * rem > d then q + 1
    else if q % 2 == 0 then q
    else q + 1
  }

  /** `RoundHalfEven` is within half a unit of the exact quotient, ties going to the even
      neighbour. */
  lemma RoundHalfEvenRounds(a: nat, d: nat)
    requires d >= 1
    ensures IsRounded(RoundHalfEven(a, d), a, d)
  {
    var q := a / d;
    var rem := a % d;
    RoundingChoice(a, d, q, rem);
    var h := RoundHalfEven(a, d);
    if 2 * rem < d {
      assert h == q;
    } else if 2 * rem > d {
      assert h == q + 1;
    } else if q % 2 == 0 {
      assert h == q;
    } else {
      assert h == q + 1;
    }
  }

  /** How far apart two multiples of `d` are. */
  lemma MultipleGap(h: int, k: int, d: int)
    requires d >= 1
    ensures h >= k + 2 ==> h * d - k * d >= 2 * d
    ensures h == k + 1 ==> h * d - k * d == d
  {
    var x := h - k;
    assert h * d - k * d == x * d;
    if x >= 2 {
      var y := x - 2;
      assert x * d == 2 * d + y * d;
      assert y * d >= 0;
    } else if x == 1 {
      assert x * d == d;
    }
  }

  /** Rounding half to even has only one answer. */
  lemma RoundedUnique(h: int, k: int, a: int, d: int)
    requires d >= 1 && IsRounded(h, a, d) && IsRounded(k, a, d)
    ensures h == k
  {
    MultipleGap(h, k, d);
    MultipleGap(k, h, d);
  }

  /** A count of at least one unit holds at least a hundred hundredths of it. */
  lemma HundredthsAtLeast(n: nat, d: nat)
    requires 1 <= d <= n
    ensures 100 <= 100 * n / d
  {
    var q := 100 * n / d;
    var rem := 100 * n % d;
    DivisionErrors(100 * n, d, q, rem);
    assert 100 * d <= 100 * n < (q + 1) * d;
    MultipleGap(100, q + 1, d);
  }

  /** Two decimal places, with a leading zero. */
  function TwoDigits(x: nat): (s: string)
    requires x < 100
    ensures |s| == 2 && '0' <= s[0] <= '9' && '0' <= s[1] <= '9'
  {
    [DigitChar(x / 10), DigitChar(x % 10)]
  }

  lemma ParseTwoDigits(x: nat)
    requires x < 100
    ensures ParseNat(TwoDigits(x)) == x
  {
    var s := TwoDigits(x);
    assert s[..1] == [s[0]] && [s[0]][..0] == [];
    assert ParseNat(s[..1]) == x / 10;
    assert ParseNat(s) == 10 * (x / 10) + x % 10;
  }

  /** A count of hundredths written with two decimals, as `.2f` writes it. */
  function Decimal(h: nat): (s: string)
    ensures |s| >= 4 && s[|s| - 3] == '.'
    ensures s[0] == '0' <==> h < 100
  {
    NatToString(h / 100) + "." + TwoDigits(h % 100)
  }

  /** A size in hundredths of a unit. */
  datatype Scaled = Scaled(hundredths: nat, unit: Unit)

  predicate AllDigits(s: string)
  {
    forall k :: 0 <= k < |s| ==> '0' <= s[k] <= '9'
  }

  /** The pieces of a scaled size as written: whole units, two decimals, and the unit. */
  datatype Pieces = Pieces(whole: string, frac: string, unit: Unit)

  /** Cuts `"<digits>.<two digits> <unit>"` into its pieces, for the scaled units. */
  function CutScaled(t: string): (r: Option<Pieces>)
    ensures r.Some? ==> AllDigits(r.value.whole) && AllDigits(r.value.frac)
  {
    if |t| < 7 then None
    else
      var n := |t| - 6;
      var u := UnitOfName(t[n + 4..]);
      var whole := t[..n];
      var frac := t[n + 1..n + 3];
      if t[n] != '.' || t[n + 3] != ' ' || u.None? || u.value == Bytes || !AllDigits(whole) || !AllDigits(frac)
      then None
      else Some(Pieces(whole, frac, u.value))
  }

  /** Reads a scaled size back as hundredths of its unit. */
  function ReadScaled(t: string): Option<Scaled>
  {
    match CutScaled(t)
    case None => None
    case Some(p) => Some(Scaled(100 * ParseNat(p.whole) + ParseNat(p.frac), p.unit))
  }

  /** Each unit's suffix reads back as that unit. */
  lemma UnitNameReads(u: Unit)
    ensures UnitOfName(UnitName(u)) == Some(u)
  {
  }

  /** Cutting any well-formed scaled text gives its pieces back. */
  lemma CutWellFormed(t: string, whole: string, frac: string, u: Unit)
    requires AllDigits(whole) && whole != [] && |frac| == 2 && AllDigits(frac) && u != Bytes
    requires t == whole + "." + frac + " " + UnitName(u)
    ensures CutScaled(t) == Some(Pieces(whole, frac, u))
  {
    var name := UnitName(u);
    UnitNameReads(u);
    var n := |whole|;
    assert |t| == n + 6 && |name| == 2;
    assert t[n] == '.' && t[n + 3] == ' ';
    assert t[..n] == whole;
    assert t[n + 1..n + 3] == frac;
    assert t[n + 4..] == name;
  }

  /** Reading any well-formed scaled text gives the number its digits spell. */
  lemma ReadWellFormed(t: string, whole: string, frac: string, u: Unit)
    requires AllDigits(whole) && whole != [] && |frac| == 2 && AllDigits(frac) && u != Bytes
    requires t == whole + "." + frac + " " + UnitName(u)
    ensures ReadScaled(t) == Some(Scaled(100 * ParseNat(whole) + ParseNat(frac), u))
  {
    CutWellFormed(t, whole, frac, u);
  }

  /** Rendering a scaled size loses nothing: reading it back gives the same size and unit. */
  lemma ReadRendered(h: nat, u: Unit)
    requires u != Bytes
    ensures ReadScaled(Decimal(h) + " " + UnitName(u)) == Some(Scaled(h, u))
  {
    var q, r := h / 100, h % 100;
    var whole, frac := NatToString(q), TwoDigits(r);
    ParseNatToString(q);
    ParseTwoDigits(r);
    ReadWellFormed(Decimal(h) + " " + UnitName(u), whole, frac, u);
    assert 100 * q + r == h;
  }

  /** `format_file_size(n)`. Below 1024 the exact count and `B`; above, the text reads back
      as the count divided by the unit's size, correctly rounded to hundredths, in the unit
      `UnitFor` picks. Counts of 2^53 bytes and more, where Python first rounds the quotient
      to a double, are taken exactly here. */
  function FormatFileSize(n: nat): (r: string)
    ensures n < 1024 ==> r == NatToString(n) + " B"
    ensures n >= 1024 ==> var p := ReadScaled(r);
                          p.Some? && p.value.unit == UnitFor(n) &&
                          IsRounded(p.value.hundredths, 100 * n, Divisor(UnitFor(n)))
    ensures r[0] == '0' <==> n == 0
  {
    var u := UnitFor(n);
    if u == Bytes then NatToString(n) + " B"
    else
      var h := RoundHalfEven(100 * n, Divisor(u));
      RoundHalfEvenRounds(100 * n, Divisor(u));
      HundredthsAtLeast(n, Divisor(u));
      ReadRendered(h, u);
      Decimal(h) + " " + UnitName(u)
  }

  /** Sizes that print differently in bytes are different sizes; the byte branch is exact. */
  lemma BytesExact(m: nat, n: nat)
    requires m < 1024 && n < 1024 && FormatFileSize(m) == FormatFileSize(n)
    ensures m == n
  {
    assert NatToString(m) == FormatFileSize(m)[..|FormatFileSize(m)| - 2];
    assert NatToString(n) == FormatFileSize(n)[..|FormatFileSize(n)| - 2];
    NatToStringInjective(m, n);
  }

  /** The text of a scaled size, spelled out. */
  lemma ScaledText(n: nat, u: Unit, h: nat)
    requires n >= 1024 && u == UnitFor(n) && h == RoundHalfEven(100 * n, Divisor(u))
    ensures FormatFileSize(n) == Decimal(h) + " " + UnitName(u)
  {
  }

  /** One and a half kibibytes. */
  lemma KilobyteAndHalf(n: nat)
    requires n == 1536
    ensures FormatFileSize(n) == "1.50 KB"
  {
    var h := RoundHalfEven(100 * n, 1024);
    assert h == 150;
    ScaledText(n, KB, h);
    assert Decimal(h) == "1.50" by {
      assert NatToString(1) == "1";
      assert TwoDigits(50) == "50";
    }
  }

  /** A mebibyte prints in MB. */
  lemma OneMegabyte(n: nat)
    requires n == 1024 * 1024
    ensures FormatFileSize(n) == "1.00 MB"
  {
    var h := RoundHalfEven(100 * n, 1024 * 1024);
    assert h == 100;
    ScaledText(n, MB, h);
    assert Decimal(h) == "1.00" by {
      assert NatToString(1) == "1";
      assert TwoDigits(0) == "00";
    }
  }

  /** Four decimal digits. */
  lemma FourDigits(n: nat)
    requires n == 1024
    ensures NatToString(n) == "1024"
  {
    assert NatToString(n / 10) == "102" by {
      assert NatToString(10) == "10";
    }
  }

  /** One byte short of a mebibyte stays in KB, and rounding carries it to 1024.00. */
  lemma JustUnderMegabyte(n: nat)
    requires n == 1024 * 1024 - 1
    ensures FormatFileSize(n) == "1024.00 KB"
  {
    var h := RoundHalfEven(100 * n, 1024);
    assert h == 102400;
    ScaledText(n, KB, h);
    FourDigits(h / 100);
    assert Decimal(h) == "1024.00" by {
      assert TwoDigits(0) == "00";
    }
  }
}
