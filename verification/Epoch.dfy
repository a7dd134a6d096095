/** Times as epoch text for query parameters (query_parameters.go). The text is judged by
    reading it back: an optional minus, whole seconds, and after a point the fraction digits.
    Instants are exact counts of nanoseconds, and the text stands for a floor of one. */
module Epoch {
  import opened Base
  import opened Decimals

  const NANOS: int := 1_000_000_000
  const MIN_INT64: int := -0x8000_0000_0000_0000

  /** An instant as Go keeps it: seconds since 1970 and nanoseconds forward from there. */
  datatype Time = Time(sec: int, ns: int)

  predicate Proper(t: Time) {
    -0x8000_0000_0000_0000 <= t.sec <= 0x7FFF_FFFF_FFFF_FFFF && 0 <= t.ns < NANOS
  }

  function Instant(t: Time): int {
    t.sec * NANOS + t.ns
  }

  function Wrap64(x: int): int {
    (x + 0x8000_0000_0000_0000) % 0x1_0000_0000_0000_0000 - 0x8000_0000_0000_0000
  }

  function Pow10(n: nat): (p: int)
    ensures p > 0
  {
    if n == 0 then 1 else 10 * Pow10(n - 1)
  }

  // ---------------------------------------------------------------- decimal text

  function FormatInt(n: int): string {
    if n < 0 then "-" + Decimal(-n) else Decimal(n)
  }

  /** `%0*d`: zero-padded to at least `width`. */
  function Padded(width: nat, n: nat): string {
    var s := Decimal(n);
    if |s| < width then seq(width - |s|, _ => '0') + s else s
  }

  lemma {:induction false} DecimalLength(width: nat, n: nat)
    requires width > 0 && n < Pow10(width)
    ensures |Decimal(n)| <= width
  {
    if n >= 10 {
      assert width > 1;
      DecimalLength(width - 1, n / 10);
    }
  }

  lemma {:induction false} ValueZeros(k: nat, s: string)
    requires Digits(s)
    ensures Digits(seq(k, _ => '0') + s) && Value(seq(k, _ => '0') + s) == Value(s)
    decreases |s|, k
  {
    var z := seq(k, _ => '0');
    if s != "" {
      var n := |s| - 1;
      ValueZeros(k, s[..n]);
      assert (z + s)[..k + n] == z + s[..n];
    } else if k > 0 {
      ValueZeros(k - 1, s);
      assert (z + s)[..k - 1] == seq(k - 1, _ => '0') + s;
    }
  }

  lemma PaddedValue(width: nat, n: nat)
    requires width > 0 && n < Pow10(width)
    ensures var s := Padded(width, n); |s| == width && Digits(s) && Value(s) == n
  {
    DecimalLength(width, n);
    ValueZeros(width - |Decimal(n)|, Decimal(n));
  }

  // ---------------------------------------------------------------- reading back

  /** Position of the first point, or the length. */
  function Point(s: string): (k: nat)
    ensures k <= |s|
  {
    if s == "" || s[0] == '.' then 0 else 1 + Point(s[1..])
  }

  lemma {:induction false} PointAfter(s: string, rest: string)
    requires Digits(s) && (rest == "" || rest[0] == '.')
    ensures Point(s + rest) == |s|
  {
    if s == "" {
      assert s + rest == rest;
    } else {
      assert (s + rest)[1..] == s[1..] + rest;
      PointAfter(s[1..], rest);
    }
  }

  /** An unsigned decimal as its digits taken together and how many follow the point. */
  function ReadUnsigned(s: string): Option<(int, nat)> {
    var k := Point(s);
    if k == |s| then
      if s != "" && Digits(s) then Some((Value(s), 0)) else None
    else
      var whole, frac := s[..k], s[k + 1..];
      if whole != "" && frac != "" && Digits(whole) && Digits(frac)
      then Some((Value(whole) * Pow10(|frac|) + Value(frac), |frac|))
      else None
  }

  /** The number a text denotes: `m` units of `10^-d`, with exactly `d` digits after the point. */
  function Read(s: string): Option<(int, nat)> {
    if s != "" && s[0] == '-' then
      match ReadUnsigned(s[1..])
      case None => None
      case Some((m, d)) => Some((-m, d))
    else ReadUnsigned(s)
  }

  lemma ReadWhole(n: nat)
    ensures ReadUnsigned(Decimal(n)) == Some((n as int, 0)) && Decimal(n)[0] != '-'
  {
    PointAfter(Decimal(n), "");
    assert Decimal(n) + "" == Decimal(n);
  }

  lemma ReadParts(whole: nat, digits: nat, frac: nat)
    requires digits > 0 && frac < Pow10(digits)
    ensures var s := Decimal(whole) + "." + Padded(digits, frac);
      ReadUnsigned(s) == Some((whole * Pow10(digits) + frac, digits)) && s[0] != '-'
  {
    var w, f := Decimal(whole), Padded(digits, frac);
    var s := w + "." + f;
    PaddedValue(digits, frac);
    assert s == w + ("." + f);
    PointAfter(w, "." + f);
    assert s[..|w|] == w && s[|w| + 1..] == f;
  }

  // ---------------------------------------------------------------- the code

  /** Nanoseconds per unit of the last digit. */
  function Unit(digits: nat): (u: int)
    requires digits <= 9
    ensures u > 0 && Pow10(digits) * u == NANOS
  {
    Pow10(9 - digits)
  }

  /** The instant in units of the last digit, rounded towards the past. */
  function Floor(t: Time, digits: nat): int
    requires digits <= 9
  {
    Instant(t) / Unit(digits)
  }

  lemma DivAdd(a: int, u: int, b: int)
    requires u > 0
    ensures (a * u + b) / u == a + b / u
  {
    var q, r := b / u, b % u;
    assert a * u + b == (a + q) * u + r;
    DivUnique(a * u + b, u, a + q, r);
  }

  lemma DivUnique(n: int, u: int, q: int, r: int)
    requires u > 0 && n == q * u + r && 0 <= r < u
    ensures n / u == q
  {
    var d := n / u - q;
    assert d * u == r - n % u;
    assert d >= 1 ==> d * u >= u;
    assert d <= -1 ==> d * u <= -u;
  }

  /** Whole seconds and fraction units make up the floor. */
  lemma FloorParts(t: Time, digits: nat)
    requires Proper(t) && digits <= 9
    ensures Floor(t, digits) == t.sec * Pow10(digits) + t.ns / Unit(digits)
    ensures 0 <= t.ns / Unit(digits) < Pow10(digits)
  {
    FloorOf(t.sec, t.ns, Pow10(digits), Unit(digits));
  }

  lemma FloorOf(sec: int, ns: int, p: int, u: int)
    requires u > 0 && 0 <= ns < p * u
    ensures (sec * (p * u) + ns) / u == sec * p + ns / u && 0 <= ns / u < p
  {
    assert sec * (p * u) == (sec * p) * u;
    DivAdd(sec * p, u, ns);
    FracBound(ns, u, p);
  }

  lemma FracBound(ns: int, u: int, p: int)
    requires u > 0 && 0 <= ns < p * u
    ensures 0 <= ns / u < p
  {
  }

  /** The one seconds value whose negation wraps round, when nothing is left to borrow from. */
  predicate Unprintable(t: Time, digits: nat)
    requires digits <= 9
  {
    t.sec == MIN_INT64 && digits > 0 && t.ns / Unit(digits) == 0
  }

  /** The adjustment before 1970, in int64 arithmetic: borrowing one second for the fraction gives
      the absolute value, except that the least int64 without a fraction stays negative. */
  method Negate(sec: int, pow: int, frac: int) returns (whole: int, rest: int)
    requires MIN_INT64 <= sec < 0 && 0 <= frac < pow
    ensures 0 <= rest < pow
    ensures sec == MIN_INT64 && frac == 0 ==> whole < 0
    ensures sec != MIN_INT64 || frac != 0 ==> whole >= 0 && whole * pow + rest == -(sec * pow + frac)
  {
    if frac > 0 {
      whole, rest := Wrap64(Wrap64(-sec) - 1), pow - frac;
      assert whole == -sec - 1;
      assert (-sec - 1) * pow == -(sec * pow) - pow;
    } else {
      whole, rest := Wrap64(-sec), frac;
    }
  }

  /** The final format: sign, seconds, point, fraction. */
  function Text(negative: bool, sec: int, digits: nat, frac: nat): string {
    var body := FormatInt(sec) + "." + Padded(digits, frac);
    if negative then "-" + body else body
  }

  lemma ReadText(negative: bool, sec: nat, digits: nat, frac: nat)
    requires digits > 0 && frac < Pow10(digits)
    ensures var m := sec * Pow10(digits) + frac;
      Read(Text(negative, sec, digits, frac)) == Some((if negative then -m else m, digits))
  {
    ReadParts(sec, digits, frac);
    var body := Decimal(sec) + "." + Padded(digits, frac);
    assert ("-" + body)[1..] == body;
  }

  /** `fmt.Sprintf("%s%d.%0*d", ...)` and what its result reads as. */
  method Sprintf(negative: bool, sec: int, digits: nat, frac: nat) returns (s: string)
    requires digits > 0 && frac < Pow10(digits)
    ensures sec >= 0 && negative ==> Read(s) == Some((-(sec * Pow10(digits) + frac), digits))
    ensures sec >= 0 && !negative ==> Read(s) == Some((sec * Pow10(digits) + frac, digits))
    ensures sec < 0 && negative ==> Read(s) == None
  {
    s := Text(negative, sec, digits, frac);
    if sec >= 0 {
      ReadText(negative, sec, digits, frac);
    } else {
      var body := FormatInt(sec) + "." + Padded(digits, frac);
      MinusUnreadable(body);
      assert ("-" + body)[1..] == body;
    }
  }

  lemma MinusUnreadable(s: string)
    requires s != "" && s[0] == '-'
    ensures ReadUnsigned(s) == None
  {
  }

  /** Seconds alone, for width 0. */
  lemma ReadSeconds(sec: int)
    ensures Read(FormatInt(sec)) == Some((sec, 0))
  {
    if sec < 0 {
      ReadWhole(-sec);
      assert FormatInt(sec)[1..] == Decimal(-sec);
    } else {
      ReadWhole(sec);
    }
  }

  /** The text has exactly `digits` fraction digits and denotes the floor of the instant, before
      and after 1970, for every time but the unprintable ones. */
  method FormatEpoch(t: Time, digits: nat) returns (s: string)
    requires Proper(t) && digits <= 9
    ensures Read(s) == Some((Floor(t, digits), digits)) <==> !Unprintable(t, digits)
  {
    FloorParts(t, digits);
    if digits == 0 {
      ReadSeconds(t.sec);
      return FormatInt(t.sec);
    }
    var pow := Power(digits);
    UnitIsQuotient(digits);
    var frac := t.ns / (NANOS / pow);
    s := Signed(t.sec, digits, pow, frac);
  }

  method Power(digits: nat) returns (pow: int)
    ensures pow == Pow10(digits)
  {
    pow := 1;
    var i := 0;
    while i < digits
      invariant 0 <= i <= digits && pow == Pow10(i)
    {
      pow := pow * 10;
      i := i + 1;
    }
  }

  /** The text with its minus sign, if there is one. */
  method Signed(sec: int, digits: nat, pow: int, frac: int) returns (s: string)
    requires MIN_INT64 <= sec && digits > 0 && pow == Pow10(digits) && 0 <= frac < pow
    ensures Read(s) == Some((sec * pow + frac, digits)) <==> !(sec == MIN_INT64 && frac == 0)
  {
    if sec < 0 {
      var whole, rest := Negate(sec, pow, frac);
      s := Sprintf(true, whole, digits, rest);
    } else {
      s := Sprintf(false, sec, digits, frac);
    }
  }

  lemma UnitIsQuotient(digits: nat)
    requires digits <= 9
    ensures NANOS / Pow10(digits) == Unit(digits)
  {
    DivUnique(NANOS, Pow10(digits), Unit(digits), 0);
  }

  predicate Exact(t: Time, digits: nat)
    requires digits <= 9
  {
    Floor(t, digits) * Unit(digits) == Instant(t)
  }

  /** Nothing is dropped exactly when the nanoseconds are whole units. */
  lemma ExactIff(t: Time, digits: nat)
    requires Proper(t) && digits <= 9
    ensures Exact(t, digits) <==> t.ns % Unit(digits) == 0
  {
    FloorParts(t, digits);
    Recombine(t.sec, Pow10(digits), Unit(digits), t.ns);
  }

  lemma Recombine(sec: int, p: int, u: int, ns: int)
    requires u > 0
    ensures (sec * p + ns / u) * u == sec * (p * u) + ns - ns % u
  {
  }

  /** The width chosen from the nanoseconds. */
  function Width(ns: int): (d: nat)
    ensures d <= 9
  {
    if ns == 0 then 0 else if ns % 1_000_000 == 0 then 3 else if ns % 1_000 == 0 then 6 else 9
  }

  /** It is the shortest of 0, 3, 6 and 9 that loses nothing, and never an unprintable one. */
  lemma WidthShortest(t: Time)
    requires Proper(t)
    ensures Exact(t, Width(t.ns)) && !Unprintable(t, Width(t.ns))
    ensures forall d: nat | d in {0, 3, 6, 9} && d < Width(t.ns) :: !Exact(t, d)
  {
    ExactIff(t, Width(t.ns));
    forall d: nat | d in {0, 3, 6, 9} && d < Width(t.ns) ensures !Exact(t, d) {
      ExactIff(t, d);
      WidthNeeded(t.ns, d);
    }
    WidthWhole(t.ns);
  }

  lemma WidthWhole(ns: int)
    requires 0 <= ns < 1_000_000_000
    ensures ns % Unit(Width(ns)) == 0
  {
    assert Unit(0) == 1_000_000_000 && Unit(3) == 1_000_000 && Unit(6) == 1_000 && Unit(9) == 1;
  }

  lemma WidthNeeded(ns: int, d: nat)
    requires 0 <= ns < 1_000_000_000 && d in {0, 3, 6, 9} && d < Width(ns)
    ensures ns % Unit(d) != 0
  {
    assert Unit(0) == 1_000_000_000 && Unit(3) == 1_000_000 && Unit(6) == 1_000;
  }

  /** Reading the text back gives the very same instant, for every time; WidthShortest says that
      no shorter width would. */
  method FormatTimeParam(t: Time) returns (s: string)
    requires Proper(t)
    ensures Read(s) == Some((Floor(t, Width(t.ns)), Width(t.ns))) && Exact(t, Width(t.ns))
  {
    WidthShortest(t);
    if t.ns == 0 {
      s := FormatEpoch(t, 0);
    } else if t.ns % 1_000_000 == 0 {
      s := FormatEpoch(t, 3);
    } else if t.ns % 1_000 == 0 {
      s := FormatEpoch(t, 6);
    } else {
      s := FormatEpoch(t, 9);
    }
  }

  datatype TimeUnit = Seconds | MilliSeconds | MicroSeconds | NanoSeconds | Other(code: nat)

  function ScaleDigits(scale: TimeUnit): nat {
    match scale
    case MilliSeconds => 3
    case MicroSeconds => 6
    case NanoSeconds => 9
    case _ => 0
  }

  /** The caller's scale decides the width; anything finer is dropped towards the past. */
  method FormatTimeWithScale(t: Time, scale: TimeUnit) returns (s: string)
    requires Proper(t)
    ensures var d := ScaleDigits(scale);
      Read(s) == Some((Floor(t, d), d)) <==> !Unprintable(t, d)
  {
    match scale
    case MilliSeconds => s := FormatEpoch(t, 3);
    case MicroSeconds => s := FormatEpoch(t, 6);
    case NanoSeconds => s := FormatEpoch(t, 9);
    case _ => s := FormatEpoch(t, 0);
  }
}
