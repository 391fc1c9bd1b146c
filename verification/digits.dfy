/**
  Decimal text as the bot produces it: `Number.prototype.toString` for
  whole numbers, `toFixed(2)` and plain `toString` for money, `padStart`
  and `slice(-n)` for the public transaction id, and the `timeAgo` buckets.
  Every formatter has a parser partner and a round-trip lemma.
*/
module Digits {
  import opened Options
  import opened Seqs

  predicate IsDigit(c: char) {
    '0' <= c <= '9'
  }

  predicate AllDigits(s: string) {
    forall i :: 0 <= i < |s| ==> IsDigit(s[i])
  }

  function Pow10(k: nat): (r: nat)
    ensures r >= 1
  {
    if k == 0 then 1 else 10 * Pow10(k - 1)
  }

  function DigitChar(d: nat): (c: char)
    requires d < 10
    ensures IsDigit(c)
  {
    ['0', '1', '2', '3', '4', '5', '6', '7', '8', '9'][d]
  }

  function DigitValue(c: char): (d: nat)
    requires IsDigit(c)
    ensures d < 10
  {
    (c as int - '0' as int) as nat
  }

  lemma DigitRoundTrip(d: nat)
    requires d < 10
    ensures DigitValue(DigitChar(d)) == d
  {
  }

  /** Euclidean division is determined by quotient and remainder. */
  lemma DivModUnique(n: int, d: int, q: int, r: int)
    requires d > 0 && 0 <= r < d && n == q * d + r
    ensures n / d == q && n % d == r
  {
    var k := q - n / d;
    assert k * d == n % d - r by {
      assert n == (n / d) * d + n % d;
      assert k * d == q * d - (n / d) * d;
    }
    MulBounded(k, d);
  }

  /** A multiple of `d` strictly between -d and d is zero. */
  lemma MulBounded(k: int, d: int)
    requires d > 0 && -d < k * d < d
    ensures k == 0
  {
    if k > 0 {
      MulAtLeast(k, d);
    } else if k < 0 {
      MulAtLeast(-k, d);
    }
  }

  lemma {:induction false} MulAtLeast(k: int, d: int)
    requires k >= 1 && d > 0
    ensures k * d >= d
    decreases k
  {
    if k > 1 {
      MulAtLeast(k - 1, d);
      assert k * d == (k - 1) * d + d;
    }
  }

  /** `n.toString()` for a non-negative whole number: no sign, no leading zero. */
  function NatToString(n: nat): (r: string)
    ensures |r| >= 1 && AllDigits(r)
    ensures n > 0 ==> r[0] != '0'
  {
    if n < 10 then [DigitChar(n)] else NatToString(n / 10) + [DigitChar(n % 10)]
  }

  /** The value of a string of decimal digits; the empty string is 0. */
  function ParseNat(s: string): nat
    requires AllDigits(s)
  {
    if |s| == 0 then 0 else 10 * ParseNat(s[..|s| - 1]) + DigitValue(s[|s| - 1])
  }

  lemma {:induction false} ParseNatBound(s: string)
    requires AllDigits(s)
    ensures ParseNat(s) < Pow10(|s|)
    decreases |s|
  {
    if |s| != 0 {
      ParseNatBound(s[..|s| - 1]);
    }
  }

  lemma {:induction false} ParseNatAppend(a: string, b: string)
    requires AllDigits(a) && AllDigits(b)
    ensures AllDigits(a + b)
    ensures ParseNat(a + b) == ParseNat(a) * Pow10(|b|) + ParseNat(b)
    decreases |b|
  {
    if |b| == 0 {
      assert a + b == a;
    } else {
      var b' := b[..|b| - 1];
      var d := DigitValue(b[|b| - 1]);
      ParseNatAppend(a, b');
      var pa, pb, x := ParseNat(a), ParseNat(b'), Pow10(|b'|);
      assert AllDigits(a + b) && ParseNat(a + b) == 10 * ParseNat(a + b') + d by {
        assert (a + b)[..|a + b| - 1] == a + b';
        assert (a + b)[|a + b| - 1] == b[|b| - 1];
      }
      assert ParseNat(b) == 10 * pb + d;
      assert Pow10(|b|) == 10 * x;
      ShiftDigit(ParseNat(a + b), pa, pb, x, d, ParseNat(b), Pow10(|b|));
    }
  }

  /** The arithmetic of appending one digit: shifting by ten distributes over the split. */
  lemma ShiftDigit(whole: int, pa: int, pb: int, x: int, d: int, last: int, y: int)
    requires whole == 10 * (pa * x + pb) + d
    requires last == 10 * pb + d && y == 10 * x
    ensures whole == pa * y + last
  {
    assert 10 * (pa * x) == pa * (10 * x);
  }

  lemma {:induction false} ParseNatToString(n: nat)
    ensures ParseNat(NatToString(n)) == n
    decreases n
  {
    if n >= 10 {
      var s := NatToString(n);
      assert s[..|s| - 1] == NatToString(n / 10);
      ParseNatToString(n / 10);
      DigitRoundTrip(n % 10);
    } else {
      DigitRoundTrip(n);
    }
  }

  /** Two digit strings of one length with one value are the same string. */
  lemma {:induction false} ParseNatInjective(a: string, b: string)
    requires AllDigits(a) && AllDigits(b) && |a| == |b|
    requires ParseNat(a) == ParseNat(b)
    ensures a == b
    decreases |a|
  {
    if |a| != 0 {
      var a', b' := a[..|a| - 1], b[..|b| - 1];
      var da, db := DigitValue(a[|a| - 1]), DigitValue(b[|b| - 1]);
      DivModUnique(ParseNat(a), 10, ParseNat(a'), da);
      DivModUnique(ParseNat(b), 10, ParseNat(b'), db);
      ParseNatInjective(a', b');
      assert a[|a| - 1] == b[|b| - 1] by {
        assert a[|a| - 1] as int == da + '0' as int;
      }
      assert a == a' + [a[|a| - 1]];
      assert b == b' + [b[|b| - 1]];
    }
  }

  lemma {:induction false} NatToStringLength(n: nat, k: nat)
    ensures n >= Pow10(k) ==> |NatToString(n)| > k
    ensures n < Pow10(k) && k >= 1 ==> |NatToString(n)| <= k
    decreases n
  {
    if n >= 10 && k >= 1 {
      NatToStringLength(n / 10, k - 1);
      if n < Pow10(k) {
        assert n / 10 < Pow10(k - 1);
      }
    }
  }

  function Zeros(k: nat): (r: string)
    ensures |r| == k && AllDigits(r)
  {
    if k == 0 then [] else Zeros(k - 1) + ['0']
  }

  lemma {:induction false} ZerosValue(k: nat)
    ensures ParseNat(Zeros(k)) == 0
  {
    if k != 0 {
      assert Zeros(k)[..k - 1] == Zeros(k - 1);
      ZerosValue(k - 1);
    }
  }

  /** `s.padStart(width, "0")`. */
  function PadStart(s: string, width: nat): (r: string)
    ensures |r| == if |s| >= width then |s| else width
    ensures AllDigits(s) ==> AllDigits(r) && ParseNat(r) == ParseNat(s)
  {
    var r := if |s| >= width then s else Zeros(width - |s|) + s;
    if AllDigits(s) && |s| < width then
      ZerosValue(width - |s|);
      ParseNatAppend(Zeros(width - |s|), s);
      r
    else r
  }

  /** `s.slice(-k)` for k >= 1: the last `k` characters, or all of a shorter `s`. */
  function TakeLast(s: string, k: nat): (r: string)
    ensures |r| == if |s| >= k then k else |s|
    ensures AllDigits(s) ==> AllDigits(r)
  {
    if |s| >= k then s[|s| - k..] else s
  }

  /** The last `k` digits of a number's decimal text are the number modulo 10^k. */
  lemma LastDigits(n: nat, k: nat)
    requires |NatToString(n)| >= k
    ensures ParseNat(TakeLast(NatToString(n), k)) == n % Pow10(k)
  {
    var s := NatToString(n);
    var a, b := s[..|s| - k], s[|s| - k..];
    assert s == a + b;
    ParseNatAppend(a, b);
    ParseNatToString(n);
    ParseNatBound(b);
    DivModUnique(n, Pow10(k), ParseNat(a), ParseNat(b));
  }

  // ---------------------------------------------------------------- ids

  /** `Math.floor(Math.random() * 1000)`: the random part of a transaction id. */
  type Draw = d: nat | d < 1000

  /**
    `"TX" + Date.now().toString().slice(-6) + draw.toString().padStart(3, "0")`.
    The store never checks the result against existing ids.
  */
  function TransactionId(now: nat, draw: Draw): (r: string)
    ensures |r| >= 6 && r[..2] == "TX" && AllDigits(r[2..])
  {
    var clock := TakeLast(NatToString(now), 6);
    var suffix := PadStart(NatToString(draw), 3);
    IdText(clock, suffix);
    DigitsAppend(clock, suffix);
    "TX" + clock + suffix
  }

  /** How an id splits into its prefix, clock and draw parts. */
  lemma IdText(clock: string, suffix: string)
    ensures var r := "TX" + clock + suffix;
      && |r| == 2 + |clock| + |suffix| && r[..2] == "TX" && r[2..] == clock + suffix
      && r[2..2 + |clock|] == clock && r[2 + |clock|..] == suffix
  {
    var r := "TX" + clock + suffix;
    assert r == "TX" + (clock + suffix);
  }

  lemma DigitsAppend(a: string, b: string)
    requires AllDigits(a) && AllDigits(b)
    ensures AllDigits(a + b)
  {
    assert forall i :: |a| <= i < |a + b| ==> (a + b)[i] == b[i - |a|];
  }

  /** The clock part: the last six digits of the clock, for a clock of at least six digits. */
  lemma ClockDigits(now: nat)
    requires now >= 100000
    ensures var m := TakeLast(NatToString(now), 6);
      |m| == 6 && AllDigits(m) && ParseNat(m) == now % 1000000
  {
    assert Pow10(5) == 100000 && Pow10(6) == 1000000;
    NatToStringLength(now, 5);
    LastDigits(now, 6);
  }

  /** The random part: three digits, zero-padded, carrying the draw. */
  lemma DrawDigits(draw: Draw)
    ensures var t := PadStart(NatToString(draw), 3);
      |t| == 3 && AllDigits(t) && ParseNat(t) == draw
  {
    assert Pow10(3) == 1000;
    NatToStringLength(draw, 3);
    ParseNatToString(draw);
  }

  /**
    For any clock reading from 100000 ms on, the id is "TX" and nine
    digits: six carrying the clock modulo 10^6, three carrying the draw.
  */
  lemma TransactionIdShape(now: nat, draw: Draw)
    requires now >= 100000
    ensures var id := TransactionId(now, draw);
      && |id| == 11 && id[..2] == "TX" && AllDigits(id[2..])
      && ParseNat(id[2..8]) == now % 1000000
      && ParseNat(id[8..]) == draw
  {
    var id := TransactionId(now, draw);
    var mid := TakeLast(NatToString(now), 6);
    var suffix := PadStart(NatToString(draw), 3);
    ClockDigits(now);
    DrawDigits(draw);
    IdText(mid, suffix);
    ParseNatAppend(mid, suffix);
  }

  /** Two ids coincide exactly when the clocks agree modulo 10^6 and the draws agree. */
  lemma TransactionIdCollision(now1: nat, draw1: Draw, now2: nat, draw2: Draw)
    requires now1 >= 100000 && now2 >= 100000
    ensures TransactionId(now1, draw1) == TransactionId(now2, draw2)
        <==> now1 % 1000000 == now2 % 1000000 && draw1 == draw2
  {
    var m1, m2 := TakeLast(NatToString(now1), 6), TakeLast(NatToString(now2), 6);
    var t1, t2 := PadStart(NatToString(draw1), 3), PadStart(NatToString(draw2), 3);
    ClockDigits(now1);
    ClockDigits(now2);
    DrawDigits(draw1);
    DrawDigits(draw2);
    IdText(m1, t1);
    IdText(m2, t2);
    if now1 % 1000000 == now2 % 1000000 && draw1 == draw2 {
      ParseNatInjective(m1, m2);
      ParseNatInjective(t1, t2);
    }
  }

  // -------------------------------------------------------------- money

  /** `(cents / 100).toFixed(2)` for a non-negative amount. */
  function FormatMoney(cents: nat): string
  {
    NatToString(cents / 100) + "." + PadStart(NatToString(cents % 100), 2)
  }

  /**
    The default `toString` of the number `cents / 100`, as a template
    literal prints it: no trailing zero after the point, no point for whole amounts.
  */
  function FormatNumber(cents: nat): string
  {
    if cents % 100 == 0 then NatToString(cents / 100)
    else if cents % 10 == 0 then NatToString(cents / 100) + "." + [DigitChar(cents % 100 / 10)]
    else FormatMoney(cents)
  }

  function IsChar(c: char): char -> bool {
    x => x == c
  }

  /** Cents denoted by "D", "D.d" or "D.dd" with D a non-empty digit string; None for anything else. */
  function ParseMoney(s: string): (r: Option<nat>)
    ensures r.Some? ==> |s| >= 1 && IsDigit(s[0])
  {
    match FirstIndex(s, IsChar('.'))
    case None =>
      if |s| >= 1 && AllDigits(s) then Some(100 * ParseNat(s)) else None
    case Some(i) => ParsePointed(s[..i], s[i + 1..])
  }

  /** The text around the first point: digits before it, one or two after it. */
  function ParsePointed(whole: string, frac: string): Option<nat> {
    if |whole| >= 1 && AllDigits(whole) && 1 <= |frac| <= 2 && AllDigits(frac) then
      Some(100 * ParseNat(whole) + (if |frac| == 1 then 10 * ParseNat(frac) else ParseNat(frac)))
    else None
  }

  lemma PointIndex(whole: string, frac: string)
    requires AllDigits(whole)
    ensures FirstIndex(whole + "." + frac, IsChar('.')) == Some(|whole|)
  {
    var s := whole + "." + frac;
    assert IsChar('.')(s[|whole|]);
    assert forall j :: 0 <= j < |whole| ==> !IsChar('.')(s[j]) by {
      forall j | 0 <= j < |whole| ensures !IsChar('.')(s[j]) {
        assert s[j] == whole[j];
      }
    }
  }

  lemma NoPoint(whole: string)
    requires AllDigits(whole)
    ensures FirstIndex(whole, IsChar('.')) == None
  {
    assert forall j :: 0 <= j < |whole| ==> !IsChar('.')(whole[j]);
  }

  /** Digits, a point, then anything: ParseMoney reads the two sides of that point. */
  lemma ParseMoneyParts(whole: string, frac: string)
    requires AllDigits(whole)
    ensures ParseMoney(whole + "." + frac) == ParsePointed(whole, frac)
  {
    var s := whole + "." + frac;
    PointIndex(whole, frac);
    assert s[..|whole|] == whole && s[|whole| + 1..] == frac;
  }

  /** `toFixed(2)` text reads back as the amount it was made from. */
  lemma FormatMoneyRoundTrip(cents: nat)
    ensures ParseMoney(FormatMoney(cents)) == Some(cents)
  {
    var q, m := cents / 100, cents % 100;
    var whole := NatToString(q);
    var frac := PadStart(NatToString(m), 2);
    assert |frac| == 2 by {
      assert Pow10(2) == 100;
      NatToStringLength(m, 2);
    }
    assert ParseNat(whole) == q by { ParseNatToString(q); }
    assert ParseNat(frac) == m by { ParseNatToString(m); }
    assert FormatMoney(cents) == whole + "." + frac;
    ParseMoneyParts(whole, frac);
    PointedCents(whole, frac);
    assert 100 * q + m == cents;
  }

  /** Two digits after the point are the cents themselves. */
  lemma PointedCents(whole: string, frac: string)
    requires |whole| >= 1 && AllDigits(whole) && |frac| == 2 && AllDigits(frac)
    ensures ParsePointed(whole, frac) == Some(100 * ParseNat(whole) + ParseNat(frac))
  {
  }

  /** The plain number text reads back as the amount it was made from. */
  lemma FormatNumberRoundTrip(cents: nat)
    ensures ParseMoney(FormatNumber(cents)) == Some(cents)
  {
    if cents % 100 == 0 {
      WholeRoundTrip(cents);
    } else if cents % 10 == 0 {
      TenthsRoundTrip(cents);
    } else {
      FormatMoneyRoundTrip(cents);
    }
  }

  /** Whole units print without a point and read back. */
  lemma WholeRoundTrip(cents: nat)
    requires cents % 100 == 0
    ensures ParseMoney(NatToString(cents / 100)) == Some(cents)
  {
    var whole := NatToString(cents / 100);
    assert ParseNat(whole) == cents / 100 by { ParseNatToString(cents / 100); }
    NoPoint(whole);
  }

  /** Whole tens of cents print with one digit after the point and read back. */
  lemma TenthsRoundTrip(cents: nat)
    requires cents % 10 == 0
    ensures ParseMoney(NatToString(cents / 100) + "." + [DigitChar(cents % 100 / 10)]) == Some(cents)
  {
    var k := cents / 10;
    var q, d := k / 10, k % 10;
    assert cents == 10 * k;
    assert k == 10 * q + d;
    DivModUnique(cents, 100, q, 10 * d);
    DivModUnique(10 * d, 10, d, 0);
    TenthsParse(q, d);
  }

  /** A whole part, a point and one digit read back as that many tens of cents. */
  lemma TenthsParse(q: nat, d: nat)
    requires d < 10
    ensures ParseMoney(NatToString(q) + "." + [DigitChar(d)]) == Some(100 * q + 10 * d)
  {
    var whole := NatToString(q);
    var frac := [DigitChar(d)];
    assert ParseNat(whole) == q by { ParseNatToString(q); }
    assert ParseNat(frac) == d by {
      DigitRoundTrip(d);
      assert frac[..0] == [];
    }
    ParseMoneyParts(whole, frac);
    PointedTenths(whole, frac);
  }

  /** One digit after the point counts tens of cents. */
  lemma PointedTenths(whole: string, frac: string)
    requires |whole| >= 1 && AllDigits(whole) && |frac| == 1 && AllDigits(frac)
    ensures ParsePointed(whole, frac) == Some(100 * ParseNat(whole) + 10 * ParseNat(frac))
  {
  }

  // ------------------------------------------------------------ timeAgo

  /** The buckets `timeAgo` reports. */
  datatype Elapsed = JustNow | MinutesAgo(n: nat) | HoursAgo(n: nat) | DaysAgo(n: nat)

  /**
    The floor cascade of `timeAgo`: whole minutes, then whole hours of
    those, then whole days of those. A creation time in the future reads
    as "just now". The contract states each bucket by its millisecond range.
  */
  function ElapsedSince(createdAt: nat, now: nat): (e: Elapsed)
    ensures e.JustNow? <==> now - createdAt < 60000
    ensures e.MinutesAgo? <==> 60000 <= now - createdAt < 3600000
    ensures e.HoursAgo? <==> 3600000 <= now - createdAt < 86400000
    ensures e.DaysAgo? <==> 86400000 <= now - createdAt
    ensures e.MinutesAgo? ==> e.n * 60000 <= now - createdAt < (e.n + 1) * 60000
    ensures e.HoursAgo? ==> e.n * 3600000 <= now - createdAt < (e.n + 1) * 3600000
    ensures e.DaysAgo? ==> e.n * 86400000 <= now - createdAt < (e.n + 1) * 86400000
  {
    var diffMs := now - createdAt;
    var diffMins := diffMs / 60000;
    if diffMins < 1 then JustNow
    else if diffMins < 60 then MinutesAgo(diffMins)
    else
      var diffHours := diffMins / 60;
      if diffHours < 24 then HoursAgo(diffHours)
      else DaysAgo(diffHours / 24)
  }

  function RenderElapsed(e: Elapsed): string
  {
    match e
    case JustNow => "just now"
    case MinutesAgo(n) => NatToString(n) + "m ago"
    case HoursAgo(n) => NatToString(n) + "h ago"
    case DaysAgo(n) => NatToString(n) + "d ago"
  }

  /** `timeAgo(createdAt)` evaluated at time `now`. */
  function TimeAgo(createdAt: nat, now: nat): (r: string)
    ensures r == "just now" <==> now - createdAt < 60000
    ensures r != "just now" ==> |r| >= 6 && r[|r| - 4..] == " ago"
  {
    var e := ElapsedSince(createdAt, now);
    RenderedAgo(e);
    RenderElapsed(e)
  }

  /** Every bucket but "just now" renders as a count, a unit letter and " ago". */
  lemma RenderedAgo(e: Elapsed)
    ensures var r := RenderElapsed(e);
      && (r == "just now" <==> e.JustNow?)
      && (!e.JustNow? ==> |r| >= 6 && r[|r| - 4..] == " ago")
  {
    var r := RenderElapsed(e);
    if !e.JustNow? {
      assert r[|r| - 1] == 'o' && "just now"[7] == 'w';
    }
  }

  /** Reads a `timeAgo` text back into its bucket. */
  function ParseElapsed(s: string): Option<Elapsed>
  {
    if s == "just now" then Some(JustNow)
    else if |s| >= 6 && AllDigits(s[..|s| - 5]) then
      var n := ParseNat(s[..|s| - 5]);
      var unit := s[|s| - 5..];
      if unit == "m ago" then Some(MinutesAgo(n))
      else if unit == "h ago" then Some(HoursAgo(n))
      else if unit == "d ago" then Some(DaysAgo(n))
      else None
    else None
  }

  /** Distinct buckets render to distinct texts: the rendering reads back. */
  lemma RenderElapsedRoundTrip(e: Elapsed)
    ensures ParseElapsed(RenderElapsed(e)) == Some(e)
  {
    if !e.JustNow? {
      var digits := NatToString(e.n);
      var s := RenderElapsed(e);
      assert s[0] == digits[0];
      assert s != "just now" by { assert IsDigit(s[0]); }
      assert s[..|s| - 5] == digits;
      ParseNatToString(e.n);
    }
  }

  /** What `timeAgo` prints reads back as the bucket of the elapsed time. */
  lemma TimeAgoReadsBack(createdAt: nat, now: nat)
    ensures ParseElapsed(TimeAgo(createdAt, now)) == Some(ElapsedSince(createdAt, now))
  {
    RenderElapsedRoundTrip(ElapsedSince(createdAt, now));
  }
}
