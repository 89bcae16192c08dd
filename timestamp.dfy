/** The timestamp token of the export file name: `YYYY-MM-DD-HH-MM-SS`,
    each component the decimal text of a local date field, left-padded
    with '0'. The clock is outside the model: the fields the `Date`
    getters return are passed in. */
module Timestamp {

  /** The local date fields, as the `Date` getters return them. `month`
      is 0-based (January is 0), as `getMonth` returns it. */
  datatype LocalTime = LocalTime(
    year: int,
    month: int,
    day: int,
    hours: int,
    minutes: int,
    seconds: int)

  /** The ranges the getters produce, with the year limited to four digits. */
  predicate InRange(t: LocalTime) {
    && 0 <= t.year <= 9999
    && 0 <= t.month <= 11
    && 1 <= t.day <= 31
    && 0 <= t.hours <= 23
    && 0 <= t.minutes <= 59
    && 0 <= t.seconds <= 59
  }

  function Pow10(k: nat): (r: nat)
    ensures r >= 1
  {
    if k == 0 then 1 else 10 * Pow10(k - 1)
  }

  predicate IsDigit(c: char) {
    '0' <= c <= '9'
  }

  predicate AllDigits(s: string) {
    forall i :: 0 <= i < |s| ==> IsDigit(s[i])
  }

  function DigitValue(c: char): (r: nat)
    requires IsDigit(c)
    ensures r < 10
  {
    (c as int) - ('0' as int)
  }

  function DigitChar(d: nat): (c: char)
    requires d < 10
    ensures IsDigit(c) && DigitValue(c) == d
  {
    ((d + '0' as int) as char)
  }

  /** The number a string of decimal digits denotes, most significant first. */
  function DecimalValue(s: string): nat
    requires AllDigits(s)
  {
    if s == [] then 0
    else DecimalValue(s[..|s| - 1]) * 10 + DigitValue(s[|s| - 1])
  }

  /** The decimal text of a natural number, without leading zeros
      (`Number.prototype.toString` on a non-negative integer). */
  function NatToDecimal(n: nat): (r: string)
    ensures 1 <= |r| && AllDigits(r) && DecimalValue(r) == n
    ensures r[0] == '0' ==> n == 0
  {
    if n < 10 then [DigitChar(n)]
    else
      var prefix := NatToDecimal(n / 10);
      var r := prefix + [DigitChar(n % 10)];
      assert r[..|r| - 1] == prefix;
      r
  }

  /** `Number.prototype.toString` on an integer: a minus sign before the
      digits of a negative value. */
  function IntToString(n: int): (r: string)
    ensures n >= 0 ==> 1 <= |r| && AllDigits(r) && DecimalValue(r) == n && (r[0] == '0' ==> n == 0)
    ensures n < 0 ==>
      2 <= |r| && r[0] == '-' && AllDigits(r[1..]) && DecimalValue(r[1..]) == -n && r[1] != '0'
  {
    if n < 0 then
      var d := NatToDecimal(-n);
      assert ("-" + d)[1..] == d;
      "-" + d
    else NatToDecimal(n)
  }

  /** `s.padStart(width, fill)` with a one-character fill: copies of `fill`
      before `s` up to `width` characters; a string already as long as
      `width` is returned as it is. */
  function PadStart(s: string, width: nat, fill: char): (r: string)
    ensures |r| == if |s| < width then width else |s|
  {
    if |s| >= width then s else seq(width - |s|, _ => fill) + s
  }

  /** The padded string ends with `s` and every character before it is
      `fill`. */
  lemma PadStartShape(s: string, width: nat, fill: char)
    ensures var r := PadStart(s, width, fill);
      && r[|r| - |s|..] == s
      && forall i :: 0 <= i < |r| - |s| ==> r[i] == fill
  {
  }

  /** One component of the token: `n.toString().padStart(width, '0')`. */
  function Field(n: int, width: nat): (r: string)
    ensures |r| >= width
  {
    PadStart(IntToString(n), width, '0')
  }

  /** The template `${year}-${month}-${day}-${hours}-${minutes}-${seconds}`. */
  function Template(y: string, mo: string, d: string, h: string, mi: string, s: string): (r: string)
    ensures |r| == |y| + |mo| + |d| + |h| + |mi| + |s| + 5
  {
    y + "-" + mo + "-" + d + "-" + h + "-" + mi + "-" + s
  }

  /** `formatTimestamp`: the six components joined with '-'; the month is
      shifted from 0-based to 1-based. */
  function FormatTimestamp(t: LocalTime): (r: string)
    ensures |r| >= 19
  {
    Template(Field(t.year, 4), Field(t.month + 1, 2), Field(t.day, 2),
             Field(t.hours, 2), Field(t.minutes, 2), Field(t.seconds, 2))
  }

  /** The name the export download is given. */
  function ExportFileName(t: LocalTime): (r: string)
    ensures |r| >= 30
    ensures r[..6] == "tasks_" && r[|r| - 5..] == ".json"
  {
    "tasks_" + FormatTimestamp(t) + ".json"
  }

  /** A number below 10^width has at most `width` digits. */
  lemma {:induction false} DecimalLength(n: nat, width: nat)
    requires 1 <= width && n < Pow10(width)
    ensures |NatToDecimal(n)| <= width
  {
    if n >= 10 {
      assert Pow10(1) == 10;
      assert n / 10 < Pow10(width - 1);
      DecimalLength(n / 10, width - 1);
    }
  }

  predicate AllZeros(s: string) {
    forall i :: 0 <= i < |s| ==> s[i] == '0'
  }

  lemma {:induction false} ZerosValue(z: string)
    requires AllZeros(z)
    ensures AllDigits(z) && DecimalValue(z) == 0
  {
    if z != [] {
      ZerosValue(z[..|z| - 1]);
    }
  }

  /** Leading zeros do not change the value of a digit string. */
  lemma {:induction false} LeadingZeros(z: string, s: string)
    requires AllZeros(z) && AllDigits(s)
    ensures AllDigits(z + s) && DecimalValue(z + s) == DecimalValue(s)
  {
    ZerosValue(z);
    if s == [] {
      assert z + s == z;
    } else {
      var init := s[..|s| - 1];
      LeadingZeros(z, init);
      assert (z + s)[..|z + s| - 1] == z + init;
    }
  }

  /** `s` is exactly `width` decimal digits denoting `n`. */
  predicate DecimalField(s: string, n: int, width: nat) {
    |s| == width && AllDigits(s) && DecimalValue(s) == n
  }

  /** A field whose value fits the width is exactly `width` digits that
      denote the value. */
  lemma FieldDigits(n: int, width: nat)
    requires 1 <= width && 0 <= n < Pow10(width)
    ensures DecimalField(Field(n, width), n, width)
  {
    var d := NatToDecimal(n);
    DecimalLength(n, width);
    var r := Field(n, width);
    var z := r[..|r| - |d|];
    assert r == z + d;
    LeadingZeros(z, d);
  }

  /** Joining pieces of four and two characters with '-' puts every piece at
      a fixed offset. */
  lemma TemplateLayout(y: string, mo: string, d: string, h: string, mi: string, s: string)
    requires |y| == 4 && |mo| == 2 && |d| == 2 && |h| == 2 && |mi| == 2 && |s| == 2
    ensures var r := Template(y, mo, d, h, mi, s);
      && |r| == 19
      && r[4] == '-' && r[7] == '-' && r[10] == '-' && r[13] == '-' && r[16] == '-'
      && r[0..4] == y && r[5..7] == mo && r[8..10] == d
      && r[11..13] == h && r[14..16] == mi && r[17..19] == s
  {
  }

  /** The template keeps each digit field intact at its offset. */
  lemma TemplateFields(y: string, mo: string, d: string, h: string, mi: string, s: string,
                       ny: int, nmo: int, nd: int, nh: int, nmi: int, ns: int)
    requires DecimalField(y, ny, 4) && DecimalField(mo, nmo, 2) && DecimalField(d, nd, 2)
    requires DecimalField(h, nh, 2) && DecimalField(mi, nmi, 2) && DecimalField(s, ns, 2)
    ensures var r := Template(y, mo, d, h, mi, s);
      && |r| == 19
      && r[4] == '-' && r[7] == '-' && r[10] == '-' && r[13] == '-' && r[16] == '-'
      && DecimalField(r[0..4], ny, 4) && DecimalField(r[5..7], nmo, 2)
      && DecimalField(r[8..10], nd, 2) && DecimalField(r[11..13], nh, 2)
      && DecimalField(r[14..16], nmi, 2) && DecimalField(r[17..19], ns, 2)
  {
    TemplateLayout(y, mo, d, h, mi, s);
  }

  /** The token is the template filled with the six padded fields. This
      only unfolds `FormatTimestamp` once, so that the lemmas below can
      reason about the template without the solver unfolding it again. */
  lemma FormatTimestampIsTemplate(t: LocalTime)
    ensures FormatTimestamp(t) == Template(Field(t.year, 4), Field(t.month + 1, 2), Field(t.day, 2),
                                           Field(t.hours, 2), Field(t.minutes, 2), Field(t.seconds, 2))
  {
  }

  /** The layout of the token, given the layout of each of its fields. */
  lemma TokenLayout(t: LocalTime)
    requires DecimalField(Field(t.year, 4), t.year, 4)
    requires DecimalField(Field(t.month + 1, 2), t.month + 1, 2)
    requires DecimalField(Field(t.day, 2), t.day, 2)
    requires DecimalField(Field(t.hours, 2), t.hours, 2)
    requires DecimalField(Field(t.minutes, 2), t.minutes, 2)
    requires DecimalField(Field(t.seconds, 2), t.seconds, 2)
    ensures var r := FormatTimestamp(t);
      && |r| == 19
      && r[4] == '-' && r[7] == '-' && r[10] == '-' && r[13] == '-' && r[16] == '-'
      && DecimalField(r[0..4], t.year, 4)
      && DecimalField(r[5..7], t.month + 1, 2)
      && DecimalField(r[8..10], t.day, 2)
      && DecimalField(r[11..13], t.hours, 2)
      && DecimalField(r[14..16], t.minutes, 2)
      && DecimalField(r[17..19], t.seconds, 2)
  {
    FormatTimestampIsTemplate(t);
    TemplateFields(Field(t.year, 4), Field(t.month + 1, 2), Field(t.day, 2),
                   Field(t.hours, 2), Field(t.minutes, 2), Field(t.seconds, 2),
                   t.year, t.month + 1, t.day, t.hours, t.minutes, t.seconds);
  }

  /** For in-range fields the token has 19 characters, '-' at positions 4,
      7, 10, 13 and 16, and between them the zero-padded decimals of the
      year, the 1-based month, the day, the hours, the minutes and the
      seconds. */
  lemma FormatTimestampLayout(t: LocalTime)
    requires InRange(t)
    ensures var r := FormatTimestamp(t);
      && |r| == 19
      && r[4] == '-' && r[7] == '-' && r[10] == '-' && r[13] == '-' && r[16] == '-'
      && DecimalField(r[0..4], t.year, 4)
      && DecimalField(r[5..7], t.month + 1, 2)
      && DecimalField(r[8..10], t.day, 2)
      && DecimalField(r[11..13], t.hours, 2)
      && DecimalField(r[14..16], t.minutes, 2)
      && DecimalField(r[17..19], t.seconds, 2)
  {
    assert Pow10(2) == 100;
    assert Pow10(4) == 10000;
    FieldDigits(t.year, 4);
    FieldDigits(t.month + 1, 2);
    FieldDigits(t.day, 2);
    FieldDigits(t.hours, 2);
    FieldDigits(t.minutes, 2);
    FieldDigits(t.seconds, 2);
    TokenLayout(t);
  }

  /** A number of at least 10^width has more than `width` digits. */
  lemma {:induction false} DecimalLengthAtLeast(n: nat, width: nat)
    requires n >= Pow10(width)
    ensures |NatToDecimal(n)| > width
  {
    if width > 0 {
      assert n / 10 >= Pow10(width - 1);
      DecimalLengthAtLeast(n / 10, width - 1);
    }
  }

  /** `padStart` never truncates: from the year 10000 on the year component
      takes more than four characters and the token is longer than 19. */
  lemma FormatTimestampWideYear(t: LocalTime)
    requires t.year >= 10000
    requires 0 <= t.month <= 11 && 1 <= t.day <= 31
    requires 0 <= t.hours <= 23 && 0 <= t.minutes <= 59 && 0 <= t.seconds <= 59
    ensures |Field(t.year, 4)| > 4
    ensures |FormatTimestamp(t)| == |Field(t.year, 4)| + 15
  {
    assert Pow10(2) == 100;
    assert Pow10(4) == 10000;
    DecimalLengthAtLeast(t.year, 4);
    FieldDigits(t.month + 1, 2);
    FieldDigits(t.day, 2);
    FieldDigits(t.hours, 2);
    FieldDigits(t.minutes, 2);
    FieldDigits(t.seconds, 2);
    FormatTimestampIsTemplate(t);
  }

  // ---------------------------------------------------------------------
  // Sorting file names by name sorts them by time

  /** JavaScript's `<` on strings: the first differing character decides,
      and a proper prefix comes first. */
  predicate LexLess(a: string, b: string)
    decreases |a|
  {
    if |a| == 0 then |b| > 0
    else if |b| == 0 then false
    else a[0] < b[0] || (a[0] == b[0] && LexLess(a[1..], b[1..]))
  }

  /** `t1` is an earlier local date and time than `t2`: the wall-clock fields
      compared from the year down to the seconds. */
  predicate Before(t1: LocalTime, t2: LocalTime) {
    || t1.year < t2.year
    || (t1.year == t2.year && t1.month < t2.month)
    || (t1.year == t2.year && t1.month == t2.month && t1.day < t2.day)
    || (t1.year == t2.year && t1.month == t2.month && t1.day == t2.day && t1.hours < t2.hours)
    || (t1.year == t2.year && t1.month == t2.month && t1.day == t2.day && t1.hours == t2.hours
        && t1.minutes < t2.minutes)
    || (t1.year == t2.year && t1.month == t2.month && t1.day == t2.day && t1.hours == t2.hours
        && t1.minutes == t2.minutes && t1.seconds < t2.seconds)
  }

  /** The value of a digit string, split after its first digit. */
  lemma {:induction false} DecimalFront(s: string)
    requires 1 <= |s| && AllDigits(s)
    ensures DecimalValue(s) == DigitValue(s[0]) * Pow10(|s| - 1) + DecimalValue(s[1..])
  {
    if |s| == 1 {
      assert s[..0] == [] && s[1..] == [];
    } else {
      var init := s[..|s| - 1];
      DecimalFront(init);
      assert init[0] == s[0];
      assert s[1..][..|s| - 2] == init[1..];
      var d0, p := DigitValue(s[0]), Pow10(|s| - 2);
      var rest, last := DecimalValue(init[1..]), DigitValue(s[|s| - 1]);
      assert DecimalValue(s) == (d0 * p + rest) * 10 + last;
      ShiftDigit(d0, p, rest, last);
      assert DecimalValue(s[1..]) == rest * 10 + last;
    }
  }

  /** Multiplying by ten distributes over a leading digit and the rest. */
  lemma ShiftDigit(d0: int, p: int, rest: int, last: int)
    ensures (d0 * p + rest) * 10 + last == d0 * (10 * p) + (rest * 10 + last)
  {
  }

  /** A string of `k` digits denotes less than 10^k. */
  lemma {:induction false} DecimalBound(s: string)
    requires AllDigits(s)
    ensures DecimalValue(s) < Pow10(|s|)
  {
    if s != [] {
      DecimalBound(s[..|s| - 1]);
    }
  }

  /** `x * p <= y * p` for `x <= y` and a non-negative `p`. */
  lemma MulMonotone(x: int, y: int, p: int)
    requires x <= y && 0 <= p
    ensures x * p <= y * p
  {
    assert y * p - x * p == (y - x) * p;
  }

  /** A smaller leading digit wins whatever follows it. */
  lemma LeadingDigitDecides(da: nat, ra: nat, db: nat, rb: nat, p: nat)
    requires ra < p && rb < p && da < db
    ensures da * p + ra < db * p + rb
  {
    MulMonotone(da + 1, db, p);
    assert (da + 1) * p == da * p + p;
  }

  /** On digit strings of one length, string order is numeric order. */
  lemma {:induction false} DigitsOrder(a: string, b: string)
    requires |a| == |b| && AllDigits(a) && AllDigits(b)
    ensures LexLess(a, b) <==> DecimalValue(a) < DecimalValue(b)
  {
    if |a| > 0 {
      DecimalFront(a);
      DecimalFront(b);
      DecimalBound(a[1..]);
      DecimalBound(b[1..]);
      DigitsOrder(a[1..], b[1..]);
      var da, db, p := DigitValue(a[0]), DigitValue(b[0]), Pow10(|a| - 1);
      var ra, rb := DecimalValue(a[1..]), DecimalValue(b[1..]);
      assert LexLess(a, b) <==> a[0] < b[0] || (a[0] == b[0] && LexLess(a[1..], b[1..]));
      if da < db {
        LeadingDigitDecides(da, ra, db, rb, p);
      } else if db < da {
        LeadingDigitDecides(db, rb, da, ra, p);
      }
    }
  }

  /** Comparing two concatenations whose first parts have one length
      compares the first parts, then the second parts. */
  lemma {:induction false} LexConcat(a: string, x: string, b: string, y: string)
    requires |a| == |b|
    ensures LexLess(a + x, b + y) <==> LexLess(a, b) || (a == b && LexLess(x, y))
  {
    if |a| == 0 {
      assert a + x == x && b + y == y;
    } else {
      LexConcat(a[1..], x, b[1..], y);
      assert (a + x)[1..] == a[1..] + x;
      assert (b + y)[1..] == b[1..] + y;
      assert a == b <==> a[0] == b[0] && a[1..] == b[1..] by {
        if a[0] == b[0] && a[1..] == b[1..] {
          assert a == [a[0]] + a[1..] && b == [b[0]] + b[1..];
        }
      }
    }
  }

  /** Digit strings of one length with one value are the same string. */
  lemma {:induction false} DigitsInjective(a: string, b: string)
    requires |a| == |b| && AllDigits(a) && AllDigits(b)
    requires DecimalValue(a) == DecimalValue(b)
    ensures a == b
  {
    if |a| > 0 {
      var ia, ib := a[..|a| - 1], b[..|b| - 1];
      assert DigitValue(a[|a| - 1]) == DigitValue(b[|b| - 1]);
      DigitsInjective(ia, ib);
      assert a == ia + [a[|a| - 1]] && b == ib + [b[|b| - 1]];
    }
  }

  /** One field followed by '-' and the rest of the token. */
  lemma FieldThenRest(a: string, x: string, b: string, y: string)
    requires |a| == |b|
    ensures LexLess(a + "-" + x, b + "-" + y) <==> LexLess(a, b) || (a == b && LexLess(x, y))
  {
    assert a + "-" + x == a + ("-" + x);
    assert b + "-" + y == b + ("-" + y);
    LexConcat(a, "-" + x, b, "-" + y);
    assert ("-" + x)[1..] == x && ("-" + y)[1..] == y;
  }

  /** Two fields of one width compare as their values do. */
  lemma FieldOrder(a: string, b: string, n: int, m: int, width: nat)
    requires DecimalField(a, n, width) && DecimalField(b, m, width)
    ensures LexLess(a, b) <==> n < m
    ensures a == b <==> n == m
  {
    DigitsOrder(a, b);
    if n == m {
      DigitsInjective(a, b);
    }
  }

  /** Filled templates compare as the tuples of field values do. */
  lemma TemplateOrder(y1: string, mo1: string, d1: string, h1: string, mi1: string, s1: string,
                      y2: string, mo2: string, d2: string, h2: string, mi2: string, s2: string,
                      t1: LocalTime, t2: LocalTime)
    requires DecimalField(y1, t1.year, 4) && DecimalField(y2, t2.year, 4)
    requires DecimalField(mo1, t1.month + 1, 2) && DecimalField(mo2, t2.month + 1, 2)
    requires DecimalField(d1, t1.day, 2) && DecimalField(d2, t2.day, 2)
    requires DecimalField(h1, t1.hours, 2) && DecimalField(h2, t2.hours, 2)
    requires DecimalField(mi1, t1.minutes, 2) && DecimalField(mi2, t2.minutes, 2)
    requires DecimalField(s1, t1.seconds, 2) && DecimalField(s2, t2.seconds, 2)
    ensures LexLess(Template(y1, mo1, d1, h1, mi1, s1), Template(y2, mo2, d2, h2, mi2, s2))
            <==> Before(t1, t2)
  {
    var r4a, r4b := mi1 + "-" + s1, mi2 + "-" + s2;
    var r3a, r3b := h1 + "-" + r4a, h2 + "-" + r4b;
    var r2a, r2b := d1 + "-" + r3a, d2 + "-" + r3b;
    var r1a, r1b := mo1 + "-" + r2a, mo2 + "-" + r2b;
    assert Template(y1, mo1, d1, h1, mi1, s1) == y1 + "-" + r1a;
    assert Template(y2, mo2, d2, h2, mi2, s2) == y2 + "-" + r1b;
    FieldThenRest(y1, r1a, y2, r1b);
    FieldThenRest(mo1, r2a, mo2, r2b);
    FieldThenRest(d1, r3a, d2, r3b);
    FieldThenRest(h1, r4a, h2, r4b);
    FieldThenRest(mi1, s1, mi2, s2);
    FieldOrder(y1, y2, t1.year, t2.year, 4);
    FieldOrder(mo1, mo2, t1.month + 1, t2.month + 1, 2);
    FieldOrder(d1, d2, t1.day, t2.day, 2);
    FieldOrder(h1, h2, t1.hours, t2.hours, 2);
    FieldOrder(mi1, mi2, t1.minutes, t2.minutes, 2);
    FieldOrder(s1, s2, t1.seconds, t2.seconds, 2);
  }

  /** Tokens compare as their times do, given the layout of every field. */
  lemma TokenOrder(t1: LocalTime, t2: LocalTime)
    requires DecimalField(Field(t1.year, 4), t1.year, 4)
    requires DecimalField(Field(t1.month + 1, 2), t1.month + 1, 2)
    requires DecimalField(Field(t1.day, 2), t1.day, 2)
    requires DecimalField(Field(t1.hours, 2), t1.hours, 2)
    requires DecimalField(Field(t1.minutes, 2), t1.minutes, 2)
    requires DecimalField(Field(t1.seconds, 2), t1.seconds, 2)
    requires DecimalField(Field(t2.year, 4), t2.year, 4)
    requires DecimalField(Field(t2.month + 1, 2), t2.month + 1, 2)
    requires DecimalField(Field(t2.day, 2), t2.day, 2)
    requires DecimalField(Field(t2.hours, 2), t2.hours, 2)
    requires DecimalField(Field(t2.minutes, 2), t2.minutes, 2)
    requires DecimalField(Field(t2.seconds, 2), t2.seconds, 2)
    ensures LexLess(FormatTimestamp(t1), FormatTimestamp(t2)) <==> Before(t1, t2)
  {
    FormatTimestampIsTemplate(t1);
    FormatTimestampIsTemplate(t2);
    TemplateOrder(Field(t1.year, 4), Field(t1.month + 1, 2), Field(t1.day, 2),
                  Field(t1.hours, 2), Field(t1.minutes, 2), Field(t1.seconds, 2),
                  Field(t2.year, 4), Field(t2.month + 1, 2), Field(t2.day, 2),
                  Field(t2.hours, 2), Field(t2.minutes, 2), Field(t2.seconds, 2),
                  t1, t2);
  }

  /** For in-range times, one token sorts before another exactly when its
      local date and time is earlier. */
  lemma FormatTimestampOrder(t1: LocalTime, t2: LocalTime)
    requires InRange(t1) && InRange(t2)
    ensures LexLess(FormatTimestamp(t1), FormatTimestamp(t2)) <==> Before(t1, t2)
  {
    assert Pow10(2) == 100;
    assert Pow10(4) == 10000;
    FieldDigits(t1.year, 4);
    FieldDigits(t1.month + 1, 2);
    FieldDigits(t1.day, 2);
    FieldDigits(t1.hours, 2);
    FieldDigits(t1.minutes, 2);
    FieldDigits(t1.seconds, 2);
    FieldDigits(t2.year, 4);
    FieldDigits(t2.month + 1, 2);
    FieldDigits(t2.day, 2);
    FieldDigits(t2.hours, 2);
    FieldDigits(t2.minutes, 2);
    FieldDigits(t2.seconds, 2);
    TokenOrder(t1, t2);
  }

  /** `tasks_` and `.json` around a 19-character token. */
  lemma FileNameAround(tok: string)
    requires |tok| == 19
    ensures var name := "tasks_" + tok + ".json";
      |name| == 30 && name[..6] == "tasks_" && name[6..25] == tok && name[25..] == ".json"
  {
  }

  /** The export file name is `tasks_`, the 19-character token, `.json`. */
  lemma ExportFileNameLayout(t: LocalTime)
    requires InRange(t)
    ensures |ExportFileName(t)| == 30
    ensures ExportFileName(t)[..6] == "tasks_"
    ensures ExportFileName(t)[6..25] == FormatTimestamp(t)
    ensures ExportFileName(t)[25..] == ".json"
  {
    FormatTimestampLayout(t);
    FileNameAround(FormatTimestamp(t));
  }
}
