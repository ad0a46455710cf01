/** Timestamps, run identifiers and safe identifiers of src/handler_util.rs, and the random suffix of
    src/atomic_file.rs. */
module RunIds {
  import opened Prelude
  import opened Decimal
  import opened Calendar
  import opened TextOrder
  import opened Xorshift

  // ----- Formatted numbers -----

  function Zeros(n: nat): string {
    if n == 0 then "" else "0" + Zeros(n - 1)
  }

  /** `{:0w}` of a number that is not negative. */
  function Padded(n: nat, w: nat): string {
    (if |Numeral(n)| < w then Zeros(w - |Numeral(n)|) else "") + Numeral(n)
  }

  /** One `{:0w}` of a format string, and the literal text before it. */
  datatype Slot = Slot(before: string, width: nat)

  function Render(slots: seq<Slot>, values: seq<nat>, tail: string): string
    requires |slots| == |values|
  {
    if slots == [] then tail
    else slots[0].before + Padded(values[0], slots[0].width) + Render(slots[1..], values[1..], tail)
  }

  // ----- The two timestamp formats -----

  /** `{:04}-{:02}-{:02}T{:02}:{:02}:{:02}Z`, the date-time of section 5.6 of RFC 3339. */
  const ISO_SLOTS := [Slot("", 4), Slot("-", 2), Slot("-", 2), Slot("T", 2), Slot(":", 2), Slot(":", 2)]

  /** `{:04}{:02}{:02}-{:02}{:02}{:02}` */
  const COMPACT_SLOTS := [Slot("", 4), Slot("", 2), Slot("", 2), Slot("-", 2), Slot("", 2), Slot("", 2)]

  function Fields(secs: nat): (values: seq<nat>)
    ensures |values| == 6
  {
    var c := CivilFromUnix(secs);
    CivilIsExact(secs);
    YearBounds(secs);
    [c.date.year, c.date.month, c.date.day, c.hour, c.minute, c.second]
  }

  function FormatIso8601Utc(secs: nat): string {
    Render(ISO_SLOTS, Fields(secs), "Z")
  }

  function FormatCompactUtc(secs: nat): string {
    Render(COMPACT_SLOTS, Fields(secs), "")
  }

  /** The fields of a time, written out. */
  lemma TimestampsAreSpelt(secs: nat)
    ensures var c := CivilFromUnix(secs);
            var (y, mo, d) := (Padded(Fields(secs)[0], 4), Padded(Fields(secs)[1], 2), Padded(Fields(secs)[2], 2));
            var (h, mi, s) := (Padded(Fields(secs)[3], 2), Padded(Fields(secs)[4], 2), Padded(Fields(secs)[5], 2));
            && Fields(secs) == [c.date.year, c.date.month, c.date.day, c.hour, c.minute, c.second]
            && FormatIso8601Utc(secs) == y + "-" + mo + "-" + d + "T" + h + ":" + mi + ":" + s + "Z"
            && FormatCompactUtc(secs) == y + mo + d + "-" + h + mi + s
  {
    hide Padded, CivilFromUnix;
    var f := Fields(secs);
    RenderSix(ISO_SLOTS, f, "Z");
    RenderSix(COMPACT_SLOTS, f, "");
  }

  lemma RenderSix(slots: seq<Slot>, f: seq<nat>, tail: string)
    requires |slots| == |f| == 6
    ensures Render(slots, f, tail) ==
            slots[0].before + Padded(f[0], slots[0].width) + (slots[1].before + Padded(f[1], slots[1].width)
            + (slots[2].before + Padded(f[2], slots[2].width) + (slots[3].before + Padded(f[3], slots[3].width)
            + (slots[4].before + Padded(f[4], slots[4].width) + (slots[5].before + Padded(f[5], slots[5].width) + tail)))))
  {
    hide Padded;
    RenderStep(slots, f, tail);
    RenderStep(slots[1..], f[1..], tail);
    RenderStep(slots[2..], f[2..], tail);
    RenderStep(slots[3..], f[3..], tail);
    RenderStep(slots[4..], f[4..], tail);
    RenderStep(slots[5..], f[5..], tail);
    assert slots[6..] == [];
  }

  lemma RenderStep(slots: seq<Slot>, f: seq<nat>, tail: string)
    requires |slots| == |f| > 0
    ensures Render(slots, f, tail) == slots[0].before + Padded(f[0], slots[0].width) + Render(slots[1..], f[1..], tail)
  {
    hide Padded;
  }

  // ----- Digits in text order -----

  /** Digits of equal length with equal values are equal. */
  lemma {:induction false} DigitsAreUnique(s: string, t: string)
    requires |s| == |t| && DigitsValue(s).Some? && DigitsValue(s) == DigitsValue(t)
    ensures s == t
  {
    var n := |s| - 1;
    if n > 0 {
      DigitsAreUnique(s[..n], t[..n]);
    }
    assert s == s[..n] + [s[n]] && t == t[..n] + [t[n]];
  }

  /** Digits of equal length are ordered as their values are. */
  lemma {:induction false} DigitsOrder(s: string, t: string)
    requires |s| == |t| && DigitsValue(s).Some? && DigitsValue(t).Some? && DigitsValue(s).value < DigitsValue(t).value
    ensures Less(s, t)
  {
    var n := |s| - 1;
    assert s == s[..n] + [s[n]] && t == t[..n] + [t[n]];
    if n == 0 {
      assert s[..0] == t[..0] == "";
    } else if DigitsValue(s[..n]).value < DigitsValue(t[..n]).value {
      DigitsOrder(s[..n], t[..n]);
      LessExtends(s[..n], t[..n], [s[n]], [t[n]]);
    } else {
      DigitsAreUnique(s[..n], t[..n]);
      LessAfterPrefix(s[..n], [s[n]], [t[n]]);
    }
  }

  lemma {:induction false} LeadingZeros(n: nat, s: string)
    requires DigitsValue(s).Some?
    ensures DigitsValue(Zeros(n) + s) == DigitsValue(s)
    decreases |s|
  {
    var z := Zeros(n) + s;
    assert z[|z| - 1] == s[|s| - 1];
    if |s| > 1 {
      assert z[..|z| - 1] == Zeros(n) + s[..|s| - 1];
      LeadingZeros(n, s[..|s| - 1]);
    } else {
      assert z[..|z| - 1] == Zeros(n);
      ZerosValue(n);
    }
  }

  lemma {:induction false} ZerosValue(n: nat)
    ensures |Zeros(n)| == n && (n > 0 ==> DigitsValue(Zeros(n)) == Some(0))
    ensures n > 0 ==> Zeros(n) == Zeros(n - 1) + "0"
    ensures forall c :: c in Zeros(n) ==> c == '0'
  {
    if n > 0 {
      ZerosValue(n - 1);
      if n > 1 {
        assert Zeros(n) == "0" + (Zeros(n - 2) + "0") == ("0" + Zeros(n - 2)) + "0";
      }
      assert Zeros(n)[..n - 1] == Zeros(n - 1);
      assert Zeros(n)[n - 1] == '0';
    }
  }

  lemma PaddedValue(n: nat, w: nat)
    ensures DigitsValue(Padded(n, w)) == Some(n)
    ensures |Padded(n, w)| == if |Numeral(n)| < w then w else |Numeral(n)|
  {
    NumeralValue(n);
    var k := if |Numeral(n)| < w then w - |Numeral(n)| else 0;
    ZerosValue(k);
    LeadingZeros(k, Numeral(n));
    assert Padded(n, w) == Zeros(k) + Numeral(n);
  }

  // ----- Rendered values are ordered as the values are -----

  predicate LexLess(a: seq<nat>, b: seq<nat>)
    requires |a| == |b|
  {
    a != [] && (a[0] < b[0] || (a[0] == b[0] && LexLess(a[1..], b[1..])))
  }

  predicate SameWidths(slots: seq<Slot>, a: seq<nat>, b: seq<nat>)
    requires |slots| == |a| == |b|
  {
    forall k :: 0 <= k < |slots| ==> |Padded(a[k], slots[k].width)| == |Padded(b[k], slots[k].width)|
  }

  lemma {:induction false} RenderOrder(slots: seq<Slot>, a: seq<nat>, b: seq<nat>, tail: string)
    requires |slots| == |a| == |b| && SameWidths(slots, a, b) && LexLess(a, b)
    ensures Less(Render(slots, a, tail), Render(slots, b, tail))
  {
    hide Padded;
    var p, x, y := slots[0].before, Padded(a[0], slots[0].width), Padded(b[0], slots[0].width);
    var ra, rb := Render(slots[1..], a[1..], tail), Render(slots[1..], b[1..], tail);
    assert p + x + ra == p + (x + ra) && p + y + rb == p + (y + rb);
    if a[0] < b[0] {
      PaddedValue(a[0], slots[0].width);
      PaddedValue(b[0], slots[0].width);
      DigitsOrder(x, y);
      LessExtends(x, y, ra, rb);
    } else {
      forall k | 0 <= k < |slots[1..]|
        ensures |Padded(a[1..][k], slots[1..][k].width)| == |Padded(b[1..][k], slots[1..][k].width)|
      {
        assert slots[1..][k] == slots[k + 1];
      }
      RenderOrder(slots[1..], a[1..], b[1..], tail);
      LessAfterPrefix(x, ra, rb);
    }
    LessAfterPrefix(p, x + ra, y + rb);
  }

  function YearWidth(secs: nat): nat {
    YearBounds(secs);
    |Padded(CivilFromUnix(secs).date.year, 4)|
  }

  lemma TwoDigits(n: nat)
    requires n < 100
    ensures |Padded(n, 2)| == 2
  {
    PaddedValue(n, 2);
    assert |Numeral(n)| <= 2;
  }

  lemma FieldsOrder(a: nat, b: nat)
    requires a < b
    ensures LexLess(Fields(a), Fields(b))
  {
    CivilAdvances(a, b);
    hide CivilFromUnix, CivilDate;
    var x, y := Fields(a), Fields(b);
    var ca, cb := CivilFromUnix(a), CivilFromUnix(b);
    assert x[1..][1..][1..] == [ca.hour, ca.minute, ca.second] && y[1..][1..][1..] == [cb.hour, cb.minute, cb.second];
    if ca.date == cb.date {
      assert LexLess([ca.second], [cb.second]) || ca.second >= cb.second;
      assert LexLess([ca.minute, ca.second], [cb.minute, cb.second])
             || ca.minute > cb.minute || (ca.minute == cb.minute && ca.second >= cb.second);
      assert LexLess(x[1..][1..][1..], y[1..][1..][1..]);
      assert LexLess(x[1..][1..], y[1..][1..]);
      assert LexLess(x[1..], y[1..]);
    } else if ca.date.year == cb.date.year {
      if ca.date.month == cb.date.month {
        assert LexLess(x[1..][1..], y[1..][1..]);
      }
      assert LexLess(x[1..], y[1..]);
    }
  }

  lemma FieldWidths(slots: seq<Slot>, a: nat, b: nat)
    requires |slots| == 6 && slots[0].width == 4 && forall k :: 1 <= k < 6 ==> slots[k].width == 2
    requires YearWidth(a) == YearWidth(b)
    ensures SameWidths(slots, Fields(a), Fields(b))
  {
    CivilIsExact(a);
    CivilIsExact(b);
    hide Padded, CivilFromUnix;
    forall k | 1 <= k < 6
      ensures |Padded(Fields(a)[k], 2)| == |Padded(Fields(b)[k], 2)| == 2
    {
      TwoDigits(Fields(a)[k]);
      TwoDigits(Fields(b)[k]);
    }
  }

  lemma LaterIsGreater(a: nat, b: nat)
    ensures a < b && YearWidth(a) == YearWidth(b) ==>
              Less(FormatIso8601Utc(a), FormatIso8601Utc(b)) && Less(FormatCompactUtc(a), FormatCompactUtc(b))
  {
    hide Fields, YearWidth;
    if a < b && YearWidth(a) == YearWidth(b) {
      FieldsOrder(a, b);
      FieldWidths(ISO_SLOTS, a, b);
      FieldWidths(COMPACT_SLOTS, a, b);
      RenderOrder(ISO_SLOTS, Fields(a), Fields(b), "Z");
      RenderOrder(COMPACT_SLOTS, Fields(a), Fields(b), "");
    }
  }

  /** As long as the years are equally wide, both timestamp formats are ordered as the seconds are. */
  lemma TimestampOrder(a: nat, b: nat)
    ensures YearWidth(a) == YearWidth(b) ==>
              && (Less(FormatIso8601Utc(a), FormatIso8601Utc(b)) <==> a < b)
              && (Less(FormatCompactUtc(a), FormatCompactUtc(b)) <==> a < b)
  {
    hide Fields, YearWidth, FormatIso8601Utc, FormatCompactUtc;
    if YearWidth(a) == YearWidth(b) {
      if a < b {
        LaterIsGreater(a, b);
      } else if b < a {
        LaterIsGreater(b, a);
        LessIsAsymmetric(FormatIso8601Utc(b), FormatIso8601Utc(a));
        LessIsAsymmetric(FormatCompactUtc(b), FormatCompactUtc(a));
      } else {
        NotLessThanItself(FormatIso8601Utc(a));
        NotLessThanItself(FormatCompactUtc(a));
      }
    }
  }

  // ----- The end of four-digit years -----

  /** 10000-01-01T00:00:00Z */
  const YEAR_10000 := 253_402_300_800

  lemma FourDigitYears(secs: nat)
    ensures CivilFromUnix(secs).date.year < 10_000 <==> secs < YEAR_10000
    ensures secs == YEAR_10000 ==> CivilFromUnix(secs).date.year == 10_000
  {
    CivilIsExact(secs);
    hide CivilDate, DaysBeforeMonth;
    var d := CivilFromUnix(secs).date;
    YearSpan(d);
    assert DaysBeforeYear(10_000) - 719_162 == 2_932_897;
    assert DaysBeforeYear(10_001) - 719_162 == 2_933_263;
    if d.year < 10_000 {
      YearsGrow(d.year + 1, 10_000);
    } else {
      YearsGrow(10_000, d.year);
      if d.year > 10_000 {
        YearsGrow(10_001, d.year);
      }
    }
  }

  lemma YearsGrow(a: int, b: int)
    requires 1 <= a <= b
    ensures DaysBeforeYear(a) <= DaysBeforeYear(b)
  {
  }

  lemma YearSpan(d: Date)
    requires IsDate(d)
    ensures DaysBeforeYear(d.year) - 719_162 <= DayNumber(d) < DaysBeforeYear(d.year + 1) - 719_162
  {
    hide DaysBeforeYear, IsLeap;
    YearDays(d.year);
    MonthsGrow(d.year, d.month);
  }

  lemma {:induction false} MonthsGrow(year: int, month: int)
    requires 1 <= month <= 12
    ensures 0 <= DaysBeforeMonth(year, month)
    ensures DaysBeforeMonth(year, month) + DaysIn(year, month) <= DaysBeforeMonth(year, 12) + DaysIn(year, 12)
    decreases 12 - month
  {
    hide DaysIn;
    MonthsNotNegative(year, month);
    if month < 12 {
      MonthsGrow(year, month + 1);
      assert DaysIn(year, month + 1) >= 28 && DaysBeforeMonth(year, month + 1) == DaysBeforeMonth(year, month) + DaysIn(year, month)
      by {
        MonthIsLong(year, month + 1);
      }
    }
  }

  lemma MonthIsLong(year: int, month: int)
    ensures DaysIn(year, month) >= 28
  {
  }

  lemma {:induction false} MonthsNotNegative(year: int, month: int)
    requires 1 <= month <= 12
    ensures 0 <= DaysBeforeMonth(year, month)
    decreases month
  {
    if month > 1 {
      MonthsNotNegative(year, month - 1);
    }
  }

  lemma FourWide(secs: nat)
    requires secs < YEAR_10000
    ensures YearWidth(secs) == 4
  {
    FourDigitYears(secs);
    YearBounds(secs);
    hide CivilFromUnix;
    var y := CivilFromUnix(secs).date.year;
    PaddedValue(y, 4);
    assert |Numeral(y)| <= 4 by {
      NumeralLength(y, 4);
    }
  }

  function PowerOfTen(k: nat): nat {
    if k == 0 then 1 else 10 * PowerOfTen(k - 1)
  }

  lemma {:induction false} NumeralLength(n: nat, k: nat)
    requires 0 < k && n < PowerOfTen(k)
    ensures |Numeral(n)| <= k
    decreases k
  {
    if n >= 10 {
      assert k > 1;
      NumeralLength(n / 10, k - 1);
    }
  }

  /** Before year 10000 the formats are ordered as time is, as section 5.1 of RFC 3339 promises. */
  lemma TimestampsSort(a: nat, b: nat)
    requires a < YEAR_10000 && b < YEAR_10000
    ensures Less(FormatIso8601Utc(a), FormatIso8601Utc(b)) <==> a < b
    ensures Less(FormatCompactUtc(a), FormatCompactUtc(b)) <==> a < b
  {
    hide *;
    FourWide(a);
    FourWide(b);
    TimestampOrder(a, b);
  }

  lemma YearLeads(secs: nat)
    ensures var y := CivilFromUnix(secs).date.year;
            && y >= 0 && Padded(y, 4) != ""
            && FormatIso8601Utc(secs) != "" && FormatIso8601Utc(secs)[0] == Padded(y, 4)[0]
            && FormatCompactUtc(secs) != "" && FormatCompactUtc(secs)[0] == Padded(y, 4)[0]
  {
    YearBounds(secs);
    hide CivilFromUnix, Padded;
    var y := CivilFromUnix(secs).date.year;
    PaddedValue(y, 4);
    assert Fields(secs)[0] == y;
    assert ISO_SLOTS[0] == COMPACT_SLOTS[0] == Slot("", 4);
    assert "" + Padded(y, 4) == Padded(y, 4);
    assert FormatIso8601Utc(secs) == Padded(y, 4) + Render(ISO_SLOTS[1..], Fields(secs)[1..], "Z");
    assert FormatCompactUtc(secs) == Padded(y, 4) + Render(COMPACT_SLOTS[1..], Fields(secs)[1..], "");
  }

  /** From then on they are not: the first second of year 10000 sorts before the second before it. */
  lemma YearTenThousandSortsFirst()
    ensures Less(FormatIso8601Utc(YEAR_10000), FormatIso8601Utc(YEAR_10000 - 1))
    ensures Less(FormatCompactUtc(YEAR_10000), FormatCompactUtc(YEAR_10000 - 1))
  {
    FourDigitYears(YEAR_10000);
    FourDigitYears(YEAR_10000 - 1);
    LastYearOfFour();
    YearLeads(YEAR_10000);
    YearLeads(YEAR_10000 - 1);
    hide CivilFromUnix, FormatIso8601Utc, FormatCompactUtc;
    FirstDigit(10_000);
    FirstDigit(9_999);
  }

  /** The format is ordered as time is on all times before the limit. */
  ghost predicate SortsBefore(limit: nat, format: nat -> string) {
    forall a: nat, b: nat :: a < limit && b < limit ==> (Less(format(a), format(b)) <==> a < b)
  }

  lemma SortsUpToYear9999(limit: nat)
    requires limit <= YEAR_10000
    ensures SortsBefore(limit, FormatIso8601Utc) && SortsBefore(limit, FormatCompactUtc)
  {
    hide FormatIso8601Utc, FormatCompactUtc, Less;
    forall a: nat, b: nat | a < limit && b < limit
      ensures Less(FormatIso8601Utc(a), FormatIso8601Utc(b)) <==> a < b
      ensures Less(FormatCompactUtc(a), FormatCompactUtc(b)) <==> a < b
    {
      TimestampsSort(a, b);
    }
  }

  /** Times that a format puts in the wrong order below the limit. */
  lemma WrongOrder(limit: nat, format: nat -> string, a: nat, b: nat)
    requires a < b < limit && Less(format(b), format(a))
    ensures !SortsBefore(limit, format)
  {
  }

  /** Both formats sort before exactly those limits that do not go beyond year 9999. */
  lemma SortableTimes(limit: nat)
    ensures SortsBefore(limit, FormatIso8601Utc) <==> limit <= YEAR_10000
    ensures SortsBefore(limit, FormatCompactUtc) <==> limit <= YEAR_10000
  {
    assert YEAR_10000 > 0;
    hide *;
    if limit <= YEAR_10000 {
      SortsUpToYear9999(limit);
    } else {
      YearTenThousandSortsFirst();
      WrongOrder(limit, FormatIso8601Utc, YEAR_10000 - 1, YEAR_10000);
      WrongOrder(limit, FormatCompactUtc, YEAR_10000 - 1, YEAR_10000);
    }
  }

  lemma LastYearOfFour()
    ensures CivilFromUnix(YEAR_10000 - 1).date.year == 9_999
  {
    CivilIsExact(YEAR_10000 - 1);
    FourDigitYears(YEAR_10000 - 1);
    hide CivilDate, DaysBeforeMonth;
    var d := CivilFromUnix(YEAR_10000 - 1).date;
    YearSpan(d);
    YearBounds(YEAR_10000 - 1);
    EarlierYearsEnd(d.year);
  }

  lemma EarlierYearsEnd(year: int)
    ensures 1 <= year < 9_999 ==> DaysBeforeYear(year + 1) <= DaysBeforeYear(9_999)
  {
    if 1 <= year < 9_999 {
      YearsGrow(year + 1, 9_999);
    }
  }

  lemma FirstDigit(n: nat)
    requires n == 10_000 || n == 9_999
    ensures Padded(n, 4)[0] == if n == 10_000 then '1' else '9'
  {
    var a, b, c, d := n / 10, n / 100, n / 1000, n / 10_000;
    assert Numeral(c) == if n == 10_000 then "10" else "9";
    assert Numeral(b) == Numeral(c) + [Digit(b % 10)];
    assert Numeral(a) == Numeral(b) + [Digit(a % 10)];
    assert Numeral(n) == Numeral(a) + [Digit(n % 10)];
  }

  // ----- Safe identifiers -----

  const SAFE_ID_MAX_LEN := 128

  datatype IdError = Empty | TooLong | LeadingDot | DoubleDot | BadCharacter

  /** Bytes of a character in UTF-8. */
  function Utf8Len(c: char): nat {
    var u := c as int;
    if u < 0x80 then 1 else if u < 0x800 then 2 else if u < 0x1_0000 then 3 else 4
  }

  function ByteLen(id: string): nat {
    if id == "" then 0 else Utf8Len(id[0]) + ByteLen(id[1..])
  }

  /** What `n` bytes of UTF-8 can say. */
  function Reach(n: nat): nat {
    match n
    case 1 => 128
    case 2 => 2_048
    case 3 => 65_536
    case 4 => 2_097_152
    case _ => 0
  }

  lemma Utf8LenIsLeast(c: char)
    ensures var n := Utf8Len(c);
            1 <= n <= 4 && (c as int) < Reach(n) && forall m :: 1 <= m < n ==> c as int >= Reach(m)
  {
  }

  predicate IsSafeChar(c: char) {
    'a' <= c <= 'z' || 'A' <= c <= 'Z' || '0' <= c <= '9' || c == '.' || c == '_' || c == '-'
  }

  predicate HasDoubleDot(id: string) {
    exists k :: 0 <= k < |id| - 1 && id[k] == '.' && id[k + 1] == '.'
  }

  /** `^[A-Za-z0-9._-]+$` with no leading dot, no `..` and at most 128 bytes. */
  predicate IsSafeId(id: string) {
    id != "" && |id| <= SAFE_ID_MAX_LEN && id[0] != '.' && !HasDoubleDot(id) && forall c :: c in id ==> IsSafeChar(c)
  }

  /** Letters, digits, dot, underscore and hyphen, by their codes. */
  lemma SafeCharsAre(c: char)
    ensures var u := c as int;
            IsSafeChar(c) <==> u in {45, 46, 95} || 48 <= u < 58 || 65 <= u < 91 || 97 <= u < 123
  {
  }

  /** A safe id has up to 128 of these characters, does not start with a dot, and has no two dots in a row. */
  lemma SafeIdIs(id: string)
    ensures IsSafeId(id) <==>
              && 1 <= |id| <= 128 && !HasPrefix(id, ".") && (forall a, b :: id != a + ".." + b)
              && forall k :: 0 <= k < |id| ==> IsSafeChar(id[k])
  {
    hide IsSafeChar;
    if HasDoubleDot(id) {
      var k :| 0 <= k < |id| - 1 && id[k] == '.' && id[k + 1] == '.';
      assert id == id[..k] + ".." + id[k + 2..];
    }
    forall a, b | id == a + ".." + b
      ensures HasDoubleDot(id)
    {
      assert id[|a|] == '.' && id[|a| + 1] == '.';
    }
    assert id != "" ==> id[..1] == [id[0]];
  }

  lemma {:induction false} AsciiBytes(id: string)
    ensures |id| <= ByteLen(id)
    ensures (forall c :: c in id ==> IsSafeChar(c)) ==> ByteLen(id) == |id|
  {
    if id != "" {
      AsciiBytes(id[1..]);
      assert id[0] in id && forall c :: c in id[1..] ==> c in id;
    }
  }

  /** Accepts exactly the safe identifiers, and names the first rule that is broken. */
  method ValidateSafeId(id: string) returns (r: Result<(), IdError>)
    ensures r.Ok? <==> IsSafeId(id)
    ensures r == Err(Empty) <==> id == ""
    ensures r == Err(TooLong) <==> ByteLen(id) > SAFE_ID_MAX_LEN
    ensures r == Err(LeadingDot) <==> 0 < ByteLen(id) <= SAFE_ID_MAX_LEN && At(id, 0, '.')
    ensures var clear := 0 < ByteLen(id) <= SAFE_ID_MAX_LEN && !At(id, 0, '.');
            && (r == Err(DoubleDot) <==> clear && HasDoubleDot(id))
            && (r == Err(BadCharacter) <==> clear && !HasDoubleDot(id) && exists c :: c in id && !IsSafeChar(c))
  {
    AsciiBytes(id);
    if id == "" {
      return Err(Empty);
    }
    if ByteLen(id) > SAFE_ID_MAX_LEN {
      return Err(TooLong);
    }
    if id[0] == '.' {
      return Err(LeadingDot);
    }
    if exists k :: 0 <= k < |id| - 1 && id[k] == '.' && id[k + 1] == '.' {
      return Err(DoubleDot);
    }
    for k := 0 to |id|
      invariant forall j :: 0 <= j < k ==> IsSafeChar(id[j])
    {
      if !IsSafeChar(id[k]) {
        return Err(BadCharacter);
      }
    }
    r := Ok(());
  }

  // ----- The random suffix -----

  const ALPHABET := "abcdefghijklmnopqrstuvwxyz0123456789"

  function Letter(s: bv64): (c: char)
    ensures c in ALPHABET
  {
    ALPHABET[s as nat % |ALPHABET|]
  }

  lemma LetterIs(s: bv64)
    ensures |ALPHABET| == 36 && Letter(s) == ALPHABET[s as nat % 36]
  {
  }

  method RandomSuffix(seed: bv64, len: nat) returns (out: string)
    requires seed != 0
    ensures |out| == len && forall c :: c in out ==> c in ALPHABET
    ensures forall k :: 0 <= k < len ==> out[k] == ALPHABET[StateAfter(seed, k + 1) as nat % 36]
  {
    hide Letter, Advance;
    var state := seed;
    out := "";
    for k := 0 to len
      invariant |out| == k && state != 0 && state == StateAfter(seed, k)
      invariant forall c :: c in out ==> c in ALPHABET
      invariant forall j :: 0 <= j < k ==> out[j] == ALPHABET[StateAfter(seed, j + 1) as nat % 36]
    {
      AdvanceNeverZero(state);
      state := Advance(state);
      LetterIs(state);
      out := out + [Letter(state)];
    }
  }

  // ----- Run identifiers -----

  const RUN_ID_RANDOM_LEN := 6

  /** Both the timestamp and the suffix read the clock, one after the other. */
  method GenerateRunId(secs: nat, drawnAt: bv64, nanos: bv64, pid: bv64) returns (id: string)
    requires secs <= U64_MAX
    ensures IsSafeId(id)
    ensures exists suffix :: && |suffix| == RUN_ID_RANDOM_LEN && (forall c :: c in suffix ==> c in ALPHABET)
                             && id == FormatCompactUtc(secs) + "-" + suffix
                             && forall k :: 0 <= k < RUN_ID_RANDOM_LEN ==>
                                  suffix[k] == ALPHABET[StateAfter(Seed(drawnAt, nanos, pid), k + 1) as nat % 36]
  {
    var suffix := RandomSuffix(Seed(drawnAt, nanos, pid), RUN_ID_RANDOM_LEN);
    id := FormatCompactUtc(secs) + "-" + suffix;
    RunIdIsSafe(secs, suffix);
  }

  predicate IsRunIdChar(c: char) {
    'a' <= c <= 'z' || '0' <= c <= '9' || c == '-'
  }

  lemma PaddedChars(n: nat, w: nat)
    ensures forall c :: c in Padded(n, w) ==> IsRunIdChar(c)
  {
    ZerosValue(if |Numeral(n)| < w then w - |Numeral(n)| else 0);
  }

  lemma {:induction false} RenderChars(slots: seq<Slot>, values: seq<nat>)
    requires |slots| == |values|
    requires forall k, c :: 0 <= k < |slots| && c in slots[k].before ==> c == '-'
    ensures forall c :: c in Render(slots, values, "") ==> IsRunIdChar(c)
  {
    hide Padded;
    if slots != [] {
      PaddedChars(values[0], slots[0].width);
      forall k, c | 0 <= k < |slots[1..]| && c in slots[1..][k].before
        ensures c == '-'
      {
        assert slots[1..][k] == slots[k + 1];
      }
      RenderChars(slots[1..], values[1..]);
    }
  }

  lemma {:induction false} RenderLength(slots: seq<Slot>, values: seq<nat>, limit: nat)
    requires |slots| == |values|
    requires forall k :: 0 <= k < |slots| ==> |slots[k].before| + |Padded(values[k], slots[k].width)| <= limit
    ensures |Render(slots, values, "")| <= limit * |slots|
  {
    hide Padded;
    if slots != [] {
      forall k | 0 <= k < |slots[1..]|
        ensures |slots[1..][k].before| + |Padded(values[1..][k], slots[1..][k].width)| <= limit
      {
        assert slots[1..][k] == slots[k + 1];
      }
      RenderLength(slots[1..], values[1..], limit);
    }
  }

  lemma CompactIsShort(secs: nat)
    requires secs <= U64_MAX
    ensures 0 < |FormatCompactUtc(secs)| <= 108
    ensures forall c :: c in FormatCompactUtc(secs) ==> IsRunIdChar(c)
  {
    CivilIsExact(secs);
    YearBounds(secs);
    hide CivilFromUnix, Padded;
    RenderChars(COMPACT_SLOTS, Fields(secs));
    forall k | 0 <= k < 6
      ensures |COMPACT_SLOTS[k].before| + |Padded(Fields(secs)[k], COMPACT_SLOTS[k].width)| <= 18
    {
      var v := Fields(secs)[k];
      assert v <= 1970 + U64_MAX / 86_400;
      assert v < PowerOfTen(17) by {
        assert PowerOfTen(5) == 100_000;
        assert PowerOfTen(9) == 10_000 * PowerOfTen(5);
        assert PowerOfTen(13) == 10_000 * PowerOfTen(9);
        assert PowerOfTen(17) == 10_000 * PowerOfTen(13);
      }
      NumeralLength(v, 17);
      PaddedValue(v, COMPACT_SLOTS[k].width);
    }
    RenderLength(COMPACT_SLOTS, Fields(secs), 18);
    PaddedValue(Fields(secs)[0], 4);
  }

  lemma RunIdCharsAreSafe(id: string)
    requires 0 < |id| <= SAFE_ID_MAX_LEN && forall c :: c in id ==> IsRunIdChar(c)
    ensures IsSafeId(id)
  {
    assert forall k :: 0 <= k < |id| ==> id[k] in id && IsRunIdChar(id[k]);
  }

  /** Every run identifier the server generates is one it accepts. */
  lemma RunIdIsSafe(secs: nat, suffix: string)
    requires secs <= U64_MAX
    requires |suffix| == RUN_ID_RANDOM_LEN && forall c :: c in suffix ==> c in ALPHABET
    ensures IsSafeId(FormatCompactUtc(secs) + "-" + suffix)
  {
    assert SAFE_ID_MAX_LEN == 128 && RUN_ID_RANDOM_LEN == 6 && IsRunIdChar('-');
    hide *;
    CompactIsShort(secs);
    var id := FormatCompactUtc(secs) + "-" + suffix;
    forall c | c in id
      ensures IsRunIdChar(c)
    {
      if c in suffix {
        AlphabetChars(c);
      }
    }
    RunIdCharsAreSafe(id);
  }

  lemma AlphabetChars(c: char)
    requires c in ALPHABET
    ensures IsRunIdChar(c)
  {
  }
}
