/**
 * The leaf utilities of the validator: the allocation-category codes, the
 * regulatory percentage bands, fixed-format date and date-time parsing, and
 * the normaliser for the schema's explicit-nil marker.
 */
module Schema {
  import opened Wrappers

  // ---------------------------------------------------------------------
  // Allocation categories (SUG-HAFRASHA)
  // ---------------------------------------------------------------------

  /** The allocation categories; the decoded document carries their integer codes. */
  datatype SugHafrasha = Pitzuim | TagmulimOved | TagmulimMaavid | KhOved | KhMaavid
  {
    function Code(): (c: int)
      ensures c > 0
      ensures (c == 8 || c == 9) <==> (this == KhOved || this == KhMaavid)
    {
      match this
      case Pitzuim => 1
      case TagmulimOved => 2
      case TagmulimMaavid => 3
      case KhOved => 8
      case KhMaavid => 9
    }
  }

  /** The category a decoded code names, if any. */
  function SugFromCode(c: int): (r: Option<SugHafrasha>)
    ensures r.Some? ==> r.value.Code() == c
    ensures r.None? <==> c !in {1, 2, 3, 8, 9}
  {
    if c == 1 then Some(Pitzuim)
    else if c == 2 then Some(TagmulimOved)
    else if c == 3 then Some(TagmulimMaavid)
    else if c == 8 then Some(KhOved)
    else if c == 9 then Some(KhMaavid)
    else None
  }

  /** Code and SugFromCode are inverse: each category has its own code. */
  lemma CodeRoundTrip(s: SugHafrasha)
    ensures SugFromCode(s.Code()) == Some(s)
  {
  }

  // ---------------------------------------------------------------------
  // Regulatory percentage bands (HAFRASHA_RANGES_PENSION)
  // ---------------------------------------------------------------------

  /** An inclusive band [min, max] of percentages of salary. */
  datatype Band = Band(min: real, max: real)

  /** The bands per category code; the health-fund categories have none. */
  const HafrashaRangesPension: map<int, Band> :=
    map[1 := Band(6.0, 8.33), 2 := Band(6.0, 7.0), 3 := Band(6.5, 7.5)]

  /** The order in which the table is iterated (its insertion order). */
  const BandedCodes: seq<int> := [1, 2, 3]

  /** The table covers exactly pitzuim, tagmulim oved and tagmulim maavid, each band is non-empty. */
  lemma BandTable()
    ensures HafrashaRangesPension.Keys == {Pitzuim.Code(), TagmulimOved.Code(), TagmulimMaavid.Code()}
    ensures KhOved.Code() !in HafrashaRangesPension && KhMaavid.Code() !in HafrashaRangesPension
    ensures forall c :: c in HafrashaRangesPension ==> HafrashaRangesPension[c].min < HafrashaRangesPension[c].max
    ensures forall c :: c in HafrashaRangesPension <==> c in BandedCodes
    ensures forall i, j :: 0 <= i < j < |BandedCodes| ==> BandedCodes[i] < BandedCodes[j]
  {
  }

  // ---------------------------------------------------------------------
  // Fixed-width digit strings
  // ---------------------------------------------------------------------

  predicate IsDigit(c: char) { '0' <= c <= '9' }

  predicate AllDigits(s: string) { forall i :: 0 <= i < |s| ==> IsDigit(s[i]) }

  function Pow10(n: nat): (p: nat)
    ensures p >= 1
  {
    if n == 0 then 1 else 10 * Pow10(n - 1)
  }

  /** The decimal value of a digit string, most significant digit first. */
  function DigitsValue(s: string): (v: nat)
    requires AllDigits(s)
    ensures v < Pow10(|s|)
  {
    if s == [] then 0
    else
      assert AllDigits(s[..|s| - 1]);
      DigitsValue(s[..|s| - 1]) * 10 + ((s[|s| - 1] as int) - ('0' as int))
  }

  /** `n` written with exactly `width` digits, zero-padded (the reference format). */
  function Padded(n: nat, width: nat): (s: string)
    ensures |s| == width && AllDigits(s)
  {
    if width == 0 then []
    else Padded(n / 10, width - 1) + [(('0' as int) + n % 10) as char]
  }

  lemma {:induction false} DigitsValueOfPadded(n: nat, width: nat)
    requires n < Pow10(width)
    ensures DigitsValue(Padded(n, width)) == n
  {
    if width > 0 {
      var s := Padded(n, width);
      assert s[..width - 1] == Padded(n / 10, width - 1);
      DigitsValueOfPadded(n / 10, width - 1);
    }
  }

  lemma {:induction false} PaddedOfDigitsValue(s: string)
    requires AllDigits(s)
    ensures Padded(DigitsValue(s), |s|) == s
  {
    if s != [] {
      var init := s[..|s| - 1];
      assert AllDigits(init);
      PaddedOfDigitsValue(init);
      var v := DigitsValue(s);
      assert v / 10 == DigitsValue(init);
      assert s == init + [s[|s| - 1]];
    }
  }

  // ---------------------------------------------------------------------
  // Dates (parse_date, parse_datetime)
  // ---------------------------------------------------------------------

  datatype Date = Date(year: int, month: int, day: int)

  datatype DateTime = DateTime(date: Date, hour: int, minute: int, second: int)

  predicate IsLeapYear(y: int) { y % 4 == 0 && (y % 100 != 0 || y % 400 == 0) }

  function DaysInMonth(y: int, m: int): (n: int)
    requires 1 <= m <= 12
    ensures 28 <= n <= 31
    ensures m == 2 ==> (n == 29 <==> IsLeapYear(y))
  {
    if m == 2 then (if IsLeapYear(y) then 29 else 28)
    else if m == 4 || m == 6 || m == 9 || m == 11 then 30
    else 31
  }

  /** A calendar date the Python `date` type can hold (years 1 to 9999). */
  predicate ValidDate(d: Date)
  {
    1 <= d.year <= 9999 && 1 <= d.month <= 12 && 1 <= d.day <= DaysInMonth(d.year, d.month)
  }

  predicate ValidDateTime(t: DateTime)
  {
    ValidDate(t.date) && 0 <= t.hour <= 23 && 0 <= t.minute <= 59 && 0 <= t.second <= 59
  }

  /** Chronological order of dates: `a` is strictly before `b`. */
  predicate DateBefore(a: Date, b: Date)
  {
    a.year < b.year
    || (a.year == b.year && a.month < b.month)
    || (a.year == b.year && a.month == b.month && a.day < b.day)
  }

  /** Reads `YYYYMMDD`; fails on any other shape or on a date the calendar lacks. */
  function ParseDate(s: string): (r: Option<Date>)
    ensures r.Some? ==> |s| == 8 && AllDigits(s) && ValidDate(r.value)
  {
    if |s| != 8 || !AllDigits(s) then None
    else
      assert AllDigits(s[..4]) && AllDigits(s[4..6]) && AllDigits(s[6..]);
      var d := Date(DigitsValue(s[..4]), DigitsValue(s[4..6]), DigitsValue(s[6..]));
      if ValidDate(d) then Some(d) else None
  }

  /** Reads `YYYYMMDDHHMMSS`; its date part is read exactly as ParseDate reads it. */
  function ParseDateTime(s: string): (r: Option<DateTime>)
    ensures r.Some? ==> |s| == 14 && AllDigits(s) && ValidDateTime(r.value)
    ensures r.Some? ==> ParseDate(s[..8]) == Some(r.value.date)
  {
    if |s| != 14 || !AllDigits(s) then None
    else
      assert AllDigits(s[..8]) && AllDigits(s[8..10]) && AllDigits(s[10..12]) && AllDigits(s[12..]);
      match ParseDate(s[..8])
      case None => None
      case Some(d) =>
        var t := DateTime(d, DigitsValue(s[8..10]), DigitsValue(s[10..12]), DigitsValue(s[12..]));
        if ValidDateTime(t) then Some(t) else None
  }

  /** The fixed-width text of a date: the partner of ParseDate. */
  function FormatDate(d: Date): (s: string)
    requires ValidDate(d)
    ensures |s| == 8 && AllDigits(s)
  {
    Padded(d.year, 4) + Padded(d.month, 2) + Padded(d.day, 2)
  }

  function FormatDateTime(t: DateTime): (s: string)
    requires ValidDateTime(t)
    ensures |s| == 14 && AllDigits(s)
  {
    FormatDate(t.date) + Padded(t.hour, 2) + Padded(t.minute, 2) + Padded(t.second, 2)
  }

  /** Every valid date is read back from its fixed-width text. */
  lemma ParseFormatDate(d: Date)
    requires ValidDate(d)
    ensures ParseDate(FormatDate(d)) == Some(d)
  {
    var s := FormatDate(d);
    assert s[..4] == Padded(d.year, 4);
    assert s[4..6] == Padded(d.month, 2);
    assert s[6..] == Padded(d.day, 2);
    assert Pow10(4) == 10000 && Pow10(2) == 100;
    DigitsValueOfPadded(d.year, 4);
    DigitsValueOfPadded(d.month, 2);
    DigitsValueOfPadded(d.day, 2);
  }

  /** A string ParseDate accepts is exactly the fixed-width text of the date it yields. */
  lemma FormatParseDate(s: string)
    requires ParseDate(s).Some?
    ensures FormatDate(ParseDate(s).value) == s
  {
    FormatDateOfFields(s);
    SplitThree(s, 4, 6);
  }

  lemma FormatDateOfFields(s: string)
    requires ParseDate(s).Some?
    ensures FormatDate(ParseDate(s).value) == s[..4] + s[4..6] + s[6..]
  {
    DateFieldsPadded(s);
    FormatDateParts(ParseDate(s).value, s[..4], s[4..6], s[6..]);
  }

  lemma SplitThree(s: string, i: nat, j: nat)
    requires i <= j <= |s|
    ensures s[..i] + s[i..j] + s[j..] == s
  {
  }

  lemma SplitFour(s: string, i: nat, j: nat, k: nat)
    requires i <= j <= k <= |s|
    ensures s[..i] + s[i..j] + s[j..k] + s[k..] == s
  {
    assert s[..i] + s[i..j] == s[..j];
    assert s[..j] + s[j..k] == s[..k];
  }

  /** The fields ParseDate yields are written back as characters 0-4, 4-6 and 6-8. */
  lemma DateFieldsPadded(s: string)
    requires ParseDate(s).Some?
    ensures Padded(ParseDate(s).value.year, 4) == s[..4]
    ensures Padded(ParseDate(s).value.month, 2) == s[4..6]
    ensures Padded(ParseDate(s).value.day, 2) == s[6..]
  {
    ParseDateFields(s);
    PaddedOfDigitsValue(s[..4]);
    PaddedOfDigitsValue(s[4..6]);
    PaddedOfDigitsValue(s[6..]);
  }

  /** The fields ParseDate yields are the values of characters 0-4, 4-6 and 6-8. */
  lemma ParseDateFields(s: string)
    requires ParseDate(s).Some?
    ensures AllDigits(s[..4]) && AllDigits(s[4..6]) && AllDigits(s[6..])
    ensures ParseDate(s).value == Date(DigitsValue(s[..4]), DigitsValue(s[4..6]), DigitsValue(s[6..]))
  {
    assert AllDigits(s[..4]) && AllDigits(s[4..6]) && AllDigits(s[6..]);
  }

  lemma FormatDateParts(date: Date, y: string, m: string, d: string)
    requires ValidDate(date)
    requires Padded(date.year, 4) == y && Padded(date.month, 2) == m && Padded(date.day, 2) == d
    ensures FormatDate(date) == y + m + d
  {
  }

  /** Every valid date-time is read back from its fixed-width text. */
  lemma ParseFormatDateTime(t: DateTime)
    requires ValidDateTime(t)
    ensures ParseDateTime(FormatDateTime(t)) == Some(t)
  {
    var s := FormatDateTime(t);
    assert s[..8] == FormatDate(t.date);
    assert s[8..10] == Padded(t.hour, 2);
    assert s[10..12] == Padded(t.minute, 2);
    assert s[12..] == Padded(t.second, 2);
    assert Pow10(2) == 100;
    ParseFormatDate(t.date);
    DigitsValueOfPadded(t.hour, 2);
    DigitsValueOfPadded(t.minute, 2);
    DigitsValueOfPadded(t.second, 2);
  }

  /** A string ParseDateTime accepts is exactly the fixed-width text of what it yields. */
  lemma FormatParseDateTime(s: string)
    requires ParseDateTime(s).Some?
    ensures FormatDateTime(ParseDateTime(s).value) == s
  {
    FormatDateTimeOfFields(s);
    SplitFour(s, 8, 10, 12);
  }

  lemma FormatDateTimeOfFields(s: string)
    requires ParseDateTime(s).Some?
    ensures FormatDateTime(ParseDateTime(s).value) == s[..8] + s[8..10] + s[10..12] + s[12..]
  {
    ClockFieldsPadded(s);
    FormatParseDate(s[..8]);
    FormatDateTimeParts(ParseDateTime(s).value, s[..8], s[8..10], s[10..12], s[12..]);
  }

  /** The clock fields ParseDateTime yields are written back as characters 8 to 14. */
  lemma ClockFieldsPadded(s: string)
    requires ParseDateTime(s).Some?
    ensures Padded(ParseDateTime(s).value.hour, 2) == s[8..10]
    ensures Padded(ParseDateTime(s).value.minute, 2) == s[10..12]
    ensures Padded(ParseDateTime(s).value.second, 2) == s[12..]
  {
    ParseDateTimeFields(s);
    PaddedOfDigitsValue(s[8..10]);
    PaddedOfDigitsValue(s[10..12]);
    PaddedOfDigitsValue(s[12..]);
  }

  /** The clock fields ParseDateTime yields are the values of characters 8 to 14. */
  lemma ParseDateTimeFields(s: string)
    requires ParseDateTime(s).Some?
    ensures AllDigits(s[8..10]) && AllDigits(s[10..12]) && AllDigits(s[12..])
    ensures ParseDateTime(s).value.hour == DigitsValue(s[8..10])
    ensures ParseDateTime(s).value.minute == DigitsValue(s[10..12])
    ensures ParseDateTime(s).value.second == DigitsValue(s[12..])
  {
    assert AllDigits(s[8..10]) && AllDigits(s[10..12]) && AllDigits(s[12..]);
  }

  lemma FormatDateTimeParts(t: DateTime, d: string, hh: string, mm: string, ss: string)
    requires ValidDateTime(t)
    requires FormatDate(t.date) == d
    requires Padded(t.hour, 2) == hh && Padded(t.minute, 2) == mm && Padded(t.second, 2) == ss
    ensures FormatDateTime(t) == d + hh + mm + ss
  {
  }

  // ---------------------------------------------------------------------
  // Decoded values and the nil marker (fix_nil)
  // ---------------------------------------------------------------------

  /** A key of a decoded mapping: element and attribute names, or other keys. */
  datatype Key = Name(name: string) | Other(code: int)

  /** A decoded value of the document tree. */
  datatype Value = Null | Number(amount: real) | Text(text: string) | Mapping(entries: map<Key, Value>)

  predicate EndsWith(s: string, suffix: string)
  {
    |suffix| <= |s| && s[|s| - |suffix|..] == suffix
  }

  /** The schema's explicit-null encoding: a mapping of one name ending in "nil". */
  predicate IsNilMarker(v: Value)
  {
    v.Mapping? && |v.entries| == 1
    && forall k :: k in v.entries ==> k.Name? && EndsWith(k.name, "nil")
  }

  lemma OneKey<K, V>(m: map<K, V>)
    requires |m| == 1
    ensures exists k :: m.Keys == {k}
  {
    var k :| k in m;
    var rest := m.Keys - {k};
    assert |rest| == 0;
    assert m.Keys == {k};
  }

  /** The only key of a one-entry mapping (`[key] = element`). */
  function OnlyKey<K, V>(m: map<K, V>): (k: K)
    requires |m| == 1
    ensures m.Keys == {k}
  {
    OneKey(m);
    var k :| m.Keys == {k}; k
  }

  /** Replaces an explicit-nil marker by `default` and leaves every other value alone. */
  function FixNil(element: Value, default: Value): (r: Value)
    ensures IsNilMarker(element) ==> r == default
    ensures !IsNilMarker(element) ==> r == element
  {
    if element.Mapping? && |element.entries| == 1 then
      var key := OnlyKey(element.entries);
      if key.Name? && EndsWith(key.name, "nil") then default else element
    else element
  }

  /** Normalising twice is normalising once, unless the default is itself a nil marker. */
  lemma FixNilIdempotent(element: Value, default: Value)
    requires !IsNilMarker(default)
    ensures FixNil(FixNil(element, default), default) == FixNil(element, default)
  {
  }
}
