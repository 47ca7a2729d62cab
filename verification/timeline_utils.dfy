/** The helpers of `lib/timeline-utils.ts`: the category label table, and
    the conversions between an event date plus an `HH:MM` time input and
    the stored timestamp string. `Date` parsing is abstracted to reading
    the hour and minute fields of the local date-time string. */
module TimelineUtils {
  import opened Wrappers
  import opened Text
  import opened Items

  /** The enumeration value as stored in the database. */
  function CategoryKey(c: Category): (key: string)
    ensures CategoryFromKey(key) == Some(c)
  {
    match c
    case Setup => "setup"
    case Performance => "performance"
    case Catering => "catering"
    case Breakdown => "breakdown"
    case General => "general"
  }

  /** Reads a category back from the value of a `<select>` option. */
  function CategoryFromKey(key: string): Option<Category>
  {
    if key == "setup" then Some(Setup)
    else if key == "performance" then Some(Performance)
    else if key == "catering" then Some(Catering)
    else if key == "breakdown" then Some(Breakdown)
    else if key == "general" then Some(General)
    else None
  }

  /** Upper-cases the first ASCII letter. */
  function Capitalize(s: string): string
  {
    if |s| == 0 then s
    else if 'a' <= s[0] <= 'z' then [(s[0] as int - 32) as char] + s[1..]
    else s
  }

  /** `CATEGORY_LABELS`: every category has a label starting with a
      capital letter. */
  function CategoryLabel(c: Category): (shown: string)
    ensures |shown| > 0 && 'A' <= shown[0] <= 'Z'
  {
    match c
    case Setup => "Setup"
    case Performance => "Performance"
    case Catering => "Catering"
    case Breakdown => "Breakdown"
    case General => "General"
  }

  /** Each label is its category's key with a capital initial. */
  lemma LabelCapitalizesKey(c: Category)
    ensures CategoryLabel(c) == Capitalize(CategoryKey(c))
  {
    var key, shown := CategoryKey(c), CategoryLabel(c);
    assert shown[0] == (key[0] as int - 32) as char;
    assert shown[1..] == key[1..];
    assert shown == [shown[0]] + shown[1..];
  }

  /** No two categories share a label. */
  lemma CategoryLabelsDistinct(c1: Category, c2: Category)
    ensures CategoryLabel(c1) == CategoryLabel(c2) ==> c1 == c2
  {
    if CategoryLabel(c1) == CategoryLabel(c2) {
      assert CategoryLabel(c1)[1..] == CategoryLabel(c2)[1..];
      assert CategoryKey(c1)[1..] == CategoryLabel(c1)[1..];
      assert CategoryKey(c2)[1..] == CategoryLabel(c2)[1..];
      assert CategoryKey(c1)[0] == CategoryKey(c2)[0];
      assert CategoryKey(c1) == CategoryKey(c2);
      assert CategoryFromKey(CategoryKey(c1)) == CategoryFromKey(CategoryKey(c2));
    }
  }

  /** `combineDateTime`: the event date, a `T`, the time input, then the
      seconds field `:00`. */
  function CombineDateTime(eventDate: string, timeInput: string): (r: string)
    ensures |r| == |eventDate| + |timeInput| + 4
    ensures r[..|eventDate|] == eventDate
    ensures r[|eventDate|] == 'T'
    ensures r[|eventDate| + 1..|eventDate| + 1 + |timeInput|] == timeInput
    ensures r[|eventDate| + 1 + |timeInput|..] == ":00"
  {
    eventDate + "T" + timeInput + ":00"
  }

  /** A well-formed `HH:MM` string of an `<input type="time">`. */
  predicate IsClock(t: string)
  {
    && |t| == 5
    && IsDigit(t[0]) && IsDigit(t[1]) && t[2] == ':' && IsDigit(t[3]) && IsDigit(t[4])
    && TwoDigits(t[0], t[1]) < 24
    && TwoDigits(t[3], t[4]) < 60
  }

  function ClockHour(t: string): nat
    requires IsClock(t)
  {
    TwoDigits(t[0], t[1])
  }

  function ClockMinute(t: string): nat
    requires IsClock(t)
  {
    TwoDigits(t[3], t[4])
  }

  /** The number two digit characters spell. */
  function TwoDigits(hi: char, lo: char): nat
    requires IsDigit(hi) && IsDigit(lo)
  {
    DigitValue(hi) * 10 + DigitValue(lo)
  }

  /** `n.toString().padStart(2, '0')`: below 100, the two digits that
      spell `n`. */
  function Pad2(n: nat): (r: string)
    ensures n < 100 ==> |r| == 2 && IsDigit(r[0]) && IsDigit(r[1]) && TwoDigits(r[0], r[1]) == n
  {
    var s := NatToString(n);
    if n < 10 then
      assert s == [DigitChar(n)];
      PadStart(s, 2, '0')
    else if n < 100 then
      assert s == NatToString(n / 10) + [DigitChar(n % 10)];
      PadStart(s, 2, '0')
    else
      PadStart(s, 2, '0')
  }

  /** `extractTime`, from the hour and minute a parsed `Date` reports. */
  function ExtractTime(hours: nat, minutes: nat): (r: string)
    ensures hours < 24 && minutes < 60 ==>
              IsClock(r) && ClockHour(r) == hours && ClockMinute(r) == minutes
  {
    var hh, mm := Pad2(hours), Pad2(minutes);
    if hours < 24 && minutes < 60 then
      JoinClock(hh, mm, hours, minutes);
      hh + ":" + mm
    else hh + ":" + mm
  }

  /** Two two-digit fields joined by a colon make a clock reading them. */
  lemma JoinClock(hh: string, mm: string, hours: nat, minutes: nat)
    requires |hh| == 2 && IsDigit(hh[0]) && IsDigit(hh[1]) && TwoDigits(hh[0], hh[1]) == hours < 24
    requires |mm| == 2 && IsDigit(mm[0]) && IsDigit(mm[1]) && TwoDigits(mm[0], mm[1]) == minutes < 60
    ensures IsClock(hh + ":" + mm)
    ensures ClockHour(hh + ":" + mm) == hours && ClockMinute(hh + ":" + mm) == minutes
  {
    var r := hh + ":" + mm;
    assert r[0] == hh[0] && r[1] == hh[1] && r[2] == ':' && r[3] == mm[0] && r[4] == mm[1];
  }

  /** The hour and minute a local date-time string `…THH:MM…` denotes:
      the clock fields right after its first `T`, or None if they are not
      a valid time of day. */
  function ClockFields(timestamp: string): Option<(nat, nat)>
  {
    match IndexOfChar(timestamp, 'T')
    case None => None
    case Some(i) =>
      if i + 6 <= |timestamp| && IsClock(timestamp[i + 1..i + 6]) then
        Some((ClockHour(timestamp[i + 1..i + 6]), ClockMinute(timestamp[i + 1..i + 6])))
      else None
  }

  /** Two digit characters are determined by the two-digit number they spell. */
  lemma TwoDigitsDetermined(a: char, b: char, c: char, d: char)
    requires IsDigit(a) && IsDigit(b) && IsDigit(c) && IsDigit(d)
    requires TwoDigits(a, b) == TwoDigits(c, d)
    ensures a == c && b == d
  {
  }

  /** Formatting the hour and minute of a well-formed `HH:MM` string
      gives back that string. */
  lemma ExtractTimeOfClock(t: string)
    requires IsClock(t)
    ensures ExtractTime(ClockHour(t), ClockMinute(t)) == t
  {
    ClockDetermined(ExtractTime(ClockHour(t), ClockMinute(t)), t);
  }

  /** A clock string is determined by the hour and minute it reads. */
  lemma ClockDetermined(r: string, t: string)
    requires IsClock(r) && IsClock(t)
    requires ClockHour(r) == ClockHour(t) && ClockMinute(r) == ClockMinute(t)
    ensures r == t
  {
    TwoDigitsDetermined(r[0], r[1], t[0], t[1]);
    TwoDigitsDetermined(r[3], r[4], t[3], t[4]);
    assert forall i :: 0 <= i < 5 ==> r[i] == t[i];
  }

  /** The clock fields of a combined timestamp are those of its time part. */
  lemma ClockFieldsOfCombined(eventDate: string, timeInput: string)
    requires 'T' !in eventDate
    requires IsClock(timeInput)
    ensures ClockFields(CombineDateTime(eventDate, timeInput))
            == Some((ClockHour(timeInput), ClockMinute(timeInput)))
  {
    var ts := CombineDateTime(eventDate, timeInput);
    var i := |eventDate|;
    assert IndexOfChar(ts, 'T') == Some(i) by {
      assert ts[..i] == eventDate;
    }
    assert ts[i + 1..i + 6] == timeInput;
  }

  /** Round trip through the stored timestamp: a time typed into the
      form, combined with the event date and read back for editing, is
      the time that was typed. */
  lemma TimeInputRoundTrip(eventDate: string, timeInput: string)
    requires 'T' !in eventDate
    requires IsClock(timeInput)
    ensures var f := ClockFields(CombineDateTime(eventDate, timeInput));
            f.Some? && ExtractTime(f.value.0, f.value.1) == timeInput
  {
    ClockFieldsOfCombined(eventDate, timeInput);
    ExtractTimeOfClock(timeInput);
  }

  /** The other direction: the `HH:MM` shown for a stored time, combined
      again with the event date, stores the same hour and minute. */
  lemma StoredTimeRoundTrip(eventDate: string, hours: nat, minutes: nat)
    requires 'T' !in eventDate
    requires hours < 24 && minutes < 60
    ensures ClockFields(CombineDateTime(eventDate, ExtractTime(hours, minutes))) == Some((hours, minutes))
  {
    ClockFieldsOfCombined(eventDate, ExtractTime(hours, minutes));
  }

  /** Minutes since midnight of a well-formed `HH:MM` string. */
  function ClockMinutes(t: string): nat
    requires IsClock(t)
  {
    ClockHour(t) * 60 + ClockMinute(t)
  }

  /** On digit characters, character order is digit order. */
  lemma DigitOrder(c: char, d: char)
    requires IsDigit(c) && IsDigit(d)
    ensures c < d <==> DigitValue(c) < DigitValue(d)
    ensures c == d <==> DigitValue(c) == DigitValue(d)
  {
  }

  /** String order on well-formed `HH:MM` strings is chronological order,
      so comparing the raw inputs compares the times of day. */
  lemma {:induction false} ClockLexOrder(a: string, b: string)
    requires IsClock(a) && IsClock(b)
    ensures LexLess(a, b) <==> ClockMinutes(a) < ClockMinutes(b)
  {
    DigitOrder(a[0], b[0]);
    DigitOrder(a[1], b[1]);
    DigitOrder(a[3], b[3]);
    DigitOrder(a[4], b[4]);
    var a1, b1 := a[1..], b[1..];
    var a2, b2 := a1[1..], b1[1..];
    var a3, b3 := a2[1..], b2[1..];
    var a4, b4 := a3[1..], b3[1..];
    var a5, b5 := a4[1..], b4[1..];
    assert LexLess(a5, b5) == false;
    assert LexLess(a4, b4) == (if a[4] != b[4] then a[4] < b[4] else false);
    assert LexLess(a3, b3) == (if a[3] != b[3] then a[3] < b[3] else LexLess(a4, b4));
    assert LexLess(a2, b2) == LexLess(a3, b3);
    assert LexLess(a1, b1) == (if a[1] != b[1] then a[1] < b[1] else LexLess(a2, b2));
    assert LexLess(a, b) == (if a[0] != b[0] then a[0] < b[0] else LexLess(a1, b1));
  }

  /** `end <= start` on `HH:MM` inputs holds exactly when the end is not
      later in the day than the start. */
  lemma ClockStrLe(endTime: string, startTime: string)
    requires IsClock(endTime) && IsClock(startTime)
    ensures StrLe(endTime, startTime) <==> ClockMinutes(endTime) <= ClockMinutes(startTime)
  {
    ClockLexOrder(startTime, endTime);
  }
}
