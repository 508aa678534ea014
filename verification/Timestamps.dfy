/** Timestamps as `YYYY-MM-DDTHH:MM:SS.mmmZ`, whose byte order is the order of time. */
module Timestamps {
  import opened ByteStrings
  import opened Calendar

  function Digit(n: nat): Byte
    requires n < 10
  {
    48 + n
  }

  function Decimal(n: nat): Bytes {
    if n < 10 then [Digit(n)] else Decimal(n / 10) + [Digit(n % 10)]
  }

  /** A number padded with zeros to at least `width` digits. */
  function Padded(n: nat, width: nat): Bytes {
    var digits := Decimal(n);
    if |digits| >= width then digits else seq(width - |digits|, _ => 48) + digits
  }

  /** How a timestamp's numbers are written: the width of each and the byte after it. */
  datatype Field = Field(width: nat, after: Byte)

  const LAYOUT: seq<Field> := [
    Field(4, 45), Field(2, 45), Field(2, 84), Field(2, 58), Field(2, 58), Field(2, 46), Field(3, 90)]

  function Written(numbers: seq<nat>, layout: seq<Field>): Bytes
    requires |numbers| == |layout|
  {
    if numbers == [] then []
    else Padded(numbers[0], layout[0].width) + [layout[0].after] + Written(numbers[1..], layout[1..])
  }

  /** Year, month, day, hour, minute, second and millisecond of a time in milliseconds since
      1970 (an earlier time is read as 1970). */
  function Numbers(time: int): (numbers: seq<nat>)
    ensures |numbers| == 7
  {
    var since := if time < 0 then 0 else time;
    var seconds := since / 1000;
    SinceEpoch(seconds / 86400);
    NumbersOf(CivilFromDays(seconds / 86400), seconds % 86400, since % 1000)
  }

  function NumbersOf(date: Date, rest: nat, millis: nat): (numbers: seq<nat>)
    requires date.year >= 0 && date.month >= 0 && date.day >= 0
    ensures |numbers| == 7
  {
    [date.year, date.month, date.day, rest / 3600, rest % 3600 / 60, rest % 60, millis]
  }

  function IsoTimestamp(time: int): Bytes {
    Written(Numbers(time), LAYOUT)
  }

  /** A time before 1970 has the text of its first millisecond. */
  lemma EarlierReadsAs1970(time: int)
    requires time < 0
    ensures IsoTimestamp(time) == IsoTimestamp(0)
  {
  }

  lemma SinceEpoch(days: nat)
    ensures CivilFromDays(days).year >= 1970
    ensures 1 <= CivilFromDays(days).month <= 12 && 1 <= CivilFromDays(days).day <= 31
  {
    Epoch();
    CivilIsADate(days);
    if days > 0 {
      DatesAreInOrder(0, days);
    }
  }

  // ---------------------------------------------------------------- numbers in order

  function Power10(width: nat): nat {
    if width == 0 then 1 else 10 * Power10(width - 1)
  }

  function Fixed(n: nat, width: nat): (digits: Bytes)
    ensures |digits| == width
  {
    if width == 0 then [] else Fixed(n / 10, width - 1) + [Digit(n % 10)]
  }

  lemma {:induction false} FixedZero(width: nat)
    ensures Fixed(0, width) == seq(width, _ => 48)
  {
    if width > 0 {
      FixedZero(width - 1);
      assert Fixed(0, width) == seq(width - 1, _ => 48) + [48];
    }
  }

  /** A number that fits is written in exactly `width` digits. */
  lemma {:induction false} PaddedIsFixed(n: nat, width: nat)
    requires 0 < width && n < Power10(width)
    ensures Padded(n, width) == Fixed(n, width)
  {
    if n < 10 {
      FixedZero(width - 1);
      assert Fixed(n, width) == seq(width - 1, _ => 48) + [Digit(n)];
    } else {
      assert Power10(1) == 10;
      PaddedIsFixed(n / 10, width - 1);
    }
  }

  lemma {:induction false} FixedInOrder(a: nat, b: nat, width: nat)
    requires a < b < Power10(width)
    ensures Less(Fixed(a, width), Fixed(b, width))
  {
    if a / 10 < b / 10 {
      FixedInOrder(a / 10, b / 10, width - 1);
    }
    LessByParts(Fixed(a / 10, width - 1), Fixed(b / 10, width - 1), [Digit(a % 10)], [Digit(b % 10)]);
  }

  /** Numbers compared one after the other. */
  predicate Earlier(a: seq<nat>, b: seq<nat>)
    requires |a| == |b|
  {
    a != [] && (a[0] < b[0] || (a[0] == b[0] && Earlier(a[1..], b[1..])))
  }

  predicate Fits(numbers: seq<nat>, layout: seq<Field>) {
    && |numbers| == |layout|
    && forall i | 0 <= i < |numbers| :: layout[i].width > 0 && numbers[i] < Power10(layout[i].width)
  }

  /** With every number in its width, byte order is the order of the numbers. */
  lemma {:induction false} WrittenInOrder(a: seq<nat>, b: seq<nat>, layout: seq<Field>)
    requires Fits(a, layout) && Fits(b, layout) && Earlier(a, b)
    ensures Less(Written(a, layout), Written(b, layout))
  {
    var width, after := layout[0].width, [layout[0].after];
    var x, y := Written(a[1..], layout[1..]), Written(b[1..], layout[1..]);
    PaddedIsFixed(a[0], width);
    PaddedIsFixed(b[0], width);
    Associative(Fixed(a[0], width), after, x);
    Associative(Fixed(b[0], width), after, y);
    if a[0] < b[0] {
      FixedInOrder(a[0], b[0], width);
    } else {
      WrittenInOrder(a[1..], b[1..], layout[1..]);
      LessByParts(after, after, x, y);
    }
    LessByParts(Fixed(a[0], width), Fixed(b[0], width), after + x, after + y);
  }

  // ---------------------------------------------------------------- times in order

  lemma ClockInOrder(a: nat, b: nat)
    requires a < b < 86400
    ensures || a / 3600 < b / 3600
            || (a / 3600 == b / 3600 && a % 3600 / 60 < b % 3600 / 60)
            || (a / 3600 == b / 3600 && a % 3600 / 60 == b % 3600 / 60 && a % 60 < b % 60)
  {
    assert a % 60 == a % 3600 % 60 && b % 60 == b % 3600 % 60;
  }

  lemma EarlierFrom(a: seq<nat>, b: seq<nat>, k: nat)
    requires |a| == |b| && k < |a|
    requires (forall i | 0 <= i < k :: a[i] == b[i]) && a[k] < b[k]
    ensures Earlier(a, b)
  {
    if k > 0 {
      EarlierFrom(a[1..], b[1..], k - 1);
    }
  }

  lemma NumbersOfInOrder(d: Date, e: Date, r: nat, t: nat, m: nat, n: nat)
    requires d.year >= 0 && d.month >= 0 && d.day >= 0 && e.year >= 0 && e.month >= 0 && e.day >= 0
    requires r < 86400 && t < 86400
    requires Before(d, e) || (d == e && r < t) || (d == e && r == t && m < n)
    ensures Earlier(NumbersOf(d, r, m), NumbersOf(e, t, n))
  {
    var a, b := NumbersOf(d, r, m), NumbersOf(e, t, n);
    if Before(d, e) {
      EarlierFrom(a, b, if a[0] < b[0] then 0 else if a[1] < b[1] then 1 else 2);
    } else if r < t {
      ClockInOrder(r, t);
      EarlierFrom(a, b, if a[3] < b[3] then 3 else if a[4] < b[4] then 4 else 5);
    } else {
      EarlierFrom(a, b, 6);
    }
  }

  /** Milliseconds split into days, seconds of the day and a rest keep their order. */
  lemma SplitInOrder(i: nat, j: nat)
    requires i < j
    ensures var (x, y) := (i / 1000 / 86400, j / 1000 / 86400);
            var (r, t) := (i / 1000 % 86400, j / 1000 % 86400);
            x < y || (x == y && r < t) || (x == y && r == t && i % 1000 < j % 1000)
  {
    var s, t := i / 1000, j / 1000;
    assert s <= t && (s == t ==> i % 1000 < j % 1000);
    assert s / 86400 <= t / 86400;
  }

  /** A day before another, or the same day and no later in it. */
  lemma DaysInOrder(x: nat, y: nat, r: nat, t: nat, m: nat, n: nat)
    requires r < 86400 && t < 86400
    requires x < y || (x == y && r < t) || (x == y && r == t && m < n)
    ensures Dated(x) && Dated(y)
    ensures Earlier(NumbersOf(CivilFromDays(x), r, m), NumbersOf(CivilFromDays(y), t, n))
  {
    SinceEpoch(x);
    SinceEpoch(y);
    if x < y {
      DatesAreInOrder(x, y);
    }
    NumbersOfInOrder(CivilFromDays(x), CivilFromDays(y), r, t, m, n);
  }

  predicate Dated(day: nat) {
    var date := CivilFromDays(day);
    date.year >= 0 && date.month >= 0 && date.day >= 0
  }

  lemma NumbersInOrder(i: nat, j: nat)
    requires i < j
    ensures Earlier(Numbers(i), Numbers(j))
  {
    SplitInOrder(i, j);
    DaysInOrder(i / 1000 / 86400, j / 1000 / 86400, i / 1000 % 86400, j / 1000 % 86400, i % 1000, j % 1000);
  }

  /** The first millisecond of the year 10000. */
  const YEAR_10000 := 253402300800000

  lemma LastFourDigitDay()
    ensures CivilFromDays(2932896) == Date(9999, 12, 31) && CivilFromDays(2932897) == Date(10000, 1, 1)
  {
    var last := DateByParts(2932896, 24, 399, 305);
    var first := DateByParts(2932897, 24, 399, 306);
  }

  /** The years have four digits until then, and no longer. */
  lemma FourDigitYears(days: nat)
    ensures CivilFromDays(days).year <= 9999 <==> days < YEAR_10000 / 86400000
  {
    LastFourDigitDay();
    if days < 2932896 {
      DatesAreInOrder(days, 2932896);
    } else if days > 2932897 {
      DatesAreInOrder(2932897, days);
    }
  }

  lemma DateFits(days: nat)
    requires days < YEAR_10000 / 86400000
    ensures var date := CivilFromDays(days);
            0 <= date.year < 10000 && 0 <= date.month < 100 && 0 <= date.day < 100
  {
    SinceEpoch(days);
    FourDigitYears(days);
  }

  lemma NumbersFit(time: int)
    requires time < YEAR_10000
    ensures Fits(Numbers(time), LAYOUT)
  {
    var days := (if time < 0 then 0 else time) / 1000 / 86400;
    DateFits(days);
    assert Power10(1) == 10 && Power10(2) == 100 && Power10(3) == 1000 && Power10(4) == 10000;
  }

  /** Through the year 9999, a later time (to the millisecond) has a later text, so the texts
      sort in time order and no two times share one. */
  lemma TextsSortInTimeOrder(i: int, j: int)
    requires 0 <= i < j < YEAR_10000
    ensures Less(IsoTimestamp(i), IsoTimestamp(j)) && IsoTimestamp(i) != IsoTimestamp(j)
  {
    NumbersInOrder(i, j);
    NumbersFit(i);
    NumbersFit(j);
    WrittenInOrder(Numbers(i), Numbers(j), LAYOUT);
    LessIrreflexive(IsoTimestamp(i));
  }

  // ---------------------------------------------------------------- reading a timestamp back

  /** The number that the digits from one position to another stand for. */
  function Value(text: Bytes, first: nat, end: nat): int
    requires first <= end && end <= |text|
    decreases end
  {
    if first == end then 0 else Value(text, first, end - 1) * 10 + (text[end - 1] as int - 48)
  }

  lemma {:induction false} SameDigits(a: Bytes, i: nat, b: Bytes, j: nat, n: nat)
    requires i + n <= |a| && j + n <= |b| && forall p | i <= p < i + n :: a[p] == b[p - i + j]
    ensures Value(a, i, i + n) == Value(b, j, j + n)
  {
    if n > 0 {
      SameDigits(a, i, b, j, n - 1);
    }
  }

  lemma {:induction false} FixedIsValue(n: nat, width: nat)
    requires n < Power10(width)
    ensures Value(Fixed(n, width), 0, width) == n
  {
    if width > 0 {
      FixedIsValue(n / 10, width - 1);
      SameDigits(Fixed(n, width), 0, Fixed(n / 10, width - 1), 0, width - 1);
    }
  }

  /** How many bytes the first `k` fields take. */
  function Width(layout: seq<Field>, k: nat): nat
    requires k <= |layout|
    decreases k
  {
    if k == 0 then 0 else layout[0].width + 1 + Width(layout[1..], k - 1)
  }

  /** A text with a number's digits at `at` and a byte after them. */
  predicate Reads(text: Bytes, at: nat, n: nat, field: Field) {
    at + field.width < |text| && Value(text, at, at + field.width) == n && text[at + field.width] == field.after
  }

  /** What a part of a text reads, the text reads where the part begins. */
  lemma ReadsWithin(head: Bytes, part: Bytes, tail: Bytes, n: nat, field: Field)
    requires Reads(part, 0, n, field)
    ensures Reads(head + part + tail, |head|, n, field)
  {
    SameDigits(head + part + tail, |head|, part, 0, field.width);
  }

  function Joined(parts: seq<Bytes>): Bytes {
    if parts == [] then [] else parts[0] + Joined(parts[1..])
  }

  lemma {:induction false} JoinedAround(parts: seq<Bytes>, k: nat)
    requires k < |parts|
    ensures Joined(parts) == Joined(parts[..k]) + parts[k] + Joined(parts[k + 1..])
  {
    if k == 0 {
      assert Joined(parts[..0]) == [];
    } else {
      JoinedAround(parts[1..], k - 1);
      var head, tail := Joined(parts[1..][..k - 1]), parts[k] + Joined(parts[k + 1..]);
      assert parts[..k][1..] == parts[1..][..k - 1] && parts[1..][k..] == parts[k + 1..];
      Associative(head, parts[k], Joined(parts[k + 1..]));
      Associative(parts[0], head, tail);
      Associative(parts[0] + head, parts[k], Joined(parts[k + 1..]));
    }
  }

  /** The texts of the fields, one by one. */
  function FieldTexts(numbers: seq<nat>, layout: seq<Field>): (parts: seq<Bytes>)
    requires |numbers| == |layout|
    ensures |parts| == |layout|
    ensures forall i | 0 <= i < |parts| :: parts[i] == Padded(numbers[i], layout[i].width) + [layout[i].after]
  {
    seq(|layout|, i requires 0 <= i < |layout| => Padded(numbers[i], layout[i].width) + [layout[i].after])
  }

  lemma {:induction false} WrittenIsJoined(numbers: seq<nat>, layout: seq<Field>)
    requires |numbers| == |layout|
    ensures Written(numbers, layout) == Joined(FieldTexts(numbers, layout))
  {
    if numbers != [] {
      WrittenIsJoined(numbers[1..], layout[1..]);
      assert FieldTexts(numbers, layout)[1..] == FieldTexts(numbers[1..], layout[1..]);
    }
  }

  lemma FieldFits(numbers: seq<nat>, layout: seq<Field>, k: nat)
    requires Fits(numbers, layout) && k < |layout|
    ensures |FieldTexts(numbers, layout)[k]| == layout[k].width + 1
    ensures Reads(FieldTexts(numbers, layout)[k], 0, numbers[k], layout[k])
  {
    var digits := Padded(numbers[k], layout[k].width);
    PaddedIsFixed(numbers[k], layout[k].width);
    FixedIsValue(numbers[k], layout[k].width);
    SameDigits(digits + [layout[k].after], 0, digits, 0, layout[k].width);
  }

  lemma {:induction false} JoinedWidth(parts: seq<Bytes>, layout: seq<Field>, k: nat)
    requires |parts| == |layout| && k <= |layout|
    requires forall i | 0 <= i < |parts| :: |parts[i]| == layout[i].width + 1
    ensures |Joined(parts[..k])| == Width(layout, k)
    decreases k
  {
    if k > 0 {
      JoinedWidth(parts[1..], layout[1..], k - 1);
      assert parts[..k][1..] == parts[1..][..k - 1];
    }
  }

  /** Every field is found where the widths before it say. */
  lemma FieldReads(numbers: seq<nat>, layout: seq<Field>, k: nat)
    requires Fits(numbers, layout) && k < |layout|
    ensures Reads(Written(numbers, layout), Width(layout, k), numbers[k], layout[k])
  {
    var parts := FieldTexts(numbers, layout);
    forall i | 0 <= i < |parts|
      ensures |parts[i]| == layout[i].width + 1
    {
      FieldFits(numbers, layout, i);
    }
    FieldFits(numbers, layout, k);
    WrittenIsJoined(numbers, layout);
    JoinedAround(parts, k);
    JoinedWidth(parts, layout, k);
    ReadsWithin(Joined(parts[..k]), parts[k], Joined(parts[k + 1..]), numbers[k], layout[k]);
  }

  lemma WholeWidth(numbers: seq<nat>, layout: seq<Field>)
    requires Fits(numbers, layout)
    ensures |Written(numbers, layout)| == Width(layout, |layout|)
  {
    var parts := FieldTexts(numbers, layout);
    forall i | 0 <= i < |parts|
      ensures |parts[i]| == layout[i].width + 1
    {
      FieldFits(numbers, layout, i);
    }
    WrittenIsJoined(numbers, layout);
    JoinedWidth(parts, layout, |layout|);
    assert parts[..|layout|] == parts;
  }

  lemma Widths()
    ensures Width(LAYOUT, 0) == 0 && Width(LAYOUT, 1) == 5 && Width(LAYOUT, 2) == 8 && Width(LAYOUT, 3) == 11
    ensures Width(LAYOUT, 4) == 14 && Width(LAYOUT, 5) == 17 && Width(LAYOUT, 6) == 20 && Width(LAYOUT, 7) == 24
  {
    var l1, l2, l3 := LAYOUT[1..], LAYOUT[2..], LAYOUT[3..];
    var l4, l5, l6, l7 := LAYOUT[4..], LAYOUT[5..], LAYOUT[6..], LAYOUT[7..];
    assert l1[1..] == l2 && l2[1..] == l3 && l3[1..] == l4 && l4[1..] == l5 && l5[1..] == l6 && l6[1..] == l7;
    assert Width(l6, 1) == 4;
    assert Width(l5, 1) == 3 && Width(l5, 2) == 7;
    assert Width(l4, 1) == 3 && Width(l4, 2) == 6 && Width(l4, 3) == 10;
    assert Width(l3, 1) == 3 && Width(l3, 2) == 6 && Width(l3, 3) == 9 && Width(l3, 4) == 13;
    assert Width(l2, 1) == 3 && Width(l2, 2) == 6 && Width(l2, 3) == 9 && Width(l2, 4) == 12 && Width(l2, 5) == 16;
    assert Width(l1, 1) == 3 && Width(l1, 2) == 6 && Width(l1, 3) == 9 && Width(l1, 4) == 12 && Width(l1, 5) == 15
        && Width(l1, 6) == 19;
  }

  /** The punctuation of `YYYY-MM-DDTHH:MM:SS.mmmZ`. */
  predicate Punctuated(text: Bytes) {
    && |text| == 24
    && text[4] == text[7] == 45 && text[10] == 84 && text[13] == text[16] == 58 && text[19] == 46 && text[23] == 90
  }

  lemma NumbersRead(time: int)
    requires time < YEAR_10000
    ensures Punctuated(IsoTimestamp(time))
    ensures var text, n := IsoTimestamp(time), Numbers(time);
            && Value(text, 0, 4) == n[0] && Value(text, 5, 7) == n[1] && Value(text, 8, 10) == n[2]
            && Value(text, 11, 13) == n[3] && Value(text, 14, 16) == n[4] && Value(text, 17, 19) == n[5]
            && Value(text, 20, 23) == n[6]
  {
    NumbersFit(time);
    Widths();
    WholeWidth(Numbers(time), LAYOUT);
    forall k | 0 <= k < 7
      ensures Reads(IsoTimestamp(time), Width(LAYOUT, k), Numbers(time)[k], LAYOUT[k])
    {
      FieldReads(Numbers(time), LAYOUT, k);
    }
  }

  /** Through the year 9999 the text reads back as the date and the time of day. */
  lemma TimestampReadsBack(time: nat)
    requires time < YEAR_10000
    ensures Punctuated(IsoTimestamp(time))
    ensures var text := IsoTimestamp(time);
            && CivilFromDays(time / 86400000) == Date(Value(text, 0, 4), Value(text, 5, 7), Value(text, 8, 10))
            && time % 86400000 ==
               ((Value(text, 11, 13) * 60 + Value(text, 14, 16)) * 60 + Value(text, 17, 19)) * 1000
               + Value(text, 20, 23)
  {
    NumbersRead(time);
    SplitTime(time);
  }

  lemma SplitTime(time: nat)
    ensures time / 1000 / 86400 == time / 86400000
    ensures var rest := time / 1000 % 86400;
            time % 86400000 == ((rest / 3600 * 60 + rest % 3600 / 60) * 60 + rest % 60) * 1000 + time % 1000
  {
    var seconds := time / 1000;
    assert time == (seconds / 86400 * 86400 + seconds % 86400) * 1000 + time % 1000;
    var rest := seconds % 86400;
    assert rest % 3600 % 60 == rest % 60;
  }
}
