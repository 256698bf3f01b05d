/** The fixed seven-slot day that all three booking services share: slot i
    (named "slot" + i) runs from StartText(i) to EndText(i), 90 minutes each,
    with 15-minute gaps, from 10:30 to 22:30. */
module Slots {
  import opened Text

  predicate IsSlot(i: int) {
    1 <= i <= 7
  }

  function StartText(i: int): string
    requires IsSlot(i)
  {
    ["10:30", "12:15", "14:00", "15:45", "17:30", "19:15", "21:00"][i - 1]
  }

  function EndText(i: int): string
    requires IsSlot(i)
  {
    ["12:00", "13:45", "15:30", "17:15", "19:00", "20:45", "22:30"][i - 1]
  }

  predicate IsDigit(c: char) {
    '0' <= c <= '9'
  }

  function DigitValue(c: char): nat
    requires IsDigit(c)
  {
    c as int - '0' as int
  }

  /** `LocalTime.parse(t, "HH:mm")`: minutes since midnight, or None when the
      text is not a two-digit hour below 24, a colon and two-digit minutes below 60. */
  function ParseHhMm(t: string): (r: Option<int>)
    ensures r.Some? ==> 0 <= r.value < 1440
  {
    if |t| == 5 && IsDigit(t[0]) && IsDigit(t[1]) && t[2] == ':' && IsDigit(t[3]) && IsDigit(t[4]) then
      var h := 10 * DigitValue(t[0]) + DigitValue(t[1]);
      var m := 10 * DigitValue(t[3]) + DigitValue(t[4]);
      if h < 24 && m < 60 then Some(60 * h + m) else None
    else None
  }

  /** Time of day is counted in nanoseconds, the resolution of `LocalTime`. */
  const NanosPerSecond := 1_000_000_000
  const NanosPerMinute := 60 * NanosPerSecond
  const NanosPerDay := 1440 * NanosPerMinute

  predicate AllDigits(ds: string) {
    forall k :: 0 <= k < |ds| ==> IsDigit(ds[k])
  }

  function Pow10(n: nat): (p: nat)
    ensures p >= 1
  {
    if n == 0 then 1 else 10 * Pow10(n - 1)
  }

  /** The decimal value of a digit string. */
  function DigitsValue(ds: string): (v: nat)
    requires AllDigits(ds)
    ensures v < Pow10(|ds|)
  {
    if ds == [] then 0 else 10 * DigitsValue(ds[..|ds| - 1]) + DigitValue(ds[|ds| - 1])
  }

  /** A fraction of a second written with one to nine digits, in nanoseconds. */
  function FractionNanos(ds: string): (n: nat)
    requires AllDigits(ds) && 1 <= |ds| <= 9
    ensures n < NanosPerSecond
  {
    FractionBound(ds);
    DigitsValue(ds) * Pow10(9 - |ds|)
  }

  lemma FractionBound(ds: string)
    requires AllDigits(ds) && 1 <= |ds| <= 9
    ensures DigitsValue(ds) * Pow10(9 - |ds|) < NanosPerSecond
  {
    PowSplit(|ds|, 9 - |ds|);
    MulLess(DigitsValue(ds), Pow10(|ds|), Pow10(9 - |ds|));
    assert Pow10(9) == NanosPerSecond;
  }

  lemma MulLess(a: nat, b: nat, c: nat)
    requires a < b && c >= 1
    ensures a * c < b * c
  {
  }

  lemma {:induction false} PowSplit(a: nat, b: nat)
    ensures Pow10(a + b) == Pow10(a) * Pow10(b)
  {
    if a > 0 {
      PowSplit(a - 1, b);
    }
  }

  /** `LocalTime.parse(t)` with the ISO local-time format: "HH:mm", "HH:mm:ss"
      or "HH:mm:ss" followed by a point and one to nine fraction digits. */
  function ParseLocalTime(t: string): (r: Option<int>)
    ensures r.Some? ==> 0 <= r.value < NanosPerDay
    ensures |t| == 5 ==> r == (if ParseHhMm(t).Some? then Some(ParseHhMm(t).value * NanosPerMinute) else None)
  {
    if |t| < 5 || ParseHhMm(t[..5]).None? then None
    else
      var minutes := ParseHhMm(t[..5]).value;
      assert t[..5] == t || |t| > 5;
      if |t| == 5 then Some(minutes * NanosPerMinute)
      else if |t| >= 8 && t[5] == ':' && IsDigit(t[6]) && IsDigit(t[7])
        && 10 * DigitValue(t[6]) + DigitValue(t[7]) < 60 then
        var seconds := 10 * DigitValue(t[6]) + DigitValue(t[7]);
        var whole := minutes * NanosPerMinute + seconds * NanosPerSecond;
        if |t| == 8 then TimeOfDayBound(minutes, seconds, 0); Some(whole)
        else if t[8] == '.' && 10 <= |t| <= 18 && AllDigits(t[9..]) then
          var fraction := FractionNanos(t[9..]);
          TimeOfDayBound(minutes, seconds, fraction);
          Some(whole + fraction)
        else None
      else None
  }

  /** A time of day below 24:00 lies within one day. */
  lemma TimeOfDayBound(minutes: int, seconds: int, fraction: int)
    requires 0 <= minutes < 1440 && 0 <= seconds < 60 && 0 <= fraction < NanosPerSecond
    ensures 0 <= minutes * NanosPerMinute + seconds * NanosPerSecond + fraction < NanosPerDay
  {
    assert minutes * NanosPerMinute <= 1439 * NanosPerMinute;
    assert seconds * NanosPerSecond <= 59 * NanosPerSecond;
  }

  /** `LocalTime.withSecond(0).withNano(0)`. */
  function TruncateToMinute(t: int): (r: int)
    ensures r <= t < r + NanosPerMinute && r % NanosPerMinute == 0
  {
    (t / NanosPerMinute) * NanosPerMinute
  }

  /** Slot start in minutes since midnight: 10:30 is 630, then every 105 minutes. */
  function StartMinute(i: int): int
    requires IsSlot(i)
  {
    630 + 105 * (i - 1)
  }

  function EndMinute(i: int): int
    requires IsSlot(i)
  {
    StartMinute(i) + 90
  }

  function StartNanos(i: int): int
    requires IsSlot(i)
  {
    StartMinute(i) * NanosPerMinute
  }

  function EndNanos(i: int): int
    requires IsSlot(i)
  {
    EndMinute(i) * NanosPerMinute
  }

  /** The catalog's texts parse to the slot arithmetic above. */
  lemma CatalogTimes(i: int)
    requires IsSlot(i)
    ensures ParseHhMm(StartText(i)) == Some(StartMinute(i))
    ensures ParseHhMm(EndText(i)) == Some(EndMinute(i))
    ensures ParseLocalTime(StartText(i)) == Some(StartNanos(i))
    ensures ParseLocalTime(EndText(i)) == Some(EndNanos(i))
  {
    CatalogMinutes(i);
    assert |StartText(i)| == 5 && |EndText(i)| == 5;
  }

  lemma CatalogMinutes(i: int)
    requires IsSlot(i)
    ensures ParseHhMm(StartText(i)) == Some(StartMinute(i))
    ensures ParseHhMm(EndText(i)) == Some(EndMinute(i))
  {
    CatalogStarts(i);
    CatalogEnds(i);
  }

  lemma CatalogStarts(i: int)
    requires IsSlot(i)
    ensures ParseHhMm(StartText(i)) == Some(StartMinute(i))
  {
    if i == 1 {
      assert StartText(1) == "10:30";
    } else if i == 2 {
      assert StartText(2) == "12:15";
    } else if i == 3 {
      assert StartText(3) == "14:00";
    } else if i == 4 {
      assert StartText(4) == "15:45";
    } else if i == 5 {
      assert StartText(5) == "17:30";
    } else if i == 6 {
      assert StartText(6) == "19:15";
    } else {
      assert StartText(7) == "21:00";
    }
  }

  lemma CatalogEnds(i: int)
    requires IsSlot(i)
    ensures ParseHhMm(EndText(i)) == Some(EndMinute(i))
  {
    if i == 1 {
      assert EndText(1) == "12:00";
    } else if i == 2 {
      assert EndText(2) == "13:45";
    } else if i == 3 {
      assert EndText(3) == "15:30";
    } else if i == 4 {
      assert EndText(4) == "17:15";
    } else if i == 5 {
      assert EndText(5) == "19:00";
    } else if i == 6 {
      assert EndText(6) == "20:45";
    } else {
      assert EndText(7) == "22:30";
    }
  }

  /** Slots follow each other in order, 90 minutes long and 15 minutes apart. */
  lemma SlotsOrdered(i: int, j: int)
    requires IsSlot(i) && IsSlot(j)
    ensures EndMinute(i) - StartMinute(i) == 90
    ensures i < j ==> EndMinute(i) + 15 <= StartMinute(j)
    ensures StartMinute(i) <= EndMinute(j) <==> i <= j
    ensures StartMinute(i) != EndMinute(j)
  {
  }

  /** The same order on the clock, in nanoseconds. */
  lemma NanosOrdered(i: int, j: int)
    requires IsSlot(i) && IsSlot(j)
    ensures StartNanos(i) <= EndNanos(j) <==> i <= j
    ensures i <= j ==> StartNanos(i) <= StartNanos(j) && EndNanos(i) <= EndNanos(j)
    ensures StartNanos(i) < EndNanos(i)
  {
    SlotsOrdered(i, j);
  }

  /** No two of the fourteen boundary texts coincide. */
  lemma {:induction false} TextsDistinct(i: int, j: int)
    requires IsSlot(i) && IsSlot(j)
    ensures StartText(i) == StartText(j) ==> i == j
    ensures EndText(i) == EndText(j) ==> i == j
    ensures StartText(i) != EndText(j)
  {
    CatalogTimes(i);
    CatalogTimes(j);
  }

  /** TIME_POINTS: every start and every end text of the catalog. */
  function TimePoints(): set<string> {
    (set i | 1 <= i <= 7 :: StartText(i)) + (set i | 1 <= i <= 7 :: EndText(i))
  }

  /** A time point as a time of day, in nanoseconds: the time of the start or
      the end it names. */
  function PointNanos(t: string): int
    requires t in TimePoints()
  {
    TimePointLookup(t);
    match SlotByStartTime(t)
    case Some(i) => StartNanos(i)
    case None => EndNanos(SlotByEndTime(t).value)
  }

  /** The start of slot i is at StartNanos(i), its end at EndNanos(i). */
  lemma PointNanosAt(i: int)
    requires IsSlot(i)
    ensures StartText(i) in TimePoints() && PointNanos(StartText(i)) == StartNanos(i)
    ensures EndText(i) in TimePoints() && PointNanos(EndText(i)) == EndNanos(i)
  {
    SlotByStartTimeExact(StartText(i), i);
    SlotByStartTimeExact(EndText(i), i);
    SlotByEndTimeExact(EndText(i), i);
  }

  /** It is the time the "HH:mm" pattern reads from the text, as the source
      obtains it. */
  lemma PointNanosParses(t: string)
    requires t in TimePoints()
    ensures ParseHhMm(t).Some? && PointNanos(t) == ParseHhMm(t).value * NanosPerMinute
  {
    var i :| 1 <= i <= 7 && (StartText(i) == t || EndText(i) == t);
    CatalogTimes(i);
    PointNanosAt(i);
  }

  /** `getSlotByStartTime`: the slot whose start text is `t`, scanning the
      catalog (the scan order does not matter since the starts are distinct). */
  function SlotByStartTime(t: string): Option<int> {
    FindStart(t, 1)
  }

  function FindStart(t: string, i: int): (r: Option<int>)
    requires 1 <= i <= 8
    ensures r.Some? ==> i <= r.value <= 7 && StartText(r.value) == t
    ensures r.None? ==> forall j :: i <= j <= 7 ==> StartText(j) != t
    decreases 8 - i
  {
    if i == 8 then None else if StartText(i) == t then Some(i) else FindStart(t, i + 1)
  }

  /** `getSlotByEndTime`: the slot whose end text is `t`. */
  function SlotByEndTime(t: string): Option<int> {
    FindEnd(t, 1)
  }

  function FindEnd(t: string, i: int): (r: Option<int>)
    requires 1 <= i <= 8
    ensures r.Some? ==> i <= r.value <= 7 && EndText(r.value) == t
    ensures r.None? ==> forall j :: i <= j <= 7 ==> EndText(j) != t
    decreases 8 - i
  {
    if i == 8 then None else if EndText(i) == t then Some(i) else FindEnd(t, i + 1)
  }

  /** The start lookup answers slot i exactly for slot i's start text; an end
      text such as "12:00" has no start slot. */
  lemma {:induction false} SlotByStartTimeExact(t: string, i: int)
    requires IsSlot(i)
    ensures SlotByStartTime(t) == Some(i) <==> StartText(i) == t
    ensures SlotByStartTime(EndText(i)).None?
  {
    var r := SlotByStartTime(t);
    if r.Some? { TextsDistinct(r.value, i); }
    var q := SlotByStartTime(EndText(i));
    if q.Some? { TextsDistinct(q.value, i); }
  }

  lemma {:induction false} SlotByEndTimeExact(t: string, i: int)
    requires IsSlot(i)
    ensures SlotByEndTime(t) == Some(i) <==> EndText(i) == t
    ensures SlotByEndTime(StartText(i)).None?
  {
    var r := SlotByEndTime(t);
    if r.Some? { TextsDistinct(r.value, i); }
    var q := SlotByEndTime(StartText(i));
    if q.Some? { TextsDistinct(i, q.value); }
  }

  /** `getExactSlot`: the one slot whose start is `from` and whose end is `to`. */
  function ExactSlot(from: string, to: string): (r: Option<int>)
    ensures r.Some? ==> IsSlot(r.value) && StartText(r.value) == from && EndText(r.value) == to
    ensures r.None? ==> forall i :: IsSlot(i) ==> !(StartText(i) == from && EndText(i) == to)
  {
    match SlotByStartTime(from)
    case Some(i) => if EndText(i) == to then Some(i) else None
    case None => None
  }

  /** The exact-pair lookup agrees with the two one-sided lookups. */
  lemma {:induction false} ExactSlotAgrees(from: string, to: string)
    ensures ExactSlot(from, to).Some? ==>
      SlotByStartTime(from) == ExactSlot(from, to) && SlotByEndTime(to) == ExactSlot(from, to)
  {
    var r := ExactSlot(from, to);
    if r.Some? {
      SlotByStartTimeExact(from, r.value);
      SlotByEndTimeExact(to, r.value);
    }
  }

  /** A text is a time point exactly when it names a slot's start or end. */
  lemma {:induction false} TimePointLookup(t: string)
    ensures t in TimePoints() <==> SlotByStartTime(t).Some? || SlotByEndTime(t).Some?
  {
    if t in TimePoints() {
      var i :| 1 <= i <= 7 && (StartText(i) == t || EndText(i) == t);
      SlotByStartTimeExact(t, i);
      SlotByEndTimeExact(t, i);
    }
    var r := SlotByStartTime(t);
    if r.Some? { assert StartText(r.value) in (set i | 1 <= i <= 7 :: StartText(i)); }
    var q := SlotByEndTime(t);
    if q.Some? { assert EndText(q.value) in (set i | 1 <= i <= 7 :: EndText(i)); }
  }

  /** `convertToSlotTimings`: "10:30 - 12:00" style, used in waiter listings. */
  function SlotTimings(i: int): string
    requires IsSlot(i)
  {
    StartText(i) + " - " + EndText(i)
  }

  /** The availability response label: "10:30-12:00" style. */
  function SlotLabel(i: int): (lbl: string)
    requires IsSlot(i)
    ensures |lbl| == 11 && lbl[5] == '-'
    ensures lbl[..5] == StartText(i) && lbl[6..] == EndText(i)
  {
    StartText(i) + "-" + EndText(i)
  }

  /** Distinct slots get distinct labels, so a set of labels loses nothing. */
  lemma {:induction false} SlotLabelInjective(i: int, j: int)
    requires IsSlot(i) && IsSlot(j)
    ensures SlotLabel(i) == SlotLabel(j) ==> i == j
  {
    if SlotLabel(i) == SlotLabel(j) {
      assert StartText(i) == SlotLabel(i)[..5];
      TextsDistinct(i, j);
    }
  }
}
