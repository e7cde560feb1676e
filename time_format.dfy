/** The time conversion in main of lectures/week_4/code/q6.cpp: split a
    24-hour "HH:MM" string at its colon, read both halves as decimal numbers
    and turn the result into a 12-hour `Time`. */
module TimeFormat {
  import opened Seqs

  /** `Time`: hours, minutes and the am/pm flag. */
  datatype Time = Time(hours: int, minutes: int, isAm: bool)

  /** The characters before the first ':' (all of them when there is none). */
  function HoursPart(s: string): string
  {
    var c := IndexOf(s, ':');
    if c == -1 then s else s[..c]
  }

  /** The characters after the first ':' that are not themselves ':'. */
  function MinutesPart(s: string): string
  {
    var c := IndexOf(s, ':');
    if c == -1 then "" else RemoveAll(s[c + 1..], ':')
  }

  /** The character loop with its `seenColon` flag. */
  method SplitTime(input: string) returns (hrs: string, mins: string)
    ensures hrs == HoursPart(input) && mins == MinutesPart(input)
  {
    hrs, mins := "", "";
    var seenColon := false;
    for i := 0 to |input|
      invariant seenColon <==> ':' in input[..i]
      invariant !seenColon ==> hrs == input[..i] && mins == ""
      invariant seenColon ==> IndexOf(input, ':') < i && hrs == HoursPart(input)
      invariant seenColon ==> mins == RemoveAll(input[IndexOf(input, ':') + 1..i], ':')
    {
      var ch := input[i];
      assert input[..i + 1] == input[..i] + [ch];
      if seenColon {
        MinutesStep(input, IndexOf(input, ':'), i);
      }
      if ch != ':' && !seenColon {
        hrs := hrs + [ch];
      }
      if ch == ':' {
        if !seenColon {
          IndexOfAt(input, ':', i);
          assert input[i + 1..i + 1] == [];
        }
        seenColon := true;
      }
      if ch != ':' && seenColon {
        mins := mins + [ch];
      }
    }
    assert input[..|input|] == input;
    if !seenColon {
      assert IndexOf(input, ':') == -1;
    }
  }

  /** The two halves together are the input without its colons, and neither
      holds a colon. */
  lemma SplitTimeHalves(s: string)
    ensures HoursPart(s) + MinutesPart(s) == RemoveAll(s, ':')
    ensures ':' !in HoursPart(s) && ':' !in MinutesPart(s)
  {
    HalvesJoin(s);
    HalvesColonFree(s);
  }

  lemma HalvesColonFree(s: string)
    ensures ':' !in HoursPart(s) && ':' !in MinutesPart(s)
  {
    var c := IndexOf(s, ':');
    if c != -1 {
      RemoveAllDrops(s[c + 1..], ':');
    }
  }

  lemma HalvesJoin(s: string)
    ensures HoursPart(s) + MinutesPart(s) == RemoveAll(s, ':')
  {
    if ':' in s {
      ColonHalvesJoin(s, IndexOf(s, ':'));
    } else {
      RemoveAllAbsent(s, ':');
    }
  }

  lemma ColonHalvesJoin(s: string, c: nat)
    requires c == IndexOf(s, ':')
    ensures HoursPart(s) + MinutesPart(s) == RemoveAll(s, ':')
  {
    PartsAt(s, c);
    RemoveAllFirstAt(s, ':', c);
  }

  lemma PartsAt(s: string, c: nat)
    requires c == IndexOf(s, ':')
    ensures HoursPart(s) == s[..c] && MinutesPart(s) == RemoveAll(s[c + 1..], ':')
  {
  }

  /** "hh:mm" with colon-free halves splits into exactly those halves. */
  lemma HalvesOf(hh: string, mm: string)
    requires ':' !in hh && ':' !in mm
    ensures HoursPart(hh + [':'] + mm) == hh && MinutesPart(hh + [':'] + mm) == mm
  {
    var s := hh + [':'] + mm;
    assert s[..|hh|] == hh;
    IndexOfAt(s, ':', |hh|);
    assert s[|hh| + 1..] == mm;
    RemoveAllAbsent(mm, ':');
  }

  /** One more character after the first colon `c` adds itself to the
      minutes unless it is a colon. */
  lemma MinutesStep(input: string, c: nat, i: nat)
    requires c < i < |input|
    ensures RemoveAll(input[c + 1..i + 1], ':') ==
      RemoveAll(input[c + 1..i], ':') + if input[i] == ':' then [] else [input[i]]
  {
    var x := input[c + 1..i + 1];
    assert x[..|x| - 1] == input[c + 1..i] && x[|x| - 1] == input[i];
  }

  /** Characters that `std::stoi` reads as a plain decimal number. */
  predicate IsDecimal(s: string)
  {
    |s| > 0 && forall i | 0 <= i < |s| :: '0' <= s[i] <= '9'
  }

  /** The value of a string of decimal digits. */
  function DecimalValue(s: string): nat
    requires forall i | 0 <= i < |s| :: '0' <= s[i] <= '9'
  {
    if s == [] then 0 else 10 * DecimalValue(s[..|s| - 1]) + (s[|s| - 1] as int - '0' as int)
  }

  /** The value is below 10^|s|: two digits give at most 99. */
  lemma {:induction false} DecimalValueBound(s: string)
    requires forall i | 0 <= i < |s| :: '0' <= s[i] <= '9'
    ensures DecimalValue(s) < Power10(|s|)
    decreases |s|
  {
    if s != [] {
      DecimalValueBound(s[..|s| - 1]);
    }
  }

  function Power10(n: nat): nat
  {
    if n == 0 then 1 else 10 * Power10(n - 1)
  }

  /** The 24-to-12-hour step: hours before 12 are am and kept, later hours
      are pm and lose 12.  Noon therefore reads "0 pm" and midnight "0 am". */
  method ToTwelveHour(h: int, m: int) returns (t: Time)
    ensures t.minutes == m
    ensures t.isAm <==> h < 12
    ensures t.isAm ==> t.hours == h
    ensures !t.isAm ==> t.hours == h - 12
    ensures 0 <= h <= 23 ==> 0 <= t.hours <= 11
    ensures To24(t) == h
  {
    t := Time(h, m, false);
    if h < 12 {
      t := t.(isAm := true);
    } else {
      t := t.(hours := t.hours - 12);
    }
  }

  /** The 24-hour reading of a `Time` as `ToTwelveHour` produces them. */
  function To24(t: Time): int
  {
    if t.isAm then t.hours else t.hours + 12
  }

  /** Noon comes out as hour 0 pm, a reading no 12-hour clock shows. */
  method NoonReading() returns (t: Time)
    ensures t == Time(0, 30, false)
  {
    t := ToTwelveHour(12, 30);
  }

  /** The conversion a 12-hour clock face needs: hours 1..12, with 0 and 12
      shown as 12. */
  method ToClockFace(h: int, m: int) returns (t: Time)
    ensures t.minutes == m
    ensures t.isAm <==> h < 12
    ensures 0 <= h <= 23 ==> 1 <= t.hours <= 12
    ensures 0 <= h <= 23 ==> FromClockFace(t) == h
  {
    t := ToTwelveHour(h, m);
    if t.hours == 0 {
      t := t.(hours := 12);
    }
  }

  /** The 24-hour reading of a clock-face `Time`. */
  function FromClockFace(t: Time): int
  {
    (if t.hours == 12 then 0 else t.hours) + (if t.isAm then 0 else 12)
  }

  /** All of main: split, parse both halves, convert.  `std::stoi` is taken
      to read a plain decimal number that fits an `int`. */
  method TellTime(input: string) returns (t: Time)
    requires IsDecimal(HoursPart(input)) && IsDecimal(MinutesPart(input))
    requires DecimalValue(HoursPart(input)) < 0x8000_0000 && DecimalValue(MinutesPart(input)) < 0x8000_0000
    ensures t.minutes == DecimalValue(MinutesPart(input))
    ensures To24(t) == DecimalValue(HoursPart(input))
    ensures t.isAm <==> DecimalValue(HoursPart(input)) < 12
  {
    var hrs, mins := SplitTime(input);
    var h, m := DecimalValue(hrs), DecimalValue(mins);
    t := ToTwelveHour(h, m);
  }

  /** Two digits read as tens and units. */
  lemma TwoDigits(s: string)
    requires |s| == 2 && IsDecimal(s)
    ensures DecimalValue(s) == 10 * (s[0] as int - '0' as int) + (s[1] as int - '0' as int)
  {
    var p := s[..1];
    assert p[..0] == [] && p[0] == s[0];
    assert DecimalValue(p) == p[0] as int - '0' as int;
  }

  /** A time read from two two-digit halves. */
  method TellTimeOf(hh: string, mm: string) returns (t: Time)
    requires |hh| == 2 && IsDecimal(hh) && |mm| == 2 && IsDecimal(mm)
    ensures t.minutes == 10 * (mm[0] as int - '0' as int) + (mm[1] as int - '0' as int)
    ensures To24(t) == 10 * (hh[0] as int - '0' as int) + (hh[1] as int - '0' as int)
    ensures t.isAm <==> To24(t) < 12
  {
    HalvesOf(hh, mm);
    TwoDigits(hh);
    TwoDigits(mm);
    t := TellTime(hh + [':'] + mm);
  }

  /** "13:45" reads as 1:45 pm and "09:05" as 9:05 am. */
  method TellTimeDemo() returns (afternoon: Time, morning: Time)
    ensures afternoon == Time(1, 45, false) && morning == Time(9, 5, true)
  {
    afternoon := TellTimeOf("13", "45");
    morning := TellTimeOf("09", "05");
  }
}
