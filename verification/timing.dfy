/**
 * `elapsedTime` from main.py: a run's duration as a short English phrase
 * in hours, minutes and seconds. The clock read that starts the function
 * is replaced by its reading, `now`; Python floats are exact reals here.
 */
module Timing {
  import opened Wrappers
  import opened Text

  /** Python's `int()` of a float: truncation toward zero. */
  function Trunc(x: real): (r: int)
    ensures x >= 0.0 ==> 0 <= r && r as real <= x < r as real + 1.0
    ensures x < 0.0 ==> r <= 0 && r as real - 1.0 < x <= r as real
  {
    if x >= 0.0 then x.Floor else -((-x).Floor)
  }

  /**
   * The hours, minutes and seconds computed from `seconds`, as the source
   * computes them. For a non-negative duration none of them is negative, so
   * each truncation acts as a floor.
   */
  function Split(seconds: real): (hms: (int, int, int))
    ensures seconds >= 0.0 ==> hms.0 >= 0 && hms.1 >= 0 && hms.2 >= 0
  {
    var hours := Trunc(seconds / 60.0 / 60.0);
    var minutes := Trunc(seconds / 60.0 - (hours * 60) as real);
    var secs := Trunc(seconds - (minutes * 60) as real - (hours * 60 * 60) as real);
    (hours, minutes, secs)
  }

  /**
   * The phrase for a run that took `now - startTime` seconds. It is the
   * under-a-second text exactly when the run took under a second; the other
   * three shapes are given by `ElapsedTimeIsReference`.
   */
  function ElapsedTime(startTime: real, now: real): (r: string)
    ensures r == Under <==> now - startTime < 1.0
  {
    var seconds := now - startTime;
    if seconds < 1.0 then Under
    else
      var (hours, minutes, secs) := Split(seconds);
      assert Under[0] == 'l';
      if minutes < 1 && hours < 1 then IntToString(secs) + SecondsUnit
      else if hours < 1 then IntToString(minutes) + (MinutesJoin + (IntToString(secs) + SecondsEnd))
      else IntToString(hours) + (HoursJoin + (IntToString(minutes) + (MinutesJoin + (IntToString(secs) + SecondsEnd))))
  }

  /** A real lying in `[k, k + 1)` has floor `k` (Dafny sees this unaided; it names the step). */
  lemma FloorBetween(y: real, k: int)
    requires k as real <= y < k as real + 1.0
    ensures y.Floor == k
  {
  }

  /**
   * For a duration of at least one second, the source's truncations are the
   * integer quotient and remainders of the whole number of seconds `t`:
   * hours is `t / 3600`, minutes and seconds are below 60, and together they
   * add back up to `t`.
   */
  lemma SplitWholeSeconds(seconds: real)
    requires seconds >= 1.0
    ensures var (h, m, s) := Split(seconds); var t := seconds.Floor;
      && h == t / 3600
      && m == t / 60 - h * 60
      && s == t - m * 60 - h * 3600
      && 0 <= m < 60 && 0 <= s < 60
      && h * 3600 + m * 60 + s == t
  {
    // Dafny can close this lemma by itself; the steps below spell out the
    // argument and keep the proof stable across solver seeds.
    var t := seconds.Floor;
    var q := t / 3600;
    var m' := (t - q * 3600) / 60;
    var s' := t - q * 3600 - m' * 60;
    assert 0 <= m' < 60 && 0 <= s' < 60;
    assert q * 3600 <= t && t + 1 <= q * 3600 + 3600;
    FloorBetween(seconds / 60.0 / 60.0, q);
    var (h, m, s) := Split(seconds);
    assert h == q;
    FloorBetween(seconds / 60.0 - (q * 60) as real, m');
    assert m == m';
    FloorBetween(seconds - (m' * 60) as real - (q * 60 * 60) as real, s');
    assert s == s';
    assert t / 60 == q * 60 + m';
  }

  const Under := "less than one second"
  const SecondsUnit := " seconds"
  const HoursJoin := " hour[s], "
  const MinutesJoin := " minute[s] and "
  const SecondsEnd := " second[s]"

  /** The four shapes the phrase can take. */
  datatype Phrase =
    | LessThanOneSecond
    | Seconds(s: nat)
    | MinutesSeconds(m: nat, s: nat)
    | HoursMinutesSeconds(h: nat, m: nat, s: nat)

  function Render(p: Phrase): string
  {
    match p
    case LessThanOneSecond => Under
    case Seconds(s) => NatToString(s) + SecondsUnit
    case MinutesSeconds(m, s) => NatToString(m) + (MinutesJoin + (NatToString(s) + SecondsEnd))
    case HoursMinutesSeconds(h, m, s) =>
      NatToString(h) + (HoursJoin + (NatToString(m) + (MinutesJoin + (NatToString(s) + SecondsEnd))))
  }

  /**
   * What the phrase should say, from the whole number of seconds: under a
   * second, a bare count below a minute, minutes and seconds below an hour,
   * otherwise hours, minutes and seconds.
   */
  function Reference(seconds: real): Phrase
  {
    if seconds < 1.0 then LessThanOneSecond
    else
      var t := seconds.Floor;
      if t < 60 then Seconds(t)
      else if t < 3600 then MinutesSeconds(t / 60, t % 60)
      else HoursMinutesSeconds(t / 3600, t % 3600 / 60, t % 60)
  }

  /** The number of seconds a phrase names (none for `LessThanOneSecond`). */
  function WholeSeconds(p: Phrase): nat
  {
    match p
    case LessThanOneSecond => 0
    case Seconds(s) => s
    case MinutesSeconds(m, s) => m * 60 + s
    case HoursMinutesSeconds(h, m, s) => h * 3600 + m * 60 + s
  }

  /** Reads a count followed by `SecondsEnd` and nothing else. */
  function ReadSecondsTail(text: string): Option<nat>
  {
    match ReadNat(text)
    case None => None
    case Some((s, tail)) => if tail == SecondsEnd then Some(s) else None
  }

  /** Reads a count, `MinutesJoin`, then what `ReadSecondsTail` reads. */
  function ReadMinutesTail(text: string): Option<(nat, nat)>
  {
    match ReadNat(text)
    case None => None
    case Some((m, rest)) =>
      if !StartsWith(rest, MinutesJoin) then None
      else match ReadSecondsTail(rest[|MinutesJoin|..])
        case None => None
        case Some(s) => Some((m, s))
  }

  /** Reads a phrase back from its text. */
  function ReadPhrase(text: string): Option<Phrase>
  {
    if text == Under then Some(LessThanOneSecond)
    else match ReadNat(text)
      case None => None
      case Some((a, rest)) =>
        if rest == SecondsUnit then Some(Seconds(a))
        else if StartsWith(rest, MinutesJoin) then
          match ReadSecondsTail(rest[|MinutesJoin|..])
          case None => None
          case Some(s) => Some(MinutesSeconds(a, s))
        else if StartsWith(rest, HoursJoin) then
          match ReadMinutesTail(rest[|HoursJoin|..])
          case None => None
          case Some((m, s)) => Some(HoursMinutesSeconds(a, m, s))
        else None
  }

  lemma ReadSecondsTailOf(s: nat)
    ensures ReadSecondsTail(NatToString(s) + SecondsEnd) == Some(s)
  {
    ReadNatOfNatToString(s, SecondsEnd);
  }

  lemma ReadMinutesTailOf(m: nat, s: nat)
    ensures ReadMinutesTail(NatToString(m) + (MinutesJoin + (NatToString(s) + SecondsEnd))) == Some((m, s))
  {
    var rest := NatToString(s) + SecondsEnd;
    var tail := MinutesJoin + rest;
    var text := NatToString(m) + (MinutesJoin + (NatToString(s) + SecondsEnd));
    assert ReadNat(text) == Some((m, tail)) by {
      assert text == NatToString(m) + tail;
      ReadNatOfNatToString(m, tail);
    }
    assert StartsWith(tail, MinutesJoin) && tail[|MinutesJoin|..] == rest by {
      StartsWithAppend(MinutesJoin, rest);
    }
    assert ReadSecondsTail(rest) == Some(s) by {
      ReadSecondsTailOf(s);
    }
  }

  /** A rendered count phrase never reads as the under-a-second text. */
  lemma CountNotUnder(n: nat, tail: string)
    ensures NatToString(n) + tail != Under
  {
    assert (NatToString(n) + tail)[0] == NatToString(n)[0];
  }

  lemma ReadRenderSeconds(s: nat)
    ensures ReadPhrase(Render(Seconds(s))) == Some(Seconds(s))
  {
    CountNotUnder(s, SecondsUnit);
    assert ReadNat(Render(Seconds(s))) == Some((s, SecondsUnit)) by {
      ReadNatOfNatToString(s, SecondsUnit);
    }
  }

  lemma ReadRenderMinutesSeconds(m: nat, s: nat)
    ensures ReadPhrase(Render(MinutesSeconds(m, s))) == Some(MinutesSeconds(m, s))
  {
    var text := Render(MinutesSeconds(m, s));
    var rest := NatToString(s) + SecondsEnd;
    var tail := MinutesJoin + rest;
    assert text == NatToString(m) + tail;
    CountNotUnder(m, tail);
    assert ReadNat(text) == Some((m, tail)) by {
      ReadNatOfNatToString(m, tail);
    }
    assert tail != SecondsUnit by { assert tail[1] != SecondsUnit[1]; }
    assert StartsWith(tail, MinutesJoin) && tail[|MinutesJoin|..] == rest by {
      StartsWithAppend(MinutesJoin, rest);
    }
    assert ReadSecondsTail(rest) == Some(s) by {
      ReadSecondsTailOf(s);
    }
  }

  lemma ReadRenderHoursMinutesSeconds(h: nat, m: nat, s: nat)
    ensures ReadPhrase(Render(HoursMinutesSeconds(h, m, s))) == Some(HoursMinutesSeconds(h, m, s))
  {
    var text := Render(HoursMinutesSeconds(h, m, s));
    var rest := NatToString(m) + (MinutesJoin + (NatToString(s) + SecondsEnd));
    var tail := HoursJoin + rest;
    assert text == NatToString(h) + tail;
    CountNotUnder(h, tail);
    assert ReadNat(text) == Some((h, tail)) by {
      ReadNatOfNatToString(h, tail);
    }
    assert tail[1] == HoursJoin[1] == 'h';
    assert tail != SecondsUnit by { assert SecondsUnit[1] == 's'; }
    assert !StartsWith(tail, MinutesJoin) by { assert MinutesJoin[1] == 'm'; }
    assert StartsWith(tail, HoursJoin) && tail[|HoursJoin|..] == rest by {
      StartsWithAppend(HoursJoin, rest);
    }
    assert ReadMinutesTail(rest) == Some((m, s)) by {
      ReadMinutesTailOf(m, s);
    }
  }

  /** No two phrases share a text: reading a rendered phrase gives the phrase back. */
  lemma ReadRender(p: Phrase)
    ensures ReadPhrase(Render(p)) == Some(p)
  {
    match p
    case LessThanOneSecond =>
    case Seconds(s) => ReadRenderSeconds(s);
    case MinutesSeconds(m, s) => ReadRenderMinutesSeconds(m, s);
    case HoursMinutesSeconds(h, m, s) => ReadRenderHoursMinutesSeconds(h, m, s);
  }

  /** Different phrases render differently. */
  lemma RenderInjective(p: Phrase, q: Phrase)
    ensures Render(p) == Render(q) <==> p == q
  {
    ReadRender(p);
    ReadRender(q);
  }

  /**
   * The phrase `elapsedTime` returns is the reference phrase for the
   * duration: its four branches pick the same shape and the same numbers.
   */
  lemma ElapsedTimeIsReference(startTime: real, now: real)
    ensures ElapsedTime(startTime, now) == Render(Reference(now - startTime))
  {
    var seconds := now - startTime;
    if seconds >= 1.0 {
      var t := seconds.Floor;
      var (h, m, s) := Split(seconds);
      assert h == t / 3600 && m == t % 3600 / 60 && s == t % 60 by {
        SplitWholeSeconds(seconds);
        ClockDigits(t);
      }
      var hs, ms, ss := NatToString(h), NatToString(m), NatToString(s);
      assert IntToString(h) == hs && IntToString(m) == ms && IntToString(s) == ss;
      if t < 60 {
        assert ElapsedTime(startTime, now) == ss + SecondsUnit;
        assert Reference(seconds) == Seconds(s);
      } else if t < 3600 {
        assert ElapsedTime(startTime, now) == ms + (MinutesJoin + (ss + SecondsEnd));
        assert Reference(seconds) == MinutesSeconds(m, s);
      } else {
        assert ElapsedTime(startTime, now) == hs + (HoursJoin + (ms + (MinutesJoin + (ss + SecondsEnd))));
        assert Reference(seconds) == HoursMinutesSeconds(h, m, s);
      }
    }
  }

  /** The source's minutes and seconds are the usual clock remainders. */
  lemma ClockDigits(t: int)
    requires t >= 0
    ensures t / 60 - t / 3600 * 60 == t % 3600 / 60
    ensures t - (t % 3600 / 60) * 60 - t / 3600 * 3600 == t % 60
  {
    var h, r := t / 3600, t % 3600;
    var m, s := r / 60, r % 60;
    assert t == (h * 60 + m) * 60 + s;
    assert t / 60 == h * 60 + m;
    assert t % 60 == s;
  }

  /** For a duration of a second or more, the phrase adds back up to the whole seconds. */
  lemma ReferenceWholeSeconds(seconds: real)
    requires seconds >= 1.0
    ensures !Reference(seconds).LessThanOneSecond?
    ensures WholeSeconds(Reference(seconds)) == seconds.Floor
  {
    var t := seconds.Floor;
    if t >= 3600 {
      var h, r := t / 3600, t % 3600;
      var m, s := r / 60, r % 60;
      assert t == h * 3600 + m * 60 + s;
      assert t == (h * 60 + m) * 60 + s;
      assert t % 60 == s;
    }
  }

  /**
   * Every text `elapsedTime` returns has exactly one of the four shapes,
   * and reading it gives back the reference phrase. `ReadPhrase` also
   * accepts numbers with leading zeros, so this lemma alone does not fix
   * the exact text; `ElapsedTimeIsReference` does.
   */
  lemma ReadElapsedTime(startTime: real, now: real)
    ensures ReadPhrase(ElapsedTime(startTime, now)) == Some(Reference(now - startTime))
  {
    ElapsedTimeIsReference(startTime, now);
    ReadRender(Reference(now - startTime));
  }

  /** Two durations have the same reference phrase exactly when they read the same on a seconds clock. */
  lemma ReferenceSameIff(d1: real, d2: real)
    ensures Reference(d1) == Reference(d2)
      <==> (d1 < 1.0 && d2 < 1.0) || (d1 >= 1.0 && d2 >= 1.0 && d1.Floor == d2.Floor)
  {
    if d1 >= 1.0 { ReferenceWholeSeconds(d1); }
    if d2 >= 1.0 { ReferenceWholeSeconds(d2); }
  }

  /**
   * Two runs get the same phrase exactly when both took under a second, or
   * both took a second or more and the same whole number of seconds.
   */
  lemma ElapsedTimeSameIff(start1: real, now1: real, start2: real, now2: real)
    ensures var d1, d2 := now1 - start1, now2 - start2;
      ElapsedTime(start1, now1) == ElapsedTime(start2, now2)
      <==> (d1 < 1.0 && d2 < 1.0) || (d1 >= 1.0 && d2 >= 1.0 && d1.Floor == d2.Floor)
  {
    var d1, d2 := now1 - start1, now2 - start2;
    var p1, p2 := Reference(d1), Reference(d2);
    assert ElapsedTime(start1, now1) == Render(p1) by { ElapsedTimeIsReference(start1, now1); }
    assert ElapsedTime(start2, now2) == Render(p2) by { ElapsedTimeIsReference(start2, now2); }
    assert Render(p1) == Render(p2) <==> p1 == p2 by { RenderInjective(p1, p2); }
    ReferenceSameIff(d1, d2);
  }
}
