/**
 * `StringConverter.StopwatchToString`: the elapsed time of a stopwatch as colon-separated,
 * zero-padded fields.  The elapsed time is a number of 100-nanosecond ticks, as in `TimeSpan`.
 */
module StringConverter {

  const TicksPerMillisecond: nat := 10000
  const TicksPerSecond: nat := 1000 * TicksPerMillisecond
  const TicksPerMinute: nat := 60 * TicksPerSecond
  const TicksPerHour: nat := 60 * TicksPerMinute

  // The components of a `TimeSpan` (ticks are never negative for a stopwatch).

  /** `TimeSpan.Hours`: the hour of the day; whole days are dropped. */
  function Hours(ticks: nat): (h: nat)
    ensures h < 24
  {
    (ticks / TicksPerHour) % 24
  }

  /** `TimeSpan.Minutes`. */
  function Minutes(ticks: nat): (m: nat)
    ensures m < 60
  {
    (ticks / TicksPerMinute) % 60
  }

  /** `TimeSpan.Seconds`. */
  function Seconds(ticks: nat): (s: nat)
    ensures s < 60
  {
    (ticks / TicksPerSecond) % 60
  }

  /** `TimeSpan.Milliseconds`. */
  function Milliseconds(ticks: nat): (ms: nat)
    ensures ms < 1000
  {
    (ticks / TicksPerMillisecond) % 1000
  }

  /** The last field's component: milliseconds divided by ten, rounded down. */
  function Centiseconds(ticks: nat): (c: nat)
    ensures c < 100
  {
    Milliseconds(ticks) / 10
  }

  /** Whole days are dropped: a day more leaves every component as it was. */
  lemma DaysDropped(ticks: nat)
    ensures Hours(ticks + 24 * TicksPerHour) == Hours(ticks)
    ensures Minutes(ticks + 24 * TicksPerHour) == Minutes(ticks)
    ensures Seconds(ticks + 24 * TicksPerHour) == Seconds(ticks)
    ensures Milliseconds(ticks + 24 * TicksPerHour) == Milliseconds(ticks)
  {
    var later := ticks + 24 * TicksPerHour;
    assert Hours(later) == Hours(ticks) by {
      assert later / TicksPerHour == ticks / TicksPerHour + 24;
    }
    assert Minutes(later) == Minutes(ticks) by {
      assert later / TicksPerMinute == ticks / TicksPerMinute + 24 * 60;
    }
    assert Seconds(later) == Seconds(ticks) by {
      assert later / TicksPerSecond == ticks / TicksPerSecond + 24 * 60 * 60;
    }
    assert later / TicksPerMillisecond == ticks / TicksPerMillisecond + 24 * 60 * 60 * 1000;
  }

  // Decimal rendering.

  predicate IsDigit(c: char)
  {
    '0' <= c <= '9'
  }

  predicate AllDigits(s: string)
  {
    forall i :: 0 <= i < |s| ==> IsDigit(s[i])
  }

  function DigitChar(d: nat): (c: char)
    requires d < 10
    ensures IsDigit(c) && c as int - '0' as int == d
  {
    ['0', '1', '2', '3', '4', '5', '6', '7', '8', '9'][d]
  }

  /** The number a string of decimal digits stands for, read most significant digit first. */
  function ValueOf(s: string): nat
    requires AllDigits(s)
  {
    if s == [] then 0 else ValueOf(s[..|s| - 1]) * 10 + (s[|s| - 1] as int - '0' as int)
  }

  /** The decimal digits of `n`, without leading zeros (`n.ToString()`). */
  function DecimalDigits(n: nat): (s: string)
    ensures 1 <= |s| && AllDigits(s) && ValueOf(s) == n
    ensures n > 0 ==> s[0] != '0'
    ensures n < 10 <==> |s| == 1
  {
    if n < 10 then [DigitChar(n)]
    else
      var s := DecimalDigits(n / 10) + [DigitChar(n % 10)];
      assert s[..|s| - 1] == DecimalDigits(n / 10);
      s
  }

  /** `string.Format("{0:00}", n)`: the digits of `n`, padded with zeros to two at least. */
  function Format00(n: nat): (s: string)
    ensures AllDigits(s) && ValueOf(s) == n
    ensures |s| == if n < 100 then 2 else |DecimalDigits(n)|
  {
    var digits := DecimalDigits(n);
    if |digits| < 2 then
      var s := "0" + digits;
      assert s[..1] == "0";
      s
    else digits
  }

  // Joining and splitting.

  /** `string.Join(sep, parts)`: the parts with one separator between neighbours. */
  function Join(parts: seq<string>, sep: char): string
  {
    if |parts| == 0 then ""
    else if |parts| == 1 then parts[0]
    else Join(parts[..|parts| - 1], sep) + [sep] + parts[|parts| - 1]
  }

  /** The pieces of `s` between separators: the reference definition `Join` is inverted against. */
  function SplitOn(s: string, sep: char): (r: seq<string>)
    ensures |r| >= 1
  {
    if s == [] then [""]
    else
      var pieces := SplitOn(s[..|s| - 1], sep);
      if s[|s| - 1] == sep then pieces + [""]
      else pieces[..|pieces| - 1] + [pieces[|pieces| - 1] + [s[|s| - 1]]]
  }

  /** Appending a separator and then a piece free of separators appends that piece. */
  lemma {:induction false} SplitOnAppend(a: string, sep: char, p: string)
    requires sep !in p
    ensures SplitOn(a + [sep] + p, sep) == SplitOn(a, sep) + [p]
    decreases |p|
  {
    if p == [] {
      assert (a + [sep] + p)[..|a|] == a;
      assert a + [sep] + p == a + [sep];
    } else {
      var q := p[..|p| - 1];
      assert (a + [sep] + p)[..|a + [sep] + p| - 1] == a + [sep] + q;
      assert q + [p[|p| - 1]] == p;
      SplitOnAppend(a, sep, q);
    }
  }

  /** Splitting at the separator gives back the joined parts, when none contains it. */
  lemma {:induction false} SplitJoin(parts: seq<string>, sep: char)
    requires |parts| >= 1 && forall k :: 0 <= k < |parts| ==> sep !in parts[k]
    ensures SplitOn(Join(parts, sep), sep) == parts
  {
    if |parts| == 1 {
      SplitOnAppend([], sep, parts[0]);
      SplitOnPlain(parts[0], sep);
    } else {
      var init := parts[..|parts| - 1];
      SplitJoin(init, sep);
      SplitOnAppend(Join(init, sep), sep, parts[|parts| - 1]);
      assert init + [parts[|parts| - 1]] == parts;
    }
  }

  /** A string without separators is one piece. */
  lemma {:induction false} SplitOnPlain(p: string, sep: char)
    requires sep !in p
    ensures SplitOn(p, sep) == [p]
  {
    if p != [] {
      SplitOnPlain(p[..|p| - 1], sep);
      assert p[..|p| - 1] + [p[|p| - 1]] == p;
    }
  }

  /** Joining one more part appends a separator and that part. */
  lemma JoinSnoc(parts: seq<string>, sep: char, p: string)
    requires |parts| >= 1
    ensures Join(parts + [p], sep) == Join(parts, sep) + [sep] + p
  {
    assert (parts + [p])[..|parts|] == parts;
  }

  // The conversion.

  /**
   * The components the flags select, in the order hours, minutes, seconds and hundredths of
   * a second.
   */
  function Components(ticks: nat, useHours: bool, useMinutes: bool, useSeconds: bool, useMilliseconds: bool): (r: seq<nat>)
    ensures |r| == (if useHours then 1 else 0) + (if useMinutes then 1 else 0)
                   + (if useSeconds then 1 else 0) + (if useMilliseconds then 1 else 0)
    ensures forall k :: 0 <= k < |r| ==> r[k] < 100
  {
    (if useHours then [Hours(ticks)] else [])
    + (if useMinutes then [Minutes(ticks)] else [])
    + (if useSeconds then [Seconds(ticks)] else [])
    + (if useMilliseconds then [Centiseconds(ticks)] else [])
  }

  /** Each component rendered by `Format00`. */
  function Fields(components: seq<nat>): (r: seq<string>)
    ensures |r| == |components|
    ensures forall k :: 0 <= k < |r| ==> AllDigits(r[k]) && ValueOf(r[k]) == components[k]
  {
    if components == [] then [] else Fields(components[..|components| - 1]) + [Format00(components[|components| - 1])]
  }

  lemma FieldsSnoc(components: seq<nat>, c: nat)
    ensures Fields(components + [c]) == Fields(components) + [Format00(c)]
  {
    assert (components + [c])[..|components|] == components;
  }

  /**
   * `StopwatchToString`: the selected components, each formatted, joined with colons.  Read
   * back, the result splits at its colons into one two-digit field per selected component,
   * in order, each spelling that component; with no flag set it is empty.
   */
  function StopwatchToString(ticks: nat, useHours: bool := true, useMinutes: bool := true,
                             useSeconds: bool := true, useMilliseconds: bool := true): (r: string)
    ensures var cs := Components(ticks, useHours, useMinutes, useSeconds, useMilliseconds);
            |cs| > 0 ==>
              var pieces := SplitOn(r, ':');
              && |pieces| == |cs|
              && forall k :: 0 <= k < |cs| ==> |pieces[k]| == 2 && AllDigits(pieces[k]) && ValueOf(pieces[k]) == cs[k]
    ensures r == "" <==> !useHours && !useMinutes && !useSeconds && !useMilliseconds
  {
    var components := Components(ticks, useHours, useMinutes, useSeconds, useMilliseconds);
    if |components| > 0 then
      ReadBack(components);
      Join(Fields(components), ':')
    else
      Join(Fields(components), ':')
  }

  /** Joined fields of components below 100 are not empty and split back into those fields. */
  lemma ReadBack(components: seq<nat>)
    requires |components| > 0 && forall k :: 0 <= k < |components| ==> components[k] < 100
    ensures var r := Join(Fields(components), ':');
            var pieces := SplitOn(r, ':');
            && r != ""
            && |pieces| == |components|
            && forall k :: 0 <= k < |components| ==>
                 |pieces[k]| == 2 && AllDigits(pieces[k]) && ValueOf(pieces[k]) == components[k]
  {
    var fs := Fields(components);
    FieldsAreTwoDigits(components);
    SplitJoin(fs, ':');
    assert |Join(fs, ':')| >= |fs[|fs| - 1]|;
  }

  /** Every field is two digits, so none contains the separator. */
  lemma FieldsAreTwoDigits(components: seq<nat>)
    requires forall k :: 0 <= k < |components| ==> components[k] < 100
    ensures forall k :: 0 <= k < |Fields(components)| ==> |Fields(components)[k]| == 2 && ':' !in Fields(components)[k]
  {
    var fs := Fields(components);
    forall k | 0 <= k < |fs|
      ensures |fs[k]| == 2 && ':' !in fs[k]
    {
      FieldsAt(components, k);
      assert IsDigit(fs[k][0]) && IsDigit(fs[k][1]);
    }
  }

  /** The `k`-th field renders the `k`-th component. */
  lemma {:induction false} FieldsAt(components: seq<nat>, k: nat)
    requires k < |components|
    ensures Fields(components)[k] == Format00(components[k])
  {
    if k < |components| - 1 {
      FieldsAt(components[..|components| - 1], k);
    }
  }

  /**
   * The four flag combinations compared with `string.Format` strings in the library's own
   * checks: hours; hours and minutes; hours, minutes and seconds; all four.
   */
  lemma MatchesReferenceFormats(ticks: nat)
    ensures StopwatchToString(ticks, true, false, false, false) == Format00(Hours(ticks))
    ensures StopwatchToString(ticks, true, true, false, false)
            == Format00(Hours(ticks)) + ":" + Format00(Minutes(ticks))
    ensures StopwatchToString(ticks, true, true, true, false)
            == Format00(Hours(ticks)) + ":" + Format00(Minutes(ticks)) + ":" + Format00(Seconds(ticks))
    ensures StopwatchToString(ticks)
            == Format00(Hours(ticks)) + ":" + Format00(Minutes(ticks)) + ":" + Format00(Seconds(ticks))
               + ":" + Format00(Centiseconds(ticks))
  {
    var h, m, s, c := Hours(ticks), Minutes(ticks), Seconds(ticks), Centiseconds(ticks);
    assert Components(ticks, true, false, false, false) == [h];
    assert Components(ticks, true, true, false, false) == [h] + [m];
    assert Components(ticks, true, true, true, false) == [h] + [m] + [s];
    assert Components(ticks, true, true, true, true) == [h] + [m] + [s] + [c];
    FieldsSnoc([], h);
    FieldsSnoc([h], m);
    FieldsSnoc([h] + [m], s);
    FieldsSnoc([h] + [m] + [s], c);
    var fh, fm, fs, fc := Format00(h), Format00(m), Format00(s), Format00(c);
    JoinSnoc([fh], ':', fm);
    JoinSnoc([fh] + [fm], ':', fs);
    JoinSnoc([fh] + [fm] + [fs], ':', fc);
  }

  /** With the default flags the output is `HH:MM:SS:CC`: eleven characters, colons at 2, 5 and 8. */
  lemma DefaultShape(ticks: nat)
    ensures var r := StopwatchToString(ticks);
            && |r| == 11 && r[2] == ':' && r[5] == ':' && r[8] == ':'
            && forall i :: 0 <= i < 11 && i != 2 && i != 5 && i != 8 ==> IsDigit(r[i])
  {
    MatchesReferenceFormats(ticks);
    var fh, fm, fs, fc := Format00(Hours(ticks)), Format00(Minutes(ticks)), Format00(Seconds(ticks)), Format00(Centiseconds(ticks));
    var r := fh + ":" + fm + ":" + fs + ":" + fc;
    forall i | 0 <= i < 11 && i != 2 && i != 5 && i != 8
      ensures IsDigit(r[i])
    {
      if i < 2 { assert r[i] == fh[i]; }
      else if i < 5 { assert r[i] == fm[i - 3]; }
      else if i < 8 { assert r[i] == fs[i - 6]; }
      else { assert r[i] == fc[i - 9]; }
    }
  }
}
