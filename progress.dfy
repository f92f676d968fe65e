/** The progress parser of `monitor_progress` in Main_Adv2.py: one line of FFmpeg's
    diagnostic output and the known totals give an optional percentage. Percentages are
    exact reals. */
module Progress {
  import opened Text
  import opened Decimal
  import SequencePattern

  type Seconds = r: real | r >= 0.0

  /** Frame mode reads `frame=`, time mode reads `time=`. */
  datatype Mode = FrameMode | TimeMode

  /** Frame counts are used for image sequences and `.mov` clips, elapsed time otherwise. */
  function ModeFor(input: string): (m: Mode)
    ensures m == FrameMode <==> SequencePattern.IsSequence(input) || EndsWith(input, ".mov")
  {
    if SequencePattern.IsSequence(input) || EndsWith(input, ".mov") then FrameMode else TimeMode
  }

  /** `min(done / total * 100, 100)`. */
  function Percent(done: real, total: real): (p: real)
    requires done >= 0.0 && total > 0.0
    ensures 0.0 <= p <= 100.0
    ensures p == 100.0 <==> done >= total
    ensures done < total ==> p * total == done * 100.0
  {
    var x := done / total * 100.0;
    if x <= 100.0 then x else 100.0
  }

  /** A later count never gives a smaller percentage. */
  lemma PercentMonotone(a: real, b: real, total: real)
    requires 0.0 <= a <= b && total > 0.0
    ensures Percent(a, total) <= Percent(b, total)
  {
    assert a / total <= b / total;
  }

  // ---- `re.search(r"frame=\s*(\d+)", line)` ----

  /** The pattern `frame=\s*(\d+)` matches at index i. */
  predicate FrameMatchAt(s: string, i: nat) {
    && i <= |s| && StartsWith(s[i..], "frame=")
    && var j := SpanEnd(s, i + 6, IsSpace); j < |s| && IsDigit(s[j])
  }

  /** `int(m.group(1))` for the match at index i. */
  function FrameValueAt(s: string, i: nat): nat
    requires FrameMatchAt(s, i)
  {
    var j := SpanEnd(s, i + 6, IsSpace);
    ParseDigits(s[j..SpanEnd(s, j, IsDigit)])
  }

  /** Leftmost match at or after index `from`. */
  function SearchFrame(s: string, from: nat): Option<nat>
    decreases |s| - from
  {
    if from >= |s| then None
    else if FrameMatchAt(s, from) then Some(FrameValueAt(s, from))
    else SearchFrame(s, from + 1)
  }

  /** SearchFrame is `re.search`: it reports the value of the leftmost match at or after
      `from`, and nothing exactly when there is no match there. */
  lemma {:induction false} SearchFrameLeftmost(s: string, from: nat)
    ensures SearchFrame(s, from).Some? ==>
      exists i :: from <= i < |s| && FrameMatchAt(s, i) && SearchFrame(s, from).value == FrameValueAt(s, i)
                  && forall j :: from <= j < i ==> !FrameMatchAt(s, j)
    ensures SearchFrame(s, from).None? ==> forall j :: from <= j ==> !FrameMatchAt(s, j)
    decreases |s| - from
  {
    if from < |s| {
      if FrameMatchAt(s, from) {
        assert from <= from < |s| && FrameMatchAt(s, from);
      } else {
        SearchFrameLeftmost(s, from + 1);
      }
    }
  }

  // ---- `re.search(r"time=(\d+:\d+:\d+\.\d+)", line)` ----

  /** `\d+` followed by `stop` at index a: the index of `stop`. */
  function DigitsThen(s: string, a: nat, stop: char): (r: Option<nat>)
    requires a <= |s|
    ensures r.Some? ==> a < r.value < |s| && s[r.value] == stop
  {
    var b := SpanEnd(s, a, IsDigit);
    if b == a || b == |s| || s[b] != stop then None else Some(b)
  }

  lemma DigitsThenAt(s: string, a: nat, w: string, stop: char)
    requires a + |w| < |s| && s[a..a + |w|] == w && s[a + |w|] == stop && !IsDigit(stop)
    requires |w| >= 1 && AllDigits(w)
    ensures DigitsThen(s, a, stop) == Some(a + |w|)
  {
    SpanEndAt(s, a, w, IsDigit);
  }

  /** The four digit groups of `\d+:\d+:\d+\.\d+`. */
  datatype ClockDigits = ClockDigits(hours: string, minutes: string, seconds: string, fraction: string)

  predicate ValidClock(c: ClockDigits) {
    AllDigits(c.hours) && AllDigits(c.minutes) && AllDigits(c.seconds) && AllDigits(c.fraction)
  }

  /** `int(h) * 3600 + int(m) * 60 + float(s)`. */
  function ClockDigitsSeconds(c: ClockDigits): Seconds
    requires ValidClock(c)
  {
    ParseDigits(c.hours) as real * 3600.0 + ParseDigits(c.minutes) as real * 60.0
      + DecimalValue(c.seconds, c.fraction)
  }

  /** `\d+:\d+:\d+\.\d+` matched at index a, one group after the other. */
  function ReadClock(s: string, a: nat): (r: Option<ClockDigits>)
    requires a <= |s|
    ensures r.Some? ==> ValidClock(r.value)
  {
    match DigitsThen(s, a, ':')
    case None => None
    case Some(b) => ReadMinutes(s, a, b)
  }

  function ReadMinutes(s: string, a: nat, b: nat): (r: Option<ClockDigits>)
    requires a <= b < |s|
    ensures r.Some? ==> ValidClock(r.value)
  {
    match DigitsThen(s, b + 1, ':')
    case None => None
    case Some(c) => ReadSeconds(s, a, b, c)
  }

  function ReadSeconds(s: string, a: nat, b: nat, c: nat): (r: Option<ClockDigits>)
    requires a <= b < c < |s|
    ensures r.Some? ==> ValidClock(r.value)
  {
    match DigitsThen(s, c + 1, '.')
    case None => None
    case Some(d) => ReadFraction(s, a, b, c, d)
  }

  function ReadFraction(s: string, a: nat, b: nat, c: nat, d: nat): (r: Option<ClockDigits>)
    requires a <= b < c < d < |s|
    ensures r.Some? ==> ValidClock(r.value)
  {
    var e := SpanEnd(s, d + 1, IsDigit);
    if e == d + 1 || !AllDigits(s[a..b]) || !AllDigits(s[b + 1..c]) || !AllDigits(s[c + 1..d]) then None
    else Some(ClockDigits(s[a..b], s[b + 1..c], s[c + 1..d], s[d + 1..e]))
  }

  predicate TimeMatchAt(s: string, i: nat) {
    i <= |s| && StartsWith(s[i..], "time=") && ReadClock(s, i + 5).Some?
  }

  /** `m.group(1)` of the leftmost match at or after index `from`, as its four fields. */
  function SearchTime(s: string, from: nat): (r: Option<ClockDigits>)
    ensures r.Some? ==> ValidClock(r.value)
    decreases |s| - from
  {
    if from >= |s| then None
    else if TimeMatchAt(s, from) then ReadClock(s, from + 5)
    else SearchTime(s, from + 1)
  }

  /** SearchTime is `re.search`: when it reports groups, they are those of the leftmost
      match at or after `from`. */
  lemma {:induction false} SearchTimeFound(s: string, from: nat)
    requires SearchTime(s, from).Some?
    ensures exists i :: from <= i < |s| && TimeMatchAt(s, i) && SearchTime(s, from) == ReadClock(s, i + 5)
                        && forall j :: from <= j < i ==> !TimeMatchAt(s, j)
    decreases |s| - from
  {
    if TimeMatchAt(s, from) {
      assert from <= from < |s|;
    } else {
      SearchTimeFound(s, from + 1);
      var i :| from + 1 <= i < |s| && TimeMatchAt(s, i) && SearchTime(s, from + 1) == ReadClock(s, i + 5)
               && forall j :: from + 1 <= j < i ==> !TimeMatchAt(s, j);
      assert forall j :: from <= j < i ==> !TimeMatchAt(s, j);
    }
  }

  /** ... and when it reports nothing, nothing matches at or after `from`. */
  lemma {:induction false} SearchTimeMissing(s: string, from: nat)
    requires SearchTime(s, from).None?
    ensures forall j :: from <= j ==> !TimeMatchAt(s, j)
    decreases |s| - from
  {
    if from < |s| {
      SearchTimeMissing(s, from + 1);
    }
  }

  /** The percentage one diagnostic line reports, if any: the token of the mode must be
      present and its total known and non-zero. */
  function LineProgress(line: string, mode: Mode, totalFrames: Option<nat>, totalDuration: Option<Seconds>)
    : (r: Option<real>)
    ensures r.Some? ==> 0.0 <= r.value <= 100.0
    ensures mode == FrameMode ==>
      (r.Some? <==> SearchFrame(line, 0).Some? && totalFrames.Some? && totalFrames.value != 0)
    ensures mode == TimeMode ==>
      (r.Some? <==> SearchTime(line, 0).Some? && totalDuration.Some? && totalDuration.value != 0.0)
  {
    match mode
    case FrameMode =>
      var m := SearchFrame(line, 0);
      if m.Some? && totalFrames.Some? && totalFrames.value != 0
      then Some(Percent(m.value as real, totalFrames.value as real)) else None
    case TimeMode =>
      var m := SearchTime(line, 0);
      if m.Some? && totalDuration.Some? && totalDuration.value != 0.0
      then Some(Percent(ClockDigitsSeconds(m.value), totalDuration.value)) else None
  }

  // ---- lines as FFmpeg writes them ----

  predicate AllSpaces(s: string) { forall k :: 0 <= k < |s| ==> IsSpace(s[k]) }

  /** A stats line starting `frame=<spaces><n>` reports n out of the total frames. */
  lemma FrameLine(spaces: string, n: nat, tail: string, total: nat, duration: Option<Seconds>)
    requires AllSpaces(spaces) && total > 0
    requires tail == [] || !IsDigit(tail[0])
    ensures LineProgress("frame=" + spaces + NatToString(n) + tail, FrameMode, Some(total), duration)
         == Some(Percent(n as real, total as real))
  {
    var w := NatToString(n);
    FrameAtStart("frame=" + spaces + w + tail, spaces, w, tail);
    ParseNatToString(n);
  }

  /** `frame=<spaces><digits>` at the start of s matches with those digits. */
  lemma FrameAtStart(s: string, spaces: string, w: string, tail: string)
    requires s == "frame=" + spaces + w + tail
    requires AllSpaces(spaces) && |w| >= 1 && AllDigits(w)
    requires tail == [] || !IsDigit(tail[0])
    ensures FrameMatchAt(s, 0) && SearchFrame(s, 0) == Some(ParseDigits(w))
  {
    assert s[..6] == "frame=" && s[0..] == s;
    assert s[6..6 + |spaces|] == spaces;
    assert s[6 + |spaces|] == w[0];
    SpanEndAt(s, 6, spaces, IsSpace);
    var j := 6 + |spaces|;
    assert s[j..j + |w|] == w;
    assert j + |w| < |s| ==> s[j + |w|] == tail[0];
    SpanEndAt(s, j, w, IsDigit);
  }

  /** FFmpeg's clock `HH:MM:SS.cc`. */
  function ClockText(h: nat, m: nat, sec: nat, cs: nat): string {
    Pad2(h) + ":" + Pad2(m) + ":" + Pad2(sec) + "." + Pad2(cs)
  }

  function ClockSeconds(h: nat, m: nat, sec: nat, cs: nat): Seconds {
    h as real * 3600.0 + m as real * 60.0 + sec as real + cs as real / 100.0
  }

  /** Text `x`, a `stop` character and text `rest` found at index a are found piece by piece. */
  lemma SliceAround(s: string, a: nat, x: string, stop: char, rest: string)
    requires a + |x| + 1 + |rest| <= |s| && s[a..a + |x| + 1 + |rest|] == x + [stop] + rest
    ensures s[a..a + |x|] == x && s[a + |x|] == stop && s[a + |x| + 1..a + |x| + 1 + |rest|] == rest
  {
    var t := x + [stop] + rest;
    assert forall k :: a <= k < a + |t| ==> s[k] == t[k - a];
  }

  /** One step per group: a digit group at [x, y) closed by the expected character hands
      over to the next stage. */
  lemma ReadHoursAt(s: string, a: nat, b: nat)
    requires a < b < |s| && s[b] == ':' && AllDigits(s[a..b])
    ensures ReadClock(s, a) == ReadMinutes(s, a, b)
  {
    DigitsThenAt(s, a, s[a..b], ':');
  }

  lemma ReadMinutesAt(s: string, a: nat, b: nat, c: nat)
    requires a <= b && b + 1 < c < |s| && s[c] == ':' && AllDigits(s[b + 1..c])
    ensures ReadMinutes(s, a, b) == ReadSeconds(s, a, b, c)
  {
    DigitsThenAt(s, b + 1, s[b + 1..c], ':');
  }

  lemma ReadSecondsAt(s: string, a: nat, b: nat, c: nat, d: nat)
    requires a <= b < c && c + 1 < d < |s| && s[d] == '.' && AllDigits(s[c + 1..d])
    ensures ReadSeconds(s, a, b, c) == ReadFraction(s, a, b, c, d)
  {
    DigitsThenAt(s, c + 1, s[c + 1..d], '.');
  }

  lemma ReadFractionAt(s: string, a: nat, b: nat, c: nat, d: nat, e: nat)
    requires a <= b < c < d && d + 1 < e <= |s| && AllDigits(s[d + 1..e]) && (e == |s| || !IsDigit(s[e]))
    requires AllDigits(s[a..b]) && AllDigits(s[b + 1..c]) && AllDigits(s[c + 1..d])
    ensures ReadFraction(s, a, b, c, d) == Some(ClockDigits(s[a..b], s[b + 1..c], s[c + 1..d], s[d + 1..e]))
  {
    SpanEndAt(s, d + 1, s[d + 1..e], IsDigit);
  }

  /** Four digit groups laid out as `H:M:S.C` over [a, e), not followed by a digit, are
      what ReadClock reads at a. */
  lemma ReadClockFields(s: string, a: nat, b: nat, c: nat, d: nat, e: nat)
    requires a < b && b + 1 < c && c + 1 < d && d + 1 < e <= |s|
    requires s[b] == ':' && s[c] == ':' && s[d] == '.'
    requires AllDigits(s[a..b]) && AllDigits(s[b + 1..c]) && AllDigits(s[c + 1..d]) && AllDigits(s[d + 1..e])
    requires e == |s| || !IsDigit(s[e])
    ensures ReadClock(s, a) == Some(ClockDigits(s[a..b], s[b + 1..c], s[c + 1..d], s[d + 1..e]))
  {
    ReadHoursAt(s, a, b);
    ReadMinutesAt(s, a, b, c);
    ReadSecondsAt(s, a, b, c, d);
    ReadFractionAt(s, a, b, c, d, e);
  }

  /** Four digit groups written `H:M:S.C` at index a, followed by a non-digit, are read
      back as those groups. */
  lemma ReadClockLayout(s: string, a: nat, H: string, M: string, S: string, C: string)
    requires |H| >= 1 && |M| >= 1 && |S| >= 1 && |C| >= 1
    requires AllDigits(H) && AllDigits(M) && AllDigits(S) && AllDigits(C)
    requires a + |H| + |M| + |S| + |C| + 3 <= |s|
    requires s[a..a + |H| + |M| + |S| + |C| + 3] == H + [':'] + (M + [':'] + (S + ['.'] + C))
    requires a + |H| + |M| + |S| + |C| + 3 == |s| || !IsDigit(s[a + |H| + |M| + |S| + |C| + 3])
    ensures ReadClock(s, a) == Some(ClockDigits(H, M, S, C))
  {
    var r2 := S + ['.'] + C;
    var r1 := M + [':'] + r2;
    var b := a + |H|;
    var c := b + 1 + |M|;
    var d := c + 1 + |S|;
    assert |r2| == |S| + 1 + |C| && |r1| == |M| + 1 + |r2|;
    SliceAround(s, a, H, ':', r1);
    SliceAround(s, b + 1, M, ':', r2);
    SliceAround(s, c + 1, S, '.', C);
    var e := d + 1 + |C|;
    assert ClockDigits(s[a..b], s[b + 1..c], s[c + 1..d], s[d + 1..e]) == ClockDigits(H, M, S, C);
    ReadClockFields(s, a, b, c, d, e);
  }

  /** The fields of FFmpeg's clock are worth the time they print. */
  lemma ClockTextSeconds(h: nat, m: nat, sec: nat, cs: nat)
    requires cs < 100
    ensures ClockDigitsSeconds(ClockDigits(Pad2(h), Pad2(m), Pad2(sec), Pad2(cs))) == ClockSeconds(h, m, sec, cs)
  {
    assert Pow10(|Pad2(cs)|) == 100;
  }

  /** The search stops at the first index where the pattern matches. */
  lemma {:induction false} SearchTimeFirst(s: string, from: nat, i: nat)
    requires from <= i && TimeMatchAt(s, i)
    requires forall j :: from <= j < i ==> !TimeMatchAt(s, j)
    ensures SearchTime(s, from) == ReadClock(s, i + 5)
    decreases i - from
  {
    if from < i {
      assert !TimeMatchAt(s, from);
      SearchTimeFirst(s, from + 1, i);
    } else {
      assert TimeMatchAt(s, from);
    }
  }

  /** No `time=` starts inside text without a `t`. */
  lemma NoTimeInside(prefix: string, rest: string)
    requires 't' !in prefix
    ensures forall j :: 0 <= j < |prefix| ==> !TimeMatchAt(prefix + rest, j)
  {
    forall j | 0 <= j < |prefix| ensures !TimeMatchAt(prefix + rest, j) {
      assert (prefix + rest)[j] == prefix[j];
    }
  }

  /** The search finds FFmpeg's clock right after the first `time=` of a line whose
      text before it has no `t`. */
  lemma SearchClockLine(prefix: string, h: nat, m: nat, sec: nat, cs: nat, tail: string)
    requires 't' !in prefix
    requires tail == [] || !IsDigit(tail[0])
    ensures SearchTime(prefix + "time=" + ClockText(h, m, sec, cs) + tail, 0)
         == Some(ClockDigits(Pad2(h), Pad2(m), Pad2(sec), Pad2(cs)))
  {
    var t := ClockText(h, m, sec, cs);
    var s := prefix + "time=" + t + tail;
    var i := |prefix|;
    AfterPrefix(prefix, "time=", t, tail);
    NoTimeInside(prefix, "time=" + t + tail);
    ReadClockText(s, i, h, m, sec, cs, tail);
    SearchTimeFirst(s, 0, i);
  }

  /** What follows a prefix is the rest of the concatenation. */
  lemma AfterPrefix(prefix: string, a: string, b: string, c: string)
    ensures prefix + a + b + c == prefix + (a + b + c)
    ensures (prefix + a + b + c)[|prefix|..] == a + b + c
  {
    assert prefix + a + b + c == prefix + (a + b + c);
  }

  /** `time=` and FFmpeg's clock written at index i, followed by a non-digit, are a match
      whose groups are the clock's zero-padded fields. */
  lemma ReadClockText(s: string, i: nat, h: nat, m: nat, sec: nat, cs: nat, tail: string)
    requires i <= |s| && s[i..] == "time=" + ClockText(h, m, sec, cs) + tail
    requires tail == [] || !IsDigit(tail[0])
    ensures TimeMatchAt(s, i)
    ensures ReadClock(s, i + 5) == Some(ClockDigits(Pad2(h), Pad2(m), Pad2(sec), Pad2(cs)))
  {
    ClockTextLayout(h, m, sec, cs);
    ReadFieldsAfterKey(s, i, Pad2(h), Pad2(m), Pad2(sec), Pad2(cs), tail);
  }

  lemma ClockTextLayout(h: nat, m: nat, sec: nat, cs: nat)
    ensures ClockText(h, m, sec, cs) == Pad2(h) + [':'] + (Pad2(m) + [':'] + (Pad2(sec) + ['.'] + Pad2(cs)))
  {
    var H, M, S, C := Pad2(h), Pad2(m), Pad2(sec), Pad2(cs);
    assert H + ":" + M + ":" + S + "." + C == H + [':'] + (M + [':'] + (S + ['.'] + C));
  }

  lemma ReadFieldsAfterKey(s: string, i: nat, H: string, M: string, S: string, C: string, tail: string)
    requires |H| >= 1 && |M| >= 1 && |S| >= 1 && |C| >= 1
    requires AllDigits(H) && AllDigits(M) && AllDigits(S) && AllDigits(C)
    requires i <= |s| && s[i..] == "time=" + (H + [':'] + (M + [':'] + (S + ['.'] + C))) + tail
    requires tail == [] || !IsDigit(tail[0])
    ensures TimeMatchAt(s, i)
    ensures ReadClock(s, i + 5) == Some(ClockDigits(H, M, S, C))
  {
    var t := H + [':'] + (M + [':'] + (S + ['.'] + C));
    var a := i + 5;
    DropKey(s, i, "time=", t + tail);
    assert s[a..][..|t|] == t;
    assert s[a..a + |t|] == t;
    assert a + |t| < |s| ==> s[a + |t|] == tail[0];
    ReadClockLayout(s, a, H, M, S, C);
  }

  /** After a key found at index i comes what follows it. */
  lemma DropKey(s: string, i: nat, key: string, rest: string)
    requires i <= |s| && s[i..] == key + rest
    ensures i + |key| <= |s| && s[i + |key|..] == rest && StartsWith(s[i..], key)
  {
    assert s[i + |key|..] == s[i..][|key|..];
  }

  /** A stats line whose text before `time=` has no `t` reports the elapsed clock out of
      the total duration. */
  lemma TimeLine(prefix: string, h: nat, m: nat, sec: nat, cs: nat, tail: string,
                 frames: Option<nat>, duration: Seconds)
    requires 't' !in prefix && cs < 100 && duration > 0.0
    requires tail == [] || !IsDigit(tail[0])
    ensures LineProgress(prefix + "time=" + ClockText(h, m, sec, cs) + tail, TimeMode, frames, Some(duration))
         == Some(Percent(ClockSeconds(h, m, sec, cs), duration))
  {
    SearchClockLine(prefix, h, m, sec, cs, tail);
    ClockTextSeconds(h, m, sec, cs);
  }

  /** FFmpeg's stats line `frame=   5` for a ten-frame sequence reports 50%. */
  lemma FrameExample(line: string)
    requires line == "frame=   5"
    ensures LineProgress(line, FrameMode, Some(10), None) == Some(50.0)
  {
    assert line == "frame=" + "   " + NatToString(5) + "";
    FrameLine("   ", 5, "", 10, None);
  }

  /** `time=00:00:05.00` in a ten-second clip reports 50%. */
  lemma TimeExample(line: string)
    requires line == "time=00:00:05.00"
    ensures LineProgress(line, TimeMode, None, Some(10.0)) == Some(50.0)
  {
    assert Pad2(0) == "00" && Pad2(5) == "05";
    assert line == "" + "time=" + ClockText(0, 0, 5, 0) + "";
    TimeLine("", 0, 0, 5, 0, "", None, 10.0);
  }

}
