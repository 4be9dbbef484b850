/** The lines a SCSI drive reports its temperature and hours on, printed and parsed back. */
module ScsiReport {
  import opened Wrappers
  import opened Decimal
  import opened Text
  import opened Model
  import opened SmartText

  const TEMPERATURE_LABEL := "current drive temperature:"
  const HOURS_LABEL := "number of hours powered up"
  const MINUTES_LABEL := "accumulated power on time, hours:minutes"

  /**
   A line smartctl prints: a temperature with its unit, behind the last colon of the line,
   hours with a fraction, or hours and minutes. The label may be in any case.
   */
  datatype Line =
    | Temperature(name: string, middle: string, gap: string, value: nat, suffix: string)
    | Hours(name: string, left: string, right: string, value: nat, fraction: string)
    | HoursMinutes(name: string, gap: string, value: nat, minutes: string)

  function Print(l: Line): string {
    match l
    case Temperature(name, middle, gap, value, suffix) => name + middle + gap + Dec(value) + suffix
    case Hours(name, left, right, value, fraction) => name + left + "=" + right + Grouped(value) + fraction
    case HoursMinutes(name, gap, value, minutes) => name + gap + Dec(value) + ":" + minutes
  }

  predicate Blank(s: string) {
    forall i :: 0 <= i < |s| ==> s[i] == ' ' || s[i] == '\t'
  }

  predicate SpaceFree(s: string) {
    forall i :: 0 <= i < |s| ==> !IsSpace(s[i])
  }

  ghost predicate Printable(l: Line) {
    && 0 <= l.value <= MAX_INT64
    && match l
       case Temperature(name, middle, gap, _, suffix) =>
         Lower(name) == TEMPERATURE_LABEL && (middle != [] ==> middle[|middle| - 1] == ':') && '\n' !in middle
         && Blank(gap) && ':' !in suffix && '\n' !in suffix
         && (suffix != [] ==> !IsDigit(suffix[0]))
       case Hours(name, left, right, _, fraction) =>
         Lower(name) == HOURS_LABEL && Blank(left) && Blank(right) && '\n' !in fraction
         && (fraction != [] ==> fraction[0] == '.')
       case HoursMinutes(name, gap, _, minutes) =>
         Lower(name) == MINUTES_LABEL && Blank(gap) && gap != [] && SpaceFree(minutes)
  }

  /** The attribute a line is to become. */
  function Read(l: Line): Attribute {
    Attribute(if l.Temperature? then 300 else 301, 0, 0, l.value, 0, None)
  }

  // ---- Facts about the text functions ------------------------------------------

  lemma {:induction false} LastIndexOfSkips(a: string, c: char, b: string)
    requires c !in b
    ensures LastIndexOf(a + [c] + b, c) == |a|
    decreases |b|
  {
    var s := a + [c] + b;
    if b != [] {
      assert s[|s| - 1] == b[|b| - 1];
      assert s[..|s| - 1] == a + [c] + b[..|b| - 1];
      LastIndexOfSkips(a, c, b[..|b| - 1]);
    }
  }

  lemma {:induction false} LastFieldOf(a: string, f: string)
    requires a != [] && IsSpace(a[|a| - 1]) && SpaceFree(f)
    ensures LastField(a + f) == f
    decreases |f|
  {
    var s := a + f;
    if f == [] {
      assert s == a;
    } else {
      assert s[|s| - 1] == f[|f| - 1] && s[..|s| - 1] == a + f[..|f| - 1];
      LastFieldOf(a, f[..|f| - 1]);
    }
  }

  lemma LowerConcat(a: string, b: string)
    ensures Lower(a + b) == Lower(a) + Lower(b)
  {
  }

  /** A line that starts with a label, in any case, and how the parser sees it. */
  lemma LabelSeen(name: string, rest: string, lower: string)
    requires Lower(name) == lower
    ensures HasPrefix(Lower(name + rest), lower)
  {
    LowerConcat(name, rest);
  }

  lemma LettersStay(name: string, lower: string, c: char)
    requires Lower(name) == lower && c !in lower && LowerChar(c) == c
    ensures c !in name
  {
    forall i | 0 <= i < |name| ensures name[i] != c {
      assert lower[i] == LowerChar(name[i]);
    }
  }

  /** What is trimmed off a line that starts with a letter is at its right end. */
  lemma TrimmedLine(head: string, tail: string)
    requires head != [] && !IsSpace(head[0]) && !IsSpace(head[|head| - 1])
    ensures TrimSpace(head + tail) == head + TrimRight(tail)
  {
    assert (head + tail)[0] == head[0];
    TrimRightKeeps(head, tail);
  }

  lemma TrimmedGap(gap: string, number: string, tail: string)
    requires Blank(gap) && number != [] && !IsSpace(number[0]) && !IsSpace(number[|number| - 1])
    ensures TrimSpace(gap + number + TrimRight(tail)) == number + TrimRight(tail)
  {
    assert gap + number + TrimRight(tail) == gap + (number + TrimRight(tail));
    TrimLeftSkips(gap, number + TrimRight(tail));
    assert (number + TrimRight(tail))[0] == number[0];
    TrimRightKeeps(number, TrimRight(tail));
    TrimRightIsPrefix(tail);
  }

  lemma AtoiOfDigits(s: string, n: nat)
    requires AllDigits(s) && s != [] && Value(s) == n <= MAX_INT64
    ensures Atoi(s) == Some(n)
  {
    assert IsDigit(s[0]);
    DigitRunStops(s, []);
    assert s + [] == s;
  }

  // ---- One line -------------------------------------------------------------------

  lemma ColonEnds(name: string)
    requires Lower(name) == TEMPERATURE_LABEL
    ensures |name| == 26 && name[25] == ':' && LowerChar(name[0]) == 'c'
  {
    var l := Lower(name);
    assert l[25] == LowerChar(name[25]) && l[0] == LowerChar(name[0]);
  }

  /** A line with the temperature label is read behind its last colon. */
  lemma TemperatureLineRead(text: string, name: string, middle: string, val: string)
    requires Lower(name) == TEMPERATURE_LABEL && (middle != [] ==> middle[|middle| - 1] == ':')
    requires TrimSpace(text) == name + middle + val && ':' !in val
    ensures var v := TrimSpace(val);
            var t := ParseDigits(v[..DigitRun(v)]);
            ScsiLine(text) == if t.Some? then Some(Parsed(SCSI_TEMPERATURE, t.value)) else None
  {
    hide Lower, TrimSpace, LastIndexOf, HasPrefix, DigitRun, ParseDigits, HoursOf, IndexOf, LastField;
    ColonEnds(name);
    var start := name + middle;
    var last, line := |start| - 1, start + val;
    assert line == name + (middle + val);
    LabelSeen(name, middle + val, TEMPERATURE_LABEL);
    assert start[last] == ':' && line == start[..last] + [':'] + val;
    LastIndexOfSkips(start[..last], ':', val);
    assert line[|start|..] == val;
  }

  lemma TemperatureRead(name: string, middle: string, gap: string, n: nat, suffix: string)
    requires Printable(Temperature(name, middle, gap, n, suffix))
    ensures ScsiLine(name + middle + gap + Dec(n) + suffix) == Some(Parsed(SCSI_TEMPERATURE, n))
  {
    hide Lower, TrimSpace, Dec, TrimRight, DigitRun, ScsiLine;
    var d, tail, start := Dec(n), TrimRight(suffix), name + middle;
    ColonEnds(name);
    TrimRightIsPrefix(suffix);
    TrimmedLine(start + gap + d, suffix);
    assert start + gap + d + tail == name + middle + (gap + d + tail);
    TemperatureLineRead(start + gap + d + suffix, name, middle, gap + d + tail);
    TrimmedGap(gap, d, suffix);
    assert tail != [] ==> tail[0] == suffix[0];
    DigitRunStops(d, tail);
    assert (d + tail)[..|d|] == d;
    DecValue(n);
  }

  lemma HoursLabelEnds(name: string)
    requires Lower(name) == HOURS_LABEL
    ensures |name| > 0 && LowerChar(name[0]) == 'n' && '=' !in name
  {
    var l := Lower(name);
    assert l[0] == LowerChar(name[0]);
    LettersStay(name, HOURS_LABEL, '=');
  }

  lemma NotOtherLabel(name: string, rest: string, lower: string, other: string)
    requires Lower(name) == lower && lower != [] && other != [] && lower[0] != other[0]
    ensures !HasPrefix(Lower(name + rest), other)
  {
    LowerConcat(name, rest);
    var l := Lower(name + rest);
    assert l[0] == lower[0];
    assert |other| <= |l| ==> l[..|other|][0] == l[0];
  }

  lemma BlankHasNo(s: string, c: char)
    requires Blank(s) && c != ' ' && c != '\t'
    ensures c !in s
  {
  }

  /** Whole hours, cut off before the fraction. */
  lemma HoursText(n: nat, fraction: string)
    requires n <= MAX_INT64 && (fraction != [] ==> fraction[0] == '.')
    ensures var val := Grouped(n) + fraction; Atoi(Without(val[..IndexOf(val, '.')], ',')) == Some(n)
  {
    hide Grouped, Without, Atoi, IndexOf;
    var g := Grouped(n);
    var val := g + fraction;
    if fraction == [] {
      assert val == g;
      IndexOfNone(g, '.');
    } else {
      assert val == g + ['.'] + fraction[1..];
      IndexOfSkips(g, '.', fraction[1..]);
    }
    assert val[..|g|] == g;
    UngroupedValue(n);
    AtoiOfDigits(Without(g, ','), n);
  }

  /** A line with the hours label is read after its equals sign. */
  lemma HoursLineRead(text: string, name: string, left: string, val: string)
    requires Lower(name) == HOURS_LABEL && Blank(left) && TrimSpace(text) == name + left + "=" + val
    ensures var v := TrimSpace(val); ScsiLine(text) == HoursOf(Atoi(Without(v[..IndexOf(v, '.')], ',')))
  {
    hide Lower, TrimSpace, IndexOf, HasPrefix, Atoi, Without, LastIndexOf;
    HoursLabelEnds(name);
    var rest := left + "=" + val;
    var line := name + rest;
    assert line == TrimSpace(text);
    LabelSeen(name, rest, HOURS_LABEL);
    NotOtherLabel(name, rest, HOURS_LABEL, TEMPERATURE_LABEL);
    BlankHasNo(left, '=');
    assert line == (name + left) + ['='] + val;
    IndexOfSkips(name + left, '=', val);
    assert line[|name + left| + 1..] == val;
  }

  lemma HoursRead(name: string, left: string, right: string, n: nat, fraction: string)
    requires Printable(Hours(name, left, right, n, fraction))
    ensures ScsiLine(name + left + "=" + right + Grouped(n) + fraction) == Some(Parsed(SCSI_POWER_ON_HOURS, n))
  {
    hide Lower, TrimSpace, IndexOf, Grouped, TrimRight, Atoi, Without, ScsiLine;
    var g, tail := Grouped(n), TrimRight(fraction);
    HoursLabelEnds(name);
    TrimRightIsPrefix(fraction);
    assert tail != [] ==> tail[0] == fraction[0];
    var head := name + left + "=" + right + g;
    assert head[0] == name[0] && head[|head| - 1] == g[|g| - 1];
    TrimmedLine(head, fraction);
    assert head + tail == name + left + "=" + (right + g + tail);
    HoursLineRead(head + fraction, name, left, right + g + tail);
    TrimmedGap(right, g, fraction);
    HoursText(n, tail);
  }

  lemma MinutesRead(name: string, gap: string, n: nat, minutes: string)
    requires Printable(HoursMinutes(name, gap, n, minutes))
    ensures ScsiLine(name + gap + Dec(n) + ":" + minutes) == Some(Parsed(SCSI_POWER_ON_HOURS, n))
  {
    hide Lower, TrimSpace, IndexOf, HasPrefix, Dec, TrimRight, Atoi, LastField, LastIndexOf;
    var d := Dec(n);
    var l := Lower(name);
    assert l[0] == LowerChar(name[0]) == 'a';
    var f := d + ":" + minutes;
    var line := name + gap + d + ":" + minutes;
    assert line == name + (gap + f) && line == (name + gap) + f;
    assert f[|f| - 1] == if minutes == [] then ':' else minutes[|minutes| - 1];
    TrimTight(line);
    LabelSeen(name, gap + f, MINUTES_LABEL);
    NotOtherLabel(name, gap + f, MINUTES_LABEL, TEMPERATURE_LABEL);
    NotOtherLabel(name, gap + f, MINUTES_LABEL, HOURS_LABEL);
    assert forall i :: 0 <= i < |f| ==>
             f[i] == if i < |d| then d[i] else if i == |d| then ':' else minutes[i - |d| - 1];
    LastFieldOf(name + gap, f);
    assert f == d + [':'] + minutes;
    IndexOfSkips(d, ':', minutes);
    assert f[..|d|] == d;
    DecValue(n);
    AtoiOfDigits(d, n);
  }

  // ---- A report ---------------------------------------------------------------------

  lemma LabelOnOneLine(name: string, lower: string)
    requires Lower(name) == lower && lower in [TEMPERATURE_LABEL, HOURS_LABEL, MINUTES_LABEL]
    ensures '\n' !in name
  {
    assert '\n' !in TEMPERATURE_LABEL && '\n' !in HOURS_LABEL && '\n' !in MINUTES_LABEL;
    LettersStay(name, lower, '\n');
  }

  /** A printed line is read back. */
  lemma LineRoundTrip(l: Line)
    requires Printable(l)
    ensures ScsiLine(Print(l)) == Some(Read(l)) && '\n' !in Print(l)
  {
    hide ScsiLine, Lower;
    match l
    case Temperature(name, middle, gap, n, suffix) =>
      TemperatureRead(name, middle, gap, n, suffix);
      LabelOnOneLine(name, TEMPERATURE_LABEL);
    case Hours(name, left, right, n, fraction) =>
      HoursRead(name, left, right, n, fraction);
      LabelOnOneLine(name, HOURS_LABEL);
    case HoursMinutes(name, gap, n, minutes) =>
      MinutesRead(name, gap, n, minutes);
      LabelOnOneLine(name, MINUTES_LABEL);
  }

  ghost predicate AllPrintable(report: seq<Line>) {
    forall i {:trigger report[i]} :: 0 <= i < |report| ==> Printable(report[i])
  }

  function PrintAll(report: seq<Line>): string {
    if |report| == 0 then []
    else if |report| == 1 then Print(report[0])
    else PrintAll(report[..|report| - 1]) + "\n" + Print(report[|report| - 1])
  }

  function ReadAll(report: seq<Line>): seq<Attribute> {
    seq(|report|, i requires 0 <= i < |report| => Read(report[i]))
  }

  /** Printing a report and parsing the text returns its temperatures and hours, in order. */
  lemma ScsiRoundTrip(report: seq<Line>)
    requires AllPrintable(report)
    ensures ScsiAttributes(PrintAll(report)) == ReadAll(report)
  {
    if report == [] {
      assert Split("") == [""];
      assert ScsiLine("") == None by {
        assert TrimSpace("") == "" && Lower("") == "";
      }
      GatherOne("", ScsiLine);
    } else {
      LinesRoundTrip(report);
    }
  }

  lemma {:induction false} LinesRoundTrip(report: seq<Line>)
    requires report != [] && AllPrintable(report)
    ensures ScsiAttributes(PrintAll(report)) == ReadAll(report)
  {
    hide ScsiLine, Print, Read, Gather, Split, Printable;
    var n := |report| - 1;
    var last := Print(report[n]);
    LineRoundTrip(report[n]);
    SplitOne(last);
    GatherOne(last, ScsiLine);
    if n > 0 {
      LinesRoundTrip(report[..n]);
      ParsingJoined(PrintAll(report[..n]), last);
      assert ReadAll(report) == ReadAll(report[..n]) + [Read(report[n])];
    } else {
      assert ReadAll(report) == [Read(report[0])];
    }
  }
}
