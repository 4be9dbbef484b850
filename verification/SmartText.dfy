/** The parsers of smartctl text, for NVMe and for SCSI drives. */
module SmartText {
  import opened Wrappers
  import opened Decimal
  import opened Text
  import opened Model

  const SCSI_TEMPERATURE: int := 300
  const SCSI_POWER_ON_HOURS: int := 301

  /** The NVMe fields by their lower-case label, and the attribute IDs they are given. */
  function FieldId(name: string): Option<int> {
    if name == "critical warning" then Some(1)
    else if name == "temperature" then Some(2)
    else if name == "available spare" then Some(3)
    else if name == "available spare threshold" then Some(4)
    else if name == "percentage used" then Some(5)
    else if name == "data units read" then Some(6)
    else if name == "data units written" then Some(7)
    else if name == "power on hours" then Some(8)
    else if name == "media and data integrity errors" then Some(9)
    else if name == "error information log entries" then Some(10)
    else None
  }

  /** An attribute as the text parsers make it, not yet evaluated. */
  function Parsed(id: int, raw: int): Attribute {
    Attribute(id, 0, 0, raw, PASSED, None)
  }

  function NvmeValue(text: string): int {
    var s := TrimSpace(text);
    if HasPrefix(s, "0x") then
      var v := ParseHex(s[2..]);
      if v.Some? then v.value else 0
    else
      var cleaned := Without(s, ',');
      var v := ParseDigits(cleaned[..DigitRun(cleaned)]);
      if v.Some? then v.value else 0
  }

  /** What one line gives, if anything. */
  function NvmeLine(text: string): Option<Attribute> {
    var line := TrimSpace(text);
    var colon := IndexOf(line, ':');
    if colon == |line| then None
    else
      var id := FieldId(Lower(TrimSpace(line[..colon])));
      if id.None? then None else Some(Parsed(id.value, NvmeValue(TrimSpace(line[colon + 1..]))))
  }

  function Gather(lines: seq<string>, parse: string -> Option<Attribute>): seq<Attribute> {
    if lines == [] then []
    else
      var a := parse(lines[|lines| - 1]);
      Gather(lines[..|lines| - 1], parse) + if a.Some? then [a.value] else []
  }

  function NvmeAttributes(text: string): seq<Attribute> {
    Gather(Split(text), NvmeLine)
  }

  /** A text without a known field is an error. */
  function NvmeResult(text: string): Result<seq<Attribute>, ()> {
    if NvmeAttributes(text) == [] then Err(()) else Ok(NvmeAttributes(text))
  }

  method ParseNvmeValue(text: string) returns (val: int)
    ensures val == NvmeValue(text)
  {
    var s := TrimSpace(text);
    if HasPrefix(s, "0x") {
      var v := ParseHex(s[2..]);
      return if v.Some? then v.value else 0;
    }
    var cleaned := Without(s, ',');
    var end := 0;
    while end < |cleaned| && IsDigit(cleaned[end])
      invariant 0 <= end <= DigitRun(cleaned)
    {
      assert end < DigitRun(cleaned);
      end := end + 1;
    }
    assert end == DigitRun(cleaned);
    if end == 0 {
      return 0;
    }
    var v := ParseDigits(cleaned[..end]);
    val := if v.Some? then v.value else 0;
  }

  method ParseNvmeText(text: string) returns (r: Result<seq<Attribute>, ()>)
    ensures r == NvmeResult(text)
  {
    hide FieldId, TrimSpace, Lower, NvmeValue, Split, IndexOf;
    var attrs: seq<Attribute> := [];
    var lines := Split(text);
    var i := 0;
    while i < |lines|
      invariant 0 <= i <= |lines| && attrs == Gather(lines[..i], NvmeLine)
    {
      assert lines[..i + 1][..i] == lines[..i];
      var line := TrimSpace(lines[i]);
      i := i + 1;
      if line == "" {
        assert IndexOf(line, ':') == |line|;
        continue;
      }
      var colon := IndexOf(line, ':');
      if colon == |line| {
        continue;
      }
      var id := FieldId(Lower(TrimSpace(line[..colon])));
      if id.None? {
        continue;
      }
      var raw := ParseNvmeValue(TrimSpace(line[colon + 1..]));
      attrs := attrs + [Parsed(id.value, raw)];
    }
    assert lines[..i] == lines;
    r := if |attrs| == 0 then Err(()) else Ok(attrs);
  }

  // ---- SCSI -------------------------------------------------------------------

  function IntAfterColon(line: string): Option<int> {
    var colon := LastIndexOf(line, ':');
    if colon < 0 then None
    else
      var val := TrimSpace(line[colon + 1..]);
      ParseDigits(val[..DigitRun(val)])
  }

  function HoursOf(h: Option<int>): Option<Attribute> {
    if h.Some? && h.value >= 0 then Some(Parsed(SCSI_POWER_ON_HOURS, h.value)) else None
  }

  function ScsiLine(text: string): Option<Attribute> {
    var line := TrimSpace(text);
    var lower := Lower(line);
    if HasPrefix(lower, "current drive temperature:") then
      var t := IntAfterColon(line);
      if t.Some? then Some(Parsed(SCSI_TEMPERATURE, t.value)) else None
    else if HasPrefix(lower, "number of hours powered up") then
      var eq := IndexOf(line, '=');
      if eq == |line| then None
      else
        var val := TrimSpace(line[eq + 1..]);
        HoursOf(Atoi(Without(val[..IndexOf(val, '.')], ',')))
    else if HasPrefix(lower, "accumulated power on time, hours:minutes") then
      var hm := LastField(line);
      var colon := IndexOf(hm, ':');
      if colon == |hm| then None else HoursOf(Atoi(hm[..colon]))
    else None
  }

  function ScsiAttributes(text: string): seq<Attribute> {
    Gather(Split(text), ScsiLine)
  }

  method ExtractIntAfterColon(s: string) returns (r: Option<int>)
    ensures r == IntAfterColon(s)
  {
    var idx := LastIndexOf(s, ':');
    if idx < 0 {
      return None;
    }
    var val := TrimSpace(s[idx + 1..]);
    var end := 0;
    while end < |val| && IsDigit(val[end])
      invariant 0 <= end <= DigitRun(val)
    {
      assert end < DigitRun(val);
      end := end + 1;
    }
    assert end == DigitRun(val);
    if end == 0 {
      return None;
    }
    r := ParseDigits(val[..end]);
  }

  /** One turn of the loop of `ParseSCSIText`. */
  method ReadScsiLine(text: string) returns (r: Option<Attribute>)
    ensures r == ScsiLine(text)
  {
    hide IntAfterColon, Atoi, Lower, TrimSpace, LastField, Without, HasPrefix, IndexOf;
    r := None;
    var line := TrimSpace(text);
    var lower := Lower(line);
    if HasPrefix(lower, "current drive temperature:") {
      var t := ExtractIntAfterColon(line);
      if t.Some? {
        r := Some(Parsed(SCSI_TEMPERATURE, t.value));
      }
    } else if HasPrefix(lower, "number of hours powered up") {
      var eq := IndexOf(line, '=');
      if eq < |line| {
        var val := TrimSpace(line[eq + 1..]);
        var dot := IndexOf(val, '.');
        if dot < |val| {
          val := val[..dot];
        } else {
          assert val[..dot] == val;
        }
        var h := Atoi(Without(val, ','));
        if h.Some? && h.value >= 0 {
          r := Some(Parsed(SCSI_POWER_ON_HOURS, h.value));
        }
      }
    } else if HasPrefix(lower, "accumulated power on time, hours:minutes") {
      var hm := LastField(line);
      var colon := IndexOf(hm, ':');
      if colon < |hm| {
        var h := Atoi(hm[..colon]);
        if h.Some? && h.value >= 0 {
          r := Some(Parsed(SCSI_POWER_ON_HOURS, h.value));
        }
      }
    }
  }

  method ParseScsiText(text: string) returns (attrs: seq<Attribute>)
    ensures attrs == ScsiAttributes(text)
  {
    hide ScsiLine, Split;
    attrs := [];
    var lines := Split(text);
    var i := 0;
    while i < |lines|
      invariant 0 <= i <= |lines| && attrs == Gather(lines[..i], ScsiLine)
    {
      assert lines[..i + 1][..i] == lines[..i];
      var a := ReadScsiLine(lines[i]);
      if a.Some? {
        attrs := attrs + [a.value];
      }
      i := i + 1;
    }
    assert lines[..i] == lines;
  }

  /** SCSI values are never negative, and fit 64 bits. */
  lemma {:induction false} ScsiNonNegative(text: string)
    ensures forall a :: a in ScsiAttributes(text) ==> 0 <= a.raw <= MAX_INT64
  {
    ScsiLinesNonNegative(Split(text));
  }

  lemma {:induction false} ScsiLinesNonNegative(lines: seq<string>)
    ensures forall a :: a in Gather(lines, ScsiLine) ==> 0 <= a.raw <= MAX_INT64
  {
    if lines != [] {
      ScsiLinesNonNegative(lines[..|lines| - 1]);
      ScsiLineNonNegative(lines[|lines| - 1]);
    }
  }

  lemma ScsiLineNonNegative(line: string)
    ensures ScsiLine(line).Some? ==> 0 <= ScsiLine(line).value.raw <= MAX_INT64
  {
  }

  // ---- Composition --------------------------------------------------------------

  lemma {:induction false} GatherConcat(a: seq<string>, b: seq<string>, parse: string -> Option<Attribute>)
    ensures Gather(a + b, parse) == Gather(a, parse) + Gather(b, parse)
  {
    if b == [] {
      assert a + b == a;
    } else {
      assert (a + b)[..|a + b| - 1] == a + b[..|b| - 1];
      GatherConcat(a, b[..|b| - 1], parse);
    }
  }

  /** The attributes of two texts joined by a newline are those of the one, then those of the other. */
  lemma ParsingJoined(a: string, b: string)
    ensures NvmeAttributes(a + "\n" + b) == NvmeAttributes(a) + NvmeAttributes(b)
    ensures ScsiAttributes(a + "\n" + b) == ScsiAttributes(a) + ScsiAttributes(b)
  {
    hide Split, Gather, NvmeLine, ScsiLine;
    SplitJoined(a, b);
    GatherConcat(Split(a), Split(b), NvmeLine);
    GatherConcat(Split(a), Split(b), ScsiLine);
  }

  // ---- Round trips ----------------------------------------------------------------

  /** A number with its thousands set off by commas. */
  function Grouped(n: nat): (s: string)
    ensures |s| > 0 && IsDigit(s[0]) && IsDigit(s[|s| - 1])
    ensures forall i :: 0 <= i < |s| ==> IsDigit(s[i]) || s[i] == ','
  {
    if n < 1000 then Dec(n) else Grouped(n / 1000) + "," + Pad3(n % 1000)
  }

  lemma {:induction false} UngroupedValue(n: nat)
    ensures AllDigits(Without(Grouped(n), ',')) && Value(Without(Grouped(n), ',')) == n
    ensures |Without(Grouped(n), ',')| > 0
  {
    if n < 1000 {
      WithoutNone(Dec(n), ',');
      DecValue(n);
    } else {
      var head, tail := Grouped(n / 1000), Pad3(n % 1000);
      UngroupedValue(n / 1000);
      WithoutConcat(head + ",", tail, ',');
      WithoutConcat(head, ",", ',');
      WithoutNone(tail, ',');
      assert Without(",", ',') == [];
      assert Without(Grouped(n), ',') == Without(head, ',') + tail;
      WithoutNone(Without(head, ','), ',');
      CommaRead(Without(head, ','), n % 1000);
    }
  }

  /** `HoursDisplay` of a number of hours at hand. */
  function HoursDisplay(h: int): string {
    if h >= 1000 then Dec(h / 1000) + "," + Pad3(h % 1000) else Itoa(h)
  }

  /** Text that may follow a number: nothing read as part of it, and no `0x`. */
  predicate Follows(number: string, suffix: string) {
    suffix == [] || (!IsDigit(suffix[0]) && suffix[0] != ',' && (suffix[0] == 'x' ==> number != "0"))
  }

  lemma NumberIsTrimmed(number: string, suffix: string)
    requires |number| > 0 && IsDigit(number[0]) && IsDigit(number[|number| - 1])
    ensures TrimSpace(number + suffix) == number + TrimRight(suffix)
  {
    assert (number + suffix)[0] == number[0];
    TrimRightKeeps(number, suffix);
  }

  lemma NotHex(number: string, rest: string)
    requires |number| > 0 && (forall i :: 0 <= i < |number| ==> IsDigit(number[i]) || number[i] == ',')
    requires Follows(number, rest)
    ensures !HasPrefix(number + rest, "0x")
  {
    var s := number + rest;
    assert |s| >= 2 ==> s[..2][0] == s[0] == number[0] && s[..2][1] == s[1];
    if |number| == 1 && rest != [] && rest[0] == 'x' {
      assert number == [number[0]] && number[0] != '0';
    }
  }

  /** Digits and commas are read as the number they group, whatever unit follows; beyond 64 bits as 0. */
  lemma NumberIsRead(number: string, suffix: string, n: nat)
    requires |number| > 0 && IsDigit(number[0]) && IsDigit(number[|number| - 1])
    requires forall i :: 0 <= i < |number| ==> IsDigit(number[i]) || number[i] == ','
    requires AllDigits(Without(number, ',')) && Without(number, ',') != []
    requires Value(Without(number, ',')) == n
    requires Follows(number, suffix)
    ensures NvmeValue(number + suffix) == if n <= MAX_INT64 then n else 0
  {
    var rest := TrimRight(suffix);
    TrimRightIsPrefix(suffix);
    FollowsTrimmed(number, suffix);
    NumberIsTrimmed(number, suffix);
    NotHex(number, rest);
    WithoutConcat(number, rest, ',');
    if rest != [] {
      assert Without(rest, ',')[0] == rest[0];
    }
    var d := Without(number, ',');
    DigitRunStops(d, Without(rest, ','));
    assert (d + Without(rest, ','))[..|d|] == d;
  }

  /** A value that starts with neither a digit nor a comma is 0. */
  lemma UnreadableIsZero(text: string)
    requires var s := TrimSpace(text); s == "" || (!IsDigit(s[0]) && s[0] != ',')
    ensures NvmeValue(text) == 0
  {
    var s := TrimSpace(text);
    if s != "" {
      assert !HasPrefix(s, "0x") by {
        assert |s| >= 2 ==> s[..2][0] == s[0];
      }
      assert Without(s, ',')[0] == s[0];
    }
  }

  function HexChar(d: nat): (c: char)
    requires d < 16
    ensures IsHexDigit(c) && HexDigitValue(c) == d
  {
    if d < 10 then (d + '0' as int) as char else (d - 10 + 'a' as int) as char
  }

  function Hex(n: nat): (s: string)
    ensures |s| > 0 && IsHexDigit(s[0]) && !IsSpace(s[|s| - 1])
  {
    if n < 16 then [HexChar(n)] else Hex(n / 16) + [HexChar(n % 16)]
  }

  lemma {:induction false} HexReads(n: nat)
    ensures HexValue(Hex(n)) == Some(n)
  {
    if n < 16 {
      assert [HexChar(n)][..0] == [];
    } else {
      HexReads(n / 16);
      assert Hex(n)[..|Hex(n)| - 1] == Hex(n / 16);
    }
  }

  /** A number in base 16 after `0x` is read back; beyond 64 bits it is 0. */
  lemma HexRoundTrip(n: nat)
    ensures NvmeValue("0x" + Hex(n)) == if n <= MAX_INT64 then n else 0
  {
    hide HexValue, Hex, TrimSpace;
    var h := Hex(n);
    var s := "0x" + h;
    HexReads(n);
    assert s[0] == '0' && s[|s| - 1] == h[|h| - 1];
    TrimTight(s);
    assert s[..2] == "0x" && s[2..] == h;
  }

  /** After `0x` anything but digits in base 16 makes the value 0, a sign at the start excepted. */
  lemma BadHexIsZero(text: string, rest: string, i: nat)
    requires TrimSpace(text) == "0x" + rest && i < |rest| && !IsHexDigit(rest[i])
    requires i == 0 ==> rest[0] != '-' && rest[0] != '+'
    ensures NvmeValue(text) == 0
  {
    var s := TrimSpace(text);
    assert s[..2] == "0x" && s[2..] == rest;
    if rest[0] == '-' || rest[0] == '+' {
      assert rest[1..][i - 1] == rest[i];
      HexValueExactly(rest[1..]);
    } else {
      HexValueExactly(rest);
    }
  }

  /** A head and three digits, set off by a comma. */
  lemma CommaRead(head: string, n: nat)
    requires AllDigits(head) && n < 1000
    ensures Without(head + "," + Pad3(n), ',') == head + Pad3(n)
    ensures Value(head + Pad3(n)) == Value(head) * 1000 + n
  {
    var tail := Pad3(n);
    WithoutConcat(head + ",", tail, ',');
    WithoutConcat(head, ",", ',');
    WithoutNone(head, ',');
    WithoutNone(tail, ',');
    assert Without(",", ',') == [];
    ValueConcat(head, tail);
    Pad3Value(n);
    var x := Value(head);
    assert Shifted(x, 3) == 10 * Shifted(x, 2) && Shifted(x, 1) == 10 * x;
  }

  /** A number does not start with 0, unless it is 0. */
  lemma {:induction false} NoLeadingZero(n: nat)
    ensures n > 0 ==> Dec(n)[0] != '0'
  {
    if n >= 10 {
      NoLeadingZero(n / 10);
    }
  }

  lemma LastThree(h: nat)
    requires h >= 1000
    ensures Dec(h) == Dec(h / 1000) + Pad3(h % 1000)
  {
    var q, r := h / 10, h / 100;
    assert q / 10 == r && r / 10 == h / 1000;
    assert Dec(h) == Dec(q) + [DigitChar(h % 10)] && Dec(q) == Dec(r) + [DigitChar(q % 10)];
    assert Dec(r) == Dec(h / 1000) + [DigitChar(r % 10)];
    ThreeOf(h);
  }

  lemma ThreeOf(h: nat)
    ensures h % 1000 / 100 == h / 100 % 10 && h % 1000 / 10 % 10 == h / 10 % 10 && h % 1000 % 10 == h % 10
  {
    var t, m := h / 1000, h % 1000;
    TensOf(h, 10, 100 * t + m / 10, m % 10);
    TensOf(h, 100, 10 * t + m / 100, m % 100);
    TensOf(100 * t + m / 10, 10, 10 * t + m / 10 / 10, m / 10 % 10);
    TensOf(10 * t + m / 100, 10, t, m / 100);
  }

  lemma TensOf(h: int, d: int, q: int, r: int)
    requires (d == 10 || d == 100) && h == d * q + r && 0 <= r < d
    ensures h / d == q && h % d == r
  {
  }

  /** Displayed hours are their digits, from 1000 up with one comma, three places from the right. */
  lemma HoursText(h: nat)
    ensures var s := HoursDisplay(h);
            && Without(s, ',') == Dec(h) && (h > 0 ==> Dec(h)[0] != '0')
            && (h < 1000 ==> ',' !in s)
            && (h >= 1000 ==> |s| >= 5 && forall i :: 0 <= i < |s| ==> (s[i] == ',' <==> i == |s| - 4))
  {
    NoLeadingZero(h);
    if h < 1000 {
      WithoutNone(Dec(h), ',');
    } else {
      CommaRead(Dec(h / 1000), h % 1000);
      LastThree(h);
    }
  }

  /** Reading displayed hours gives them back. */
  lemma HoursRoundTrip(h: int)
    requires 0 <= h <= MAX_INT64
    ensures NvmeValue(HoursDisplay(h)) == h
  {
    hide NvmeValue, Without, Value, Pad3;
    var s := HoursDisplay(h);
    assert s + [] == s;
    if h >= 1000 {
      CommaRead(Dec(h / 1000), h % 1000);
      DecValue(h / 1000);
    } else {
      WithoutNone(s, ',');
      DecValue(h);
    }
    NumberIsRead(s, [], h);
  }

  /** The labels whose fields are read, by attribute ID from 1 to 10. */
  const LABELS: seq<string> := [
    "critical warning", "temperature", "available spare", "available spare threshold", "percentage used",
    "data units read", "data units written", "power on hours", "media and data integrity errors",
    "error information log entries"]

  lemma LabelIds(k: int)
    requires 1 <= k <= 10
    ensures FieldId(LABELS[k - 1]) == Some(k)
  {
  }

  /** A line is read exactly when it has a colon behind a known label, in any case and with blanks around it. */
  lemma KnownLines(text: string)
    ensures NvmeLine(text).Some?
            <==> ':' in TrimSpace(text) && Lower(TrimSpace(TrimSpace(text)[..IndexOf(TrimSpace(text), ':')])) in LABELS
  {
    hide TrimSpace, Lower, FieldId;
    var line := TrimSpace(text);
    var colon := IndexOf(line, ':');
    if colon < |line| {
      KnownLabels(Lower(TrimSpace(line[..colon])));
    }
  }

  lemma KnownLabels(name: string)
    ensures FieldId(name).Some? <==> name in LABELS
  {
    if name in LABELS {
      var i :| 0 <= i < |LABELS| && LABELS[i] == name;
      LabelIds(i + 1);
    }
    if FieldId(name).Some? {
      assert name == LABELS[FieldId(name).value - 1];
    }
  }

  /** A field as smartctl prints it, with the number of its label. */
  datatype Field = Field(number: int, name: string, gap: string, value: nat, suffix: string)

  function Print(f: Field): string {
    f.name + ":" + f.gap + Grouped(f.value) + f.suffix
  }

  /** A known label in any case, a gap of blanks, a value of 64 bits and a unit, on one line. */
  ghost predicate Printable(f: Field) {
    && 1 <= f.number <= 10 && Lower(f.name) == LABELS[f.number - 1]
    && (forall i :: 0 <= i < |f.gap| ==> f.gap[i] == ' ' || f.gap[i] == '\t')
    && f.value <= MAX_INT64
    && Follows(Grouped(f.value), f.suffix) && '\n' !in f.suffix
  }

  function PrintAll(fields: seq<Field>): string {
    if |fields| == 0 then []
    else if |fields| == 1 then Print(fields[0])
    else PrintAll(fields[..|fields| - 1]) + "\n" + Print(fields[|fields| - 1])
  }

  /** The attribute a field is to become. */
  function Read(f: Field): Attribute {
    Attribute(f.number, 0, 0, f.value, 0, None)
  }

  /** The labels start and end with letters and hold no colon, newline or other space than ' '. */
  lemma LabelShape(name: string)
    requires FieldId(Lower(name)).Some?
    ensures |name| > 0 && ':' !in name && '\n' !in name
    ensures !IsSpace(name[0]) && !IsSpace(name[|name| - 1])
  {
    var l := Lower(name);
    assert l[0] == LowerChar(name[0]) && l[|l| - 1] == LowerChar(name[|name| - 1]);
    KnownLabelShape(l);
    forall i | 0 <= i < |name| ensures name[i] != ':' && name[i] != '\n' {
      assert l[i] == LowerChar(name[i]);
    }
  }

  /** Lower-case words separated by blanks. */
  ghost predicate Tidy(l: string) {
    && l != [] && 'a' <= l[0] <= 'z' && 'a' <= l[|l| - 1] <= 'z'
    && forall i :: 0 <= i < |l| ==> 'a' <= l[i] <= 'z' || l[i] == ' '
  }

  lemma TidyShort()
    ensures Tidy("critical warning") && Tidy("temperature") && Tidy("available spare")
    ensures Tidy("percentage used") && Tidy("data units read") && Tidy("power on hours")
  {
  }

  lemma TidyLong()
    ensures Tidy("available spare threshold") && Tidy("data units written")
    ensures Tidy("media and data integrity errors") && Tidy("error information log entries")
  {
  }

  lemma KnownLabelShape(l: string)
    requires FieldId(l).Some?
    ensures Tidy(l)
  {
    hide Tidy;
    TidyShort();
    TidyLong();
  }

  lemma TrimTight(s: string)
    requires s != [] && !IsSpace(s[0]) && !IsSpace(s[|s| - 1])
    ensures TrimSpace(s) == s
  {
  }

  /** Trimming a printed line can only shorten its suffix. */
  lemma PrintedLine(f: Field)
    requires Printable(f)
    ensures TrimSpace(Print(f)) == f.name + ":" + (f.gap + Grouped(f.value) + TrimRight(f.suffix))
  {
    hide FieldId, Lower;
    LabelIds(f.number);
    LabelShape(f.name);
    var number := Grouped(f.value);
    var head := f.name + ":" + f.gap + number;
    assert Print(f) == head + f.suffix;
    assert head[|head| - 1] == number[|number| - 1];
    assert Print(f)[0] == f.name[0];
    TrimRightKeeps(head, f.suffix);
    assert head + TrimRight(f.suffix) == f.name + ":" + (f.gap + number + TrimRight(f.suffix));
  }

  lemma ValueRead(gap: string, n: nat, rest: string)
    requires n <= MAX_INT64 && Follows(Grouped(n), rest)
    requires forall i :: 0 <= i < |gap| ==> gap[i] == ' ' || gap[i] == '\t'
    ensures NvmeValue(TrimSpace(gap + Grouped(n) + rest)) == n
  {
    hide NvmeValue;
    var number := Grouped(n);
    assert gap + number + rest == gap + (number + rest);
    TrimLeftSkips(gap, number + rest);
    assert (number + rest)[0] == number[0];
    TrimRightKeeps(number, rest);
    FollowsTrimmed(number, rest);
    UngroupedValue(n);
    NumberIsRead(number, TrimRight(rest), n);
  }

  lemma FollowsTrimmed(number: string, suffix: string)
    requires Follows(number, suffix)
    ensures Follows(number, TrimRight(suffix))
  {
    TrimRightIsPrefix(suffix);
    var rest := TrimRight(suffix);
    assert rest != [] ==> rest[0] == suffix[0];
  }

  /** A printed field is read back. */
  lemma FieldRoundTrip(f: Field)
    requires Printable(f)
    ensures NvmeLine(Print(f)) == Some(Read(f)) && '\n' !in Print(f)
  {
    hide NvmeValue, FieldId, Lower, TrimSpace, Follows;
    LabelIds(f.number);
    LabelShape(f.name);
    PrintedLine(f);
    FollowsTrimmed(Grouped(f.value), f.suffix);
    var rest := f.gap + Grouped(f.value) + TrimRight(f.suffix);
    var line := TrimSpace(Print(f));
    IndexOfSkips(f.name, ':', rest);
    assert line[..|f.name|] == f.name && line[|f.name| + 1..] == rest;
    TrimTight(f.name);
    ValueRead(f.gap, f.value, TrimRight(f.suffix));
  }

  ghost predicate AllPrintable(fields: seq<Field>) {
    forall i {:trigger fields[i]} :: 0 <= i < |fields| ==> Printable(fields[i])
  }

  function ReadAll(fields: seq<Field>): seq<Attribute> {
    seq(|fields|, i requires 0 <= i < |fields| => Read(fields[i]))
  }

  lemma GatherOne(line: string, parse: string -> Option<Attribute>)
    ensures Gather([line], parse) == if parse(line).Some? then [parse(line).value] else []
  {
    assert [line][..0] == [];
  }

  lemma {:induction false} FieldsRoundTrip(fields: seq<Field>)
    requires fields != [] && AllPrintable(fields)
    ensures NvmeAttributes(PrintAll(fields)) == ReadAll(fields)
  {
    hide NvmeLine, Read, Print, Gather, Split, FieldId, Lower;
    var n := |fields| - 1;
    var last := Print(fields[n]);
    FieldRoundTrip(fields[n]);
    SplitOne(last);
    GatherOne(last, NvmeLine);
    if n > 0 {
      FieldsRoundTrip(fields[..n]);
      ParsingJoined(PrintAll(fields[..n]), last);
      assert ReadAll(fields) == ReadAll(fields[..n]) + [Read(fields[n])];
    } else {
      assert ReadAll(fields) == [Read(fields[0])];
    }
  }

  /** Printing a list of fields and parsing the text returns their IDs and values, in order. */
  lemma NvmeRoundTrip(fields: seq<Field>)
    requires AllPrintable(fields)
    ensures NvmeResult(PrintAll(fields)) == if fields == [] then Err(()) else Ok(ReadAll(fields))
  {
    if fields == [] {
      assert Split("") == [""];
      assert TrimSpace("") == "";
      assert Gather([""], NvmeLine) == [] by {
        assert [""][..0] == [];
      }
    } else {
      FieldsRoundTrip(fields);
    }
  }
}
