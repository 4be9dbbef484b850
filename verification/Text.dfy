/** The text functions of Go's standard library that the parsers use. */
module Text {
  import opened Wrappers
  import opened Decimal

  /** Unicode white space. */
  predicate IsSpace(c: char) {
    || '\t' <= c <= '\r' || c == ' ' || c == '\U{0085}' || c == '\U{00A0}' || c == '\U{1680}'
    || '\U{2000}' <= c <= '\U{200A}' || c == '\U{2028}' || c == '\U{2029}' || c == '\U{202F}' || c == '\U{205F}'
    || c == '\U{3000}'
  }

  function TrimLeft(s: string): string {
    if s != [] && IsSpace(s[0]) then TrimLeft(s[1..]) else s
  }

  function TrimRight(s: string): string {
    if s != [] && IsSpace(s[|s| - 1]) then TrimRight(s[..|s| - 1]) else s
  }

  function TrimSpace(s: string): string {
    TrimRight(TrimLeft(s))
  }

  /** Lower case, as far as it can turn a letter into an ASCII one: besides A to Z, two letters beyond ASCII. */
  function LowerChar(c: char): char {
    if 'A' <= c <= 'Z' then (c as int - 'A' as int + 'a' as int) as char
    else if c == '\U{0130}' then 'i'
    else if c == '\U{212A}' then 'k'
    else c
  }

  function Lower(s: string): (l: string)
    ensures |l| == |s| && forall i :: 0 <= i < |s| ==> l[i] == LowerChar(s[i])
  {
    seq(|s|, i requires 0 <= i < |s| => LowerChar(s[i]))
  }

  /** The first place of `c`, or the length if there is none. */
  function IndexOf(s: string, c: char): (i: nat)
    ensures i <= |s| && c !in s[..i] && (i < |s| ==> s[i] == c)
  {
    if s == [] || s[0] == c then 0 else 1 + IndexOf(s[1..], c)
  }

  /** The last place of `c`, or -1. */
  function LastIndexOf(s: string, c: char): (i: int)
    ensures -1 <= i < |s| && (i >= 0 ==> s[i] == c)
  {
    if s == [] then -1 else if s[|s| - 1] == c then |s| - 1 else LastIndexOf(s[..|s| - 1], c)
  }

  function HasPrefix(s: string, p: string): bool {
    |p| <= |s| && s[..|p|] == p
  }

  function Split(s: string): (lines: seq<string>)
    ensures |lines| > 0
    decreases |s|
  {
    var i := IndexOf(s, '\n');
    if i == |s| then [s] else [s[..i]] + Split(s[i + 1..])
  }

  function Without(s: string, c: char): (r: string)
    ensures |r| <= |s| && c !in r
  {
    if s == [] then [] else if s[0] == c then Without(s[1..], c) else [s[0]] + Without(s[1..], c)
  }

  /** How many digits the text starts with. */
  function DigitRun(s: string): (n: nat)
    ensures n <= |s| && AllDigits(s[..n]) && (n < |s| ==> !IsDigit(s[n]))
  {
    if s != [] && IsDigit(s[0]) then
      var n := 1 + DigitRun(s[1..]);
      assert s[..n] == [s[0]] + s[1..][..n - 1];
      n
    else 0
  }

  /** The run of non-space characters the text ends with. */
  function LastField(s: string): string {
    if s != [] && !IsSpace(s[|s| - 1]) then LastField(s[..|s| - 1]) + [s[|s| - 1]] else []
  }

  /** ParseInt of a run of digits, in base 10 and 64 bits. */
  function ParseDigits(s: string): Option<int>
    requires AllDigits(s)
  {
    if s == [] || Value(s) > MAX_INT64 then None else Some(Value(s))
  }

  /** Atoi: an optional sign, then digits. */
  function Atoi(s: string): (n: Option<int>)
    ensures n.Some? ==> MIN_INT64 <= n.value <= MAX_INT64
  {
    var signed := s != [] && (s[0] == '-' || s[0] == '+');
    var digits := if signed then s[1..] else s;
    if digits == [] || DigitRun(digits) < |digits| then None
    else
      assert digits[..DigitRun(digits)] == digits;
      var n: int := if s[0] == '-' then 0 - Value(digits) else Value(digits);
      if MIN_INT64 <= n <= MAX_INT64 then Some(n) else None
  }

  predicate IsHexDigit(c: char) {
    IsDigit(c) || 'a' <= c <= 'f' || 'A' <= c <= 'F'
  }

  function HexDigitValue(c: char): nat
    requires IsHexDigit(c)
  {
    if IsDigit(c) then c as int - '0' as int
    else if 'a' <= c <= 'f' then c as int - 'a' as int + 10
    else c as int - 'A' as int + 10
  }

  function HexValue(s: string): Option<nat> {
    if s == [] then Some(0)
    else
      var init := HexValue(s[..|s| - 1]);
      var c := s[|s| - 1];
      if init.None? || !IsHexDigit(c) then None else Some(init.value * 16 + HexDigitValue(c))
  }

  /** ParseInt in base 16 and 64 bits, which takes a sign. */
  function ParseHex(s: string): Option<int> {
    var signed := s != [] && (s[0] == '-' || s[0] == '+');
    var digits := if signed then s[1..] else s;
    if digits == [] || HexValue(digits).None? then None
    else
      var n: int := if s[0] == '-' then 0 - HexValue(digits).value else HexValue(digits).value;
      if MIN_INT64 <= n <= MAX_INT64 then Some(n) else None
  }

  /** The letter in its other case, for the small letters of ASCII. */
  function Capital(c: char): char
    requires 'a' <= c <= 'z'
  {
    (c as int - 32) as char
  }

  /** A text of small letters and other ASCII signs is what any mixture of its cases is lowered to. */
  lemma LowerOfAnyCase(s: string, l: string)
    requires |s| == |l|
    requires forall i :: 0 <= i < |l| ==>
               && l[i] as int < 128 && !('A' <= l[i] <= 'Z')
               && (s[i] == l[i] || ('a' <= l[i] <= 'z' && s[i] == Capital(l[i])))
    ensures Lower(s) == l
  {
    forall i | 0 <= i < |l| ensures Lower(s)[i] == l[i] {
      assert Lower(s)[i] == LowerChar(s[i]);
    }
  }

  /** A number is read exactly from one digit or more, as long as it fits. */
  lemma ParseDigitsExactly(s: string)
    requires AllDigits(s)
    ensures ParseDigits(s).Some? <==> |s| > 0 && Value(s) <= 9223372036854775807
    ensures ParseDigits(s).Some? ==> ParseDigits(s).value == Value(s)
  {
  }

  /** Atoi reads exactly digits, one or more, with at most a sign before them, as long as the number fits. */
  lemma AtoiExactly(s: string, sign: string, digits: string)
    requires s == sign + digits && (digits != [] ==> digits[0] != '-' && digits[0] != '+')
    requires sign == "" || sign == "-" || sign == "+"
    ensures Atoi(s).Some?
            <==> |digits| > 0 && AllDigits(digits)
                 && (if sign == "-" then Value(digits) <= 9223372036854775808 else Value(digits) <= 9223372036854775807)
    ensures Atoi(s).Some? ==> Atoi(s).value == if sign == "-" then 0 - Value(digits) else Value(digits)
  {
    assert sign != "" ==> s[0] == sign[0] && s[1..] == digits;
    assert sign == "" ==> s == digits;
    if DigitRun(digits) == |digits| {
      assert digits[..|digits|] == digits;
    } else {
      assert !IsDigit(digits[DigitRun(digits)]);
    }
  }

  /** Digits in base 16 have a value exactly when all are such digits. */
  lemma {:induction false} HexValueExactly(s: string)
    ensures HexValue(s).Some? <==> forall i :: 0 <= i < |s| ==> IsHexDigit(s[i])
  {
    if s != [] {
      HexValueExactly(s[..|s| - 1]);
    }
  }

  // ---- Facts about them -------------------------------------------------------

  lemma {:induction false} IndexOfSkips(a: string, c: char, b: string)
    requires c !in a
    ensures IndexOf(a + [c] + b, c) == |a|
  {
    if a != [] {
      assert (a + [c] + b)[1..] == a[1..] + [c] + b;
      IndexOfSkips(a[1..], c, b);
    }
  }

  lemma IndexOfNone(s: string, c: char)
    requires c !in s
    ensures IndexOf(s, c) == |s|
  {
  }

  lemma SplitAt(a: string, b: string)
    requires '\n' !in a
    ensures Split(a + "\n" + b) == [a] + Split(b)
  {
    var s := a + "\n" + b;
    IndexOfSkips(a, '\n', b);
    assert s[..|a|] == a && s[|a| + 1..] == b;
  }

  lemma SplitOne(a: string)
    requires '\n' !in a
    ensures Split(a) == [a]
  {
    IndexOfNone(a, '\n');
  }

  /** Splitting two texts joined by a newline gives the lines of both. */
  lemma {:induction false} SplitJoined(a: string, b: string)
    ensures Split(a + "\n" + b) == Split(a) + Split(b)
    decreases |a|
  {
    hide Split;
    var i := IndexOf(a, '\n');
    if i < |a| {
      var line, rest := a[..i], a[i + 1..];
      assert a == line + "\n" + rest;
      assert a + "\n" + b == line + "\n" + (rest + "\n" + b);
      SplitJoined(rest, b);
      SplitAt(line, rest + "\n" + b);
      SplitAt(line, rest);
    } else {
      assert a[..i] == a;
      SplitOne(a);
      SplitAt(a, b);
    }
  }

  lemma {:induction false} TrimRightKeeps(a: string, b: string)
    requires a != [] && !IsSpace(a[|a| - 1])
    ensures TrimRight(a + b) == a + TrimRight(b)
    decreases |b|
  {
    var s := a + b;
    if b == [] {
      assert s == a;
    } else {
      assert s[|s| - 1] == b[|b| - 1];
      if IsSpace(b[|b| - 1]) {
        assert s[..|s| - 1] == a + b[..|b| - 1];
        TrimRightKeeps(a, b[..|b| - 1]);
      }
    }
  }

  lemma {:induction false} TrimLeftSkips(a: string, b: string)
    requires forall i :: 0 <= i < |a| ==> IsSpace(a[i])
    ensures TrimLeft(a + b) == TrimLeft(b)
  {
    if a == [] {
      assert a + b == b;
    } else {
      assert (a + b)[1..] == a[1..] + b;
      TrimLeftSkips(a[1..], b);
    }
  }

  /** Trimming on the right leaves a prefix, and ends it with no space. */
  lemma {:induction false} TrimRightIsPrefix(s: string)
    ensures |TrimRight(s)| <= |s| && TrimRight(s) == s[..|TrimRight(s)|]
    ensures TrimRight(s) != [] ==> !IsSpace(TrimRight(s)[|TrimRight(s)| - 1])
    ensures TrimRight(TrimRight(s)) == TrimRight(s)
  {
    if s != [] && IsSpace(s[|s| - 1]) {
      TrimRightIsPrefix(s[..|s| - 1]);
    }
  }

  lemma {:induction false} WithoutConcat(a: string, b: string, c: char)
    ensures Without(a + b, c) == Without(a, c) + Without(b, c)
  {
    if a == [] {
      assert a + b == b;
    } else {
      assert (a + b)[1..] == a[1..] + b;
      WithoutConcat(a[1..], b, c);
    }
  }

  lemma {:induction false} WithoutNone(s: string, c: char)
    requires c !in s
    ensures Without(s, c) == s
  {
    if s != [] {
      WithoutNone(s[1..], c);
    }
  }

  lemma {:induction false} DigitRunStops(d: string, rest: string)
    requires AllDigits(d) && (rest != [] ==> !IsDigit(rest[0]))
    ensures DigitRun(d + rest) == |d|
  {
    if d == [] {
      assert d + rest == rest;
    } else {
      assert (d + rest)[1..] == d[1..] + rest;
      DigitRunStops(d[1..], rest);
    }
  }

  /** Digits written one after the other: the value of the whole. */
  lemma {:induction false} ValueConcat(a: string, b: string)
    requires AllDigits(a) && AllDigits(b)
    ensures Value(a + b) == Shifted(Value(a), |b|) + Value(b)
  {
    if b == [] {
      assert a + b == a;
    } else {
      var init, c := b[..|b| - 1], b[|b| - 1];
      assert AllDigits(a + init) && AllDigits(init) && IsDigit(c);
      assert a + b == a + init + [c] && b == init + [c];
      hide Value, AllDigits, IsDigit, DigitValue;
      ValueConcat(a, init);
      ValueAppend(a + init, c);
      ValueAppend(init, c);
    }
  }

  /** A number with digits to follow. */
  function Shifted(x: nat, digits: nat): nat {
    if digits == 0 then x else 10 * Shifted(x, digits - 1)
  }

  /** Three digits, zero-padded: `%03d` below a thousand. */
  function Pad3(n: nat): (s: string)
    requires n < 1000
    ensures |s| == 3 && AllDigits(s)
  {
    [DigitChar(n / 100), DigitChar(n / 10 % 10), DigitChar(n % 10)]
  }

  lemma ThreeDigits(n: nat)
    ensures n == (n / 100 * 10 + n / 10 % 10) * 10 + n % 10
  {
    var q := n / 10;
    assert n == q * 10 + n % 10 && q == q / 10 * 10 + q % 10 && q / 10 == n / 100;
  }

  lemma Pad3Value(n: nat)
    requires n < 1000
    ensures Value(Pad3(n)) == n
  {
    var i, j, k := n / 100, n / 10 % 10, n % 10;
    ThreeDigits(n);
    DigitsValue(i, j, k);
  }

  lemma DigitsValue(i: nat, j: nat, k: nat)
    requires i < 10 && j < 10 && k < 10
    ensures Value([DigitChar(i), DigitChar(j), DigitChar(k)]) == (i * 10 + j) * 10 + k
  {
    var a, b, c := DigitChar(i), DigitChar(j), DigitChar(k);
    ValueAppend([], a);
    ValueAppend([a], b);
    ValueAppend([a, b], c);
    assert [] + [a] == [a] && [a] + [b] == [a, b] && [a, b] + [c] == [a, b, c];
  }
}
