/** Texts as strings, their lines, and decimal numbers. Lines end at `\n`; texts
    with any other line separator are outside the model (see `PlainText`). */
module Text {

  /** Line separators other than `\n` that the program's line splitting also honours. */
  const OTHER_BREAKS := ['\r', '\U{0B}', '\U{0C}', '\U{1C}', '\U{1D}', '\U{1E}', '\U{85}', '\U{2028}', '\U{2029}']

  predicate PlainText(text: string) {
    forall c | c in text :: c !in OTHER_BREAKS
  }

  predicate IsSpace(c: char) {
    c == ' ' || c == '\t' || c == '\n' || c == '\U{1F}' || c == '\U{A0}' || c in OTHER_BREAKS
    || c == '\U{1680}' || '\U{2000}' <= c <= '\U{200A}' || c == '\U{202F}' || c == '\U{205F}' || c == '\U{3000}'
  }

  predicate IsBlank(s: string) {
    forall c | c in s :: IsSpace(c)
  }

  /** A line with its `\n`. */
  predicate WholeLine(line: string) {
    line != "" && line[|line| - 1] == '\n' && '\n' !in line[..|line| - 1]
  }

  /** A last line that lacks its `\n`. */
  predicate PartialLine(line: string) {
    line != "" && '\n' !in line
  }

  /** The lines of some text: only the last may be partial. */
  predicate TextLines(lines: seq<string>) {
    forall i | 0 <= i < |lines| :: WholeLine(lines[i]) || (i == |lines| - 1 && PartialLine(lines[i]))
  }

  function Join(lines: seq<string>): string {
    if lines == [] then "" else lines[0] + Join(lines[1..])
  }

  /** The length of the first line, its `\n` included. */
  function FirstLineLength(text: string): (n: nat)
    requires text != ""
    ensures 1 <= n <= |text|
    ensures WholeLine(text[..n]) || (n == |text| && PartialLine(text))
  {
    if text[0] == '\n' || |text| == 1 then
      assert text[..1] == [text[0]];
      1
    else
      var n := FirstLineLength(text[1..]);
      assert text[..1 + n] == [text[0]] + text[1..][..n];
      1 + n
  }

  function SplitLines(text: string): seq<string> {
    if text == "" then []
    else var n := FirstLineLength(text); [text[..n]] + SplitLines(text[n..])
  }

  lemma {:induction false} JoinOfSplit(text: string)
    ensures Join(SplitLines(text)) == text && TextLines(SplitLines(text))
    decreases |text|
  {
    if text != "" {
      var n := FirstLineLength(text);
      JoinOfSplit(text[n..]);
      assert text == text[..n] + text[n..];
      if n == |text| { assert SplitLines(text[n..]) == []; }
    }
  }

  lemma {:induction false} FirstLineOf(line: string, rest: string)
    requires WholeLine(line) || (PartialLine(line) && rest == "")
    ensures FirstLineLength(line + rest) == |line|
    decreases |line|
  {
    if |line| > 1 {
      assert line[0] == line[..|line| - 1][0];
      assert line[0] != '\n';
      var tail := line[1..];
      if WholeLine(line) {
        assert tail[..|tail| - 1] == line[..|line| - 1][1..];
      }
      FirstLineOf(tail, rest);
      assert (line + rest)[1..] == tail + rest;
    } else {
      assert line + rest == [line[0]] + rest;
    }
  }

  lemma {:induction false} SplitOfJoin(lines: seq<string>)
    requires TextLines(lines)
    ensures SplitLines(Join(lines)) == lines
    decreases |lines|
  {
    if lines != [] {
      SplitOfJoin(lines[1..]);
      var line, rest := lines[0], Join(lines[1..]);
      FirstLineOf(line, rest);
      assert (line + rest)[..|line|] == line && (line + rest)[|line|..] == rest;
    }
  }

  lemma {:induction false} JoinAppend(a: seq<string>, b: seq<string>)
    ensures Join(a + b) == Join(a) + Join(b)
    decreases |a|
  {
    if a == [] {
      assert a + b == b;
    } else {
      JoinAppend(a[1..], b);
      assert (a + b)[1..] == a[1..] + b;
      assert a[0] + (Join(a[1..]) + Join(b)) == (a[0] + Join(a[1..])) + Join(b);
    }
  }

  /** Drops trailing carriage returns and newlines. */
  function RStripBreaks(s: string): string {
    if s != "" && (s[|s| - 1] == '\n' || s[|s| - 1] == '\r') then RStripBreaks(s[..|s| - 1]) else s
  }

  lemma RStripOneBreak(s: string)
    requires s == "" || (s[|s| - 1] != '\n' && s[|s| - 1] != '\r')
    ensures RStripBreaks(s + "\n") == s && RStripBreaks(s) == s
  {
    assert (s + "\n")[..|s|] == s;
  }

  /** Exactly the trailing breaks go, however many. */
  lemma {:induction false} RStripAllBreaks(s: string, breaks: string)
    requires s == "" || (s[|s| - 1] != '\n' && s[|s| - 1] != '\r')
    requires forall c | c in breaks :: c == '\n' || c == '\r'
    ensures RStripBreaks(s + breaks) == s
    decreases |breaks|
  {
    if breaks == "" {
      assert s + breaks == s;
    } else {
      var init := breaks[..|breaks| - 1];
      assert forall c | c in init :: c in breaks;
      RStripAllBreaks(s, init);
      assert (s + breaks)[..|s + breaks| - 1] == s + init;
      assert breaks[|breaks| - 1] in breaks;
    }
  }

  // ---------------------------------------------------------------------------
  // Decimal numbers
  // ---------------------------------------------------------------------------

  predicate IsDigit(c: char) {
    '0' <= c <= '9'
  }

  function Decimal(n: nat): (s: string)
    ensures s != "" && forall c | c in s :: IsDigit(c)
  {
    var d := [('0' as int + n % 10) as char];
    if n < 10 then d else Decimal(n / 10) + d
  }

  function Digits(s: string): nat
    requires forall c | c in s :: IsDigit(c)
  {
    if s == "" then 0
    else
      var init, last := s[..|s| - 1], s[|s| - 1];
      assert forall c | c in init :: c in s;
      assert last in s && IsDigit(last);
      Digits(init) * 10 + (last as int - '0' as int)
  }

  lemma {:induction false} DigitsOfDecimal(n: nat)
    ensures Digits(Decimal(n)) == n
  {
    var d := [('0' as int + n % 10) as char];
    if n >= 10 {
      DigitsOfDecimal(n / 10);
      assert (Decimal(n / 10) + d)[..|Decimal(n / 10)|] == Decimal(n / 10);
    } else {
      assert d[..0] == "";
    }
  }

  /** The length of the longest prefix of digits. */
  function DigitRun(s: string): (n: nat)
    ensures n <= |s| && forall c | c in s[..n] :: IsDigit(c)
  {
    if s != "" && IsDigit(s[0]) then
      assert s[..1 + DigitRun(s[1..])] == [s[0]] + s[1..][..DigitRun(s[1..])];
      1 + DigitRun(s[1..])
    else 0
  }

  lemma {:induction false} DigitRunOf(digits: string, rest: string)
    requires forall c | c in digits :: IsDigit(c)
    requires rest == "" || !IsDigit(rest[0])
    ensures DigitRun(digits + rest) == |digits|
    decreases |digits|
  {
    if digits == "" {
      assert digits + rest == rest;
    } else {
      assert digits[0] in digits;
      DigitRunOf(digits[1..], rest);
      assert (digits + rest)[1..] == digits[1..] + rest;
    }
  }
}
