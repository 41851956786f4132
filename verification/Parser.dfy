/** The parser as the loops over a line index that the program runs. */
module Parser {
  import opened Contracts
  import opened Text
  import opened UnifiedDiff
  import Grammar

  lemma LinesFrom(lines: seq<string>, i: nat)
    requires i < |lines|
    ensures lines[i..] != [] && lines[i..][0] == lines[i] && lines[i..][1..] == lines[i + 1..]
    ensures |lines[i..]| > 1 <==> i + 1 < |lines|
    ensures i + 1 < |lines| ==> lines[i..][1] == lines[i + 1] && lines[i..][2..] == lines[i + 2..]
  {
  }

  /** The mutable state of the hunk-body loop. */
  datatype Cursor = Cursor(index: nat, source: nat, output: seq<string>, consumed: nat, produced: nat) {
    function ToBody(lines: seq<string>): Body
      requires index <= |lines|
    {
      Body(lines[index..], source, output, consumed, produced)
    }
  }

  /** One hunk line. */
  method ReadLine(lines: seq<string>, original: seq<string>, c: Cursor) returns (step: Step<Cursor>)
    requires c.index < |lines| && c.source <= |original|
    ensures step.Next? ==> c.index < step.state.index <= |lines| && step.state.source <= |original|
    ensures match StepBody(c.ToBody(lines), original)
      case Leave => step.Leave?
      case Raise(e) => step == Raise(e)
      case Next(b) => step.Next? && step.state.ToBody(lines) == b
  {
    LinesFrom(lines, c.index);
    var line := lines[c.index];
    if FILE_HEADER <= line || ReadHeader(RStripBreaks(line)).Some? {
      return Leave;
    }
    if NO_NEWLINE <= line {
      return Next(c.(index := c.index + 1));
    }
    if line == "" {
      return Raise(InvalidHunkLine);
    }
    var noNewline := c.index + 1 < |lines| && NO_NEWLINE <= lines[c.index + 1];
    var payload := if noNewline then RStripBreaks(line[1..]) else line[1..];
    var index := c.index + if noNewline then 2 else 1;
    if line[0] == ' ' {
      if c.source >= |original| || original[c.source] != payload {
        return Raise(ContextMismatch);
      }
      return Next(Cursor(index, c.source + 1, c.output + [payload], c.consumed + 1, c.produced + 1));
    }
    if line[0] == '-' {
      if c.source >= |original| || original[c.source] != payload {
        return Raise(DeletionMismatch);
      }
      return Next(Cursor(index, c.source + 1, c.output, c.consumed + 1, c.produced));
    }
    if line[0] == '+' {
      return Next(Cursor(index, c.source, c.output + [payload], c.consumed, c.produced + 1));
    }
    step := Raise(InvalidHunkLine);
  }

  /** The hunk-body loop: every line until a file header, a hunk header or the end. */
  method ReadBody(lines: seq<string>, original: seq<string>, start: Cursor) returns (r: Result<Cursor, PatchError>)
    requires start.index <= |lines| && start.source <= |original|
    ensures match ParseBody(start.ToBody(lines), original)
      case Failure(e) => r == Failure(e)
      case Success(b) => r.Success? && start.index <= r.value.index <= |lines| && r.value.ToBody(lines) == b
  {
    var c := start;
    while c.index < |lines|
      invariant start.index <= c.index <= |lines| && c.source <= |original|
      invariant ParseBody(c.ToBody(lines), original) == ParseBody(start.ToBody(lines), original)
      decreases |lines| - c.index
    {
      var step := ReadLine(lines, original, c);
      match step {
        case Leave => break;
        case Raise(e) => return Failure(e);
        case Next(c') => c := c';
      }
    }
    r := Success(c);
  }

  /** The mutable state of the hunk loop. */
  datatype Place = Place(index: nat, source: nat, output: seq<string>, sawHunk: bool) {
    function ToHunks(lines: seq<string>): Hunks
      requires index <= |lines|
    {
      Hunks(lines[index..], source, output, sawHunk)
    }
  }

  /** One hunk after its header: placing it, its body, and the two count checks. */
  method ReadOneHunk(lines: seq<string>, original: seq<string>, header: HeaderFields, p: Place)
    returns (step: Step<Place>)
    requires p.index < |lines| && p.source <= |original|
    ensures step.Next? ==> p.index < step.state.index <= |lines| && step.state.source <= |original|
    ensures match ReadHunk(header, p.ToHunks(lines), original)
      case Leave => false
      case Raise(e) => step == Raise(e)
      case Next(s) => step.Next? && step.state.ToHunks(lines) == s
  {
    LinesFrom(lines, p.index);
    var target := TargetCursor(header);
    if target < p.source || target > |original| {
      return Raise(InvalidOffset);
    }
    var r := ReadBody(lines, original, Cursor(p.index + 1, target, p.output + original[p.source..target], 0, 0));
    if r.Failure? {
      return Raise(r.error);
    }
    if r.value.consumed != header.oldCount || r.value.produced != header.newCount {
      return Raise(CountMismatch);
    }
    step := Next(Place(r.value.index, r.value.source, r.value.output, true));
  }

  /** One iteration of the hunk loop. */
  method ReadNext(lines: seq<string>, original: seq<string>, p: Place) returns (step: Step<Place>)
    requires p.index < |lines| && p.source <= |original|
    ensures step.Next? ==> p.index < step.state.index <= |lines| && step.state.source <= |original|
    ensures match StepHunks(p.ToHunks(lines), original)
      case Leave => step.Leave?
      case Raise(e) => step == Raise(e)
      case Next(s) => step.Next? && step.state.ToHunks(lines) == s
  {
    LinesFrom(lines, p.index);
    if FILE_HEADER <= lines[p.index] {
      return Leave;
    }
    var header := ReadHeader(RStripBreaks(lines[p.index]));
    if header.None? {
      if IsBlank(lines[p.index]) {
        return Next(p.(index := p.index + 1));
      }
      return Raise(MalformedHunkHeader);
    }
    step := ReadOneHunk(lines, original, header.value, p);
  }

  /** The hunk loop of one file. */
  method ReadHunks(lines: seq<string>, start: nat, original: seq<string>) returns (r: Result<Place, PatchError>)
    requires start <= |lines|
    ensures match ParseHunks(Hunks(lines[start..], 0, [], false), original)
      case Failure(e) => r == Failure(e)
      case Success(s) =>
        && r.Success? && start <= r.value.index <= |lines| && r.value.source <= |original|
        && r.value.ToHunks(lines) == s
  {
    var p := Place(start, 0, [], false);
    while p.index < |lines|
      invariant start <= p.index <= |lines| && p.source <= |original|
      invariant ParseHunks(p.ToHunks(lines), original) == ParseHunks(Hunks(lines[start..], 0, [], false), original)
      decreases |lines| - p.index
    {
      var step := ReadNext(lines, original, p);
      match step {
        case Leave => break;
        case Raise(e) => return Failure(e);
        case Next(p') => p := p';
      }
    }
    r := Success(p);
  }

  /** One file after the check of its first header line: its headers and its hunks.
      Returns the operation and the index it stopped at. */
  method ReadFile(lines: seq<string>, start: nat, source: Source) returns (r: Result<(PatchOp, nat), PatchError>)
    requires start < |lines| && FILE_HEADER <= lines[start]
    ensures lines[start..] != [] && FILE_HEADER <= lines[start..][0]
    ensures match ParseFile(lines[start..], source)
      case Failure(e) => r == Failure(e)
      case Success((op, rest)) =>
        r.Success? && r.value.0 == op && start < r.value.1 <= |lines| && lines[r.value.1..] == rest
  {
    LinesFrom(lines, start);
    if start + 1 >= |lines| || !(NEW_HEADER <= lines[start + 1]) {
      return Failure(MissingNewHeader);
    }
    var target := ReadTarget(RStripBreaks(lines[start][4..]), RStripBreaks(lines[start + 1][4..]), source);
    if target.Failure? {
      return Failure(target.error);
    }
    var t := target.value;
    var hunks := ReadHunks(lines, start + 2, t.original);
    if hunks.Failure? {
      return Failure(hunks.error);
    }
    if !hunks.value.sawHunk && (t.kind.Modify? || t.original != []) {
      return Failure(NoHunks);
    }
    var output := hunks.value.output + t.original[hunks.value.source..];
    var content := if t.kind.Delete? then None else Some(Join(output));
    r := Success((PatchOp(t.path, t.kind, content, t.expected), hunks.value.index));
  }

  /** The file loop. Its result is the parsing function's, whose soundness and round trip
      are proved separately; it accepts exactly what the grammar spells. */
  method ParseUnifiedDiff(text: string, source: Source) returns (result: Result<seq<PatchOp>, PatchError>)
    ensures result == ParsePatch(text, source)
    ensures forall ops :: result == Success(ops) <==> Grammar.TextSpelled(text, source, ops)
  {
    forall ops ensures ParsePatch(text, source) == Success(ops) <==> Grammar.TextSpelled(text, source, ops) {
      Grammar.AcceptedExactly(text, source, ops);
    }
    if IsBlank(text) {
      return Failure(EmptyPatch);
    }
    if HasBinaryMarker(text) {
      return Failure(BinaryPatch);
    }
    var lines := SplitLines(text);
    var index := 0;
    var operations: seq<PatchOp> := [];
    assert lines[0..] == lines;
    while index < |lines|
      invariant 0 <= index <= |lines|
      invariant ParseFiles(lines[index..], source, operations) == ParseFiles(lines, source, [])
    {
      LinesFrom(lines, index);
      if !(FILE_HEADER <= lines[index]) {
        if !IsBlank(lines[index]) {
          return Failure(UnexpectedLine);
        }
        index := index + 1;
        continue;
      }
      var file := ReadFile(lines, index, source);
      if file.Failure? {
        return Failure(file.error);
      }
      operations := operations + [file.value.0];
      index := file.value.1;
    }
    if operations == [] {
      return Failure(NoOperations);
    }
    result := Success(operations);
  }
}
