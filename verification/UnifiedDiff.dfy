/** The unified-diff text format: what the printer emits and what the parser reads,
    both as functions over lines. */
module UnifiedDiff {
  import opened Contracts
  import opened Text

  datatype Edit = Keep(line: string) | Del(line: string) | Add(line: string)

  /** One hunk: the 0-based positions of its ranges and its edits. */
  datatype Hunk = Hunk(oldStart: nat, newStart: nat, edits: seq<Edit>)

  datatype ChangeKind = Create | Modify | Delete

  /** `expected` is the content the file must have before the change. */
  datatype PatchOp = PatchOp(path: Path, kind: ChangeKind, content: Option<string>, expected: Option<string>)

  datatype PatchError =
    | EmptyPatch | BinaryPatch | UnexpectedLine | MissingNewHeader | UnsafePath | BothNull | Rename
    | SourceMissing | NotInState | InvalidOffset | ContextMismatch | DeletionMismatch | InvalidHunkLine
    | CountMismatch | MalformedHunkHeader | NoHunks | NoOperations

  const FILE_HEADER := "--- "
  const NEW_HEADER := "+++ "
  const NO_NEWLINE := "\\ No newline at end of file"

  // ---------------------------------------------------------------------------
  // Edits
  // ---------------------------------------------------------------------------

  /** The old lines an edit list consumes. */
  function OldOf(es: seq<Edit>): seq<string> {
    if es == [] then []
    else if es[0].Add? then OldOf(es[1..])
    else [es[0].line] + OldOf(es[1..])
  }

  /** The new lines an edit list produces. */
  function NewOf(es: seq<Edit>): seq<string> {
    if es == [] then []
    else if es[0].Del? then NewOf(es[1..])
    else [es[0].line] + NewOf(es[1..])
  }

  /** Hunks in order, each consuming exactly what `original` holds at its place. */
  predicate Fits(original: seq<string>, cursor: nat, hs: seq<Hunk>)
    decreases |hs|
  {
    hs == [] ||
    var start, gone := hs[0].oldStart, OldOf(hs[0].edits);
    && cursor <= start && start + |gone| <= |original|
    && original[start..start + |gone|] == gone
    && Fits(original, start + |gone|, hs[1..])
  }

  /** `original` from `cursor` on, every hunk's old lines replaced by its new lines. */
  function Splice(original: seq<string>, cursor: nat, hs: seq<Hunk>): seq<string>
    requires cursor <= |original| && Fits(original, cursor, hs)
    decreases |hs|
  {
    if hs == [] then original[cursor..]
    else
      var h := hs[0];
      original[cursor..h.oldStart] + NewOf(h.edits) + Splice(original, h.oldStart + |OldOf(h.edits)|, hs[1..])
  }

  function OldCount(hs: seq<Hunk>): nat {
    if hs == [] then 0 else |OldOf(hs[0].edits)| + OldCount(hs[1..])
  }

  function NewCount(hs: seq<Hunk>): nat {
    if hs == [] then 0 else |NewOf(hs[0].edits)| + NewCount(hs[1..])
  }

  lemma {:induction false} SpliceLength(original: seq<string>, cursor: nat, hs: seq<Hunk>)
    requires cursor <= |original| && Fits(original, cursor, hs)
    ensures |Splice(original, cursor, hs)| == |original| - cursor + NewCount(hs) - OldCount(hs)
    decreases |hs|
  {
    if hs != [] {
      SpliceLength(original, hs[0].oldStart + |OldOf(hs[0].edits)|, hs[1..]);
    }
  }

  // ---------------------------------------------------------------------------
  // Printing
  // ---------------------------------------------------------------------------

  function Prefix(e: Edit): char {
    match e
    case Keep(_) => ' '
    case Del(_) => '-'
    case Add(_) => '+'
  }

  /** The text of an edit's patch line after its prefix. */
  function PrintedText(e: Edit): string {
    if e.line != "" && e.line[|e.line| - 1] == '\n' then e.line else e.line + "\n"
  }

  /** An edit's patch line, with the marker line when its text lacks a newline. */
  function PrintEdit(e: Edit): seq<string> {
    var line := [Prefix(e)] + PrintedText(e);
    if e.line != "" && e.line[|e.line| - 1] == '\n' then [line] else [line, NO_NEWLINE + "\n"]
  }

  function PrintEdits(es: seq<Edit>): seq<string> {
    if es == [] then [] else PrintEdit(es[0]) + PrintEdits(es[1..])
  }

  /** POSIX ranges count from one; an empty range names the line before it. */
  function FormatRange(start: nat, length: nat): string {
    if length == 1 then Decimal(start + 1)
    else if length == 0 then Decimal(start) + ",0"
    else Decimal(start + 1) + "," + Decimal(length)
  }

  function HunkHeader(h: Hunk): string {
    "@@ -" + FormatRange(h.oldStart, |OldOf(h.edits)|) + " +" + FormatRange(h.newStart, |NewOf(h.edits)|) + " @@"
  }

  function PrintHunk(h: Hunk): seq<string> {
    [HunkHeader(h) + "\n"] + PrintEdits(h.edits)
  }

  function PrintHunks(hs: seq<Hunk>): seq<string> {
    if hs == [] then [] else PrintHunk(hs[0]) + PrintHunks(hs[1..])
  }

  // ---------------------------------------------------------------------------
  // Parsing
  // ---------------------------------------------------------------------------

  datatype HeaderFields = HeaderFields(oldStart: nat, oldCount: nat, newCount: nat)

  /** A decimal number and what follows it. */
  function ReadNumber(s: string): Option<(nat, string)> {
    var n := DigitRun(s);
    if n == 0 then None else Some((Digits(s[..n]), s[n..]))
  }

  /** A start and an optional count, which defaults to one. */
  function ReadRange(s: string): Option<(nat, nat, string)> {
    match ReadNumber(s)
    case None => None
    case Some((start, rest)) =>
      if rest == "" || rest[0] != ',' then Some((start, 1, rest))
      else
        match ReadNumber(rest[1..])
        case None => None
        case Some((count, rest')) => Some((start, count, rest'))
  }

  /** The hunk-header pattern, applied to a line without its trailing breaks. */
  function ReadHeader(s: string): Option<HeaderFields> {
    if !("@@ -" <= s) then None
    else
      match ReadRange(s[4..])
      case None => None
      case Some((oldStart, oldCount, rest)) =>
        if !(" +" <= rest) then None
        else
          match ReadRange(rest[2..])
          case None => None
          case Some((_, newCount, rest')) =>
            if " @@" <= rest' && (|rest'| == 3 || rest'[3] == ' ') then Some(HeaderFields(oldStart, oldCount, newCount))
            else None
  }

  predicate EndsHunk(line: string) {
    FILE_HEADER <= line || ReadHeader(RStripBreaks(line)).Some?
  }

  /** The state of the hunk-body loop: remaining lines, source cursor, output,
      and the counts of old lines consumed and new lines produced. */
  datatype Body = Body(rest: seq<string>, cursor: nat, output: seq<string>, consumed: nat, produced: nat)

  /** One iteration of a parser loop: leave it, go on, or raise. */
  datatype Step<+S> = Leave | Next(state: S) | Raise(error: PatchError)

  /** One line of a hunk body, together with the marker line that may follow it. */
  function StepBody(b: Body, original: seq<string>): (s: Step<Body>)
    requires b.cursor <= |original|
    ensures s.Next? ==> |s.state.rest| < |b.rest| && b.cursor <= s.state.cursor <= |original|
  {
    if b.rest == [] || EndsHunk(b.rest[0]) then Leave
    else if NO_NEWLINE <= b.rest[0] then Next(b.(rest := b.rest[1..]))
    else
      var line := b.rest[0];
      var noNewline := |b.rest| > 1 && NO_NEWLINE <= b.rest[1];
      var rest := b.rest[if noNewline then 2 else 1..];
      if line == "" then Raise(InvalidHunkLine)
      else
        var payload := if noNewline then RStripBreaks(line[1..]) else line[1..];
        var matches := b.cursor < |original| && original[b.cursor] == payload;
        if line[0] == ' ' then
          if !matches then Raise(ContextMismatch)
          else Next(Body(rest, b.cursor + 1, b.output + [payload], b.consumed + 1, b.produced + 1))
        else if line[0] == '-' then
          if !matches then Raise(DeletionMismatch)
          else Next(Body(rest, b.cursor + 1, b.output, b.consumed + 1, b.produced))
        else if line[0] == '+' then
          Next(Body(rest, b.cursor, b.output + [payload], b.consumed, b.produced + 1))
        else Raise(InvalidHunkLine)
  }

  function ParseBody(b: Body, original: seq<string>): (r: Result<Body, PatchError>)
    requires b.cursor <= |original|
    ensures r.Success? ==> |r.value.rest| <= |b.rest| && b.cursor <= r.value.cursor <= |original|
    decreases |b.rest|
  {
    match StepBody(b, original)
    case Leave => Success(b)
    case Raise(e) => Failure(e)
    case Next(b') => ParseBody(b', original)
  }

  /** The state of the hunk loop of one file. */
  datatype Hunks = Hunks(rest: seq<string>, cursor: nat, output: seq<string>, sawHunk: bool)

  /** The 0-based line a hunk is applied at. */
  function TargetCursor(h: HeaderFields): nat {
    if h.oldStart == 0 then 0 else h.oldStart - 1
  }

  /** One hunk, its header already read: its body and the two count checks. */
  function ReadHunk(h: HeaderFields, s: Hunks, original: seq<string>): (r: Step<Hunks>)
    requires s.rest != [] && s.cursor <= |original|
    ensures r.Next? ==> |r.state.rest| < |s.rest| && s.cursor <= r.state.cursor <= |original|
  {
    var target := TargetCursor(h);
    if target < s.cursor || target > |original| then Raise(InvalidOffset)
    else
      match ParseBody(Body(s.rest[1..], target, s.output + original[s.cursor..target], 0, 0), original)
      case Failure(e) => Raise(e)
      case Success(b) =>
        if b.consumed != h.oldCount || b.produced != h.newCount then Raise(CountMismatch)
        else Next(Hunks(b.rest, b.cursor, b.output, true))
  }

  /** One hunk with its body, or one blank line between hunks. */
  function StepHunks(s: Hunks, original: seq<string>): (r: Step<Hunks>)
    requires s.cursor <= |original|
    ensures r.Next? ==> |r.state.rest| < |s.rest| && s.cursor <= r.state.cursor <= |original|
  {
    if s.rest == [] || FILE_HEADER <= s.rest[0] then Leave
    else
      match ReadHeader(RStripBreaks(s.rest[0]))
      case None =>
        if IsBlank(s.rest[0]) then Next(s.(rest := s.rest[1..])) else Raise(MalformedHunkHeader)
      case Some(h) => ReadHunk(h, s, original)
  }

  function ParseHunks(s: Hunks, original: seq<string>): (r: Result<Hunks, PatchError>)
    requires s.cursor <= |original|
    ensures r.Success? ==> |r.value.rest| <= |s.rest| && s.cursor <= r.value.cursor <= |original|
    decreases |s.rest|
  {
    match StepHunks(s, original)
    case Leave => Success(s)
    case Raise(e) => Failure(e)
    case Next(s') => ParseHunks(s', original)
  }

  function SplitSlash(s: string): seq<string> {
    if s == "" then [""]
    else
      var rest := SplitSlash(s[1..]);
      if s[0] == '/' then [""] + rest
      else if rest == [] then [[s[0]]]
      else [[s[0]] + rest[0]] + rest[1..]
  }

  function DropTrivial(parts: seq<string>): Path {
    if parts == [] then []
    else (if parts[0] == "" || parts[0] == "." then [] else [parts[0]]) + DropTrivial(parts[1..])
  }

  /** The components of a path name. */
  function Parts(name: string): Path {
    DropTrivial(SplitSlash(name))
  }

  /** Slashes separate components; empty and `.` components are dropped. */
  lemma {:induction false} PartsOfSlash(left: string, right: string)
    ensures Parts(left + "/" + right) == Parts(left) + Parts(right)
    ensures '/' !in left ==> Parts(left) == if left == "" || left == "." then [] else [left]
  {
    SplitAtSlash(left, right);
    DropTrivialAppend(SplitSlash(left), SplitSlash(right));
    if '/' !in left { NoSlash(left); }
  }

  lemma {:induction false} NoSlash(s: string)
    requires '/' !in s
    ensures SplitSlash(s) == [s]
    decreases |s|
  {
    if s != "" {
      assert s[0] in s && s == [s[0]] + s[1..];
      NoSlash(s[1..]);
    }
  }

  lemma {:induction false} SplitAtSlash(left: string, right: string)
    ensures SplitSlash(left + "/" + right) == SplitSlash(left) + SplitSlash(right) && SplitSlash(left) != []
    decreases |left|
  {
    var all := left + "/" + right;
    if left == "" {
      assert all[1..] == right;
    } else {
      SplitAtSlash(left[1..], right);
      assert all[1..] == left[1..] + "/" + right;
      FirstGrows(left[0], SplitSlash(left[1..]), SplitSlash(right));
    }
  }

  lemma FirstGrows(c: char, a: seq<string>, b: seq<string>)
    requires a != []
    ensures [[c] + (a + b)[0]] + (a + b)[1..] == ([[c] + a[0]] + a[1..]) + b
    ensures [""] + (a + b) == ([""] + a) + b
  {
  }

  lemma {:induction false} DropTrivialAppend(a: seq<string>, b: seq<string>)
    ensures DropTrivial(a + b) == DropTrivial(a) + DropTrivial(b)
    decreases |a|
  {
    if a == [] {
      assert a + b == b;
    } else {
      DropTrivialAppend(a[1..], b);
      assert (a + b)[1..] == a[1..] + b;
      ThreeParts(if a[0] == "" || a[0] == "." then [] else [a[0]], DropTrivial(a[1..]), DropTrivial(b));
    }
  }

  lemma ThreeParts(a: Path, b: Path, c: Path)
    ensures a + (b + c) == (a + b) + c
  {
  }

  predicate SafeLabel(name: string) {
    name != "" && name[0] != '/' && ".." !in Parts(name)
  }

  /** `None` for the null device; the `a/` or `b/` prefix is dropped once. */
  function HeaderPath(name: string): Result<Option<Path>, PatchError> {
    if name == "/dev/null" then Success(None)
    else
      var bare := if "a/" <= name || "b/" <= name then name[2..] else name;
      if SafeLabel(bare) then Success(Some(Parts(bare))) else Failure(UnsafePath)
  }

  /** The workspace as the parser sees it: readable files and recorded contents. */
  datatype Source = Source(files: map<Path, string>, states: map<Path, string>)

  /** What the file headers of one patch say is to be changed. */
  datatype Target = Target(path: Path, kind: ChangeKind, original: seq<string>, expected: Option<string>)

  function ReadTarget(oldLabel: string, newLabel: string, source: Source): Result<Target, PatchError> {
    var oldPath, newPath := HeaderPath(oldLabel), HeaderPath(newLabel);
    if oldPath.Failure? then Failure(oldPath.error)
    else if newPath.Failure? then Failure(newPath.error)
    else
      match (oldPath.value, newPath.value)
      case (None, None) => Failure(BothNull)
      case (None, Some(p)) => Success(Target(p, Create, [], None))
      case (Some(p), newP) =>
        if newP.Some? && newP.value != p then Failure(Rename)
        else if p !in source.files then Failure(SourceMissing)
        else if p !in source.states then Failure(NotInState)
        else Success(Target(p, if newP.None? then Delete else Modify,
                            SplitLines(source.files[p]), Some(source.states[p])))
  }

  /** The operation a file's hunks amount to. A header-only patch is accepted
      only as the creation or deletion of an empty file. */
  function FinishFile(t: Target, s: Hunks): Result<PatchOp, PatchError>
    requires s.cursor <= |t.original|
  {
    if !s.sawHunk && (t.kind.Modify? || t.original != []) then Failure(NoHunks)
    else
      var text := Join(s.output + t.original[s.cursor..]);
      Success(PatchOp(t.path, t.kind, if t.kind.Delete? then None else Some(text), t.expected))
  }

  /** The hunks of one file after its headers, and the remaining lines. */
  function ParseTarget(t: Target, lines: seq<string>): (r: Result<(PatchOp, seq<string>), PatchError>)
    ensures r.Success? ==> |r.value.1| <= |lines|
  {
    match ParseHunks(Hunks(lines, 0, [], false), t.original)
    case Failure(e) => Failure(e)
    case Success(s) =>
      match FinishFile(t, s)
      case Failure(e) => Failure(e)
      case Success(op) => Success((op, s.rest))
  }

  function ParseFile(lines: seq<string>, source: Source): (r: Result<(PatchOp, seq<string>), PatchError>)
    requires lines != [] && FILE_HEADER <= lines[0]
    ensures r.Success? ==> |r.value.1| < |lines|
  {
    if |lines| < 2 || !(NEW_HEADER <= lines[1]) then Failure(MissingNewHeader)
    else
      match ReadTarget(RStripBreaks(lines[0][4..]), RStripBreaks(lines[1][4..]), source)
      case Failure(e) => Failure(e)
      case Success(t) => ParseTarget(t, lines[2..])
  }

  function ParseFiles(lines: seq<string>, source: Source, ops: seq<PatchOp>): Result<seq<PatchOp>, PatchError>
    decreases |lines|
  {
    if lines == [] then (if ops == [] then Failure(NoOperations) else Success(ops))
    else if FILE_HEADER <= lines[0] then
      match ParseFile(lines, source)
      case Failure(e) => Failure(e)
      case Success((op, rest)) => ParseFiles(rest, source, ops + [op])
    else if IsBlank(lines[0]) then ParseFiles(lines[1..], source, ops)
    else Failure(UnexpectedLine)
  }

  predicate Contains(text: string, word: string) {
    exists i | 0 <= i <= |text| :: word <= text[i..]
  }

  predicate HasBinaryMarker(text: string) {
    Contains(text, "GIT binary patch") || Contains(text, "Binary files ")
  }

  function ParsePatch(text: string, source: Source): Result<seq<PatchOp>, PatchError> {
    if IsBlank(text) then Failure(EmptyPatch)
    else if HasBinaryMarker(text) then Failure(BinaryPatch)
    else ParseFiles(SplitLines(text), source, [])
  }
}
