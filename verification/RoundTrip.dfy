/** Whole patches: what is generated for a list of files, and exactly when parsing
    it gives back the intended operations. */
module RoundTrip {
  import opened Contracts
  import opened Text
  import opened UnifiedDiff
  import opened DiffProofs

  /** The change of one file, as handed to the printer. */
  datatype FileDiff = FileDiff(name: string, before: string, after: string,
                               existedBefore: bool, existsAfter: bool, hunks: seq<Hunk>) {
    predicate Unchanged() {
      before == after && existedBefore == existsAfter
    }
  }

  function OldName(f: FileDiff): string {
    if f.existedBefore then "a/" + f.name else "/dev/null"
  }

  function NewName(f: FileDiff): string {
    if f.existsAfter then "b/" + f.name else "/dev/null"
  }

  /** The lines of one generated diff; none for an unchanged file, only the two
      headers when an empty file appears or disappears. */
  function PrintFile(f: FileDiff): seq<string> {
    if f.Unchanged() then []
    else [FILE_HEADER + OldName(f) + "\n", NEW_HEADER + NewName(f) + "\n"] + PrintHunks(f.hunks)
  }

  function PrintFiles(fs: seq<FileDiff>): seq<string> {
    if fs == [] then [] else PrintFile(fs[0]) + PrintFiles(fs[1..])
  }

  /** Generated diffs, concatenated. */
  function PatchText(fs: seq<FileDiff>): string {
    if fs == [] then "" else Join(PrintFile(fs[0])) + PatchText(fs[1..])
  }

  /** The operation one changed file is meant to become. */
  function Intended(f: FileDiff): PatchOp {
    PatchOp(
      Parts(f.name),
      if !f.existedBefore then Create else if f.existsAfter then Modify else Delete,
      if f.existsAfter then Some(f.after) else None,
      if f.existedBefore then Some(f.before) else None)
  }

  function IntendedOps(fs: seq<FileDiff>): seq<PatchOp> {
    if fs == [] then []
    else (if fs[0].Unchanged() then [] else [Intended(fs[0])]) + IntendedOps(fs[1..])
  }

  /** `hunks` is a valid difference of the two texts, and never an insertion
      without context after the first line. */
  predicate ValidHunks(f: FileDiff) {
    && Fits(SplitLines(f.before), 0, f.hunks)
    && Splice(SplitLines(f.before), 0, f.hunks) == SplitLines(f.after)
    && (f.hunks == [] <==> f.before == f.after)
    && forall h | h in f.hunks :: Anchored(h)
  }

  predicate ValidDiff(f: FileDiff, source: Source) {
    && SafeLabel(f.name) && PlainText(f.name) && '\n' !in f.name
    && PlainText(f.before) && PlainText(f.after)
    && (!f.existedBefore ==> f.before == "")
    && (!f.existsAfter ==> f.after == "")
    && (f.existedBefore ==>
        && Parts(f.name) in source.files && source.files[Parts(f.name)] == f.before
        && Parts(f.name) in source.states && source.states[Parts(f.name)] == f.before)
    && ValidHunks(f)
  }

  // ---------------------------------------------------------------------------
  // Lines of plain texts
  // ---------------------------------------------------------------------------

  lemma LinesArePartsOfText(lines: seq<string>, line: string, c: char)
    requires line in lines && c in line
    ensures c in Join(lines)
    decreases |lines|
  {
    if lines[0] != line {
      assert line in lines[1..];
      LinesArePartsOfText(lines[1..], line, c);
    }
  }

  lemma PlainLinesAreGood(text: string)
    requires PlainText(text)
    ensures forall l | l in SplitLines(text) :: GoodLine(l)
  {
    JoinOfSplit(text);
    var lines := SplitLines(text);
    forall l | l in lines ensures GoodLine(l) {
      if PartialLine(l) {
        var c := l[|l| - 1];
        LinesArePartsOfText(lines, l, c);
        assert c != '\r' by { assert OTHER_BREAKS[0] == '\r'; }
      }
    }
  }

  predicate AllGood(lines: seq<string>) {
    forall l | l in lines :: GoodLine(l)
  }

  lemma {:induction false} EditLinesGood(es: seq<Edit>)
    requires AllGood(OldOf(es)) && AllGood(NewOf(es))
    ensures GoodEdits(es)
    decreases |es|
  {
    if es != [] {
      forall l | l in OldOf(es[1..]) ensures l in OldOf(es) {}
      forall l | l in NewOf(es[1..]) ensures l in NewOf(es) {}
      EditLinesGood(es[1..]);
      assert es[0].Add? ==> NewOf(es)[0] == es[0].line;
      assert !es[0].Add? ==> OldOf(es)[0] == es[0].line;
      assert es == [es[0]] + es[1..];
    }
  }

  lemma {:induction false} SpliceLinesGood(original: seq<string>, cursor: nat, hs: seq<Hunk>)
    requires cursor <= |original| && Fits(original, cursor, hs)
    requires AllGood(original) && AllGood(Splice(original, cursor, hs))
    ensures forall h | h in hs :: GoodEdits(h.edits)
    decreases |hs|
  {
    if hs != [] {
      var h := hs[0];
      var gap, tail := original[cursor..h.oldStart], Splice(original, h.oldStart + |OldOf(h.edits)|, hs[1..]);
      assert Splice(original, cursor, hs) == gap + NewOf(h.edits) + tail;
      forall l | l in NewOf(h.edits) || l in tail ensures l in Splice(original, cursor, hs) {}
      forall l | l in OldOf(h.edits) ensures l in original {}
      EditLinesGood(h.edits);
      SpliceLinesGood(original, h.oldStart + |OldOf(h.edits)|, hs[1..]);
      assert hs == [h] + hs[1..];
    }
  }

  lemma ValidHunksArePrintable(f: FileDiff)
    requires ValidHunks(f) && PlainText(f.before) && PlainText(f.after)
    ensures PrintableHunks(f.hunks)
  {
    PlainLinesAreGood(f.before);
    PlainLinesAreGood(f.after);
    SpliceLinesGood(SplitLines(f.before), 0, f.hunks);
  }

  // ---------------------------------------------------------------------------
  // One file
  // ---------------------------------------------------------------------------

  lemma HeaderName(prefix: string, name: string)
    requires |prefix| == 4 && PlainText(name) && '\n' !in name && name != ""
    ensures RStripBreaks((prefix + name + "\n")[4..]) == name
  {
    assert (prefix + name + "\n")[4..] == name + "\n";
    assert name[|name| - 1] in name;
    assert OTHER_BREAKS[0] == '\r';
    RStripOneBreak(name);
  }

  lemma PlainNames(f: FileDiff)
    requires PlainText(f.name) && '\n' !in f.name
    ensures PlainText(OldName(f)) && '\n' !in OldName(f) && OldName(f) != ""
    ensures PlainText(NewName(f)) && '\n' !in NewName(f) && NewName(f) != ""
  {
  }

  lemma NamesRead(f: FileDiff)
    requires SafeLabel(f.name)
    ensures HeaderPath(OldName(f)) == Success(if f.existedBefore then Some(Parts(f.name)) else None)
    ensures HeaderPath(NewName(f)) == Success(if f.existsAfter then Some(Parts(f.name)) else None)
  {
    assert ("a/" + f.name)[2..] == f.name && ("b/" + f.name)[2..] == f.name;
    assert ("a/" + f.name)[0] == 'a' && ("b/" + f.name)[0] == 'b' && "/dev/null"[0] == '/';
  }

  function TargetOf(f: FileDiff): Target {
    Target(Parts(f.name), Intended(f).kind, SplitLines(f.before), Intended(f).expected)
  }

  lemma TargetRead(f: FileDiff, source: Source)
    requires ValidDiff(f, source) && (f.existedBefore || f.existsAfter)
    ensures ReadTarget(OldName(f), NewName(f), source) == Success(TargetOf(f))
  {
    NamesRead(f);
  }

  /** What reading a printed file yields. */
  predicate FileReadsBack(f: FileDiff, r: Result<(PatchOp, seq<string>), PatchError>, tail: seq<string>) {
    if NoFalseHeaders(f.hunks) then r == Success((Intended(f), tail)) else r.Failure?
  }

  lemma TargetRoundTrip(f: FileDiff, source: Source, tail: seq<string>)
    requires ValidDiff(f, source) && !f.Unchanged() && FileEnd(tail)
    ensures FileReadsBack(f, ParseTarget(TargetOf(f), PrintHunks(f.hunks) + tail), tail)
  {
    var t, s := TargetOf(f), Hunks(PrintHunks(f.hunks) + tail, 0, [], false);
    ValidHunksArePrintable(f);
    HunksRoundTrip(s, t.original, f.hunks, tail);
    if NoFalseHeaders(f.hunks) {
      FinishedFile(f, t, ParseHunks(s, t.original).value);
    }
  }

  lemma FinishedFile(f: FileDiff, t: Target, e: Hunks)
    requires t == TargetOf(f) && ValidHunks(f) && !f.Unchanged() && e.cursor <= |t.original|
    requires (!f.existedBefore ==> f.before == "") && (!f.existsAfter ==> f.after == "")
    requires e.output + t.original[e.cursor..] == [] + Splice(SplitLines(f.before), 0, f.hunks)
    requires e.sawHunk <==> f.hunks != []
    ensures FinishFile(t, e) == Success(Intended(f))
  {
    assert [] + Splice(SplitLines(f.before), 0, f.hunks) == SplitLines(f.after);
    JoinOfSplit(f.after);
  }

  lemma PrintedFileShape(f: FileDiff, tail: seq<string>)
    requires !f.Unchanged()
    ensures var lines := PrintFile(f) + tail;
      && lines[0] == FILE_HEADER + OldName(f) + "\n" && lines[1] == NEW_HEADER + NewName(f) + "\n"
      && lines[2..] == PrintHunks(f.hunks) + tail
  {
    TwoLinesFirst(FILE_HEADER + OldName(f) + "\n", NEW_HEADER + NewName(f) + "\n", PrintHunks(f.hunks), tail);
  }

  lemma TwoLinesFirst(first: string, second: string, more: seq<string>, tail: seq<string>)
    ensures var lines := [first, second] + more + tail;
            lines[0] == first && lines[1] == second && lines[2..] == more + tail
  {
  }

  lemma ParseFileWith(lines: seq<string>, source: Source, oldName: string, newName: string, t: Target)
    requires |lines| >= 2 && FILE_HEADER <= lines[0] && NEW_HEADER <= lines[1]
    requires RStripBreaks(lines[0][4..]) == oldName && RStripBreaks(lines[1][4..]) == newName
    requires ReadTarget(oldName, newName, source) == Success(t)
    ensures ParseFile(lines, source) == ParseTarget(t, lines[2..])
  {
  }

  lemma FileRoundTrip(f: FileDiff, source: Source, tail: seq<string>)
    requires ValidDiff(f, source) && !f.Unchanged() && FileEnd(tail)
    ensures FILE_HEADER <= (PrintFile(f) + tail)[0]
    ensures FileReadsBack(f, ParseFile(PrintFile(f) + tail, source), tail)
  {
    PrintedFileShape(f, tail);
    PlainNames(f);
    HeaderName(FILE_HEADER, OldName(f));
    HeaderName(NEW_HEADER, NewName(f));
    TargetRead(f, source);
    ParseFileWith(PrintFile(f) + tail, source, OldName(f), NewName(f), TargetOf(f));
    TargetRoundTrip(f, source, tail);
  }

  // ---------------------------------------------------------------------------
  // A list of files
  // ---------------------------------------------------------------------------

  predicate AllValid(fs: seq<FileDiff>, source: Source) {
    forall f | f in fs :: ValidDiff(f, source)
  }

  predicate AllSafe(fs: seq<FileDiff>) {
    forall f | f in fs && !f.Unchanged() :: NoFalseHeaders(f.hunks)
  }

  lemma FilesEnd(fs: seq<FileDiff>)
    ensures FileEnd(PrintFiles(fs))
  {
    if fs != [] {
      if fs[0].Unchanged() {
        FilesEnd(fs[1..]);
        assert PrintFiles(fs) == PrintFiles(fs[1..]);
      } else {
        assert PrintFiles(fs)[0] == FILE_HEADER + OldName(fs[0]) + "\n";
      }
    }
  }

  lemma HeadFile(f: FileDiff, fs: seq<FileDiff>, source: Source)
    requires AllValid([f] + fs, source)
    ensures ValidDiff(f, source) && AllValid(fs, source)
    ensures AllSafe([f] + fs) <==> (f.Unchanged() || NoFalseHeaders(f.hunks)) && AllSafe(fs)
  {
    var all := [f] + fs;
    assert all[0] == f;
    forall x | x in fs ensures x in all {}
    assert forall x | x in all :: x == f || x in fs;
  }

  /** What reading a printed list of files yields after `ops`. */
  predicate FilesReadBack(fs: seq<FileDiff>, ops: seq<PatchOp>, r: Result<seq<PatchOp>, PatchError>) {
    if AllSafe(fs) && ops + IntendedOps(fs) != [] then r == Success(ops + IntendedOps(fs)) else r.Failure?
  }

  lemma {:induction false} FilesRoundTrip(fs: seq<FileDiff>, source: Source, ops: seq<PatchOp>)
    requires AllValid(fs, source)
    ensures FilesReadBack(fs, ops, ParseFiles(PrintFiles(fs), source, ops))
    decreases |fs|, 0
  {
    if fs == [] {
      assert ops + [] == ops;
    } else {
      assert fs == [fs[0]] + fs[1..];
      HeadFile(fs[0], fs[1..], source);
      if fs[0].Unchanged() {
        FilesRoundTrip(fs[1..], source, ops);
        assert PrintFiles(fs) == PrintFiles(fs[1..]) && IntendedOps(fs) == IntendedOps(fs[1..]);
      } else {
        ChangedFileRoundTrip(fs[0], fs[1..], source, ops);
      }
    }
  }

  lemma FirstFileParsed(f: FileDiff, lines: seq<string>, tail: seq<string>, source: Source, ops: seq<PatchOp>)
    requires lines != [] && FILE_HEADER <= lines[0] && FileReadsBack(f, ParseFile(lines, source), tail)
    ensures if NoFalseHeaders(f.hunks)
      then ParseFiles(lines, source, ops) == ParseFiles(tail, source, ops + [Intended(f)])
            else ParseFiles(lines, source, ops).Failure?
  {
  }

  lemma IntendedOfChanged(f: FileDiff, fs: seq<FileDiff>, ops: seq<PatchOp>)
    requires !f.Unchanged()
    ensures ops + IntendedOps([f] + fs) == (ops + [Intended(f)]) + IntendedOps(fs)
    ensures PrintFiles([f] + fs) == PrintFile(f) + PrintFiles(fs)
  {
    assert ([f] + fs)[1..] == fs;
  }

  lemma {:induction false} ChangedFileRoundTrip(f: FileDiff, fs: seq<FileDiff>, source: Source, ops: seq<PatchOp>)
    requires AllValid([f] + fs, source) && !f.Unchanged()
    ensures FilesReadBack([f] + fs, ops, ParseFiles(PrintFiles([f] + fs), source, ops))
    decreases |fs|, 1
  {
    HeadFile(f, fs, source);
    FilesEnd(fs);
    FileRoundTrip(f, source, PrintFiles(fs));
    FirstFileParsed(f, PrintFile(f) + PrintFiles(fs), PrintFiles(fs), source, ops);
    IntendedOfChanged(f, fs, ops);
    FilesRoundTrip(fs, source, ops + [Intended(f)]);
  }

  // ---------------------------------------------------------------------------
  // The printed lines are the lines of the patch text
  // ---------------------------------------------------------------------------

  predicate WholeLines(lines: seq<string>) {
    forall i | 0 <= i < |lines| :: WholeLine(lines[i])
  }

  lemma WholeLinesAppend(a: seq<string>, b: seq<string>)
    requires WholeLines(a) && WholeLines(b)
    ensures WholeLines(a + b)
  {
  }

  lemma LineWithBreak(s: string)
    requires '\n' !in s
    ensures WholeLine(s + "\n")
  {
    assert (s + "\n")[..|s|] == s;
  }

  lemma NoBreakInRange(start: nat, length: nat)
    ensures '\n' !in FormatRange(start, length)
  {
    assert forall c | c in Decimal(start) :: IsDigit(c);
    assert forall c | c in Decimal(start + 1) :: IsDigit(c);
    assert forall c | c in Decimal(length) :: IsDigit(c);
  }

  lemma PrintedEditWhole(e: Edit)
    requires GoodLine(e.line)
    ensures WholeLines(PrintEdit(e))
  {
    PrintedLineWhole(e);
    MarkerWhole();
  }

  lemma MarkerWhole()
    ensures WholeLine(NO_NEWLINE + "\n")
  {
    LineWithBreak(NO_NEWLINE);
  }

  lemma PrintedLineWhole(e: Edit)
    requires GoodLine(e.line)
    ensures WholeLine([Prefix(e)] + PrintedText(e))
  {
    var bare := if WholeLine(e.line) then e.line[..|e.line| - 1] else e.line;
    if WholeLine(e.line) { assert e.line == bare + [e.line[|e.line| - 1]]; }
    LineWithBreak([Prefix(e)] + bare);
    assert [Prefix(e)] + PrintedText(e) == ([Prefix(e)] + bare) + "\n";
  }

  lemma {:induction false} PrintedEditsWhole(es: seq<Edit>)
    requires GoodEdits(es)
    ensures WholeLines(PrintEdits(es))
    decreases |es|
  {
    if es != [] {
      assert es == [es[0]] + es[1..];
      HeadIsSafe(es[0], es[1..]);
      PrintedEditWhole(es[0]);
      PrintedEditsWhole(es[1..]);
      WholeLinesAppend(PrintEdit(es[0]), PrintEdits(es[1..]));
    }
  }

  lemma PrintedHunkWhole(h: Hunk)
    requires GoodEdits(h.edits)
    ensures WholeLines(PrintHunk(h))
  {
    NoBreakInRange(h.oldStart, |OldOf(h.edits)|);
    NoBreakInRange(h.newStart, |NewOf(h.edits)|);
    LineWithBreak(HunkHeader(h));
    PrintedEditsWhole(h.edits);
  }

  lemma {:induction false} PrintedHunksWhole(hs: seq<Hunk>)
    requires PrintableHunks(hs)
    ensures WholeLines(PrintHunks(hs))
    decreases |hs|
  {
    if hs != [] {
      var h := hs[0];
      assert hs == [h] + hs[1..];
      HeadHunkIsSafe(h, hs[1..]);
      PrintedHunksWhole(hs[1..]);
      PrintedHunkWhole(h);
    }
  }

  lemma PrintedFileWhole(f: FileDiff, source: Source)
    requires ValidDiff(f, source)
    ensures WholeLines(PrintFile(f))
  {
    PlainNames(f);
    LineWithBreak(FILE_HEADER + OldName(f));
    LineWithBreak(NEW_HEADER + NewName(f));
    ValidHunksArePrintable(f);
    PrintedHunksWhole(f.hunks);
  }

  lemma {:induction false} PatchTextLines(fs: seq<FileDiff>, source: Source)
    requires AllValid(fs, source)
    ensures PatchText(fs) == Join(PrintFiles(fs)) && WholeLines(PrintFiles(fs))
    decreases |fs|
  {
    if fs != [] {
      assert fs == [fs[0]] + fs[1..];
      HeadFile(fs[0], fs[1..], source);
      PrintedFileWhole(fs[0], source);
      PatchTextLines(fs[1..], source);
      JoinAppend(PrintFile(fs[0]), PrintFiles(fs[1..]));
    }
  }

  // ---------------------------------------------------------------------------
  // The round trip
  // ---------------------------------------------------------------------------

  /** Parsing the concatenated diffs of a list of files gives exactly the intended
      operations, in order, if and only if some file changed, the text carries no
      binary marker and no deleted line starts with `-- `. */
  lemma PatchRoundTrip(fs: seq<FileDiff>, source: Source)
    requires AllValid(fs, source)
    ensures ParsePatch(PatchText(fs), source) == Success(IntendedOps(fs))
      <==> IntendedOps(fs) != [] && !HasBinaryMarker(PatchText(fs)) && AllSafe(fs)
    ensures ParsePatch(PatchText(fs), source).Success? ==> ParsePatch(PatchText(fs), source).value == IntendedOps(fs)
  {
    PatchTextLines(fs, source);
    SplitOfJoin(PrintFiles(fs));
    FilesRoundTrip(fs, source, []);
    assert [] + IntendedOps(fs) == IntendedOps(fs);
    if PrintFiles(fs) == [] {
      NoLinesNoOps(fs);
    } else {
      PrintedPatchNotBlank(fs);
    }
  }

  lemma PrintedPatchNotBlank(fs: seq<FileDiff>)
    requires PrintFiles(fs) != []
    ensures !IsBlank(Join(PrintFiles(fs)))
  {
    FilesEnd(fs);
    StartsNotBlank(PrintFiles(fs));
  }

  lemma StartsNotBlank(lines: seq<string>)
    requires lines != [] && FILE_HEADER <= lines[0]
    ensures !IsBlank(Join(lines))
  {
    var text := Join(lines);
    assert text[0] == lines[0][0] == FILE_HEADER[0];
    assert text[0] in text && !IsSpace('-');
  }

  lemma NoLinesNoOps(fs: seq<FileDiff>)
    requires PrintFiles(fs) == []
    ensures IntendedOps(fs) == []
  {
  }
}
