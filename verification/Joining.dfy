/** The patch of a worker: the diffs of its files joined with a blank line, and exactly
    when that text is read back. */
module Joining {
  import opened Contracts
  import opened Text
  import opened UnifiedDiff
  import opened DiffProofs
  import opened RoundTrip

  const BLANK := "\n"

  // ---------------------------------------------------------------------------
  // Blank lines
  // ---------------------------------------------------------------------------

  predicate AllBlank(lines: seq<string>) {
    forall l | l in lines :: IsBlank(l)
  }

  /** A blank line is no header of any kind. */
  lemma BlankIsNoHeader(line: string)
    requires IsBlank(line)
    ensures !(FILE_HEADER <= line) && ReadHeader(RStripBreaks(line)).None? && !(NO_NEWLINE <= line)
  {
    RStripIsPrefix(line);
    assert !IsSpace('-') && !IsSpace('@') && !IsSpace('\\');
    if line != "" { assert line[0] in line; }
  }

  /** Blanks and tabs make a line no less blank; a printed line is none. */
  lemma BlankExactly(s: string)
    ensures (forall c | c in s :: c in " \t") ==> IsBlank(s + "\n")
    ensures s != "" && s[0] in "+-@\\" ==> !IsBlank(s)
  {
    if s != "" { assert s[0] in s; }
  }

  lemma BlankIsSkipped(s: Hunks, original: seq<string>)
    requires s.rest != [] && IsBlank(s.rest[0]) && s.cursor <= |original|
    ensures StepHunks(s, original) == Next(s.(rest := s.rest[1..]))
  {
    BlankIsNoHeader(s.rest[0]);
  }

  /** Blank lines in front of the first hunk, or between a header and the next file, are
      skipped. */
  lemma {:induction false} BlanksBeforeHunks(s: Hunks, original: seq<string>, blanks: seq<string>, rest: seq<string>)
    requires AllBlank(blanks) && s.rest == blanks + rest && s.cursor <= |original|
    ensures ParseHunks(s, original) == ParseHunks(s.(rest := rest), original)
    decreases |blanks|
  {
    if blanks == [] {
      assert s.rest == rest;
    } else {
      BlankIsSkipped(s, original);
      assert s.rest[1..] == blanks[1..] + rest;
      BlanksBeforeHunks(s.(rest := s.rest[1..]), original, blanks[1..], rest);
    }
  }

  lemma HeadersFirst(first: string, second: string, blanks: seq<string>, rest: seq<string>)
    ensures var lines := [first, second] + blanks + rest;
      |lines| >= 2 && lines[0] == first && lines[1] == second && lines[2..] == blanks + rest
  {
  }

  /** A file part reads the same with blank lines after its two headers as without. */
  lemma BlanksAfterHeaders(first: string, second: string, blanks: seq<string>, rest: seq<string>, source: Source)
    requires FILE_HEADER <= first && AllBlank(blanks)
    ensures ParseFile([first, second] + blanks + rest, source) == ParseFile([first, second] + [] + rest, source)
  {
    HeadersFirst(first, second, blanks, rest);
    HeadersFirst(first, second, [], rest);
    assert [] + rest == rest;
    if NEW_HEADER <= second {
      var t := ReadTarget(RStripBreaks(first[4..]), RStripBreaks(second[4..]), source);
      if t.Success? {
        BlanksBeforeHunks(Hunks(blanks + rest, 0, [], false), t.value.original, blanks, rest);
      }
    }
  }

  /** So do blank lines in front of a whole patch. */
  lemma {:induction false} BlanksInFront(blanks: seq<string>, rest: seq<string>, source: Source, ops: seq<PatchOp>)
    requires AllBlank(blanks)
    ensures ParseFiles(blanks + rest, source, ops) == ParseFiles(rest, source, ops)
    decreases |blanks|
  {
    if blanks == [] {
      assert blanks + rest == rest;
    } else {
      BlankIsNoHeader(blanks[0]);
      assert (blanks + rest)[1..] == blanks[1..] + rest;
      BlanksInFront(blanks[1..], rest, source, ops);
    }
  }

  // ---------------------------------------------------------------------------
  // A blank line after a hunk
  // ---------------------------------------------------------------------------

  predicate BlankNext(tail: seq<string>) {
    tail != [] && tail[0] == BLANK
  }

  lemma BlankIsNoBodyLine(b: Body, original: seq<string>)
    requires b.cursor <= |original| && BlankNext(b.rest)
    ensures ParseBody(b, original) == Failure(InvalidHunkLine)
  {
    BlankIsNoHeader(BLANK);
    assert StepBody(b, original) == Raise(InvalidHunkLine);
  }

  /** The body of a hunk that a blank line follows is never read to its end. */
  predicate StopsShort(b: Body, original: seq<string>, es: seq<Edit>)
    requires b.cursor <= |original|
  {
    ParseBody(b, original).Success? ==> ParseBody(b, original).value.consumed < b.consumed + |OldOf(es)|
  }

  lemma {:induction false} BodyBeforeBlank(b: Body, original: seq<string>, es: seq<Edit>, tail: seq<string>)
    requires GoodEdits(es) && BlankNext(tail) && b.rest == PrintEdits(es) + tail
    requires OldLinesAt(original, b.cursor, es)
    ensures StopsShort(b, original, es)
    decreases |es|, 0
  {
    if es == [] {
      assert b.rest == tail;
      BlankIsNoBodyLine(b, original);
    } else {
      BodyBeforeBlankStep(b, original, es[0], es[1..], tail);
    }
  }

  lemma {:induction false} BodyBeforeBlankStep(b: Body, original: seq<string>, e: Edit, es: seq<Edit>,
                                               tail: seq<string>)
    requires GoodEdits([e] + es) && BlankNext(tail) && b.rest == PrintEdits([e] + es) + tail
    requires OldLinesAt(original, b.cursor, [e] + es)
    ensures StopsShort(b, original, [e] + es)
    decreases |es|, 1
  {
    var rest := PrintEdits(es) + tail;
    HeadIsSafe(e, es);
    PrintedTail([e] + es, tail);
    assert ([e] + es)[1..] == es;
    BlankIsNoHeader(BLANK);
    PrintedBodyStart(es, tail);
    AdvanceThenAfter(b, original, e, es, rest, tail);
    ParsePrintedEdit(b, original, e, rest);
    if !ReadsAsHeader(e) {
      BodyBeforeBlank(Advance(b, e, rest), original, es, tail);
    }
  }

  /** A last hunk that a blank line follows is refused. */
  lemma HunkBeforeBlank(s: Hunks, original: seq<string>, h: Hunk, tail: seq<string>)
    requires Anchored(h) && GoodEdits(h.edits) && BlankNext(tail) && s.rest == PrintHunk(h) + tail
    requires s.cursor <= h.oldStart && OldLinesAt(original, h.oldStart, h.edits)
    ensures StepHunks(s, original).Raise?
  {
    HunkStart(h);
    PrintedHunkLines(h, tail);
    EnterHunk(s, original, PrintedFields(h));
    var b := Body(s.rest[1..], h.oldStart, s.output + original[s.cursor..h.oldStart], 0, 0);
    BodyBeforeBlank(b, original, h.edits, tail);
    if ParseBody(b, original).Success? { ReadHunkByBody(PrintedFields(h), s, original, b); }
  }

  lemma RaiseIsFailure(s: Hunks, original: seq<string>)
    requires s.cursor <= |original| && StepHunks(s, original).Raise?
    ensures ParseHunks(s, original).Failure?
  {
  }

  lemma {:induction false} HunksBeforeBlank(s: Hunks, original: seq<string>, hs: seq<Hunk>, tail: seq<string>)
    requires hs != [] && PrintableHunks(hs) && BlankNext(tail) && s.rest == PrintHunks(hs) + tail
    requires s.cursor <= |original| && Fits(original, s.cursor, hs)
    ensures ParseHunks(s, original).Failure?
    decreases |hs|, 0
  {
    assert hs == [hs[0]] + hs[1..];
    SomeHunksBeforeBlank(s, original, hs[0], hs[1..], tail);
  }

  lemma {:induction false} SomeHunksBeforeBlank(s: Hunks, original: seq<string>, h: Hunk, more: seq<Hunk>,
                                                tail: seq<string>)
    requires PrintableHunks([h] + more) && BlankNext(tail) && s.rest == PrintHunks([h] + more) + tail
    requires s.cursor <= |original| && Fits(original, s.cursor, [h] + more)
    ensures ParseHunks(s, original).Failure?
    decreases |more|, 2
  {
    PrintedHunksTail(h, more, tail);
    FirstHunkFits(original, s.cursor, h, more);
    HeadHunkIsSafe(h, more);
    if more == [] {
      assert PrintHunks(more) + tail == tail;
      HunkBeforeBlank(s, original, h, tail);
      RaiseIsFailure(s, original);
    } else {
      LaterHunksBeforeBlank(s, original, h, more, tail);
    }
  }

  lemma {:induction false} LaterHunksBeforeBlank(s: Hunks, original: seq<string>, h: Hunk, more: seq<Hunk>,
                                                 tail: seq<string>)
    requires more != [] && PrintableHunks(more) && BlankNext(tail) && Anchored(h) && GoodEdits(h.edits)
    requires s.rest == PrintHunk(h) + (PrintHunks(more) + tail)
    requires s.cursor <= h.oldStart && OldLinesAt(original, h.oldStart, h.edits)
    requires Fits(original, h.oldStart + |OldOf(h.edits)|, more)
    ensures ParseHunks(s, original).Failure?
    decreases |more|, 1
  {
    var rest := PrintHunks(more) + tail;
    HunkStart(more[0]);
    assert rest[0] == HunkLine(more[0]);
    StepPrintedHunk(s, original, h, rest);
    if NoFalseHeader(h.edits) {
      HunksBeforeBlank(AfterHunk(s, original, h, rest), original, more, tail);
    }
  }

  // ---------------------------------------------------------------------------
  // One part of a joined patch
  // ---------------------------------------------------------------------------

  /** The two headers are all there is to print: an empty file appears or disappears. */
  predicate HeaderOnly(f: FileDiff) {
    f.before == f.after
  }

  lemma HeadersRead(f: FileDiff, source: Source, tail: seq<string>)
    requires ValidDiff(f, source) && !f.Unchanged()
    ensures FILE_HEADER <= (PrintFile(f) + tail)[0]
    ensures ParseFile(PrintFile(f) + tail, source) == ParseTarget(TargetOf(f), PrintHunks(f.hunks) + tail)
  {
    PrintedFileShape(f, tail);
    PlainNames(f);
    HeaderName(FILE_HEADER, OldName(f));
    HeaderName(NEW_HEADER, NewName(f));
    TargetRead(f, source);
    ParseFileWith(PrintFile(f) + tail, source, OldName(f), NewName(f), TargetOf(f));
  }

  /** A part with hunks is refused when a blank line follows it. */
  lemma EditedPartBeforeBlank(f: FileDiff, source: Source, tail: seq<string>)
    requires ValidDiff(f, source) && !HeaderOnly(f) && BlankNext(tail)
    ensures ParseFile(PrintFile(f) + tail, source).Failure?
  {
    HeadersRead(f, source, tail);
    ValidHunksArePrintable(f);
    HunksBeforeBlank(Hunks(PrintHunks(f.hunks) + tail, 0, [], false), SplitLines(f.before), f.hunks, tail);
  }

  /** A part without hunks is read as if nothing separated it from the next. */
  lemma HeaderOnlyPartBeforeBlank(f: FileDiff, source: Source, tail: seq<string>)
    requires ValidDiff(f, source) && HeaderOnly(f) && !f.Unchanged() && FileEnd(tail)
    ensures ParseFile(PrintFile(f) + ([BLANK] + tail), source) == Success((Intended(f), tail))
  {
    var first, second := FILE_HEADER + OldName(f) + "\n", NEW_HEADER + NewName(f) + "\n";
    assert PrintFile(f) == [first, second] + [];
    assert PrintFile(f) + ([BLANK] + tail) == [first, second] + [BLANK] + tail;
    assert PrintFile(f) + tail == [first, second] + [] + tail;
    BlanksAfterHeaders(first, second, [BLANK], tail, source);
    FileRoundTrip(f, source, tail);
  }

  // ---------------------------------------------------------------------------
  // Joined patches
  // ---------------------------------------------------------------------------

  /** The files with a diff to print. */
  function Changed(fs: seq<FileDiff>): seq<FileDiff> {
    if fs == [] then [] else (if fs[0].Unchanged() then [] else [fs[0]]) + Changed(fs[1..])
  }

  /** Their diffs, with a blank line between each two. */
  function JoinDiffs(cs: seq<FileDiff>): string {
    if cs == [] then ""
    else if |cs| == 1 then Join(PrintFile(cs[0]))
    else Join(PrintFile(cs[0])) + "\n" + JoinDiffs(cs[1..])
  }

  /** What the worker writes as its patch. */
  function JoinedText(fs: seq<FileDiff>): string {
    JoinDiffs(Changed(fs))
  }

  function JoinedLines(cs: seq<FileDiff>): seq<string> {
    if cs == [] then []
    else if |cs| == 1 then PrintFile(cs[0])
    else PrintFile(cs[0]) + ([BLANK] + JoinedLines(cs[1..]))
  }

  /** Only the last diff has hunks. */
  predicate HunksOnlyLast(cs: seq<FileDiff>) {
    forall i | 0 <= i < |cs| - 1 :: HeaderOnly(cs[i])
  }

  predicate AllChanged(cs: seq<FileDiff>) {
    forall f | f in cs :: !f.Unchanged()
  }

  lemma {:induction false} JoinedTextLines(cs: seq<FileDiff>, source: Source)
    requires AllValid(cs, source)
    ensures JoinDiffs(cs) == Join(JoinedLines(cs)) && WholeLines(JoinedLines(cs))
    decreases |cs|
  {
    if cs != [] {
      assert cs == [cs[0]] + cs[1..];
      HeadFile(cs[0], cs[1..], source);
      PrintedFileWhole(cs[0], source);
      JoinedTextLines(cs[1..], source);
      if |cs| > 1 { BlankBetween(PrintFile(cs[0]), JoinedLines(cs[1..])); }
    }
  }

  lemma BlankBetween(head: seq<string>, tail: seq<string>)
    requires WholeLines(head) && WholeLines(tail)
    ensures WholeLines(head + ([BLANK] + tail)) && Join(head + ([BLANK] + tail)) == Join(head) + "\n" + Join(tail)
  {
    assert ([BLANK] + tail)[1..] == tail;
    JoinAppend(head, [BLANK] + tail);
    AroundBlank(Join(head), Join(tail));
    LineWithBreak("");
    assert "" + "\n" == BLANK;
    WholeLinesAppend([BLANK], tail);
    WholeLinesAppend(head, [BLANK] + tail);
  }

  lemma AroundBlank(a: string, b: string)
    ensures a + (BLANK + b) == a + "\n" + b
  {
  }

  lemma JoinedEnd(cs: seq<FileDiff>)
    requires AllChanged(cs)
    ensures FileEnd(JoinedLines(cs)) && (cs != [] ==> JoinedLines(cs) != [])
  {
    if cs != [] {
      assert !cs[0].Unchanged();
      assert JoinedLines(cs)[0] == FILE_HEADER + OldName(cs[0]) + "\n";
    }
  }

  /** What reading joined diffs yields after `ops`. */
  predicate JoinedReadBack(cs: seq<FileDiff>, ops: seq<PatchOp>, r: Result<seq<PatchOp>, PatchError>) {
    if HunksOnlyLast(cs) && AllSafe(cs) && ops + IntendedOps(cs) != [] then r == Success(ops + IntendedOps(cs))
    else r.Failure?
  }

  lemma NothingJoined(cs: seq<FileDiff>)
    requires |cs| <= 1
    ensures JoinedLines(cs) == PrintFiles(cs) && HunksOnlyLast(cs)
  {
    if |cs| == 1 { assert PrintFiles(cs) == PrintFile(cs[0]) + []; }
  }

  lemma {:induction false} JoinedLinesRead(cs: seq<FileDiff>, source: Source, ops: seq<PatchOp>)
    requires AllValid(cs, source) && AllChanged(cs)
    ensures JoinedReadBack(cs, ops, ParseFiles(JoinedLines(cs), source, ops))
    decreases |cs|, 0
  {
    if |cs| <= 1 {
      NothingJoined(cs);
      FilesRoundTrip(cs, source, ops);
    } else {
      assert cs == [cs[0]] + cs[1..];
      JoinedLinesReadStep(cs[0], cs[1..], source, ops);
    }
  }

  lemma {:induction false} JoinedLinesReadStep(f: FileDiff, cs: seq<FileDiff>, source: Source, ops: seq<PatchOp>)
    requires cs != [] && AllValid([f] + cs, source) && AllChanged([f] + cs)
    ensures JoinedReadBack([f] + cs, ops, ParseFiles(JoinedLines([f] + cs), source, ops))
    decreases |cs|, 1
  {
    var all, tail := [f] + cs, JoinedLines(cs);
    assert all[0] == f && all[1..] == cs;
    assert forall g | g in cs :: g in all;
    HeadFile(f, cs, source);
    JoinedEnd(cs);
    HeadersRead(f, source, [BLANK] + tail);
    if HeaderOnly(f) {
      HeaderOnlyPartBeforeBlank(f, source, tail);
      JoinedLinesRead(cs, source, ops + [Intended(f)]);
      IntendedOfChanged(f, cs, ops);
      HeaderOnlyFirst(f, cs);
    } else {
      EditedPartBeforeBlank(f, source, [BLANK] + tail);
      assert !HeaderOnly(all[0]);
    }
  }

  lemma HeaderOnlyFirst(f: FileDiff, cs: seq<FileDiff>)
    requires cs != [] && HeaderOnly(f)
    ensures HunksOnlyLast([f] + cs) <==> HunksOnlyLast(cs)
  {
    var all := [f] + cs;
    if HunksOnlyLast(all) {
      forall i | 0 <= i < |cs| - 1 ensures HeaderOnly(cs[i]) { assert all[i + 1] == cs[i]; }
    }
  }

  lemma {:induction false} ChangedMembers(fs: seq<FileDiff>)
    ensures forall f :: f in Changed(fs) <==> f in fs && !f.Unchanged()
    decreases |fs|
  {
    if fs != [] {
      ChangedMembers(fs[1..]);
      assert fs == [fs[0]] + fs[1..];
    }
  }

  lemma {:induction false} ChangedIntended(fs: seq<FileDiff>)
    ensures IntendedOps(Changed(fs)) == IntendedOps(fs)
    decreases |fs|
  {
    if fs != [] {
      ChangedIntended(fs[1..]);
      if fs[0].Unchanged() {
        assert Changed(fs) == Changed(fs[1..]) && IntendedOps(fs) == IntendedOps(fs[1..]);
      } else {
        assert Changed(fs) == [fs[0]] + Changed(fs[1..]) && Changed(fs)[1..] == Changed(fs[1..]);
      }
    }
  }

  /** The worker's patch for a list of files is read back as the intended operations if
      and only if something changed, the text carries no binary marker, no deleted line
      starts with `-- `, and no file but the last changed one has hunks: the blank line
      that joins two diffs is skipped after headers and refused after a hunk. */
  lemma JoinedRoundTrip(fs: seq<FileDiff>, source: Source)
    requires AllValid(fs, source)
    ensures ParsePatch(JoinedText(fs), source) == Success(IntendedOps(fs)) <==>
      && IntendedOps(fs) != [] && !HasBinaryMarker(JoinedText(fs)) && AllSafe(fs)
      && HunksOnlyLast(Changed(fs))
    ensures ParsePatch(JoinedText(fs), source).Success? ==> ParsePatch(JoinedText(fs), source).value == IntendedOps(fs)
  {
    ChangedMembers(fs);
    ChangedIntended(fs);
    JoinedPatchRead(Changed(fs), source);
  }

  lemma JoinedPatchRead(cs: seq<FileDiff>, source: Source)
    requires AllValid(cs, source) && AllChanged(cs)
    ensures var r := ParsePatch(JoinDiffs(cs), source);
      if HunksOnlyLast(cs) && AllSafe(cs) && IntendedOps(cs) != [] && !HasBinaryMarker(JoinDiffs(cs))
      then r == Success(IntendedOps(cs)) else r.Failure?
  {
    JoinedTextLines(cs, source);
    SplitOfJoin(JoinedLines(cs));
    JoinedLinesRead(cs, source, []);
    assert [] + IntendedOps(cs) == IntendedOps(cs);
    if cs == [] {
      assert IntendedOps(cs) == [] && JoinDiffs(cs) == "";
    } else {
      JoinedNotBlank(cs);
    }
  }

  lemma JoinedNotBlank(cs: seq<FileDiff>)
    requires cs != [] && AllChanged(cs)
    ensures !IsBlank(Join(JoinedLines(cs)))
  {
    JoinedEnd(cs);
    StartsNotBlank(JoinedLines(cs));
  }

  /** In particular the patch of a worker that edits two files is always refused. */
  lemma TwoEditedFilesAreRefused(f: FileDiff, g: FileDiff, source: Source)
    requires ValidDiff(f, source) && ValidDiff(g, source)
    requires f.before != f.after && g.before != g.after
    ensures ParsePatch(JoinedText([f, g]), source).Failure?
  {
    var fs := [f, g];
    assert fs[1..] == [g] && [g][1..] == [];
    assert Changed([g]) == [g] + [] && Changed(fs) == [f] + Changed([g]);
    assert !HeaderOnly(Changed(fs)[0]);
    JoinedRoundTrip(fs, source);
  }
}
