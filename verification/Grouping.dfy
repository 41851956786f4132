/** Edit scripts grouped into hunks with three lines of context, and the round trip
    stated for them. */
module Grouping {
  import opened Contracts
  import opened Text
  import opened UnifiedDiff
  import opened DiffProofs
  import opened RoundTrip

  const CONTEXT := 3

  /** Some change lies at most three script lines away: exactly the lines that
      three-line context keeps in a hunk, so an equal run splits a hunk when it is
      longer than six lines. */
  predicate NearChange(es: seq<Edit>, k: nat) {
    exists m | 0 <= m < |es| :: k - CONTEXT <= m <= k + CONTEXT && !es[m].Keep?
  }

  /** The end of the run of near-change lines that starts at `k`. */
  function RunEnd(es: seq<Edit>, k: nat): (e: nat)
    requires k <= |es|
    ensures k <= e <= |es| && (e < |es| ==> !NearChange(es, e)) && (k < |es| && NearChange(es, k) ==> k < e)
    ensures forall i | k <= i < e :: NearChange(es, i)
    decreases |es| - k
  {
    if k < |es| && NearChange(es, k) then RunEnd(es, k + 1) else k
  }

  /** The hunks of the script from line `k` on, which stands at the given positions
      of the old and the new text. */
  function Group(es: seq<Edit>, k: nat, oldPos: nat, newPos: nat): seq<Hunk>
    requires k <= |es|
    decreases |es| - k
  {
    if k == |es| then []
    else if !NearChange(es, k) then Group(es, k + 1, oldPos + 1, newPos + 1)
    else
      var e := RunEnd(es, k);
      var run := es[k..e];
      [Hunk(oldPos, newPos, run)] + Group(es, e, oldPos + |OldOf(run)|, newPos + |NewOf(run)|)
  }

  /** Two changes with nothing but kept lines between them share a hunk exactly when at most
      six lines separate them. */
  lemma SharedHunkExactly(es: seq<Edit>, a: nat, b: nat)
    requires a < b < |es| && !es[a].Keep? && !es[b].Keep? && forall i | a < i < b :: es[i].Keep?
    ensures (forall i | a <= i <= b :: NearChange(es, i)) <==> b - a - 1 <= 6
    ensures RunEnd(es, a) > b <==> b - a - 1 <= 6
  {
    forall i | a <= i <= b ensures NearChange(es, i) <==> i - a <= 3 || b - i <= 3 {
      if i - a <= 3 { assert !es[a].Keep?; }
      if b - i <= 3 { assert !es[b].Keep?; }
    }
    if b - a - 1 > 6 {
      assert !NearChange(es, a + 4);
    } else {
      RunCovers(es, a, b);
    }
  }

  lemma RunCovers(es: seq<Edit>, a: nat, b: nat)
    requires a <= b < |es| && forall i | a <= i <= b :: NearChange(es, i)
    ensures RunEnd(es, a) > b
    decreases b - a
  {
    if a < b { RunCovers(es, a + 1, b); }
  }

  /** The first hunk starts three lines before the first change, or at the first line. */
  lemma {:induction false} FirstHunkStarts(es: seq<Edit>, k: nat, m: nat, oldPos: nat, newPos: nat)
    requires k <= m < |es| && !es[m].Keep? && forall i | 0 <= i < m :: es[i].Keep?
    requires m - k >= 3 || k == 0
    ensures var hs := Group(es, k, oldPos, newPos);
      hs != [] && hs[0].oldStart == oldPos + (if m - k > 3 then m - k - 3 else 0)
    decreases m - k
  {
    if m - k > 3 {
      assert !NearChange(es, k);
      FirstHunkStarts(es, k + 1, m, oldPos + 1, newPos + 1);
    } else {
      assert NearChange(es, k);
    }
  }

  lemma SliceSplit(lines: seq<string>, a: nat, b: nat, c: nat)
    requires a <= b <= c <= |lines|
    ensures lines[a..c] == lines[a..b] + lines[b..c]
  {
  }

  lemma {:induction false} FitsFromEarlier(original: seq<string>, c: nat, c': nat, hs: seq<Hunk>)
    requires c <= c' <= |original| && Fits(original, c', hs)
    ensures Fits(original, c, hs) && Splice(original, c, hs) == original[c..c'] + Splice(original, c', hs)
  {
    if hs == [] {
      SliceSplit(original, c, c', |original|);
    } else {
      SpliceFromEarlier(original, c, c', hs);
    }
  }

  lemma SpliceFromEarlier(original: seq<string>, c: nat, c': nat, hs: seq<Hunk>)
    requires c <= c' <= |original| && hs != [] && Fits(original, c', hs) && Fits(original, c, hs)
    ensures Splice(original, c, hs) == original[c..c'] + Splice(original, c', hs)
  {
    var h := hs[0];
    var rest := Splice(original, h.oldStart + |OldOf(h.edits)|, hs[1..]);
    SliceSplit(original, c, c', h.oldStart);
    PrependToParts(original[c..c'], original[c'..h.oldStart], original[c..h.oldStart], NewOf(h.edits), rest,
                   Splice(original, c, hs), Splice(original, c', hs));
  }

  lemma PrependToParts(p: seq<string>, b: seq<string>, pb: seq<string>, n: seq<string>, r: seq<string>,
                       whole: seq<string>, part: seq<string>)
    requires pb == p + b && whole == pb + n + r && part == b + n + r
    ensures whole == p + part
  {
    AppendAssociative(p, b, n, r);
  }

  /** Where a hunk may start: at the beginning or right after a line far from any change. */
  predicate RunStart(es: seq<Edit>, k: nat)
    requires k <= |es|
  {
    k == 0 || k == |es| || !NearChange(es, k) || !NearChange(es, k - 1)
  }

  lemma FarLineIsKept(es: seq<Edit>, k: nat)
    requires k < |es| && !NearChange(es, k)
    ensures es[k].Keep? && RunStart(es, k + 1)
    ensures OldOf(es[k..]) == [es[k].line] + OldOf(es[k + 1..])
    ensures NewOf(es[k..]) == [es[k].line] + NewOf(es[k + 1..])
  {
    assert es[k..][1..] == es[k + 1..];
  }

  lemma RunIsAnchored(es: seq<Edit>, k: nat, oldPos: nat, newPos: nat)
    requires k < |es| && NearChange(es, k) && RunStart(es, k) && (k == 0 ==> oldPos == 0)
    ensures Anchored(Hunk(oldPos, newPos, es[k..RunEnd(es, k)]))
  {
    var e := RunEnd(es, k);
    if k > 0 {
      assert es[k].Keep?;
      assert es[k..e] == [es[k]] + es[k + 1..e];
    }
  }

  /** The hunks are a valid difference from `pos` on: they fit the old lines, splicing
      them in gives `after`, and none is a context-free insertion after the first line. */
  predicate ValidFrom(original: seq<string>, pos: nat, hs: seq<Hunk>, after: seq<string>) {
    && pos <= |original| && Fits(original, pos, hs) && Splice(original, pos, hs) == after
    && forall h | h in hs :: Anchored(h)
  }

  lemma ValidFromEarlier(original: seq<string>, pos: nat, hs: seq<Hunk>, line: string, rest: seq<string>,
                         after: seq<string>)
    requires pos < |original| && original[pos..pos + 1] == [line] && ValidFrom(original, pos + 1, hs, rest)
    requires after == [line] + rest
    ensures ValidFrom(original, pos, hs, after)
  {
    FitsFromEarlier(original, pos, pos + 1, hs);
  }

  lemma NoMoreGroups(original: seq<string>, pos: nat, groups: seq<Hunk>, after: seq<string>)
    requires pos <= |original| && groups == [] && original[pos..] == after
    ensures ValidFrom(original, pos, groups, after)
  {
  }

  /** The groups are a valid difference. */
  lemma {:induction false} GroupIsValid(es: seq<Edit>, k: nat, original: seq<string>, oldPos: nat, newPos: nat)
    requires k <= |es| && RunStart(es, k) && (k == 0 ==> oldPos == 0)
    requires oldPos <= |original| && original[oldPos..] == OldOf(es[k..])
    ensures ValidFrom(original, oldPos, Group(es, k, oldPos, newPos), NewOf(es[k..]))
    decreases |es| - k
  {
    var groups := Group(es, k, oldPos, newPos);
    if k == |es| {
      NoMoreGroups(original, oldPos, groups, NewOf(es[k..]));
    } else if !NearChange(es, k) {
      FarLineIsKept(es, k);
      TailSplit(original, oldPos, [es[k].line], OldOf(es[k + 1..]));
      GroupIsValid(es, k + 1, original, oldPos + 1, newPos + 1);
      ValidFromEarlier(original, oldPos, groups, es[k].line, NewOf(es[k + 1..]), NewOf(es[k..]));
    } else {
      var e := RunEnd(es, k);
      var h := Hunk(oldPos, newPos, es[k..e]);
      var next, newNext := oldPos + |OldOf(h.edits)|, newPos + |NewOf(h.edits)|;
      RunIsAnchored(es, k, oldPos, newPos);
      RunLeaves(es, k, e, original, oldPos);
      GroupIsValid(es, e, original, next, newNext);
      RunThenGroups(es, k, e, original, h, Group(es, e, next, newNext), groups);
    }
  }

  lemma OldLinesSplit(es: seq<Edit>, k: nat, e: nat, original: seq<string>, oldPos: nat)
    requires k <= e <= |es| && oldPos <= |original| && original[oldPos..] == OldOf(es[k..])
    ensures OldLinesAt(original, oldPos, es[k..e])
    ensures original[oldPos + |OldOf(es[k..e])|..] == OldOf(es[e..])
    ensures NewOf(es[k..]) == NewOf(es[k..e]) + NewOf(es[e..])
  {
    assert es[k..] == es[k..e] + es[e..];
    OldOfAppend(es[k..e], es[e..]);
    NewOfAppend(es[k..e], es[e..]);
    TailSplit(original, oldPos, OldOf(es[k..e]), OldOf(es[e..]));
  }

  lemma TailSplit(lines: seq<string>, pos: nat, head: seq<string>, rest: seq<string>)
    requires pos <= |lines| && lines[pos..] == head + rest
    ensures pos + |head| <= |lines| && lines[pos..pos + |head|] == head && lines[pos + |head|..] == rest
  {
    assert lines[pos + |head|..] == lines[pos..][|head|..];
    assert lines[pos..pos + |head|] == lines[pos..][..|head|];
  }

  lemma RunLeaves(es: seq<Edit>, k: nat, e: nat, original: seq<string>, oldPos: nat)
    requires k <= e <= |es| && oldPos <= |original| && original[oldPos..] == OldOf(es[k..])
    ensures var next := oldPos + |OldOf(es[k..e])|; next <= |original| && original[next..] == OldOf(es[e..])
  {
    OldLinesSplit(es, k, e, original, oldPos);
  }

  lemma RunThenGroups(es: seq<Edit>, k: nat, e: nat, original: seq<string>, h: Hunk, hs: seq<Hunk>, groups: seq<Hunk>)
    requires k <= e <= |es| && Anchored(h) && h.edits == es[k..e] && groups == [h] + hs
    requires h.oldStart <= |original| && original[h.oldStart..] == OldOf(es[k..])
    requires ValidFrom(original, h.oldStart + |OldOf(h.edits)|, hs, NewOf(es[e..]))
    ensures ValidFrom(original, h.oldStart, groups, NewOf(es[k..]))
  {
    OldLinesSplit(es, k, e, original, h.oldStart);
    HunkThenGroup(original, h, hs, NewOf(es[e..]), NewOf(es[k..]));
  }

  lemma HunkThenGroup(original: seq<string>, h: Hunk, hs: seq<Hunk>, rest: seq<string>, after: seq<string>)
    requires OldLinesAt(original, h.oldStart, h.edits) && Anchored(h)
    requires ValidFrom(original, h.oldStart + |OldOf(h.edits)|, hs, rest) && after == NewOf(h.edits) + rest
    ensures ValidFrom(original, h.oldStart, [h] + hs, after)
  {
    SplicePrepend(original, h.oldStart, h, hs);
    EmptyFirst(original[h.oldStart..h.oldStart], NewOf(h.edits), rest);
    assert forall g | g in [h] + hs :: g == h || g in hs;
  }

  lemma EmptyFirst(none: seq<string>, a: seq<string>, b: seq<string>)
    requires |none| == 0
    ensures none + a + b == a + b
  {
    assert none + a == a;
  }

  predicate NoFalseHeaderFrom(es: seq<Edit>, k: nat)
    requires k <= |es|
  {
    forall i | k <= i < |es| :: !ReadsAsHeader(es[i])
  }

  /** Grouping drops only kept lines. */
  lemma {:induction false} GroupKeepsChanges(es: seq<Edit>, k: nat, oldPos: nat, newPos: nat)
    requires k <= |es|
    ensures NoFalseHeaders(Group(es, k, oldPos, newPos)) <==> NoFalseHeaderFrom(es, k)
    decreases |es| - k
  {
    if k == |es| {
    } else if !NearChange(es, k) {
      FarLineIsKept(es, k);
      KeptLineIsNoHeader(es, k);
      GroupKeepsChanges(es, k + 1, oldPos + 1, newPos + 1);
    } else {
      var e := RunEnd(es, k);
      var run := es[k..e];
      var hs := Group(es, e, oldPos + |OldOf(run)|, newPos + |NewOf(run)|);
      GroupKeepsChanges(es, e, oldPos + |OldOf(run)|, newPos + |NewOf(run)|);
      RunKeepsHeaders(es, k, e);
      FalseHeadersSplit(Hunk(oldPos, newPos, run), hs, Group(es, k, oldPos, newPos));
    }
  }

  lemma {:induction false} NoGroupsNoChanges(es: seq<Edit>, k: nat, oldPos: nat, newPos: nat)
    requires k <= |es| && Group(es, k, oldPos, newPos) == []
    ensures forall i | k <= i < |es| :: es[i].Keep?
    decreases |es| - k
  {
    if k < |es| {
      FarLineIsKept(es, k);
      NoGroupsNoChanges(es, k + 1, oldPos + 1, newPos + 1);
    }
  }

  lemma KeptLineIsNoHeader(es: seq<Edit>, k: nat)
    requires k < |es| && es[k].Keep?
    ensures NoFalseHeaderFrom(es, k) <==> NoFalseHeaderFrom(es, k + 1)
  {
    if NoFalseHeaderFrom(es, k + 1) {
      forall i | k <= i < |es| ensures !ReadsAsHeader(es[i]) {
        if i == k { assert es[i].Keep?; }
      }
    }
  }

  lemma RunKeepsHeaders(es: seq<Edit>, k: nat, e: nat)
    requires k <= e <= |es|
    ensures NoFalseHeaderFrom(es, k) <==> NoFalseHeader(es[k..e]) && NoFalseHeaderFrom(es, e)
  {
    var run := es[k..e];
    forall i | k <= i < e ensures es[i] in run { assert run[i - k] == es[i]; }
  }

  lemma {:induction false} KeptScript(es: seq<Edit>)
    requires forall i | 0 <= i < |es| :: es[i].Keep?
    ensures OldOf(es) == NewOf(es)
    decreases |es|
  {
    if es != [] { KeptScript(es[1..]); }
  }

  /** A script between the lines of the two texts; equal texts have no changes. */
  predicate ScriptFor(f: FileDiff, es: seq<Edit>) {
    && OldOf(es) == SplitLines(f.before) && NewOf(es) == SplitLines(f.after)
    && (f.before == f.after ==> forall i | 0 <= i < |es| :: es[i].Keep?)
  }

  lemma NoChangeNoHunks(es: seq<Edit>, k: nat, oldPos: nat, newPos: nat)
    requires k <= |es| && forall i | 0 <= i < |es| :: es[i].Keep?
    ensures Group(es, k, oldPos, newPos) == []
    decreases |es| - k
  {
  }

  lemma ScriptGivesValidHunks(f: FileDiff, es: seq<Edit>)
    requires ScriptFor(f, es) && f.hunks == Group(es, 0, 0, 0)
    ensures ValidHunks(f)
  {
    assert es[0..] == es;
    var original := SplitLines(f.before);
    assert original[0..] == original;
    GroupIsValid(es, 0, original, 0, 0);
    JoinOfSplit(f.before);
    JoinOfSplit(f.after);
    if f.hunks == [] {
      NoGroupsNoChanges(es, 0, 0, 0);
      KeptScript(es);
    }
    if f.before == f.after { NoChangeNoHunks(es, 0, 0, 0); }
  }

  /** The round trip for one file: for any two plain texts, any edit script
      between them and any existence flags, parsing the generated three-context
      diff yields exactly the one intended operation, if and only if something
      changed, the text carries no binary marker and no deleted line starts with
      `-- `. */
  lemma DiffRoundTrip(f: FileDiff, es: seq<Edit>, source: Source)
    requires SafeLabel(f.name) && PlainText(f.name) && '\n' !in f.name
    requires PlainText(f.before) && PlainText(f.after)
    requires (!f.existedBefore ==> f.before == "") && (!f.existsAfter ==> f.after == "")
    requires f.existedBefore ==>
      && Parts(f.name) in source.files && source.files[Parts(f.name)] == f.before
      && Parts(f.name) in source.states && source.states[Parts(f.name)] == f.before
    requires ScriptFor(f, es) && f.hunks == Group(es, 0, 0, 0)
    ensures ParsePatch(PatchText([f]), source) == Success([Intended(f)])
      <==> !f.Unchanged() && !HasBinaryMarker(PatchText([f])) && forall e | e in es :: !(e.Del? && "-- " <= e.line)
  {
    ScriptGivesValidHunks(f, es);
    PatchRoundTrip([f], source);
    GroupKeepsChanges(es, 0, 0, 0);
    assert NoFalseHeaderFrom(es, 0) <==> forall e | e in es :: !ReadsAsHeader(e);
    assert f in [f];
    assert IntendedOps([f]) == if f.Unchanged() then [] else [Intended(f)];
  }

  lemma OneLineText(line: string)
    requires WholeLine(line)
    ensures SplitLines(line) == [line]
  {
    FirstLineOf(line, "");
    assert line + "" == line;
  }

  lemma NameF()
    ensures Parts("f") == ["f"] && SafeLabel("f") && PlainText("f")
  {
    assert "f"[1..] == "" && SplitSlash("") == [""];
    assert ['f'] + "" == "f" && [""][1..] == [];
    assert SplitSlash("f") == ["f"];
    assert Parts("f") == ["f"] + DropTrivial([]);
  }

  lemma DashLine()
    ensures WholeLine("-- x\n") && PlainText("-- x\n") && "-- " <= "-- x\n"
  {
    assert "-- x\n"[..4] == "-- x";
  }

  /** The failing family has members: deleting the line `-- x` cannot be parsed back. */
  lemma DeletedDashDashFails(source: Source, line: string)
    requires line == "-- x\n"
    requires ["f"] in source.files && source.files[["f"]] == line
    requires ["f"] in source.states && source.states[["f"]] == line
    ensures var f := FileDiff("f", line, "", true, true, Group([Del(line)], 0, 0, 0));
      ParsePatch(PatchText([f]), source) != Success([Intended(f)])
  {
    NameF();
    DashLine();
    OneLineText(line);
    var es := [Del(line)];
    assert es[1..] == [];
    assert OldOf(es) == [line] + OldOf(es[1..]) && NewOf(es) == NewOf(es[1..]);
    assert es[0] in es && es[0].Del? && "-- " <= es[0].line;
    DiffRoundTrip(FileDiff("f", line, "", true, true, Group(es, 0, 0, 0)), es, source);
  }

  /** Neither can a new file whose text holds a binary marker. */
  lemma BinaryTextFails(source: Source, line: string)
    requires line == "Binary files \n"
    ensures var f := FileDiff("f", "", line, false, true, Group([Add(line)], 0, 0, 0));
      ParsePatch(PatchText([f]), source) != Success([Intended(f)])
  {
    BinaryLine();
    AddedLineIsPrinted(FileDiff("f", "", line, false, true, Group([Add(line)], 0, 0, 0)), line);
  }

  lemma BinaryLine()
    ensures WholeLine("Binary files \n") && PlainText("Binary files \n") && "Binary files " <= "Binary files \n"
  {
    assert "Binary files \n"[..13] == "Binary files ";
  }

  lemma OneAddedLine(line: string)
    requires WholeLine(line)
    ensures PrintHunks(Group([Add(line)], 0, 0, 0)) == PrintHunk(Hunk(0, 0, [Add(line)]))
  {
    var es := [Add(line)];
    assert !es[0].Keep? && NearChange(es, 0);
    assert es[0..1] == es && RunEnd(es, 0) == 1;
    assert Group(es, 0, 0, 0) == [Hunk(0, 0, es)] + [];
  }

  lemma OneAddedHunk(line: string)
    requires WholeLine(line)
    ensures var h := Hunk(0, 0, [Add(line)]); PrintHunk(h) == [HunkHeader(h) + "\n"] + [['+'] + line]
  {
    var es := [Add(line)];
    assert PrintEdits(es) == PrintEdit(es[0]) + PrintEdits(es[1..]) == [['+'] + line];
  }

  /** The text of a file that consists of one added line ends in that line. */
  lemma AddedLineIsPrinted(f: FileDiff, line: string)
    requires WholeLine(line) && "Binary files " <= line && !f.Unchanged() && f.hunks == Group([Add(line)], 0, 0, 0)
    ensures HasBinaryMarker(PatchText([f]))
  {
    OneAddedLine(line);
    OneAddedHunk(line);
    var h := Hunk(0, 0, [Add(line)]);
    var head := [FILE_HEADER + OldName(f) + "\n", NEW_HEADER + NewName(f) + "\n", HunkHeader(h) + "\n"];
    assert PrintFile(f) == head + [['+'] + line];
    JoinAppend(head, [['+'] + line]);
    EndsWithLine(Join(head), line);
    assert [['+'] + line][1..] == [] && [f][1..] == [];
    assert PatchText([f]) == Join(head) + (['+'] + line + "") + "";
  }

  lemma EndsWithLine(head: string, line: string)
    requires "Binary files " <= line
    ensures HasBinaryMarker(head + (['+'] + line + "") + "")
  {
    var text := head + (['+'] + line + "") + "";
    assert text[|head| + 1..] == line;
  }

  lemma {:induction false} OnlyDeletionsReadAsHeaders(es: seq<Edit>)
    requires OldOf(es) == []
    ensures NoFalseHeader(es)
    decreases |es|
  {
    if es != [] { OnlyDeletionsReadAsHeaders(es[1..]); }
  }

  /** Why the context matters: an insertion without context after the first line
      is applied one line too early. */
  lemma UnanchoredLandsEarly(h: Hunk, s: Hunks, original: seq<string>, rest: seq<string>)
    requires OldOf(h.edits) == [] && h.oldStart >= 1 && GoodEdits(h.edits) && BodyEnd(rest)
    requires s.rest != [] && s.rest[1..] == PrintEdits(h.edits) + rest
    requires s.cursor < h.oldStart <= |original|
    ensures ReadHunk(PrintedFields(h), s, original) ==
      Next(AfterHunk(s, original, h.(oldStart := h.oldStart - 1), rest))
  {
    ReadPlacedHunk(h, h.oldStart - 1, s, original, rest);
    OnlyDeletionsReadAsHeaders(h.edits);
  }
}
