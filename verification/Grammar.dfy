/** The accepted patches by their form alone: what the lines of a hunk, of a file part and
    of a patch must be, and that exactly these texts are accepted, with exactly the
    operations they spell. */
module Grammar {
  import opened Contracts
  import opened Text
  import opened UnifiedDiff
  import opened DiffProofs
  import opened RoundTrip
  import opened Joining

  // ---------------------------------------------------------------------------
  // The form of a patch
  // ---------------------------------------------------------------------------

  /** The lines spell the edits, one line for each: its prefix and its text. A marker line
      takes the line break off the text before it, and means nothing elsewhere. */
  predicate Spells(lines: seq<string>, es: seq<Edit>)
    decreases |lines|
  {
    if lines == [] then es == []
    else if NO_NEWLINE <= lines[0] then Spells(lines[1..], es)
    else
      && es != [] && lines[0] != "" && lines[0][0] == Prefix(es[0])
      && if |lines| > 1 && NO_NEWLINE <= lines[1]
         then es[0].line == RStripBreaks(lines[0][1..]) && Spells(lines[2..], es[1..])
         else es[0].line == lines[0][1..] && Spells(lines[1..], es[1..])
  }

  /** The lines of a hunk body: none of them reads as a header. */
  predicate BodySpelled(lines: seq<string>, es: seq<Edit>) {
    (forall l | l in lines :: !EndsHunk(l)) && Spells(lines, es)
  }

  /** A header with the place and the counts of the hunk, and its body. */
  predicate HunkSpelled(lines: seq<string>, h: Hunk) {
    lines != [] &&
    match ReadHeader(RStripBreaks(lines[0]))
    case None => false
    case Some(header) =>
      && TargetCursor(header) == h.oldStart
      && header.oldCount == |OldOf(h.edits)| && header.newCount == |NewOf(h.edits)|
      && BodySpelled(lines[1..], h.edits)
  }

  predicate HunksSpelled(lines: seq<string>, hs: seq<Hunk>)
    decreases |hs|
  {
    if hs == [] then lines == []
    else exists n | 1 <= n <= |lines| :: HunkSpelled(lines[..n], hs[0]) && HunksSpelled(lines[n..], hs[1..])
  }

  /** What the hunks make of the target of a part; without hunks only an empty file may
      appear or disappear. */
  predicate Makes(t: Target, hs: seq<Hunk>, op: PatchOp) {
    && Fits(t.original, 0, hs)
    && (hs == [] ==> !t.kind.Modify? && t.original == [])
    && op == PatchOp(t.path, t.kind, if t.kind.Delete? then None else Some(Join(Splice(t.original, 0, hs))), t.expected)
  }

  /** Two headers that name the target, blank lines, and hunks. */
  ghost predicate PartSpelled(lines: seq<string>, source: Source, op: PatchOp) {
    && |lines| >= 2 && FILE_HEADER <= lines[0] && NEW_HEADER <= lines[1]
    && var t := ReadTarget(RStripBreaks(lines[0][4..]), RStripBreaks(lines[1][4..]), source);
       t.Success? && exists k: nat, hs :: PartHas(lines, t.value, k, hs, op)
  }

  predicate PartHas(lines: seq<string>, t: Target, k: nat, hs: seq<Hunk>, op: PatchOp) {
    2 <= k <= |lines| && AllBlank(lines[2..k]) && HunksSpelled(lines[k..], hs) && Makes(t, hs, op)
  }

  /** One part for each operation, in order. */
  ghost predicate PartsSpelled(lines: seq<string>, source: Source, ops: seq<PatchOp>)
    decreases |ops|
  {
    if ops == [] then lines == []
    else
      exists n | 1 <= n <= |lines| ::
        PartSpelled(lines[..n], source, ops[0]) && PartsSpelled(lines[n..], source, ops[1..])
  }

  ghost predicate PatchSpelled(lines: seq<string>, k: int, source: Source, ops: seq<PatchOp>) {
    0 <= k <= |lines| && AllBlank(lines[..k]) && PartsSpelled(lines[k..], source, ops)
  }

  /** Blank lines, then one part for each operation, and no binary marker anywhere. */
  ghost predicate TextSpelled(text: string, source: Source, ops: seq<PatchOp>) {
    !HasBinaryMarker(text) && ops != [] && exists k :: PatchSpelled(SplitLines(text), k, source, ops)
  }

  // ---------------------------------------------------------------------------
  // Headers
  // ---------------------------------------------------------------------------

  const NULL_DEVICE := "/dev/null"

  /** The label names the path: a safe relative name, behind at most one `a/` or `b/`. */
  ghost predicate Names(shown: string, path: Path) {
    exists name :: IsLabel(shown, name) && SafeLabel(name) && path == Parts(name)
  }

  predicate IsLabel(shown: string, name: string) {
    if "a/" <= shown || "b/" <= shown then shown == "a/" + name || shown == "b/" + name else shown == name
  }

  lemma NamesExactly(shown: string, path: Path)
    requires shown != NULL_DEVICE
    ensures HeaderPath(shown) == Success(Some(path)) <==> Names(shown, path)
    ensures HeaderPath(shown) != Success(None)
  {
    var bare := if "a/" <= shown || "b/" <= shown then shown[2..] else shown;
    assert IsLabel(shown, bare) by {
      if "a/" <= shown { assert shown == "a/" + bare; } else if "b/" <= shown { assert shown == "b/" + bare; }
    }
    if Names(shown, path) {
      var name :| IsLabel(shown, name) && SafeLabel(name) && path == Parts(name);
      assert bare == name;
    }
  }

  /** Exactly which headers name which target: a file is created, deleted or changed as the
      null device says, two labels name one path, and what is not created is there. */
  lemma TargetExactly(before: string, after: string, source: Source, t: Target)
    ensures ReadTarget(before, after, source) == Success(t) <==>
      && (before == NULL_DEVICE || Names(before, t.path)) && (after == NULL_DEVICE || Names(after, t.path))
      && !(before == NULL_DEVICE && after == NULL_DEVICE)
      && if before == NULL_DEVICE then t == Target(t.path, Create, [], None)
         else
           && t.path in source.files && t.path in source.states
           && t == Target(t.path, if after == NULL_DEVICE then Delete else Modify,
                          SplitLines(source.files[t.path]), Some(source.states[t.path]))
  {
    if before != NULL_DEVICE { NamesExactly(before, t.path); }
    if after != NULL_DEVICE { NamesExactly(after, t.path); }
  }

  /** Behind the `a/` or `b/` of a header exactly the names that stay inside are taken:
      relative ones without a `..` component. */
  lemma LabelExactly(prefix: string, name: string)
    requires prefix == "a/" || prefix == "b/"
    ensures HeaderPath(prefix + name).Success? <==> name != "" && name[0] != '/' && ".." !in Parts(name)
    ensures HeaderPath(prefix + name).Success? ==> HeaderPath(prefix + name) == Success(Some(Parts(name)))
  {
    assert (prefix + name)[2..] == name && (prefix + name)[0] != '/' && "/dev/null"[0] == '/';
  }

  /** A name with a step up in it is never taken. */
  lemma StepUpIsRefused(prefix: string, left: string, right: string)
    requires prefix == "a/" || prefix == "b/"
    ensures HeaderPath(prefix + (left + "/" + ("../" + right))).Failure?
    ensures HeaderPath(prefix + ("../" + right)).Failure?
  {
    PartsOfSlash("..", right);
    assert ".." + "/" + right == "../" + right && ".." in [".."] + Parts(right);
    PartsOfSlash(left, "../" + right);
    LabelExactly(prefix, left + "/" + ("../" + right));
    LabelExactly(prefix, "../" + right);
  }

  predicate Around(text: string, before: string, word: string, after: string) {
    text == before + word + after
  }

  /** Exactly the texts with one of the two words in them are taken for binary patches. */
  lemma MarkersExactly(text: string)
    ensures HasBinaryMarker(text) <==>
      exists a, b :: Around(text, a, "GIT binary patch", b) || Around(text, a, "Binary files ", b)
  {
    ContainsExactly(text, "GIT binary patch");
    ContainsExactly(text, "Binary files ");
  }

  lemma ContainsExactly(text: string, word: string)
    ensures Contains(text, word) <==> exists a, b :: Around(text, a, word, b)
  {
    if i :| 0 <= i <= |text| && word <= text[i..] {
      assert text == text[..i] + text[i..] && text[i..] == word + text[i..][|word|..];
      assert Around(text, text[..i], word, text[i..][|word|..]);
    }
    if a, b :| Around(text, a, word, b) {
      assert text[|a|..] == word + b;
    }
  }

  // ---------------------------------------------------------------------------
  // Bodies
  // ---------------------------------------------------------------------------

  /** What may follow a body. */
  predicate EndsBody(rest: seq<string>) {
    rest == [] || EndsHunk(rest[0])
  }

  /** A body line spells one edit, which the loop carries out; its marker goes with it. */
  lemma LineSpells(b: Body, original: seq<string>) returns (e: Edit, n: nat)
    requires b.cursor <= |original| && StepBody(b, original).Next? && !(NO_NEWLINE <= b.rest[0])
    ensures n == (if |b.rest| > 1 && NO_NEWLINE <= b.rest[1] then 2 else 1)
    ensures n <= |b.rest| && StepBody(b, original).state == Advance(b, e, b.rest[n..])
    ensures b.rest[0] != "" && b.rest[0][0] == Prefix(e)
    ensures e.line == (if n == 2 then RStripBreaks(b.rest[0][1..]) else b.rest[0][1..])
    ensures !e.Add? ==> b.cursor < |original| && original[b.cursor] == e.line
    ensures !EndsHunk(b.rest[0])
  {
    n := if |b.rest| > 1 && NO_NEWLINE <= b.rest[1] then 2 else 1;
    var text := if n == 2 then RStripBreaks(b.rest[0][1..]) else b.rest[0][1..];
    e := if b.rest[0][0] == ' ' then Keep(text) else if b.rest[0][0] == '-' then Del(text) else Add(text);
  }

  lemma OldLinesBefore(original: seq<string>, cursor: nat, e: Edit, es: seq<Edit>)
    requires !e.Add? ==> cursor < |original| && original[cursor] == e.line
    requires OldLinesAt(original, if e.Add? then cursor else cursor + 1, es)
    ensures OldLinesAt(original, cursor, [e] + es)
  {
    assert ([e] + es)[1..] == es;
  }

  /** The body loop went from `b` to `r` over `lines`, which spell `es`. */
  predicate BodyRead(b: Body, original: seq<string>, lines: seq<string>, es: seq<Edit>, r: Body) {
    && b.rest == lines + r.rest && EndsBody(r.rest) && BodySpelled(lines, es)
    && OldLinesAt(original, b.cursor, es) && r == AfterEdits(b, es, r.rest)
  }

  /** An accepted body is spelled by the lines it was read from. */
  lemma {:induction false} BodyIsSpelled(b: Body, original: seq<string>) returns (lines: seq<string>, es: seq<Edit>)
    requires b.cursor <= |original| && ParseBody(b, original).Success?
    ensures BodyRead(b, original, lines, es, ParseBody(b, original).value)
    decreases |b.rest|
  {
    if StepBody(b, original).Leave? {
      lines, es := [], [];
      BodyLeaves(b, original);
    } else {
      var next, r := StepBody(b, original).state, ParseBody(b, original).value;
      var later, more := BodyIsSpelled(next, original);
      if NO_NEWLINE <= b.rest[0] {
        lines, es := [b.rest[0]] + later, more;
        MarkerThenBody(b, original, later, more, r);
      } else {
        var e, n := LineSpells(b, original);
        lines, es := b.rest[..n] + later, [e] + more;
        LineThenBody(b, original, n, e, later, more, r);
      }
    }
  }

  lemma BodyLeaves(b: Body, original: seq<string>)
    requires b.cursor <= |original| && StepBody(b, original).Leave?
    ensures ParseBody(b, original) == Success(b) && BodyRead(b, original, [], [], b)
  {
    assert b.rest == [] + b.rest && b.output + [] == b.output;
  }

  lemma MarkerThenBody(b: Body, original: seq<string>, lines: seq<string>, es: seq<Edit>, r: Body)
    requires b.rest != [] && NO_NEWLINE <= b.rest[0] && BodyRead(b.(rest := b.rest[1..]), original, lines, es, r)
    ensures BodyRead(b, original, [b.rest[0]] + lines, es, r)
  {
    MarkerInFront(b.rest[0], lines, es);
    FirstAgain(b.rest, lines, r.rest);
  }

  lemma FirstAgain(all: seq<string>, lines: seq<string>, rest: seq<string>)
    requires all != [] && all[1..] == lines + rest
    ensures all == ([all[0]] + lines) + rest
  {
    assert all == [all[0]] + all[1..];
  }

  lemma LineThenBody(b: Body, original: seq<string>, n: nat, e: Edit, lines: seq<string>, es: seq<Edit>, r: Body)
    requires b.rest != [] && !EndsHunk(b.rest[0]) && !(NO_NEWLINE <= b.rest[0])
    requires n == (if |b.rest| > 1 && NO_NEWLINE <= b.rest[1] then 2 else 1)
    requires b.rest[0] != "" && b.rest[0][0] == Prefix(e)
    requires e.line == (if n == 2 then RStripBreaks(b.rest[0][1..]) else b.rest[0][1..])
    requires !e.Add? ==> b.cursor < |original| && original[b.cursor] == e.line
    requires BodyRead(Advance(b, e, b.rest[n..]), original, lines, es, r)
    ensures BodyRead(b, original, b.rest[..n] + lines, [e] + es, r)
  {
    OldLinesBefore(original, b.cursor, e, es);
    AdvanceThenAfter(b, original, e, es, b.rest[n..], r.rest);
    LineInFront(b.rest, n, lines, r.rest, e, es);
  }

  lemma MarkerInFront(marker: string, lines: seq<string>, es: seq<Edit>)
    requires NO_NEWLINE <= marker && BodySpelled(lines, es)
    ensures BodySpelled([marker] + lines, es)
  {
    MarkerIsNoHeader(marker);
    assert ([marker] + lines)[1..] == lines;
  }

  lemma LineInFront(all: seq<string>, n: nat, lines: seq<string>, rest: seq<string>, e: Edit, es: seq<Edit>)
    requires all != [] && !EndsHunk(all[0]) && !(NO_NEWLINE <= all[0])
    requires n == (if |all| > 1 && NO_NEWLINE <= all[1] then 2 else 1) && all[n..] == lines + rest
    requires all[0] != "" && all[0][0] == Prefix(e)
    requires e.line == (if n == 2 then RStripBreaks(all[0][1..]) else all[0][1..])
    requires BodySpelled(lines, es)
    ensures BodySpelled(all[..n] + lines, [e] + es)
    ensures all == (all[..n] + lines) + rest
  {
    CutAt(all, n);
    LinesAssociative(all[..n], lines, rest);
    if n == 2 {
      assert all[..2] == [all[0], all[1]];
      LineAndMarker(all[0], all[1], lines, e, es);
    } else {
      assert all[..1] == [all[0]];
      if lines != [] { NextLine(all, lines, rest); }
      LineAlone(all[0], lines, e, es);
    }
  }

  lemma CutAt(all: seq<string>, n: nat)
    requires n <= |all|
    ensures all == all[..n] + all[n..]
  {
  }

  lemma NextLine(all: seq<string>, lines: seq<string>, rest: seq<string>)
    requires all != [] && all[1..] == lines + rest && lines != []
    ensures |all| > 1 && lines[0] == all[1]
  {
    assert all[1..][0] == lines[0];
  }

  lemma LineAlone(line: string, lines: seq<string>, e: Edit, es: seq<Edit>)
    requires !EndsHunk(line) && !(NO_NEWLINE <= line) && (lines == [] || !(NO_NEWLINE <= lines[0]))
    requires line != "" && line[0] == Prefix(e) && e.line == line[1..] && BodySpelled(lines, es)
    ensures BodySpelled([line] + lines, [e] + es)
  {
    assert ([line] + lines)[1..] == lines && ([e] + es)[1..] == es;
  }

  lemma LineAndMarker(line: string, marker: string, lines: seq<string>, e: Edit, es: seq<Edit>)
    requires !EndsHunk(line) && !(NO_NEWLINE <= line) && NO_NEWLINE <= marker
    requires line != "" && line[0] == Prefix(e) && e.line == RStripBreaks(line[1..]) && BodySpelled(lines, es)
    ensures BodySpelled([line, marker] + lines, [e] + es)
  {
    MarkerIsNoHeader(marker);
    assert ([line, marker] + lines)[2..] == lines && ([e] + es)[1..] == es;
  }

  /** How many lines the first edit of a body takes. */
  function Taken(lines: seq<string>): (n: nat)
    requires lines != []
    ensures 1 <= n <= |lines|
  {
    if |lines| > 1 && NO_NEWLINE <= lines[1] then 2 else 1
  }

  lemma SpelledTail(lines: seq<string>, es: seq<Edit>)
    requires lines != [] && BodySpelled(lines, es)
    ensures if NO_NEWLINE <= lines[0] then BodySpelled(lines[1..], es)
            else es != [] && BodySpelled(lines[Taken(lines)..], es[1..])
  {
  }

  /** What lines spell is read from them, up to the header that follows. */
  lemma {:induction false} SpelledIsBody(b: Body, original: seq<string>, lines: seq<string>, es: seq<Edit>,
                                         rest: seq<string>, r: Body)
    requires b.rest == lines + rest && EndsBody(rest) && BodySpelled(lines, es)
    requires OldLinesAt(original, b.cursor, es) && r == AfterEdits(b, es, rest)
    ensures ParseBody(b, original) == Success(r)
    decreases |lines|, 1
  {
    if lines == [] {
      EmptyBody(b, original, es, rest);
    } else if NO_NEWLINE <= lines[0] {
      SpelledTail(lines, es);
      DropOf(lines, rest, 1);
      MarkerSkipped(b, original);
      SpelledIsBody(b.(rest := b.rest[1..]), original, lines[1..], es, rest, r);
    } else {
      SpelledTail(lines, es);
      assert es == [es[0]] + es[1..];
      SpelledFirst(b, original, lines, es[0], es[1..], rest, r);
    }
  }

  lemma {:induction false} SpelledFirst(b: Body, original: seq<string>, lines: seq<string>, e: Edit, es: seq<Edit>,
                                        rest: seq<string>, r: Body)
    requires b.rest == lines + rest && EndsBody(rest) && lines != [] && BodySpelled(lines, [e] + es)
    requires !(NO_NEWLINE <= lines[0]) && BodySpelled(lines[Taken(lines)..], es)
    requires OldLinesAt(original, b.cursor, [e] + es) && r == AfterEdits(b, [e] + es, rest)
    ensures ParseBody(b, original) == Success(r)
    decreases |lines|, 0
  {
    var n := Taken(lines);
    DropOf(lines, rest, n);
    assert lines[0] in lines && ([e] + es)[0] == e;
    AdvanceThenAfter(b, original, e, es, b.rest[n..], rest);
    SpelledIsBody(Advance(b, e, b.rest[n..]), original, lines[n..], es, rest, r);
    SpelledLine(b, original, lines, e, rest);
    NextBody(b, original, Advance(b, e, b.rest[n..]));
  }

  lemma DropOf(lines: seq<string>, rest: seq<string>, n: nat)
    requires n <= |lines|
    ensures (lines + rest)[n..] == lines[n..] + rest && (lines + rest)[..n] == lines[..n]
    ensures n < |lines| ==> (lines + rest)[n] == lines[n]
  {
  }

  lemma NextBody(b: Body, original: seq<string>, next: Body)
    requires b.cursor <= |original| && StepBody(b, original) == Next(next)
    ensures ParseBody(b, original) == ParseBody(next, original)
  {
  }

  lemma EmptyBody(b: Body, original: seq<string>, es: seq<Edit>, rest: seq<string>)
    requires b.rest == [] + rest && EndsBody(rest) && Spells([], es) && b.cursor <= |original|
    ensures ParseBody(b, original) == Success(AfterEdits(b, es, rest))
  {
    assert b.rest == rest && b.output + [] == b.output;
    assert StepBody(b, original) == Leave;
  }

  lemma MarkerSkipped(b: Body, original: seq<string>)
    requires b.cursor <= |original| && b.rest != [] && NO_NEWLINE <= b.rest[0]
    ensures ParseBody(b, original) == ParseBody(b.(rest := b.rest[1..]), original)
  {
    MarkerIsNoHeader(b.rest[0]);
    NextBody(b, original, b.(rest := b.rest[1..]));
  }

  /** A line that spells an edit the original has room for is read as that edit. */
  lemma SpelledLine(b: Body, original: seq<string>, lines: seq<string>, e: Edit, rest: seq<string>)
    requires b.rest == lines + rest && EndsBody(rest) && lines != [] && b.cursor <= |original|
    requires !EndsHunk(lines[0]) && !(NO_NEWLINE <= lines[0])
    requires lines[0] != "" && lines[0][0] == Prefix(e)
    requires e.line == (if Taken(lines) == 2 then RStripBreaks(lines[0][1..]) else lines[0][1..])
    requires !e.Add? ==> b.cursor < |original| && original[b.cursor] == e.line
    ensures StepBody(b, original) == Next(Advance(b, e, b.rest[Taken(lines)..]))
  {
    assert b.rest[0] == lines[0];
    if |lines| > 1 {
      assert b.rest[1] == lines[1];
    } else if rest != [] {
      assert b.rest[1] == rest[0];
      if NO_NEWLINE <= rest[0] { MarkerIsNoHeader(rest[0]); }
    }
    assert e == (if e.Add? then Add(e.line) else if e.Del? then Del(e.line) else Keep(e.line));
  }

  // ---------------------------------------------------------------------------
  // Hunks
  // ---------------------------------------------------------------------------

  /** The hunk loop went from `s` to `e` over blank lines and then over spelled hunks. */
  ghost predicate LoopSpelled(s: Hunks, original: seq<string>, blanks: seq<string>, lines: seq<string>, hs: seq<Hunk>,
                              e: Hunks)
    requires s.cursor <= |original| && e.cursor <= |original|
  {
    && s.rest == blanks + lines + e.rest && FileEnd(e.rest)
    && AllBlank(blanks) && HunksSpelled(lines, hs) && LeadsTo(s, original, hs, e)
  }

  lemma {:induction false} HunksAreSpelled(s: Hunks, original: seq<string>)
    returns (blanks: seq<string>, lines: seq<string>, hs: seq<Hunk>)
    requires s.cursor <= |original| && ParseHunks(s, original).Success?
    ensures LoopSpelled(s, original, blanks, lines, hs, ParseHunks(s, original).value)
    decreases |s.rest|
  {
    if StepHunks(s, original).Leave? {
      blanks, lines, hs := [], [], [];
      LoopEnds(s, original);
    } else {
      var e := ParseHunks(s, original).value;
      var next := StepHunks(s, original).state;
      var skipped, later, more := HunksAreSpelled(next, original);
      if ReadHeader(RStripBreaks(s.rest[0])).None? {
        blanks, lines, hs := [s.rest[0]] + skipped, later, more;
        BlankThenLoop(s, original, skipped, later, more, e);
      } else {
        var body, h := HunkIsSpelled(s, original);
        blanks, lines, hs := [], body + later, [h] + more;
        HunkThenLoop(s, original, body, h, next, skipped, later, more, e);
      }
    }
  }

  lemma LoopEnds(s: Hunks, original: seq<string>)
    requires s.cursor <= |original| && StepHunks(s, original).Leave?
    ensures LoopSpelled(s, original, [], [], [], s)
  {
    assert s.rest == [] + [] + s.rest;
    ReadingLeaves(s, original);
  }

  lemma ReadingLeaves(s: Hunks, original: seq<string>)
    requires s.cursor <= |original|
    ensures StepHunks(s, original).Leave? <==> FileEnd(s.rest)
  {
  }

  lemma BlankThenLoop(s: Hunks, original: seq<string>, blanks: seq<string>, lines: seq<string>, hs: seq<Hunk>,
                      e: Hunks)
    requires s.cursor <= |original| && e.cursor <= |original| && s.rest != [] && IsBlank(s.rest[0])
    requires LoopSpelled(s.(rest := s.rest[1..]), original, blanks, lines, hs, e)
    ensures LoopSpelled(s, original, [s.rest[0]] + blanks, lines, hs, e)
  {
    BlankFirst(s.rest, blanks, lines, e.rest);
  }

  lemma BlankFirst(all: seq<string>, blanks: seq<string>, lines: seq<string>, rest: seq<string>)
    requires all != [] && all[1..] == blanks + lines + rest && IsBlank(all[0]) && AllBlank(blanks)
    ensures all == ([all[0]] + blanks) + lines + rest && AllBlank([all[0]] + blanks)
  {
    assert all == [all[0]] + all[1..];
  }

  lemma HunkThenLoop(s: Hunks, original: seq<string>, body: seq<string>, h: Hunk, next: Hunks, blanks: seq<string>,
                     lines: seq<string>, hs: seq<Hunk>, e: Hunks)
    requires s.cursor <= h.oldStart && OldLinesAt(original, h.oldStart, h.edits) && e.cursor <= |original|
    requires s.rest == body + next.rest && EndsBody(next.rest) && HunkSpelled(body, h)
    requires next == AfterHunk(s, original, h, next.rest)
    requires LoopSpelled(next, original, blanks, lines, hs, e)
    ensures LoopSpelled(s, original, [], body + lines, [h] + hs, e)
  {
    if blanks != [] {
      BlankIsNoHeader(blanks[0]);
      assert false;
    }
    LinesOfHunks(s.rest, body, next.rest, lines, e.rest);
    HunkThenMore(s, original, h, next, hs, e);
    HunkInFront(body, h, lines, hs);
  }

  lemma LinesOfHunks(all: seq<string>, body: seq<string>, tail: seq<string>, lines: seq<string>, rest: seq<string>)
    requires all == body + tail && tail == [] + lines + rest
    ensures all == [] + (body + lines) + rest
  {
  }

  lemma HunkIsSpelled(s: Hunks, original: seq<string>) returns (lines: seq<string>, h: Hunk)
    requires s.cursor <= |original| && StepHunks(s, original).Next? && ReadHeader(RStripBreaks(s.rest[0])).Some?
    ensures var next := StepHunks(s, original).state;
      && s.rest == lines + next.rest && EndsBody(next.rest) && HunkSpelled(lines, h)
      && s.cursor <= h.oldStart && OldLinesAt(original, h.oldStart, h.edits)
      && next == AfterHunk(s, original, h, next.rest)
  {
    var header := ReadHeader(RStripBreaks(s.rest[0])).value;
    HunkStep(s, original, header);
    var target := TargetCursor(header);
    var b := Body(s.rest[1..], target, s.output + original[s.cursor..target], 0, 0);
    var body, es := BodyIsSpelled(b, original);
    lines, h := [s.rest[0]] + body, Hunk(target, 0, es);
    HeaderInFront(s.rest, body, ParseBody(b, original).value.rest, header, h);
    ReadAsHunk(s, original, b, h, ParseBody(b, original).value);
  }

  lemma HeaderInFront(all: seq<string>, body: seq<string>, rest: seq<string>, header: HeaderFields, h: Hunk)
    requires all != [] && ReadHeader(RStripBreaks(all[0])) == Some(header) && all[1..] == body + rest
    requires TargetCursor(header) == h.oldStart && BodySpelled(body, h.edits)
    requires header.oldCount == |OldOf(h.edits)| && header.newCount == |NewOf(h.edits)|
    ensures HunkSpelled([all[0]] + body, h) && all == ([all[0]] + body) + rest
  {
    assert ([all[0]] + body)[1..] == body && all == [all[0]] + all[1..];
  }

  lemma ReadAsHunk(s: Hunks, original: seq<string>, b: Body, h: Hunk, r: Body)
    requires s.cursor <= h.oldStart <= |original| && b.cursor == h.oldStart && b.consumed == b.produced == 0
    requires b.output == s.output + original[s.cursor..h.oldStart] && r == AfterEdits(b, h.edits, r.rest)
    ensures Hunks(r.rest, r.cursor, r.output, true) == AfterHunk(s, original, h, r.rest)
  {
  }

  /** What a hunk that was read says of its body. */
  lemma HunkStep(s: Hunks, original: seq<string>, header: HeaderFields)
    requires s.cursor <= |original| && StepHunks(s, original).Next?
    requires ReadHeader(RStripBreaks(s.rest[0])) == Some(header)
    ensures s.cursor <= TargetCursor(header) <= |original|
    ensures var target := TargetCursor(header);
      var r := ParseBody(Body(s.rest[1..], target, s.output + original[s.cursor..target], 0, 0), original);
      && r.Success? && r.value.consumed == header.oldCount && r.value.produced == header.newCount
      && StepHunks(s, original).state == Hunks(r.value.rest, r.value.cursor, r.value.output, true)
  {
  }

  lemma HunkInFront(lines: seq<string>, h: Hunk, later: seq<string>, hs: seq<Hunk>)
    requires HunkSpelled(lines, h) && HunksSpelled(later, hs)
    ensures HunksSpelled(lines + later, [h] + hs)
  {
    var all := lines + later;
    assert all[..|lines|] == lines && all[|lines|..] == later && ([h] + hs)[1..] == hs;
  }

  lemma HunkStarts(lines: seq<string>, h: Hunk)
    requires HunkSpelled(lines, h)
    ensures EndsHunk(lines[0]) && !(FILE_HEADER <= lines[0])
  {
    RStripIsPrefix(lines[0]);
    assert lines[0][0] == '@';
  }

  /** Spelled hunks that fit are read, up to the next file or the end. */
  lemma {:induction false} SpelledAreHunks(s: Hunks, original: seq<string>, lines: seq<string>, hs: seq<Hunk>,
                                           rest: seq<string>)
    requires s.rest == lines + rest && FileEnd(rest) && HunksSpelled(lines, hs)
    requires s.cursor <= |original| && Fits(original, s.cursor, hs)
    ensures ParseHunks(s, original).Success?
    ensures var e := ParseHunks(s, original).value; e.rest == rest && LeadsTo(s, original, hs, e)
    decreases |hs|, 0
  {
    if hs == [] {
      assert s.rest == rest;
      ReadingLeaves(s, original);
    } else {
      var h, more := hs[0], hs[1..];
      var n := FirstHunkLines(lines, hs);
      assert hs == [h] + more;
      SpelledHunkFirst(s, original, lines, n, h, more, rest);
    }
  }

  lemma {:induction false} SpelledHunkFirst(s: Hunks, original: seq<string>, lines: seq<string>, n: nat, h: Hunk,
                                            hs: seq<Hunk>, rest: seq<string>)
    requires s.rest == lines + rest && FileEnd(rest) && n <= |lines|
    requires HunkSpelled(lines[..n], h) && HunksSpelled(lines[n..], hs)
    requires s.cursor <= |original| && Fits(original, s.cursor, [h] + hs)
    ensures ParseHunks(s, original).Success?
    ensures var e := ParseHunks(s, original).value; e.rest == rest && LeadsTo(s, original, [h] + hs, e)
    decreases |hs|, 1
  {
    var next := NextSpelledHunk(s, original, lines, n, h, hs, rest);
    SpelledAreHunks(next, original, lines[n..], hs, rest);
    HunkThenMore(s, original, h, next, hs, ParseHunks(next, original).value);
    NextHunks(s, original, next);
  }

  lemma HunkThenMore(s: Hunks, original: seq<string>, h: Hunk, next: Hunks, hs: seq<Hunk>, e: Hunks)
    requires s.cursor <= h.oldStart && OldLinesAt(original, h.oldStart, h.edits) && e.cursor <= |original|
    requires next == AfterHunk(s, original, h, next.rest) && LeadsTo(next, original, hs, e)
    ensures LeadsTo(s, original, [h] + hs, e)
  {
    LeadsToPrepend(s, original, h, next, hs, e);
  }

  lemma NextSpelledHunk(s: Hunks, original: seq<string>, lines: seq<string>, n: nat, h: Hunk, hs: seq<Hunk>,
                        rest: seq<string>)
    returns (next: Hunks)
    requires s.rest == lines + rest && FileEnd(rest) && n <= |lines|
    requires HunkSpelled(lines[..n], h) && HunksSpelled(lines[n..], hs)
    requires s.cursor <= |original| && Fits(original, s.cursor, [h] + hs)
    ensures s.cursor <= h.oldStart && OldLinesAt(original, h.oldStart, h.edits)
    ensures next == AfterHunk(s, original, h, lines[n..] + rest) && StepHunks(s, original) == Next(next)
    ensures next.cursor <= |original| && Fits(original, next.cursor, hs)
  {
    FirstHunkFits(original, s.cursor, h, hs);
    AfterSpelledHunk(lines[n..], hs, rest);
    CutAt(lines, n);
    LinesAssociative(lines[..n], lines[n..], rest);
    next := AfterHunk(s, original, h, lines[n..] + rest);
    SpelledHunk(s, original, lines[..n], h, lines[n..] + rest);
  }

  lemma FirstHunkLines(lines: seq<string>, hs: seq<Hunk>) returns (n: nat)
    requires hs != [] && HunksSpelled(lines, hs)
    ensures 1 <= n <= |lines| && HunkSpelled(lines[..n], hs[0]) && HunksSpelled(lines[n..], hs[1..])
  {
    n :| 1 <= n <= |lines| && HunkSpelled(lines[..n], hs[0]) && HunksSpelled(lines[n..], hs[1..]);
  }

  lemma NextHunks(s: Hunks, original: seq<string>, next: Hunks)
    requires s.cursor <= |original| && StepHunks(s, original) == Next(next)
    ensures ParseHunks(s, original) == ParseHunks(next, original)
  {
  }

  lemma AfterSpelledHunk(lines: seq<string>, hs: seq<Hunk>, rest: seq<string>)
    requires HunksSpelled(lines, hs) && FileEnd(rest)
    ensures EndsBody(lines + rest)
  {
    if hs != [] {
      var n := FirstHunkLines(lines, hs);
      HunkStarts(lines[..n], hs[0]);
      assert lines[..n][0] == lines[0];
    }
    EndsBodyThere(lines, rest);
  }

  lemma EndsBodyThere(lines: seq<string>, rest: seq<string>)
    requires if lines == [] then FileEnd(rest) else EndsHunk(lines[0])
    ensures EndsBody(lines + rest)
  {
    if lines == [] { assert lines + rest == rest; }
  }

  lemma SpelledHunk(s: Hunks, original: seq<string>, lines: seq<string>, h: Hunk, rest: seq<string>)
    requires s.rest == lines + rest && EndsBody(rest) && HunkSpelled(lines, h)
    requires s.cursor <= h.oldStart && OldLinesAt(original, h.oldStart, h.edits)
    ensures StepHunks(s, original) == Next(AfterHunk(s, original, h, rest))
  {
    HunkStarts(lines, h);
    DropOf(lines, rest, 0);
    DropOf(lines, rest, 1);
    var header := ReadHeader(RStripBreaks(lines[0])).value;
    SpelledHunkBody(s, original, header, lines[1..], h, rest);
    EnterHunk(s, original, header);
  }

  lemma SpelledHunkBody(s: Hunks, original: seq<string>, header: HeaderFields, body: seq<string>, h: Hunk,
                        rest: seq<string>)
    requires s.rest != [] && s.rest[1..] == body + rest && EndsBody(rest) && BodySpelled(body, h.edits)
    requires s.cursor <= h.oldStart == TargetCursor(header) && OldLinesAt(original, h.oldStart, h.edits)
    requires header.oldCount == |OldOf(h.edits)| && header.newCount == |NewOf(h.edits)|
    ensures ReadHunk(header, s, original) == Next(AfterHunk(s, original, h, rest))
  {
    var b := Body(s.rest[1..], h.oldStart, s.output + original[s.cursor..h.oldStart], 0, 0);
    SpelledIsBody(b, original, body, h.edits, rest, AfterEdits(b, h.edits, rest));
    CountedHunk(s, original, h, header, rest, b);
  }

  lemma CountedHunk(s: Hunks, original: seq<string>, h: Hunk, header: HeaderFields, rest: seq<string>, b: Body)
    requires s.rest != [] && s.cursor <= h.oldStart <= |original| && TargetCursor(header) == h.oldStart
    requires header.oldCount == |OldOf(h.edits)| && header.newCount == |NewOf(h.edits)|
    requires b == Body(s.rest[1..], h.oldStart, s.output + original[s.cursor..h.oldStart], 0, 0)
    requires ParseBody(b, original) == Success(AfterEdits(b, h.edits, rest))
    ensures ReadHunk(header, s, original) == Next(AfterHunk(s, original, h, rest))
  {
    ReadHunkByBody(header, s, original, b);
    ReadAsHunk(s, original, b, h, AfterEdits(b, h.edits, rest));
  }

  // ---------------------------------------------------------------------------
  // Parts and patches
  // ---------------------------------------------------------------------------

  /** An accepted file part is spelled by its lines. */
  lemma PartIsSpelled(all: seq<string>, source: Source) returns (lines: seq<string>)
    requires all != [] && FILE_HEADER <= all[0] && ParseFile(all, source).Success?
    ensures var (op, rest) := ParseFile(all, source).value;
      all == lines + rest && FileEnd(rest) && PartSpelled(lines, source, op)
  {
    var (op, rest) := ParseFile(all, source).value;
    var t := ReadTarget(RStripBreaks(all[0][4..]), RStripBreaks(all[1][4..]), source).value;
    var start := Hunks(all[2..], 0, [], false);
    var blanks, body, hs := HunksAreSpelled(start, t.original);
    var e := ParseHunks(start, t.original).value;
    assert [] + Splice(t.original, 0, hs) == Splice(t.original, 0, hs);
    assert Makes(t, hs, op);
    lines := all[..2] + blanks + body;
    PartFrom(all, blanks, body, rest, t, hs, op);
  }

  lemma PartFrom(all: seq<string>, blanks: seq<string>, body: seq<string>, rest: seq<string>, t: Target,
                 hs: seq<Hunk>, op: PatchOp)
    requires |all| >= 2 && all[2..] == blanks + body + rest
    requires AllBlank(blanks) && HunksSpelled(body, hs) && Makes(t, hs, op)
    ensures var lines := all[..2] + blanks + body;
      && all == lines + rest && lines[0] == all[0] && lines[1] == all[1]
      && PartHas(lines, t, 2 + |blanks|, hs, op)
  {
    PartLines(all, blanks, body, rest);
  }

  lemma PartLines(all: seq<string>, blanks: seq<string>, body: seq<string>, rest: seq<string>)
    requires |all| >= 2 && all[2..] == blanks + body + rest
    ensures var lines := all[..2] + blanks + body;
      && all == lines + rest && lines[0] == all[0] && lines[1] == all[1]
      && lines[2..2 + |blanks|] == blanks && lines[2 + |blanks|..] == body
  {
    assert all == all[..2] + all[2..];
  }

  /** A spelled part is read as its operation. */
  lemma SpelledIsPart(lines: seq<string>, rest: seq<string>, source: Source, op: PatchOp)
    requires PartSpelled(lines, source, op) && FileEnd(rest)
    ensures ParseFile(lines + rest, source) == Success((op, rest))
  {
    var first, second := RStripBreaks(lines[0][4..]), RStripBreaks(lines[1][4..]);
    var t := ReadTarget(first, second, source).value;
    var k: nat, hs :| PartHas(lines, t, k, hs, op);
    HeadersThenRest(lines, k, rest);
    ParseFileWith(lines + rest, source, first, second, t);
    SpelledIsTarget(t, lines[2..k] + lines[k..] + rest, lines[2..k], lines[k..], hs, rest, op);
  }

  lemma HeadersThenRest(lines: seq<string>, k: nat, rest: seq<string>)
    requires 2 <= k <= |lines|
    ensures var all := lines + rest;
      all[0] == lines[0] && all[1] == lines[1] && all[2..] == lines[2..k] + lines[k..] + rest
  {
    assert lines[2..] == lines[2..k] + lines[k..];
  }

  lemma SpelledIsTarget(t: Target, all: seq<string>, blanks: seq<string>, lines: seq<string>, hs: seq<Hunk>,
                        rest: seq<string>, op: PatchOp)
    requires all == blanks + lines + rest && AllBlank(blanks) && HunksSpelled(lines, hs)
    requires FileEnd(rest) && Makes(t, hs, op)
    ensures ParseTarget(t, all) == Success((op, rest))
  {
    var start := Hunks(all, 0, [], false);
    LinesAssociative(blanks, lines, rest);
    BlanksBeforeHunks(start, t.original, blanks, lines + rest);
    SpelledAreHunks(start.(rest := lines + rest), t.original, lines, hs, rest);
    MadeBy(t, hs, op, ParseHunks(start, t.original).value);
  }

  lemma MadeBy(t: Target, hs: seq<Hunk>, op: PatchOp, e: Hunks)
    requires Makes(t, hs, op) && e.cursor <= |t.original|
    requires e.output + t.original[e.cursor..] == [] + Splice(t.original, 0, hs) && (e.sawHunk <==> hs != [])
    ensures FinishFile(t, e) == Success(op)
  {
    assert [] + Splice(t.original, 0, hs) == Splice(t.original, 0, hs);
  }

  lemma {:induction false} PartsAreSpelled(all: seq<string>, source: Source, ops: seq<PatchOp>, more: seq<PatchOp>)
    requires FileEnd(all) && ParseFiles(all, source, ops) == Success(ops + more)
    ensures PartsSpelled(all, source, more)
    decreases |all|
  {
    if all == [] {
      NothingMore(source, ops, more);
    } else {
      FileStep(all, source, ops);
      var (op, rest) := ParseFile(all, source).value;
      OpsGrow(rest, source, ops + [op]);
      var later := LaterOps(ops, op, more);
      var lines := PartIsSpelled(all, source);
      PartsAreSpelled(rest, source, ops + [op], later);
      PartInFront(lines, rest, source, op, later);
    }
  }

  lemma NothingMore(source: Source, ops: seq<PatchOp>, more: seq<PatchOp>)
    requires ParseFiles([], source, ops) == Success(ops + more)
    ensures more == []
  {
    EndStep(source, ops);
  }

  lemma LaterOps(ops: seq<PatchOp>, op: PatchOp, more: seq<PatchOp>) returns (later: seq<PatchOp>)
    requires ops + [op] <= ops + more
    ensures more == [op] + later && ops + more == (ops + [op]) + later
  {
    assert (ops + more)[|ops|] == (ops + [op])[|ops|];
    later := more[1..];
  }

  lemma {:induction false} OpsGrow(lines: seq<string>, source: Source, ops: seq<PatchOp>)
    requires ParseFiles(lines, source, ops).Success?
    ensures ops <= ParseFiles(lines, source, ops).value
    decreases |lines|
  {
    if lines == [] {
    } else if FILE_HEADER <= lines[0] {
      var (op, rest) := ParseFile(lines, source).value;
      OpsGrow(rest, source, ops + [op]);
    } else {
      OpsGrow(lines[1..], source, ops);
    }
  }

  lemma PartInFront(lines: seq<string>, later: seq<string>, source: Source, op: PatchOp, ops: seq<PatchOp>)
    requires PartSpelled(lines, source, op) && PartsSpelled(later, source, ops)
    ensures PartsSpelled(lines + later, source, [op] + ops)
  {
    var all := lines + later;
    assert all[..|lines|] == lines && all[|lines|..] == later && ([op] + ops)[1..] == ops;
  }

  lemma {:induction false} SpelledAreParts(all: seq<string>, source: Source, ops: seq<PatchOp>, more: seq<PatchOp>,
                                           total: seq<PatchOp>)
    requires PartsSpelled(all, source, more) && total == ops + more && total != []
    ensures FileEnd(all) && ParseFiles(all, source, ops) == Success(total)
    decreases |more|
  {
    if more == [] {
      assert ops + more == ops;
    } else {
      var n := FirstPartLines(all, source, more);
      OneOpMore(ops, more);
      SpelledAreParts(all[n..], source, ops + [more[0]], more[1..], total);
      PartThenParts(all, n, source, ops, more[0]);
    }
  }

  lemma PartThenParts(all: seq<string>, n: nat, source: Source, ops: seq<PatchOp>, op: PatchOp)
    requires 1 <= n <= |all| && FILE_HEADER <= all[0] && PartSpelled(all[..n], source, op) && FileEnd(all[n..])
    ensures ParseFiles(all, source, ops) == ParseFiles(all[n..], source, ops + [op])
  {
    assert all == all[..n] + all[n..];
    SpelledIsPart(all[..n], all[n..], source, op);
    PartRead(all, source, ops, op, all[n..]);
  }

  lemma OneOpMore(ops: seq<PatchOp>, more: seq<PatchOp>)
    requires more != []
    ensures (ops + [more[0]]) + more[1..] == ops + more
  {
  }

  lemma FirstPartLines(all: seq<string>, source: Source, ops: seq<PatchOp>) returns (n: nat)
    requires ops != [] && PartsSpelled(all, source, ops)
    ensures 1 <= n <= |all| && PartSpelled(all[..n], source, ops[0]) && PartsSpelled(all[n..], source, ops[1..])
    ensures FILE_HEADER <= all[0]
  {
    n :| 1 <= n <= |all| && PartSpelled(all[..n], source, ops[0]) && PartsSpelled(all[n..], source, ops[1..]);
    assert all[0] == all[..n][0];
  }

  lemma PartRead(all: seq<string>, source: Source, ops: seq<PatchOp>, op: PatchOp, rest: seq<string>)
    requires all != [] && FILE_HEADER <= all[0] && ParseFile(all, source) == Success((op, rest))
    ensures ParseFiles(all, source, ops) == ParseFiles(rest, source, ops + [op])
  {
  }

  lemma {:induction false} PatchIsSpelled(lines: seq<string>, source: Source, ops: seq<PatchOp>) returns (k: nat)
    requires ParseFiles(lines, source, []) == Success(ops)
    ensures PatchSpelled(lines, k, source, ops)
    decreases |lines|
  {
    if FileEnd(lines) {
      k := 0;
      PartsFromTheStart(lines, source, ops);
    } else {
      BlankStep(lines, source, []);
      var later := PatchIsSpelled(lines[1..], source, ops);
      k := later + 1;
      BlankThenPatch(lines, later, source, ops);
    }
  }

  lemma PartsFromTheStart(lines: seq<string>, source: Source, ops: seq<PatchOp>)
    requires FileEnd(lines) && ParseFiles(lines, source, []) == Success(ops)
    ensures PatchSpelled(lines, 0, source, ops)
  {
    assert lines[0..] == lines && [] + ops == ops;
    PartsAreSpelled(lines, source, [], ops);
  }

  lemma BlankThenPatch(lines: seq<string>, k: nat, source: Source, ops: seq<PatchOp>)
    requires lines != [] && IsBlank(lines[0]) && PatchSpelled(lines[1..], k, source, ops)
    ensures PatchSpelled(lines, k + 1, source, ops)
  {
    assert lines[..k + 1] == [lines[0]] + lines[1..][..k] && lines[k + 1..] == lines[1..][k..];
  }

  /** Exactly the texts of this form are accepted, and with exactly these operations. */
  lemma AcceptedExactly(text: string, source: Source, ops: seq<PatchOp>)
    ensures ParsePatch(text, source) == Success(ops) <==> TextSpelled(text, source, ops)
  {
    if ParsePatch(text, source) == Success(ops) {
      AcceptedIsSpelled(text, source, ops);
    } else if ops != [] && exists k :: PatchSpelled(SplitLines(text), k, source, ops) {
      var k :| PatchSpelled(SplitLines(text), k, source, ops);
      SpelledIsAccepted(text, k, source, ops);
    }
  }

  lemma AcceptedIsSpelled(text: string, source: Source, ops: seq<PatchOp>)
    requires ParsePatch(text, source) == Success(ops)
    ensures TextSpelled(text, source, ops)
  {
    var k := PatchIsSpelled(SplitLines(text), source, ops);
    SomeOperation(SplitLines(text), source, []);
  }

  lemma SpelledIsAccepted(text: string, k: int, source: Source, ops: seq<PatchOp>)
    requires ops != [] && PatchSpelled(SplitLines(text), k, source, ops)
    ensures !HasBinaryMarker(text) ==> ParsePatch(text, source) == Success(ops)
  {
    SpelledIsPatch(SplitLines(text), k, source, ops);
    PartsNotBlank(text, k, source, ops);
  }

  lemma SpelledIsPatch(lines: seq<string>, k: nat, source: Source, ops: seq<PatchOp>)
    requires PatchSpelled(lines, k, source, ops) && ops != []
    ensures ParseFiles(lines, source, []) == Success(ops)
  {
    assert lines == lines[..k] + lines[k..] && [] + ops == ops;
    SpelledAreParts(lines[k..], source, [], ops, ops);
    BlanksInFront(lines[..k], lines[k..], source, []);
  }

  lemma PartsNotBlank(text: string, k: nat, source: Source, ops: seq<PatchOp>)
    requires ops != [] && PatchSpelled(SplitLines(text), k, source, ops)
    ensures !IsBlank(text)
  {
    StartsWithHeader(SplitLines(text), k, source, ops);
    HeaderNotBlank(text, k);
  }

  lemma StartsWithHeader(lines: seq<string>, k: nat, source: Source, ops: seq<PatchOp>)
    requires ops != [] && PatchSpelled(lines, k, source, ops)
    ensures k < |lines| && FILE_HEADER <= lines[k]
  {
    var n := FirstPartLines(lines[k..], source, ops);
    assert lines[k] == lines[k..][0];
  }

  lemma HeaderNotBlank(text: string, k: nat)
    requires k < |SplitLines(text)| && FILE_HEADER <= SplitLines(text)[k]
    ensures !IsBlank(text)
  {
    var line := SplitLines(text)[k];
    assert line[0] == '-' && !IsSpace('-');
    JoinOfSplit(text);
    LinesArePartsOfText(SplitLines(text), line, '-');
  }
}
