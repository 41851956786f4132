/** The printer and the parser against each other: soundness of every accepted
    patch and the exact condition of the round trip. */
module DiffProofs {
  import opened Contracts
  import opened Text
  import opened UnifiedDiff

  // ---------------------------------------------------------------------------
  // Edit lists
  // ---------------------------------------------------------------------------

  lemma {:induction false} OldOfAppend(a: seq<Edit>, b: seq<Edit>)
    ensures OldOf(a + b) == OldOf(a) + OldOf(b)
    decreases |a|
  {
    if a == [] {
      assert a + b == b;
    } else {
      OldOfAppend(a[1..], b);
      assert (a + b)[1..] == a[1..] + b;
    }
  }

  lemma {:induction false} NewOfAppend(a: seq<Edit>, b: seq<Edit>)
    ensures NewOf(a + b) == NewOf(a) + NewOf(b)
    decreases |a|
  {
    if a == [] {
      assert a + b == b;
    } else {
      NewOfAppend(a[1..], b);
      assert (a + b)[1..] == a[1..] + b;
    }
  }

  // ---------------------------------------------------------------------------
  // Soundness of the parser
  // ---------------------------------------------------------------------------

  /** The edits take the body loop from `b` to `e`: their old lines are the original's
      between the cursors, their new lines were appended, and both were counted. */
  predicate EditsLead(b: Body, original: seq<string>, es: seq<Edit>, e: Body) {
    && b.cursor <= e.cursor <= |original|
    && OldOf(es) == original[b.cursor..e.cursor]
    && e.output == b.output + NewOf(es)
    && e.consumed == b.consumed + |OldOf(es)|
    && e.produced == b.produced + |NewOf(es)|
  }

  lemma EditsLeadOn(b: Body, original: seq<string>, head: seq<Edit>, m: Body, tail: seq<Edit>, e: Body)
    requires EditsLead(b, original, head, m) && EditsLead(m, original, tail, e)
    ensures EditsLead(b, original, head + tail, e)
  {
    OldOfAppend(head, tail);
    NewOfAppend(head, tail);
    assert original[b.cursor..e.cursor] == original[b.cursor..m.cursor] + original[m.cursor..e.cursor];
  }

  /** One body step is an edit list of at most one edit. */
  lemma StepBodySound(b: Body, original: seq<string>) returns (es: seq<Edit>)
    requires b.cursor <= |original| && StepBody(b, original).Next?
    ensures EditsLead(b, original, es, StepBody(b, original).state)
  {
    var e := StepBody(b, original).state;
    if NO_NEWLINE <= b.rest[0] {
      es := [];
    } else if e.cursor == b.cursor {
      es := [Add(e.output[|e.output| - 1])];
    } else if e.produced == b.produced {
      es := [Del(original[b.cursor])];
    } else {
      es := [Keep(original[b.cursor])];
    }
  }

  /** A hunk body that parses is an edit list: its old lines are the original's
      lines between the cursors and its new lines are what was appended. */
  lemma {:induction false} BodySound(b: Body, original: seq<string>) returns (es: seq<Edit>)
    requires b.cursor <= |original| && ParseBody(b, original).Success?
    ensures EditsLead(b, original, es, ParseBody(b, original).value)
    decreases |b.rest|
  {
    es := [];
    if StepBody(b, original).Next? {
      var next := StepBody(b, original).state;
      var head := StepBodySound(b, original);
      var tail := BodySound(next, original);
      es := head + tail;
      EditsLeadOn(b, original, head, next, tail, ParseBody(next, original).value);
    }
  }

  /** The hunk headers of one file's part of a patch: up to the next file header. */
  function HeadersOf(lines: seq<string>): seq<HeaderFields> {
    if lines == [] || FILE_HEADER <= lines[0] then []
    else
      (match ReadHeader(RStripBreaks(lines[0]))
       case None => []
       case Some(h) => [h]) + HeadersOf(lines[1..])
  }

  /** A marker line is neither a file header nor a hunk header. */
  lemma MarkerIsNoHeader(line: string)
    requires NO_NEWLINE <= line
    ensures !EndsHunk(line)
  {
    RStripIsPrefix(line);
    assert line[0] == NO_NEWLINE[0];
  }

  lemma SkipNoHeader(lines: seq<string>)
    requires lines != [] && !EndsHunk(lines[0])
    ensures HeadersOf(lines) == HeadersOf(lines[1..])
  {
  }

  lemma StepBodyKeepsHeaders(b: Body, original: seq<string>)
    requires b.cursor <= |original| && StepBody(b, original).Next?
    ensures HeadersOf(StepBody(b, original).state.rest) == HeadersOf(b.rest)
  {
    SkipNoHeader(b.rest);
    var next := StepBody(b, original).state.rest;
    if !(NO_NEWLINE <= b.rest[0]) && |b.rest| > 1 && NO_NEWLINE <= b.rest[1] {
      assert next == b.rest[2..];
      SkipMarker(b.rest);
    } else {
      assert next == b.rest[1..];
    }
  }

  lemma SkipMarker(lines: seq<string>)
    requires |lines| > 1 && NO_NEWLINE <= lines[1]
    ensures HeadersOf(lines[2..]) == HeadersOf(lines[1..])
  {
    MarkerIsNoHeader(lines[1]);
    SkipNoHeader(lines[1..]);
    assert lines[1..][1..] == lines[2..];
  }

  /** A hunk body swallows no header. */
  lemma {:induction false} BodyKeepsHeaders(b: Body, original: seq<string>)
    requires b.cursor <= |original| && ParseBody(b, original).Success?
    ensures HeadersOf(ParseBody(b, original).value.rest) == HeadersOf(b.rest)
    decreases |b.rest|
  {
    if StepBody(b, original).Next? {
      StepBodyKeepsHeaders(b, original);
      BodyKeepsHeaders(StepBody(b, original).state, original);
    }
  }

  /** The hunks stand where their headers say and have the lengths they announce. */
  predicate Announced(hs: seq<Hunk>, headers: seq<HeaderFields>) {
    && |hs| == |headers|
    && forall k | 0 <= k < |hs| ::
      && hs[k].oldStart == TargetCursor(headers[k])
      && |OldOf(hs[k].edits)| == headers[k].oldCount && |NewOf(hs[k].edits)| == headers[k].newCount
  }

  /** One hunk step is a hunk list of at most one hunk. */
  lemma StepHunksSound(s: Hunks, original: seq<string>) returns (hs: seq<Hunk>)
    requires s.cursor <= |original| && StepHunks(s, original).Next?
    ensures var e := StepHunks(s, original).state;
      && |hs| <= 1 && (e.sawHunk <==> s.sawHunk || hs != [])
      && (hs == [] ==> e.output == s.output && e.cursor == s.cursor)
      && (hs != [] ==>
          && s.cursor <= hs[0].oldStart && e.cursor == hs[0].oldStart + |OldOf(hs[0].edits)|
          && original[hs[0].oldStart..e.cursor] == OldOf(hs[0].edits)
          && e.output == s.output + original[s.cursor..hs[0].oldStart] + NewOf(hs[0].edits))
    ensures var headers := HeadersOf(s.rest);
      |hs| <= |headers| && Announced(hs, headers[..|hs|])
        && HeadersOf(StepHunks(s, original).state.rest) == headers[|hs|..]
  {
    match ReadHeader(RStripBreaks(s.rest[0])) {
      case None => hs := [];
      case Some(h) =>
        var target := TargetCursor(h);
        var body := Body(s.rest[1..], target, s.output + original[s.cursor..target], 0, 0);
        var es := BodySound(body, original);
        BodyKeepsHeaders(body, original);
        assert HeadersOf(s.rest) == [h] + HeadersOf(s.rest[1..]);
        hs := [Hunk(target, 0, es)];
    }
  }

  /** `hs` takes the hunk loop from `s` to `e`. */
  ghost predicate LeadsTo(s: Hunks, original: seq<string>, hs: seq<Hunk>, e: Hunks)
    requires s.cursor <= |original| && e.cursor <= |original|
  {
    && Fits(original, s.cursor, hs)
    && e.output + original[e.cursor..] == s.output + Splice(original, s.cursor, hs)
    && (e.sawHunk <==> s.sawHunk || hs != [])
  }

  lemma LeadsToPrepend(s: Hunks, original: seq<string>, h: Hunk, next: Hunks, tail: seq<Hunk>, e: Hunks)
    requires s.cursor <= h.oldStart <= next.cursor <= |original| && e.cursor <= |original|
    requires next.sawHunk && next.cursor == h.oldStart + |OldOf(h.edits)|
    requires original[h.oldStart..next.cursor] == OldOf(h.edits)
    requires next.output == s.output + original[s.cursor..h.oldStart] + NewOf(h.edits)
    requires LeadsTo(next, original, tail, e)
    ensures LeadsTo(s, original, [h] + tail, e)
  {
    SplicePrepend(original, s.cursor, h, tail);
    JoinOutputs(e.output + original[e.cursor..], s.output, next.output, original[s.cursor..h.oldStart], NewOf(h.edits),
                Splice(original, next.cursor, tail), Splice(original, s.cursor, [h] + tail));
  }

  lemma JoinOutputs(end: seq<string>, output: seq<string>, later: seq<string>, gap: seq<string>, added: seq<string>,
                    rest: seq<string>, whole: seq<string>)
    requires end == later + rest && later == output + gap + added && whole == gap + added + rest
    ensures end == output + whole
  {
    AppendAssociative(output, gap, added, rest);
  }

  lemma AppendAssociative(a: seq<string>, b: seq<string>, c: seq<string>, d: seq<string>)
    ensures (a + b + c) + d == a + (b + c + d)
  {
  }

  lemma AnnouncedPrepend(head: seq<Hunk>, tail: seq<Hunk>, headers: seq<HeaderFields>, later: seq<HeaderFields>)
    requires |head| == 1 <= |headers| && Announced(head, headers[..1]) && later == headers[1..]
      && Announced(tail, later)
    ensures Announced([head[0]] + tail, headers)
  {
    var all := [head[0]] + tail;
    forall k | 0 <= k < |all|
      ensures all[k].oldStart == TargetCursor(headers[k])
      ensures |OldOf(all[k].edits)| == headers[k].oldCount && |NewOf(all[k].edits)| == headers[k].newCount
    {
      if k > 0 { assert all[k] == tail[k - 1] && headers[k] == later[k - 1]; }
    }
  }

  lemma {:induction false} HunksSound(s: Hunks, original: seq<string>) returns (hs: seq<Hunk>)
    requires s.cursor <= |original| && ParseHunks(s, original).Success?
    ensures LeadsTo(s, original, hs, ParseHunks(s, original).value)
    ensures Announced(hs, HeadersOf(s.rest))
    decreases |s.rest|
  {
    hs := [];
    if StepHunks(s, original).Next? {
      var next := StepHunks(s, original).state;
      var head := StepHunksSound(s, original);
      var tail := HunksSound(next, original);
      if head == [] {
        hs := tail;
      } else {
        LeadsToPrepend(s, original, head[0], next, tail, ParseHunks(next, original).value);
        AnnouncedPrepend(head, tail, HeadersOf(s.rest), HeadersOf(next.rest));
        hs := [head[0]] + tail;
      }
    }
  }

  lemma SplicePrepend(original: seq<string>, cursor: nat, h: Hunk, tail: seq<Hunk>)
    requires cursor <= h.oldStart && h.oldStart + |OldOf(h.edits)| <= |original|
    requires original[h.oldStart..h.oldStart + |OldOf(h.edits)|] == OldOf(h.edits)
    requires Fits(original, h.oldStart + |OldOf(h.edits)|, tail)
    ensures Fits(original, cursor, [h] + tail)
    ensures Splice(original, cursor, [h] + tail)
         == original[cursor..h.oldStart] + NewOf(h.edits) + Splice(original, h.oldStart + |OldOf(h.edits)|, tail)
  {
    assert ([h] + tail)[1..] == tail;
  }

  lemma TargetSound(oldName: string, newName: string, source: Source)
    requires ReadTarget(oldName, newName, source).Success?
    ensures var t := ReadTarget(oldName, newName, source).value;
      && (t.kind.Create? ==> t.original == [] && t.expected == None)
      && (!t.kind.Create? ==>
          && t.path in source.files && t.original == SplitLines(source.files[t.path])
          && t.path in source.states && t.expected == Some(source.states[t.path]))
  {
  }

  /** Every accepted create or modify operation is the original with a list of
      in-order hunks applied, one for each hunk header and at the place and with the
      counts it announces: each hunk's old lines are the original's lines at its
      place, everything outside the hunks is unchanged, and the line count moves
      by the produced minus the consumed lines. Deletions carry no content. */
  lemma ParserSound(lines: seq<string>, source: Source) returns (original: seq<string>, hs: seq<Hunk>)
    requires lines != [] && FILE_HEADER <= lines[0] && ParseFile(lines, source).Success?
    ensures var op := ParseFile(lines, source).value.0;
      && (op.kind.Create? ==> original == [] && op.expected == None)
      && (!op.kind.Create? ==>
          && op.path in source.files && original == SplitLines(source.files[op.path])
          && op.path in source.states && op.expected == Some(source.states[op.path]))
      && Fits(original, 0, hs)
      && |Splice(original, 0, hs)| == |original| + NewCount(hs) - OldCount(hs)
      && op.content == (if op.kind.Delete? then None else Some(Join(Splice(original, 0, hs))))
      && (op.kind.Modify? ==> hs != [])
      && Announced(hs, HeadersOf(lines[2..]))
  {
    var oldName, newName := RStripBreaks(lines[0][4..]), RStripBreaks(lines[1][4..]);
    TargetSound(oldName, newName, source);
    var t := ReadTarget(oldName, newName, source).value;
    original := t.original;
    hs := TargetHunks(t, lines[2..]);
  }

  lemma TargetHunks(t: Target, lines: seq<string>) returns (hs: seq<Hunk>)
    requires ParseTarget(t, lines).Success?
    ensures var op := ParseTarget(t, lines).value.0;
      && op.path == t.path && op.kind == t.kind && op.expected == t.expected
      && Fits(t.original, 0, hs)
      && |Splice(t.original, 0, hs)| == |t.original| + NewCount(hs) - OldCount(hs)
      && op.content == (if op.kind.Delete? then None else Some(Join(Splice(t.original, 0, hs))))
      && (op.kind.Modify? ==> hs != [])
      && Announced(hs, HeadersOf(lines))
  {
    var start := Hunks(lines, 0, [], false);
    hs := HunksSound(start, t.original);
    SpliceLength(t.original, 0, hs);
    var e := ParseHunks(start, t.original).value;
    assert [] + Splice(t.original, 0, hs) == Splice(t.original, 0, hs);
  }

  // ---------------------------------------------------------------------------
  // Soundness of whole patches
  // ---------------------------------------------------------------------------

  predicate IsSuffix(rest: seq<string>, lines: seq<string>) {
    |rest| <= |lines| && rest == lines[|lines| - |rest|..]
  }

  lemma SuffixOfTail(rest: seq<string>, lines: seq<string>, n: nat)
    requires n <= |lines| && IsSuffix(rest, lines[n..])
    ensures IsSuffix(rest, lines)
  {
  }

  lemma SuffixOfSuffix(a: seq<string>, b: seq<string>, c: seq<string>)
    requires IsSuffix(a, b) && IsSuffix(b, c)
    ensures IsSuffix(a, c)
  {
  }

  lemma BodyStepIsSuffix(b: Body, original: seq<string>)
    requires b.cursor <= |original| && StepBody(b, original).Next?
    ensures IsSuffix(StepBody(b, original).state.rest, b.rest)
  {
  }

  lemma {:induction false} BodyRestIsSuffix(b: Body, original: seq<string>)
    requires b.cursor <= |original| && ParseBody(b, original).Success?
    ensures IsSuffix(ParseBody(b, original).value.rest, b.rest)
    decreases |b.rest|
  {
    if StepBody(b, original).Next? {
      var next := StepBody(b, original).state;
      BodyStepIsSuffix(b, original);
      BodyRestIsSuffix(next, original);
      SuffixOfSuffix(ParseBody(b, original).value.rest, next.rest, b.rest);
    }
  }

  lemma StepRestIsSuffix(s: Hunks, original: seq<string>)
    requires s.cursor <= |original| && StepHunks(s, original).Next?
    ensures IsSuffix(StepHunks(s, original).state.rest, s.rest)
  {
    match ReadHeader(RStripBreaks(s.rest[0])) {
      case None =>
      case Some(h) =>
        var target := TargetCursor(h);
        BodyRestIsSuffix(Body(s.rest[1..], target, s.output + original[s.cursor..target], 0, 0), original);
        SuffixOfTail(StepHunks(s, original).state.rest, s.rest, 1);
    }
  }

  /** The hunk loop stops at the next file header or at the end. */
  lemma {:induction false} HunksRestIsSuffix(s: Hunks, original: seq<string>)
    requires s.cursor <= |original| && ParseHunks(s, original).Success?
    ensures var rest := ParseHunks(s, original).value.rest;
      IsSuffix(rest, s.rest) && (rest == [] || FILE_HEADER <= rest[0])
    decreases |s.rest|
  {
    if StepHunks(s, original).Next? {
      var next := StepHunks(s, original).state;
      StepRestIsSuffix(s, original);
      HunksRestIsSuffix(next, original);
      SuffixOfSuffix(ParseHunks(s, original).value.rest, next.rest, s.rest);
    }
  }

  lemma FileRestIsSuffix(lines: seq<string>, source: Source)
    requires lines != [] && FILE_HEADER <= lines[0] && ParseFile(lines, source).Success?
    ensures var rest := ParseFile(lines, source).value.1;
      |rest| + 2 <= |lines| && IsSuffix(rest, lines) && (rest == [] || FILE_HEADER <= rest[0])
  {
    var t := ReadTarget(RStripBreaks(lines[0][4..]), RStripBreaks(lines[1][4..]), source).value;
    HunksRestIsSuffix(Hunks(lines[2..], 0, [], false), t.original);
    SuffixOfTail(ParseFile(lines, source).value.1, lines, 2);
  }

  /** The lines from `start` to `stop` of a patch, read as one file's part: its original
      lines and its hunks. */
  datatype Part = Part(start: nat, stop: nat, original: seq<string>, hs: seq<Hunk>)

  /** `op` is what the part says, as in `ParserSound`. */
  predicate PartSound(op: PatchOp, part: Part, lines: seq<string>, source: Source) {
    && part.start + 2 <= part.stop <= |lines| && FILE_HEADER <= lines[part.start]
    && (op.kind.Create? ==> part.original == [] && op.expected == None)
    && (!op.kind.Create? ==>
        && op.path in source.files && part.original == SplitLines(source.files[op.path])
        && op.path in source.states && op.expected == Some(source.states[op.path]))
    && Fits(part.original, 0, part.hs)
    && |Splice(part.original, 0, part.hs)| == |part.original| + NewCount(part.hs) - OldCount(part.hs)
    && op.content == (if op.kind.Delete? then None else Some(Join(Splice(part.original, 0, part.hs))))
    && (op.kind.Modify? ==> part.hs != [])
    && Announced(part.hs, HeadersOf(lines[part.start + 2..]))
  }

  /** From line `from` on the patch consists of the parts, one after the other, with
      nothing but blank lines before the first, and each operation is its part's. */
  predicate PartsSound(ops: seq<PatchOp>, parts: seq<Part>, lines: seq<string>, from: nat, source: Source)
    decreases |parts|
  {
    && |ops| == |parts| && from <= |lines|
    && if parts == [] then forall i | from <= i < |lines| :: IsBlank(lines[i])
       else
         && from <= parts[0].start < |lines| && (forall i | from <= i < parts[0].start :: IsBlank(lines[i]))
         && PartSound(ops[0], parts[0], lines, source)
         && PartsSound(ops[1..], parts[1..], lines, parts[0].stop, source)
  }

  lemma BlankBefore(ops: seq<PatchOp>, parts: seq<Part>, lines: seq<string>, from: nat, source: Source)
    requires from < |lines| && IsBlank(lines[from]) && PartsSound(ops, parts, lines, from + 1, source)
    ensures PartsSound(ops, parts, lines, from, source)
  {
  }

  lemma FirstPart(lines: seq<string>, from: nat, source: Source) returns (part: Part)
    requires from < |lines| && FILE_HEADER <= lines[from] && ParseFile(lines[from..], source).Success?
    ensures var r := ParseFile(lines[from..], source).value;
      && part.start == from && PartSound(r.0, part, lines, source)
      && r.1 == lines[part.stop..]
  {
    var rest := ParseFile(lines[from..], source).value.1;
    var original, hs := ParserSound(lines[from..], source);
    FileRestIsSuffix(lines[from..], source);
    SuffixOfTail(rest, lines, from);
    assert lines[from..][2..] == lines[from + 2..];
    part := Part(from, |lines| - |rest|, original, hs);
  }

  lemma FileStep(lines: seq<string>, source: Source, ops: seq<PatchOp>)
    requires lines != [] && FILE_HEADER <= lines[0] && ParseFiles(lines, source, ops).Success?
    ensures ParseFile(lines, source).Success?
    ensures var (op, rest) := ParseFile(lines, source).value;
      ParseFiles(lines, source, ops) == ParseFiles(rest, source, ops + [op])
  {
  }

  lemma BlankStep(lines: seq<string>, source: Source, ops: seq<PatchOp>)
    requires lines != [] && !(FILE_HEADER <= lines[0]) && ParseFiles(lines, source, ops).Success?
    ensures IsBlank(lines[0]) && ParseFiles(lines, source, ops) == ParseFiles(lines[1..], source, ops)
  {
  }

  lemma EndStep(source: Source, ops: seq<PatchOp>)
    requires ParseFiles([], source, ops).Success?
    ensures ParseFiles([], source, ops).value == ops
  {
  }

  /** What `all` adds to `ops` from line `from` on is sound. */
  predicate RestSound(all: seq<PatchOp>, ops: seq<PatchOp>, parts: seq<Part>, lines: seq<string>, from: nat,
                      source: Source) {
    ops <= all && PartsSound(all[|ops|..], parts, lines, from, source)
  }

  lemma PartThenRest(all: seq<PatchOp>, ops: seq<PatchOp>, op: PatchOp, part: Part, later: seq<Part>,
                     lines: seq<string>, source: Source)
    requires part.start < |lines| && PartSound(op, part, lines, source)
    requires RestSound(all, ops + [op], later, lines, part.stop, source)
    ensures RestSound(all, ops, [part] + later, lines, part.start, source)
  {
    assert (ops + [op])[|ops|] == op && all[|ops|] == op;
    assert all[|ops|..][0] == op && all[|ops|..][1..] == all[|ops + [op]|..];
    assert ([part] + later)[0] == part && ([part] + later)[1..] == later;
  }

  lemma {:induction false} FilesSound(lines: seq<string>, from: nat, source: Source, ops: seq<PatchOp>,
                                      all: seq<PatchOp>)
    returns (parts: seq<Part>)
    requires from <= |lines| && ParseFiles(lines[from..], source, ops) == Success(all)
    ensures RestSound(all, ops, parts, lines, from, source)
    decreases |lines| - from
  {
    if from == |lines| {
      parts := [];
      NoPartsLeft(lines, source, ops, all);
    } else if FILE_HEADER <= lines[from] {
      FileStep(lines[from..], source, ops);
      var part := FirstPart(lines, from, source);
      var op := ParseFile(lines[from..], source).value.0;
      var later := FilesSound(lines, part.stop, source, ops + [op], all);
      PartThenRest(all, ops, op, part, later, lines, source);
      parts := [part] + later;
    } else {
      BlankStep(lines[from..], source, ops);
      assert lines[from..][1..] == lines[from + 1..];
      parts := FilesSound(lines, from + 1, source, ops, all);
      BlankBefore(all[|ops|..], parts, lines, from, source);
    }
  }

  lemma NoPartsLeft(lines: seq<string>, source: Source, ops: seq<PatchOp>, all: seq<PatchOp>)
    requires ParseFiles(lines[|lines|..], source, ops) == Success(all)
    ensures RestSound(all, ops, [], lines, |lines|, source)
  {
    assert lines[|lines|..] == [];
    EndStep(source, ops);
  }

  /** Every accepted patch is a sequence of file parts, one for each operation in
      order, and each operation is its part's original with that part's hunks. */
  lemma PatchSound(text: string, source: Source) returns (parts: seq<Part>)
    requires ParsePatch(text, source).Success?
    ensures ParsePatch(text, source).value != []
    ensures PartsSound(ParsePatch(text, source).value, parts, SplitLines(text), 0, source)
  {
    var lines := SplitLines(text);
    assert lines[0..] == lines;
    parts := FilesSound(lines, 0, source, [], ParsePatch(text, source).value);
    SomeOperation(lines, source, []);
  }

  lemma {:induction false} SomeOperation(lines: seq<string>, source: Source, ops: seq<PatchOp>)
    requires ParseFiles(lines, source, ops).Success?
    ensures ParseFiles(lines, source, ops).value != []
    decreases |lines|
  {
    if lines == [] {
      EndStep(source, ops);
    } else if FILE_HEADER <= lines[0] {
      FileStep(lines, source, ops);
      var (op, rest) := ParseFile(lines, source).value;
      SomeOperation(rest, source, ops + [op]);
    } else {
      BlankStep(lines, source, ops);
      SomeOperation(lines[1..], source, ops);
    }
  }

  // ---------------------------------------------------------------------------
  // Reading printed headers
  // ---------------------------------------------------------------------------

  lemma ReadPrintedNumber(n: nat, rest: string)
    requires rest == "" || !IsDigit(rest[0])
    ensures ReadNumber(Decimal(n) + rest) == Some((n, rest))
  {
    DigitRunOf(Decimal(n), rest);
    DigitsOfDecimal(n);
    assert (Decimal(n) + rest)[..|Decimal(n)|] == Decimal(n);
    assert (Decimal(n) + rest)[|Decimal(n)|..] == rest;
  }

  /** The start a printed range shows: one-based, except for an empty range. */
  function ShownStart(start: nat, length: nat): nat {
    if length == 0 then start else start + 1
  }

  lemma ReadPrintedRange(start: nat, length: nat, rest: string)
    requires rest != "" && rest[0] == ' '
    ensures ReadRange(FormatRange(start, length) + rest) == Some((ShownStart(start, length), length, rest))
  {
    var shown := Decimal(ShownStart(start, length));
    if length == 1 {
      ReadPrintedNumber(start + 1, rest);
    } else {
      var count := Decimal(length);
      assert length == 0 ==> count == "0";
      assert FormatRange(start, length) + rest == shown + ("," + (count + rest)) by {
        assert length == 0 ==> ",0" + rest == "," + (count + rest);
      }
      ReadTwoNumbers(ShownStart(start, length), length, rest);
    }
  }

  lemma ReadTwoNumbers(start: nat, length: nat, rest: string)
    requires rest != "" && !IsDigit(rest[0])
    ensures ReadRange(Decimal(start) + ("," + (Decimal(length) + rest))) == Some((start, length, rest))
  {
    var tail := "," + (Decimal(length) + rest);
    ReadPrintedNumber(start, tail);
    assert tail[1..] == Decimal(length) + rest;
    ReadPrintedNumber(length, rest);
  }

  /** The fields of a hunk's printed header. */
  function PrintedFields(h: Hunk): HeaderFields {
    HeaderFields(ShownStart(h.oldStart, |OldOf(h.edits)|), |OldOf(h.edits)|, |NewOf(h.edits)|)
  }

  /** After the ranges nothing, or a blank and a section heading, which is ignored;
      anything else is no hunk header. */
  lemma ReadHeaderAndHeading(h: Hunk, heading: string)
    ensures ReadHeader(HunkHeader(h) + heading) ==
      if heading == "" || heading[0] == ' ' then Some(PrintedFields(h)) else None
  {
    var a := FormatRange(h.oldStart, |OldOf(h.edits)|);
    var b := FormatRange(h.newStart, |NewOf(h.edits)|);
    var last := " @@" + heading;
    var rest := " +" + (b + last);
    var line := HunkHeader(h) + heading;
    assert line == "@@ -" + (a + rest);
    assert line[4..] == a + rest;
    ReadPrintedRange(h.oldStart, |OldOf(h.edits)|, rest);
    assert rest[2..] == b + last;
    ReadPrintedRange(h.newStart, |NewOf(h.edits)|, last);
    if heading != "" { assert last[3] == heading[0]; }
  }

  lemma ReadPrintedHeader(h: Hunk)
    ensures ReadHeader(HunkHeader(h)) == Some(PrintedFields(h))
    ensures RStripBreaks(HunkHeader(h) + "\n") == HunkHeader(h)
  {
    ReadHeaderAndHeading(h, "");
    assert HunkHeader(h) + "" == HunkHeader(h);
    assert HunkHeader(h)[|HunkHeader(h)| - 1] == '@';
    RStripOneBreak(HunkHeader(h));
  }

  // ---------------------------------------------------------------------------
  // Reading printed bodies
  // ---------------------------------------------------------------------------

  /** A text line that ends in no other break than its own `\n`. */
  predicate GoodLine(line: string) {
    WholeLine(line) || (PartialLine(line) && line[|line| - 1] != '\r')
  }

  predicate GoodEdits(es: seq<Edit>) {
    forall e | e in es :: GoodLine(e.line)
  }

  /** Printed with its prefix, a deleted line that starts with `-- ` reads as a
      file header. */
  predicate ReadsAsHeader(e: Edit) {
    e.Del? && "-- " <= e.line
  }

  predicate NoFalseHeader(es: seq<Edit>) {
    forall e | e in es :: !ReadsAsHeader(e)
  }

  /** What may follow a hunk body: nothing, a file header or a hunk header. */
  predicate BodyEnd(tail: seq<string>) {
    tail == [] || (EndsHunk(tail[0]) && !(NO_NEWLINE <= tail[0]))
  }

  lemma PrintedEditShape(e: Edit, tail: seq<string>)
    requires GoodLine(e.line)
    ensures var lines := PrintEdit(e) + tail;
      && lines[0] == [Prefix(e)] + PrintedText(e) && lines[0][1..] == PrintedText(e)
      && if WholeLine(e.line) then PrintedText(e) == e.line && lines[1..] == tail
         else |lines| > 1 && NO_NEWLINE <= lines[1] && RStripBreaks(PrintedText(e)) == e.line && lines[2..] == tail
  {
    assert ([Prefix(e)] + PrintedText(e))[1..] == PrintedText(e);
    if WholeLine(e.line) {
      assert PrintEdit(e) == [[Prefix(e)] + PrintedText(e)];
    } else {
      assert e.line[|e.line| - 1] in e.line;
      RStripOneBreak(e.line);
    }
  }

  lemma PrintedEditEndsHunk(e: Edit)
    requires GoodLine(e.line)
    ensures var line := [Prefix(e)] + PrintedText(e); !(NO_NEWLINE <= line) && (EndsHunk(line) <==> ReadsAsHeader(e))
  {
    var text := PrintedText(e);
    var line := [Prefix(e)] + text;
    PrefixKeepsHeader(line);
    if FILE_HEADER <= line {
      assert forall i | 0 <= i < 3 :: text[i] == line[i + 1] == FILE_HEADER[i + 1] == "-- "[i];
      assert |e.line| >= 3;
    }
    if ReadsAsHeader(e) {
      assert forall i | 0 <= i < 4 :: line[i] == FILE_HEADER[i];
    }
  }

  lemma PrefixKeepsHeader(line: string)
    requires line != "" && line[0] != '@'
    ensures ReadHeader(RStripBreaks(line)).None?
  {
    RStripIsPrefix(line);
  }

  lemma RStripIsPrefix(s: string)
    ensures RStripBreaks(s) <= s
  {
  }

  lemma PrintedTail(es: seq<Edit>, tail: seq<string>)
    requires es != []
    ensures PrintEdits(es) + tail == PrintEdit(es[0]) + (PrintEdits(es[1..]) + tail)
  {
    LinesAssociative(PrintEdit(es[0]), PrintEdits(es[1..]), tail);
  }

  lemma LinesAssociative(a: seq<string>, b: seq<string>, c: seq<string>)
    ensures (a + b) + c == a + (b + c)
  {
  }

  /** A printed body never starts with a missing-newline marker. */
  lemma PrintedBodyStart(es: seq<Edit>, tail: seq<string>)
    requires GoodEdits(es) && (tail == [] || !(NO_NEWLINE <= tail[0]))
    ensures var lines := PrintEdits(es) + tail; lines == [] || !(NO_NEWLINE <= lines[0])
  {
    if es == [] {
      assert PrintEdits(es) + tail == tail;
    } else {
      assert es[0] in es;
      PrintedTail(es, tail);
      PrintedEditShape(es[0], PrintEdits(es[1..]) + tail);
      PrintedEditEndsHunk(es[0]);
    }
  }

  /** The loop state after one printed edit. */
  function Advance(b: Body, e: Edit, rest: seq<string>): Body {
    match e
    case Keep(l) => Body(rest, b.cursor + 1, b.output + [l], b.consumed + 1, b.produced + 1)
    case Del(l) => Body(rest, b.cursor + 1, b.output, b.consumed + 1, b.produced)
    case Add(l) => Body(rest, b.cursor, b.output + [l], b.consumed, b.produced + 1)
  }

  lemma StepPrintedEdit(b: Body, original: seq<string>, e: Edit, rest: seq<string>)
    requires GoodLine(e.line) && !ReadsAsHeader(e) && b.rest == PrintEdit(e) + rest
    requires rest == [] || !(NO_NEWLINE <= rest[0])
    requires b.cursor <= |original| && (!e.Add? ==> b.cursor < |original| && original[b.cursor] == e.line)
    ensures StepBody(b, original) == Next(Advance(b, e, rest))
  {
    PrintedEditShape(e, rest);
    PrintedEditEndsHunk(e);
    assert b.rest[0][0] == Prefix(e);
    if WholeLine(e.line) && rest != [] {
      assert b.rest[1] == rest[0];
    }
  }

  /** The loop state after all of `es`. */
  function AfterEdits(b: Body, es: seq<Edit>, tail: seq<string>): Body {
    Body(tail, b.cursor + |OldOf(es)|, b.output + NewOf(es), b.consumed + |OldOf(es)|, b.produced + |NewOf(es)|)
  }

  /** The old lines of `es` are what `original` holds at `cursor`. */
  predicate OldLinesAt(original: seq<string>, cursor: nat, es: seq<Edit>) {
    cursor + |OldOf(es)| <= |original| && original[cursor..cursor + |OldOf(es)|] == OldOf(es)
  }

  lemma AdvanceThenAfter(b: Body, original: seq<string>, e: Edit, es: seq<Edit>, rest: seq<string>, tail: seq<string>)
    requires OldLinesAt(original, b.cursor, [e] + es)
    ensures AfterEdits(Advance(b, e, rest), es, tail) == AfterEdits(b, [e] + es, tail)
    ensures !e.Add? ==> b.cursor < |original| && original[b.cursor] == e.line
    ensures OldLinesAt(original, Advance(b, e, rest).cursor, es)
    ensures |OldOf([e] + es)| == |OldOf(es)| + if e.Add? then 0 else 1
  {
    OldLinesAdvance(original, b.cursor, e, es);
    NewLinesAdvance(b.output, e, es);
  }

  lemma OldLinesAdvance(original: seq<string>, cursor: nat, e: Edit, es: seq<Edit>)
    requires OldLinesAt(original, cursor, [e] + es)
    ensures |OldOf([e] + es)| == |OldOf(es)| + if e.Add? then 0 else 1
    ensures !e.Add? ==> cursor < |original| && original[cursor] == e.line
    ensures OldLinesAt(original, if e.Add? then cursor else cursor + 1, es)
  {
    assert ([e] + es)[1..] == es;
    if !e.Add? {
      var gone := OldOf([e] + es);
      assert gone == [e.line] + OldOf(es) && gone[0] == e.line && gone[1..] == OldOf(es);
      assert original[cursor + 1..cursor + |gone|] == original[cursor..cursor + |gone|][1..];
    }
  }

  lemma NewLinesAdvance(output: seq<string>, e: Edit, es: seq<Edit>)
    ensures output + NewOf([e] + es) == (if e.Del? then output else output + [e.line]) + NewOf(es)
    ensures |NewOf([e] + es)| == |NewOf(es)| + if e.Del? then 0 else 1
  {
    assert ([e] + es)[1..] == es;
    if !e.Del? {
      LinesAssociative(output, [e.line], NewOf(es));
    }
  }

  /** What reading a printed body yields: all of its edits, or a stop short of the
      announced old lines when a deleted line reads as a file header. */
  predicate ReadsBack(b: Body, original: seq<string>, es: seq<Edit>, tail: seq<string>)
    requires b.cursor <= |original|
  {
    match ParseBody(b, original)
    case Failure(_) => false
    case Success(r) =>
      if NoFalseHeader(es) then r == AfterEdits(b, es, tail) else r.consumed < b.consumed + |OldOf(es)|
  }

  lemma ParsePrintedEdit(b: Body, original: seq<string>, e: Edit, rest: seq<string>)
    requires GoodLine(e.line) && b.rest == PrintEdit(e) + rest
    requires rest == [] || !(NO_NEWLINE <= rest[0])
    requires b.cursor <= |original| && (!e.Add? ==> b.cursor < |original| && original[b.cursor] == e.line)
    ensures ParseBody(b, original) ==
      if ReadsAsHeader(e) then Success(b) else ParseBody(Advance(b, e, rest), original)
  {
    if ReadsAsHeader(e) {
      PrintedEditShape(e, rest);
      PrintedEditEndsHunk(e);
      assert StepBody(b, original) == Leave;
    } else {
      StepPrintedEdit(b, original, e, rest);
    }
  }

  lemma ParsePrintedEnd(b: Body, original: seq<string>)
    requires b.cursor <= |original| && BodyEnd(b.rest)
    ensures ParseBody(b, original) == Success(b)
  {
    assert StepBody(b, original) == Leave;
  }

  lemma HeadIsSafe(e: Edit, es: seq<Edit>)
    requires GoodEdits([e] + es)
    ensures GoodLine(e.line) && GoodEdits(es)
    ensures NoFalseHeader([e] + es) <==> !ReadsAsHeader(e) && NoFalseHeader(es)
  {
    var all := [e] + es;
    assert all[0] == e;
    forall x | x in es ensures x in all {}
    assert forall x | x in all :: x == e || x in es;
  }

  lemma {:induction false} BodyRoundTrip(b: Body, original: seq<string>, es: seq<Edit>, tail: seq<string>)
    requires GoodEdits(es) && BodyEnd(tail) && b.rest == PrintEdits(es) + tail
    requires OldLinesAt(original, b.cursor, es)
    ensures ReadsBack(b, original, es, tail)
    decreases |es|, 0
  {
    if es == [] {
      assert b.rest == tail;
      ParsePrintedEnd(b, original);
      assert b.output + [] == b.output;
    } else {
      BodyRoundTripStep(b, original, es[0], es[1..], tail);
    }
  }

  lemma {:induction false} BodyRoundTripStep(b: Body, original: seq<string>, e: Edit, es: seq<Edit>, tail: seq<string>)
    requires GoodEdits([e] + es) && BodyEnd(tail) && b.rest == PrintEdits([e] + es) + tail
    requires OldLinesAt(original, b.cursor, [e] + es)
    ensures ReadsBack(b, original, [e] + es, tail)
    decreases |es|, 1
  {
    var rest := PrintEdits(es) + tail;
    HeadIsSafe(e, es);
    PrintedTail([e] + es, tail);
    assert ([e] + es)[1..] == es;
    PrintedBodyStart(es, tail);
    AdvanceThenAfter(b, original, e, es, rest, tail);
    ParsePrintedEdit(b, original, e, rest);
    if !ReadsAsHeader(e) {
      BodyRoundTrip(Advance(b, e, rest), original, es, tail);
    }
  }

  // ---------------------------------------------------------------------------
  // Reading printed hunks and files
  // ---------------------------------------------------------------------------

  /** An empty old range only at the very start: there the printed range and the
      offset the parser computes from it agree. Context lines guarantee it. */
  predicate Anchored(h: Hunk) {
    OldOf(h.edits) != [] || h.oldStart == 0
  }

  predicate PrintableHunks(hs: seq<Hunk>) {
    forall h | h in hs :: Anchored(h) && GoodEdits(h.edits)
  }

  predicate NoFalseHeaders(hs: seq<Hunk>) {
    forall h | h in hs :: NoFalseHeader(h.edits)
  }

  predicate FileEnd(tail: seq<string>) {
    tail == [] || FILE_HEADER <= tail[0]
  }

  function HunkLine(h: Hunk): string {
    HunkHeader(h) + "\n"
  }

  lemma HunkStart(h: Hunk)
    ensures ReadHeader(RStripBreaks(HunkLine(h))) == Some(PrintedFields(h))
    ensures EndsHunk(HunkLine(h)) && !(NO_NEWLINE <= HunkLine(h)) && !(FILE_HEADER <= HunkLine(h))
  {
    ReadPrintedHeader(h);
    assert HunkHeader(h)[0] == '@';
  }

  lemma PrintedHunkLines(h: Hunk, rest: seq<string>)
    ensures var lines := PrintHunk(h) + rest; lines[0] == HunkLine(h) && lines[1..] == PrintEdits(h.edits) + rest
  {
  }

  lemma HunksTail(hs: seq<Hunk>, tail: seq<string>)
    requires FileEnd(tail)
    ensures BodyEnd(PrintHunks(hs) + tail)
  {
    if hs == [] {
      assert PrintHunks(hs) + tail == tail;
      if tail != [] { assert tail[0][0] == FILE_HEADER[0] && NO_NEWLINE[0] != FILE_HEADER[0]; }
    } else {
      HunkStart(hs[0]);
      assert (PrintHunks(hs) + tail)[0] == HunkLine(hs[0]);
    }
  }

  /** What one printed hunk does to the hunk loop. */
  function AfterHunk(s: Hunks, original: seq<string>, h: Hunk, rest: seq<string>): Hunks
    requires s.cursor <= h.oldStart <= |original|
  {
    Hunks(rest, h.oldStart + |OldOf(h.edits)|, s.output + original[s.cursor..h.oldStart] + NewOf(h.edits), true)
  }

  /** The same for a hunk wherever its header places it. */
  lemma ReadPlacedHunk(h: Hunk, at: nat, s: Hunks, original: seq<string>, rest: seq<string>)
    requires GoodEdits(h.edits) && BodyEnd(rest) && TargetCursor(PrintedFields(h)) == at
    requires s.rest != [] && s.rest[1..] == PrintEdits(h.edits) + rest
    requires s.cursor <= at && OldLinesAt(original, at, h.edits)
    ensures ReadHunk(PrintedFields(h), s, original) ==
      (if NoFalseHeader(h.edits) then Next(AfterHunk(s, original, h.(oldStart := at), rest)) else Raise(CountMismatch))
  {
    var b := Body(s.rest[1..], at, s.output + original[s.cursor..at], 0, 0);
    BodyRoundTrip(b, original, h.edits, rest);
    ReadHunkByBody(PrintedFields(h), s, original, b);
    var r := ParseBody(b, original).value;
    if NoFalseHeader(h.edits) {
      assert r == AfterEdits(b, h.edits, rest);
      assert r.consumed == |OldOf(h.edits)| && r.produced == |NewOf(h.edits)|;
      assert Hunks(r.rest, r.cursor, r.output, true) == AfterHunk(s, original, h.(oldStart := at), rest);
    } else {
      assert r.consumed != |OldOf(h.edits)|;
    }
  }

  lemma ReadHunkByBody(header: HeaderFields, s: Hunks, original: seq<string>, b: Body)
    requires s.rest != [] && s.cursor <= TargetCursor(header) <= |original|
    requires b == Body(s.rest[1..], TargetCursor(header), s.output + original[s.cursor..TargetCursor(header)], 0, 0)
    requires ParseBody(b, original).Success?
    ensures var r := ParseBody(b, original).value;
      ReadHunk(header, s, original) ==
        if r.consumed != header.oldCount || r.produced != header.newCount then Raise(CountMismatch)
        else Next(Hunks(r.rest, r.cursor, r.output, true))
  {
  }

  lemma ReadPrintedHunk(h: Hunk, s: Hunks, original: seq<string>, rest: seq<string>)
    requires Anchored(h) && GoodEdits(h.edits) && BodyEnd(rest)
    requires s.rest != [] && s.rest[1..] == PrintEdits(h.edits) + rest
    requires s.cursor <= h.oldStart && OldLinesAt(original, h.oldStart, h.edits)
    ensures ReadHunk(PrintedFields(h), s, original) ==
      (if NoFalseHeader(h.edits) then Next(AfterHunk(s, original, h, rest)) else Raise(CountMismatch))
  {
    ReadPlacedHunk(h, h.oldStart, s, original, rest);
  }

  lemma EnterHunk(s: Hunks, original: seq<string>, fields: HeaderFields)
    requires s.cursor <= |original| && s.rest != [] && !(FILE_HEADER <= s.rest[0])
    requires ReadHeader(RStripBreaks(s.rest[0])) == Some(fields)
    ensures StepHunks(s, original) == ReadHunk(fields, s, original)
  {
  }

  lemma StepPrintedHunk(s: Hunks, original: seq<string>, h: Hunk, rest: seq<string>)
    requires Anchored(h) && GoodEdits(h.edits) && BodyEnd(rest) && s.rest == PrintHunk(h) + rest
    requires s.cursor <= h.oldStart && OldLinesAt(original, h.oldStart, h.edits)
    ensures StepHunks(s, original) ==
      (if NoFalseHeader(h.edits) then Next(AfterHunk(s, original, h, rest)) else Raise(CountMismatch))
  {
    HunkStart(h);
    PrintedHunkLines(h, rest);
    EnterHunk(s, original, PrintedFields(h));
    ReadPrintedHunk(h, s, original, rest);
  }

  /** What reading a printed hunk list yields: the splice of all its hunks when no
      deleted line reads as a file header, otherwise an error. */
  ghost predicate HunksReadBack(s: Hunks, original: seq<string>, hs: seq<Hunk>, tail: seq<string>)
    requires s.cursor <= |original|
  {
    match ParseHunks(s, original)
    case Failure(_) => !NoFalseHeaders(hs)
    case Success(e) => NoFalseHeaders(hs) && e.rest == tail && LeadsTo(s, original, hs, e)
  }

  lemma {:induction false} HunksRoundTrip(s: Hunks, original: seq<string>, hs: seq<Hunk>, tail: seq<string>)
    requires PrintableHunks(hs) && FileEnd(tail) && s.rest == PrintHunks(hs) + tail
    requires s.cursor <= |original| && Fits(original, s.cursor, hs)
    ensures HunksReadBack(s, original, hs, tail)
    decreases |hs|, 0
  {
    if hs == [] {
      assert s.rest == tail;
    } else {
      assert hs == [hs[0]] + hs[1..];
      HunksRoundTripStep(s, original, hs[0], hs[1..], tail);
    }
  }

  lemma PrintedHunksTail(h: Hunk, hs: seq<Hunk>, tail: seq<string>)
    ensures PrintHunks([h] + hs) + tail == PrintHunk(h) + (PrintHunks(hs) + tail)
  {
    assert ([h] + hs)[1..] == hs;
  }

  lemma FirstHunkFits(original: seq<string>, cursor: nat, h: Hunk, hs: seq<Hunk>)
    requires Fits(original, cursor, [h] + hs)
    ensures cursor <= h.oldStart && OldLinesAt(original, h.oldStart, h.edits)
    ensures Fits(original, h.oldStart + |OldOf(h.edits)|, hs)
  {
    assert ([h] + hs)[1..] == hs;
  }

  lemma {:induction false} HunksRoundTripStep(s: Hunks, original: seq<string>, h: Hunk, hs: seq<Hunk>,
                                              tail: seq<string>)
    requires PrintableHunks([h] + hs) && FileEnd(tail) && s.rest == PrintHunks([h] + hs) + tail
    requires s.cursor <= |original| && Fits(original, s.cursor, [h] + hs)
    ensures HunksReadBack(s, original, [h] + hs, tail)
    decreases |hs|, 1
  {
    var rest := PrintHunks(hs) + tail;
    PrintedHunksTail(h, hs, tail);
    FirstHunkFits(original, s.cursor, h, hs);
    HeadHunkIsSafe(h, hs);
    HunksTail(hs, tail);
    StepPrintedHunk(s, original, h, rest);
    if NoFalseHeader(h.edits) {
      HunksRoundTrip(AfterHunk(s, original, h, rest), original, hs, tail);
      FirstHunkReadsBack(s, original, h, hs, rest, tail);
    }
  }

  lemma FirstHunkReadsBack(s: Hunks, original: seq<string>, h: Hunk, hs: seq<Hunk>, rest: seq<string>,
                           tail: seq<string>)
    requires PrintableHunks([h] + hs) && NoFalseHeader(h.edits)
    requires s.cursor <= h.oldStart && OldLinesAt(original, h.oldStart, h.edits)
    requires StepHunks(s, original) == Next(AfterHunk(s, original, h, rest))
    requires HunksReadBack(AfterHunk(s, original, h, rest), original, hs, tail)
    ensures HunksReadBack(s, original, [h] + hs, tail)
  {
    var next := AfterHunk(s, original, h, rest);
    HeadHunkIsSafe(h, hs);
    if NoFalseHeaders(hs) {
      LeadsToPrepend(s, original, h, next, hs, ParseHunks(next, original).value);
    }
  }

  lemma FalseHeadersSplit(h: Hunk, hs: seq<Hunk>, all: seq<Hunk>)
    requires all == [h] + hs
    ensures NoFalseHeaders(all) <==> NoFalseHeader(h.edits) && NoFalseHeaders(hs)
  {
    assert all[0] == h && forall x :: x in all <==> x == h || x in hs;
  }

  lemma HeadHunkIsSafe(h: Hunk, hs: seq<Hunk>)
    requires PrintableHunks([h] + hs)
    ensures Anchored(h) && GoodEdits(h.edits) && PrintableHunks(hs)
    ensures NoFalseHeaders([h] + hs) <==> NoFalseHeader(h.edits) && NoFalseHeaders(hs)
  {
    var all := [h] + hs;
    assert all[0] == h;
    forall x | x in hs ensures x in all {}
    assert forall x | x in all :: x == h || x in hs;
  }
}
