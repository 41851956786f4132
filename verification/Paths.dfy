/** Component-aware path overlap and write allowlists. */
module Paths {
  import opened Contracts

  /** Equality or ancestor/descendant: the shorter path is a prefix of the longer. */
  predicate PathsOverlap(left: Path, right: Path) {
    var shorter := if |left| <= |right| then |left| else |right|;
    left[..shorter] == right[..shorter]
  }

  predicate WriteSetsOverlap(a: seq<Path>, b: seq<Path>) {
    exists p, q | p in a && q in b :: PathsOverlap(p, q)
  }

  lemma OverlapIsComparability(a: Path, b: Path)
    ensures PathsOverlap(a, b) <==> a <= b || b <= a
    ensures PathsOverlap(a, b) <==> PathsOverlap(b, a)
  {
    if |a| <= |b| { assert a[..|a|] == a; }
    if |b| <= |a| { assert b[..|b|] == b; }
  }

  /** Two prefixes of one path overlap. */
  lemma PrefixesOverlap(a: Path, b: Path, p: Path)
    requires a <= p && b <= p
    ensures PathsOverlap(a, b)
  {
    OverlapIsComparability(a, b);
    if |a| <= |b| {
      assert a == p[..|a|] && b == p[..|b|] && b[..|a|] == a;
    } else {
      assert a == p[..|a|] && b == p[..|b|] && a[..|b|] == b;
    }
  }

  /** A path is writable when it is an allowed path or lies below an allowed
      directory. The repository root itself opens no subtree: its label `.`
      never is a string prefix of a canonical path. */
  predicate IsAllowed(path: Path, allowed: set<Path>, dirs: set<Path>) {
    exists a | a in allowed :: a == path || (a in dirs && a != [] && a < path)
  }

  function PathSet(paths: seq<Path>): set<Path> {
    set p | p in paths
  }

  /** No path is writable under two non-overlapping write sets, whatever
      directories exist when each is consulted. */
  lemma NoSharedWritablePath(p: Path, a: seq<Path>, b: seq<Path>, dirsA: set<Path>, dirsB: set<Path>)
    requires !WriteSetsOverlap(a, b)
    requires IsAllowed(p, PathSet(a), dirsA)
    ensures !IsAllowed(p, PathSet(b), dirsB)
  {
    if IsAllowed(p, PathSet(b), dirsB) {
      var x :| x in a && (x == p || (x in dirsA && x != [] && x < p));
      var y :| y in b && (y == p || (y in dirsB && y != [] && y < p));
      PrefixesOverlap(x, y, p);
    }
  }

  /** Lexical resolution of `..`; `None` when the path leaves the repository. */
  function Resolve(raw: Path): Option<Path> {
    if raw == [] then Some([])
    else
      match Resolve(raw[..|raw| - 1])
      case None => None
      case Some(p) =>
        if raw[|raw| - 1] != ".." then Some(p + [raw[|raw| - 1]])
        else if p == [] then None
        else Some(p[..|p| - 1])
  }

  predicate Canonical(raw: Path) {
    ".." !in raw
  }

  lemma {:induction false} CanonicalResolvesToItself(raw: Path)
    requires Canonical(raw)
    ensures Resolve(raw) == Some(raw)
  {
    if raw != [] {
      CanonicalResolvesToItself(raw[..|raw| - 1]);
      assert raw[..|raw| - 1] + [raw[|raw| - 1]] == raw;
    }
  }

  lemma {:induction false} ResolvedIsCanonical(raw: Path)
    ensures Resolve(raw).Some? ==> Canonical(Resolve(raw).value)
  {
    if raw != [] { ResolvedIsCanonical(raw[..|raw| - 1]); }
  }

  /** A step down and up again leads nowhere, and a step up from the root leads out. With
      `CanonicalResolvesToItself` this determines every resolution. */
  lemma {:induction false} DownAndUp(before: Path, part: string, rest: Path)
    requires part != ".."
    ensures Resolve(before + [part, ".."] + rest) == Resolve(before + rest)
    ensures Resolve([".."] + rest) == None
    decreases |rest|
  {
    if rest == [] {
      var down, up := before + [part], before + [part, ".."];
      assert up[..|up| - 1] == down && down[..|down| - 1] == before && up + [] == up && before + [] == before;
      assert [".."] + [] == [".."] && [".."][..0] == [];
      if Resolve(before).Some? {
        assert (Resolve(before).value + [part])[..|Resolve(before).value|] == Resolve(before).value;
      }
    } else {
      var init, last := rest[..|rest| - 1], rest[|rest| - 1];
      DownAndUp(before, part, init);
      var long, short, out := before + [part, ".."] + rest, before + rest, [".."] + rest;
      assert long[..|long| - 1] == before + [part, ".."] + init && short[..|short| - 1] == before + init;
      assert out[..|out| - 1] == [".."] + init;
    }
  }

  /** The resolved paths in order; `None` when one of them leaves the repository. */
  function ResolveSeq(paths: seq<Path>): Option<seq<Path>> {
    if paths == [] then Some([])
    else
      match (Resolve(paths[0]), ResolveSeq(paths[1..]))
      case (Some(p), Some(rest)) => Some([p] + rest)
      case _ => None
  }

  function ResolveAll(paths: seq<Path>): Option<set<Path>> {
    match ResolveSeq(paths)
    case None => None
    case Some(resolved) => Some(PathSet(resolved))
  }

  lemma {:induction false} ResolvedSeqIsCanonical(paths: seq<Path>)
    ensures ResolveSeq(paths).Some? ==> forall p | p in ResolveSeq(paths).value :: Canonical(p)
  {
    if paths != [] {
      ResolvedIsCanonical(paths[0]);
      ResolvedSeqIsCanonical(paths[1..]);
    }
  }

  lemma {:induction false} CanonicalSeqResolvesToItself(paths: seq<Path>)
    requires forall p | p in paths :: Canonical(p)
    ensures ResolveSeq(paths) == Some(paths)
  {
    if paths != [] {
      CanonicalResolvesToItself(paths[0]);
      CanonicalSeqResolvesToItself(paths[1..]);
      assert paths == [paths[0]] + paths[1..];
    }
  }
}
