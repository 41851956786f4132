/** Walks through a finite relation on node ids: the vocabulary in which cycles,
    ancestors and blocked descendants are stated. */
module Walks {
  type Rel = set<(string, string)>

  /** `p` is a nonempty sequence of nodes whose neighbours are related. */
  ghost predicate Walk(r: Rel, p: seq<string>) {
    |p| >= 1 && forall i {:trigger p[i]} | 0 <= i < |p| - 1 :: (p[i], p[i + 1]) in r
  }

  /** Some walk of at least one step leads from `a` to `b`. */
  ghost predicate Reaches(r: Rel, a: string, b: string) {
    exists p :: Walk(r, p) && |p| >= 2 && p[0] == a && p[|p| - 1] == b
  }

  ghost predicate Cyclic(r: Rel) {
    exists n :: Reaches(r, n, n)
  }

  /** `n` lies on a cycle or downstream of one. */
  ghost predicate Stuck(r: Rel, n: string) {
    exists c :: Reaches(r, c, c) && (c == n || Reaches(r, c, n))
  }

  ghost predicate HasPredecessorIn(r: Rel, s: set<string>, n: string) {
    exists y :: y in s && (y, n) in r
  }

  /** Every member of `s` has a predecessor in `s`. */
  ghost predicate Sourceless(r: Rel, s: set<string>) {
    forall x | x in s :: HasPredecessorIn(r, s, x)
  }

  lemma ReachesStep(r: Rel, a: string, b: string)
    requires (a, b) in r
    ensures Reaches(r, a, b)
  {
    assert Walk(r, [a, b]);
  }

  lemma ReachesTransitive(r: Rel, a: string, b: string, c: string)
    requires Reaches(r, a, b) && Reaches(r, b, c)
    ensures Reaches(r, a, c)
  {
    var p :| Walk(r, p) && |p| >= 2 && p[0] == a && p[|p| - 1] == b;
    var q :| Walk(r, q) && |q| >= 2 && q[0] == b && q[|q| - 1] == c;
    var w := p + q[1..];
    forall i | 0 <= i < |w| - 1 ensures (w[i], w[i + 1]) in r {
      if i < |p| - 1 {
        assert w[i] == p[i] && w[i + 1] == p[i + 1];
      } else {
        assert w[i] == q[i - (|p| - 1)] && w[i + 1] == q[i - (|p| - 1) + 1];
      }
    }
    assert Walk(r, w);
  }

  lemma ReachesMonotone(r: Rel, s: Rel, a: string, b: string)
    requires r <= s && Reaches(r, a, b)
    ensures Reaches(s, a, b)
  {
    var p :| Walk(r, p) && |p| >= 2 && p[0] == a && p[|p| - 1] == b;
    assert Walk(s, p);
  }

  /** The last step of a walk. */
  lemma ReachesLast(r: Rel, a: string, b: string) returns (c: string)
    requires Reaches(r, a, b)
    ensures (c, b) in r && (c == a || Reaches(r, a, c))
  {
    var p :| Walk(r, p) && |p| >= 2 && p[0] == a && p[|p| - 1] == b;
    c := p[|p| - 2];
    if |p| > 2 {
      assert Walk(r, p[..|p| - 1]);
    }
  }

  /** A set closed under `r` that holds `a` holds everything `a` reaches. */
  lemma ClosedHoldsReached(r: Rel, s: set<string>, a: string, b: string)
    requires a in s && Reaches(r, a, b)
    requires forall e | e in r && e.0 in s :: e.1 in s
    ensures b in s
  {
    var p :| Walk(r, p) && |p| >= 2 && p[0] == a && p[|p| - 1] == b;
    ClosedHoldsWalk(r, s, p);
  }

  lemma ClosedHoldsWalk(r: Rel, s: set<string>, p: seq<string>)
    requires Walk(r, p) && p[0] in s
    requires forall e | e in r && e.0 in s :: e.1 in s
    ensures p[|p| - 1] in s
    decreases |p|
  {
    if |p| > 1 {
      assert (p[0], p[1]) in r;
      ClosedHoldsWalk(r, s, p[1..]);
    }
  }

  lemma {:induction false} Pigeonhole(p: seq<string>, s: set<string>) returns (i: nat, j: nat)
    requires |p| > |s| && forall x | x in p :: x in s
    ensures i < j < |p| && p[i] == p[j]
    decreases |p|
  {
    var last := p[|p| - 1];
    if k :| 0 <= k < |p| - 1 && p[k] == last {
      i, j := k, |p| - 1;
    } else {
      i, j := Pigeonhole(p[..|p| - 1], s - {last});
    }
  }

  /** Walking backwards inside `s` for `k` steps. */
  lemma {:induction false} BackwardWalk(r: Rel, s: set<string>, n: string, k: nat) returns (p: seq<string>)
    requires n in s
    requires Sourceless(r, s)
    ensures Walk(r, p) && |p| == k + 1 && p[k] == n && forall x | x in p :: x in s
  {
    p := [n];
    if k > 0 {
      var q := BackwardWalk(r, s, n, k - 1);
      assert q[0] in s && HasPredecessorIn(r, s, q[0]);
      var y :| y in s && (y, q[0]) in r;
      p := [y] + q;
      forall i | 0 <= i < |p| - 1 ensures (p[i], p[i + 1]) in r {
        if i > 0 { assert p[i] == q[i - 1] && p[i + 1] == q[i]; }
      }
    }
  }

  lemma SubWalk(r: Rel, p: seq<string>, i: nat, j: nat)
    requires Walk(r, p) && i < j < |p|
    ensures Reaches(r, p[i], p[j])
  {
    var q := p[i..j + 1];
    assert forall k | 0 <= k < |q| :: q[k] == p[i + k];
    assert forall k {:trigger q[k]} | 0 <= k < |q| - 1 :: (p[i + k], p[i + k + 1]) in r;
    assert Walk(r, q);
  }

  /** If every member of a finite set has a predecessor in the set, each member
      is downstream of a cycle inside it. */
  lemma NoSourceMeansStuck(r: Rel, s: set<string>, n: string) returns (c: string)
    requires n in s
    requires Sourceless(r, s)
    ensures c in s && Reaches(r, c, c) && Reaches(r, c, n)
  {
    var p := BackwardWalk(r, s, n, |s| + 1);
    var i, j := Pigeonhole(p, s);
    c := p[i];
    SubWalk(r, p, i, j);
    SubWalk(r, p, i, |p| - 1);
  }

  /** A set off the cycles in which every member has a predecessor is empty. */
  lemma SourcelessUnstuckIsEmpty(r: Rel, s: set<string>)
    requires Sourceless(r, s) && forall n | n in s :: !Stuck(r, n)
    ensures s == {}
  {
    if n :| n in s {
      var c := NoSourceMeansStuck(r, s, n);
    }
  }

  /** A walk over `r` plus one edge either avoids the edge or can be cut before
      its first use and after its last. */
  lemma {:induction false} CutAtEdge(r: Rel, s: string, t: string, p: seq<string>)
    requires Walk(r + {(s, t)}, p) && |p| >= 2
    ensures
      || Reaches(r, p[0], p[|p| - 1])
      || ((p[0] == s || Reaches(r, p[0], s)) && (p[|p| - 1] == t || Reaches(r, t, p[|p| - 1])))
    decreases |p|
  {
    var a, c, b := p[0], p[|p| - 2], p[|p| - 1];
    assert (c, b) in r + {(s, t)};
    if (c, b) in r { ReachesStep(r, c, b); }
    if |p| > 2 {
      var q := p[..|p| - 1];
      assert Walk(r + {(s, t)}, q);
      CutAtEdge(r, s, t, q);
      if (c, b) in r {
        if Reaches(r, a, c) { ReachesTransitive(r, a, c, b); }
        if Reaches(r, t, c) { ReachesTransitive(r, t, c, b); }
      }
    }
  }

  /** Adding an edge to an acyclic relation closes a cycle exactly when the edge
      is a self edge or its target already reaches its source. */
  lemma NewEdgeClosesCycle(r: Rel, s: string, t: string)
    requires !Cyclic(r)
    ensures Cyclic(r + {(s, t)}) <==> s == t || Reaches(r, t, s)
  {
    var r' := r + {(s, t)};
    ReachesStep(r', s, t);
    if Reaches(r, t, s) {
      ReachesMonotone(r, r', t, s);
      ReachesTransitive(r', s, t, s);
    }
    if Cyclic(r') {
      var n :| Reaches(r', n, n);
      var p :| Walk(r', p) && |p| >= 2 && p[0] == n && p[|p| - 1] == n;
      CutAtEdge(r, s, t, p);
      assert !Reaches(r, n, n);
      if s != t && n != s && n != t { ReachesTransitive(r, t, n, s); }
    }
  }
}
