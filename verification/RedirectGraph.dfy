/**
 The graph theory behind the redirect table.  A table with a unique source column is a
 functional graph: every path has at most one outgoing edge.
 */
module RedirectGraph {
  import opened Common

  type Path = string
  type Graph = map<Path, Path>

  /** Where following n redirects from p leads; None when the chain ends earlier. */
  function Hop(g: Graph, p: Path, n: nat): Option<Path>
    decreases n
  {
    if n == 0 then Some(p)
    else if p in g then Hop(g, g[p], n - 1)
    else None
  }

  /** No path is ever redirected back to itself. */
  ghost predicate Acyclic(g: Graph) {
    forall p, n: nat | n > 0 :: Hop(g, p, n) != Some(p)
  }

  ghost predicate Reaches(g: Graph, from: Path, to: Path) {
    exists n: nat :: Hop(g, from, n) == Some(to)
  }

  ghost predicate ReachesWithin(g: Graph, from: Path, to: Path, bound: nat) {
    exists n: nat | n < bound :: Hop(g, from, n) == Some(to)
  }

  lemma {:induction false} HopAdd(g: Graph, p: Path, m: nat, n: nat)
    ensures Hop(g, p, m + n) == match Hop(g, p, m) case Some(q) => Hop(g, q, n) case None => None
    decreases m
  {
    if m > 0 && p in g {
      HopAdd(g, g[p], m - 1, n);
      assert m - 1 + n == m + n - 1;
    }
  }

  /** Edges that are new or changed in h all lead to paths h does not redirect. */
  ghost predicate OnlyAddsDeadEnds(g: Graph, h: Graph) {
    forall p | p in h :: (p in g && g[p] == h[p]) || h[p] !in h
  }

  lemma {:induction false} InnerHopsKept(g: Graph, h: Graph, p: Path, n: nat)
    requires OnlyAddsDeadEnds(g, h)
    requires Hop(h, p, n).Some? && Hop(h, p, n).value in h
    ensures Hop(g, p, n) == Hop(h, p, n)
    decreases n
  {
    if n > 0 {
      assert n - 1 > 0 ==> h[p] in h;
      InnerHopsKept(g, h, h[p], n - 1);
    }
  }

  /** Deleting edges, or pointing edges at dead ends, never makes a cycle. */
  lemma DeadEndsKeepAcyclic(g: Graph, h: Graph)
    requires Acyclic(g) && OnlyAddsDeadEnds(g, h)
    ensures Acyclic(h)
  {
    forall p, n: nat | n > 0
      ensures Hop(h, p, n) != Some(p)
    {
      if Hop(h, p, n) == Some(p) {
        assert p in h;
        InnerHopsKept(g, h, p, n);
      }
    }
  }

  /** A chain that never visits s does not notice a change of s's edge. */
  lemma {:induction false} HopsAvoiding(g: Graph, h: Graph, s: Path, p: Path, n: nat)
    requires forall q | q != s :: (q in g <==> q in h) && (q in g ==> g[q] == h[q])
    requires forall k: nat | k < n :: Hop(g, p, k) != Some(s)
    ensures Hop(h, p, n) == Hop(g, p, n)
    decreases n
  {
    if n > 0 {
      assert Hop(g, p, 0) == Some(p);
      if p in g {
        forall k: nat | k < n - 1
          ensures Hop(g, g[p], k) != Some(s)
        {
          assert Hop(g, p, k + 1) == Hop(g, g[p], k);
        }
        HopsAvoiding(g, h, s, g[p], n - 1);
      }
    }
  }

  /** The first time a chain meets s, it has only used edges of other sources. */
  lemma {:induction false} FirstArrival(g: Graph, p: Path, s: Path, n: nat) returns (m: nat)
    requires Hop(g, p, n) == Some(s)
    ensures m <= n && Hop(g, p, m) == Some(s)
    ensures forall k: nat | k < m :: Hop(g, p, k) != Some(s)
    decreases n
  {
    if p == s {
      m := 0;
    } else {
      var m' := FirstArrival(g, g[p], s, n - 1);
      m := m' + 1;
      forall k: nat | k < m
        ensures Hop(g, p, k) != Some(s)
      {
        if k > 0 {
          assert Hop(g, p, k) == Hop(g, g[p], k - 1);
        }
      }
    }
  }

  /** Setting the edge s -> d makes a cycle exactly when d already leads back to s. */
  lemma NewEdgeAcyclicIff(g: Graph, s: Path, d: Path)
    requires Acyclic(g)
    ensures Acyclic(g[s := d]) <==> !Reaches(g, d, s)
  {
    var h := g[s := d];
    if n: nat :| Hop(g, d, n) == Some(s) {
      var m := FirstArrival(g, d, s, n);
      HopsAvoiding(g, h, s, d, m);
      assert Hop(h, s, m + 1) == Some(s);
    } else {
      forall p, n: nat | n > 0
        ensures Hop(h, p, n) != Some(p)
      {
        NoCycleThroughNewEdge(g, s, d, p, n);
      }
    }
  }

  lemma NoCycleThroughNewEdge(g: Graph, s: Path, d: Path, p: Path, n: nat)
    requires Acyclic(g) && !Reaches(g, d, s) && n > 0
    ensures Hop(g[s := d], p, n) != Some(p)
  {
    var h := g[s := d];
    if j: nat :| j < n && Hop(h, p, j) == Some(s) {
      // A cycle through s can be rotated to start at s, and then leaves along the new edge.
      HopAdd(h, p, j, n);
      HopAdd(h, p, n, j);
      assert j + n == n + j;
      assert Hop(h, p, n) == Some(p) ==> Hop(h, s, n) == Some(s);
      HopsAvoiding(g, h, s, d, n - 1);
    } else {
      HopsAvoiding(h, g, s, p, n);
    }
  }

  /** Every chain of an acyclic table stops, after at most one hop per row. */
  lemma {:induction false} ChainsEnd(g: Graph, p: Path)
    requires Acyclic(g)
    ensures Hop(g, p, |g| + 1) == None
    decreases |g|
  {
    if p in g {
      var h := g - {p};
      assert |h| == |g| - 1 by { assert h.Keys == g.Keys - {p}; }
      forall k: nat | k < |g|
        ensures Hop(g, g[p], k) != Some(p)
      {
        assert Hop(g, p, k + 1) == Hop(g, g[p], k);
      }
      HopsAvoiding(g, h, p, g[p], |g|);
      DeadEndsKeepAcyclic(g, h);
      ChainsEnd(h, g[p]);
    }
  }

  /** Hence every path has one final target that is not itself redirected. */
  lemma FinalTargetExists(g: Graph, p: Path) returns (n: nat, target: Path)
    requires Acyclic(g)
    ensures n <= |g| && Hop(g, p, n) == Some(target) && target !in g
  {
    ChainsEnd(g, p);
    n := 0;
    target := p;
    while target in g
      invariant n <= |g| && Hop(g, p, n) == Some(target)
      decreases |g| - n
    {
      HopAdd(g, p, n, 1);
      assert Hop(g, target, 1) == Hop(g, g[target], 0);
      target := g[target];
      n := n + 1;
    }
  }

  // ----- Shortcuts -----

  /** Every edge of h is an edge of g, or skips over one more edge of g. */
  ghost predicate Shortcuts(g: Graph, h: Graph) {
    && g.Keys == h.Keys
    && forall p | p in h :: h[p] == g[p] || (g[p] in g && h[p] == g[g[p]])
  }

  /** So a chain of h is a chain of g that is at least as long. */
  lemma {:induction false} ShortcutsUnfold(g: Graph, h: Graph, p: Path, n: nat) returns (m: nat)
    requires Shortcuts(g, h) && Hop(h, p, n).Some?
    ensures m >= n && Hop(g, p, m) == Hop(h, p, n)
    decreases n
  {
    if n == 0 {
      m := 0;
    } else {
      var k := ShortcutsUnfold(g, h, h[p], n - 1);
      m := if h[p] == g[p] then k + 1 else k + 2;
      assert Hop(g, p, 1 + k) == Hop(g, g[p], k) && (g[p] in g ==> Hop(g, p, 2 + k) == Hop(g, g[g[p]], k));
    }
  }

  ghost predicate OnCycle(g: Graph, p: Path) {
    exists n: nat | n > 0 :: Hop(g, p, n) == Some(p)
  }

  lemma CycleGoesOn(g: Graph, p: Path)
    requires OnCycle(g, p)
    ensures p in g && OnCycle(g, g[p])
  {
    var n: nat :| n > 0 && Hop(g, p, n) == Some(p);
    HopAdd(g, p, 1, n);
    HopAdd(g, p, n, 1);
    assert 1 + n == n + 1;
    assert Hop(g, p, 1) == Hop(g, g[p], 0);
  }

  /** And a chain of h that starts on a cycle of g never leaves it. */
  lemma {:induction false} ShortcutsStay(g: Graph, h: Graph, p: Path, n: nat)
    requires Shortcuts(g, h) && OnCycle(g, p)
    ensures Hop(h, p, n).Some?
    decreases n
  {
    if n > 0 {
      CycleGoesOn(g, p);
      CycleGoesOn(g, g[p]);
      ShortcutsStay(g, h, h[p], n - 1);
    }
  }

  /** Shortcuts neither make nor break a cycle. */
  lemma ShortcutsKeepCycles(g: Graph, h: Graph)
    requires Shortcuts(g, h)
    ensures Acyclic(h) <==> Acyclic(g)
  {
    if Acyclic(h) && !Acyclic(g) {
      var p, n: nat :| n > 0 && Hop(g, p, n) == Some(p);
      ShortcutsStay(g, h, p, |h| + 1);
      ChainsEnd(h, p);
    }
    if !Acyclic(h) && Acyclic(g) {
      var p, n: nat :| n > 0 && Hop(h, p, n) == Some(p);
      var m := ShortcutsUnfold(g, h, p, n);
    }
  }
}
