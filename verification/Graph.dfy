/** Reachability in a finite directed graph, as group files that include each other form. */
module Graph {
  import opened Text

  /** Each node with its successors; only nodes that are keys count. */
  type Graph = map<Text, set<Text>>

  ghost predicate Path(g: Graph, p: seq<Text>) {
    && |p| > 0
    && (forall k :: 0 <= k < |p| ==> p[k] in g)
    && (forall k :: 0 < k < |p| ==> p[k] in g[p[k - 1]])
  }

  ghost predicate PathBetween(g: Graph, p: seq<Text>, a: Text, b: Text) {
    Path(g, p) && p[0] == a && p[|p| - 1] == b
  }

  ghost predicate Avoids(p: seq<Text>, bad: set<Text>) {
    forall k :: 0 <= k < |p| ==> p[k] !in bad
  }

  ghost predicate ReachAvoiding(g: Graph, a: Text, b: Text, bad: set<Text>) {
    exists p :: PathBetween(g, p, a, b) && Avoids(p, bad)
  }

  ghost predicate Reach(g: Graph, a: Text, b: Text) {
    exists p :: PathBetween(g, p, a, b)
  }

  lemma ReachAvoidsNothing(g: Graph, a: Text, b: Text)
    ensures Reach(g, a, b) <==> ReachAvoiding(g, a, b, {})
  {
    if Reach(g, a, b) {
      var p :| PathBetween(g, p, a, b);
      assert Avoids(p, {});
    }
  }

  lemma ReachSelf(g: Graph, a: Text)
    requires a in g
    ensures Reach(g, a, a)
  {
    assert PathBetween(g, [a], a, a);
  }

  lemma ReachVia(g: Graph, a: Text, c: Text, b: Text)
    requires a in g && c in g[a] && Reach(g, c, b)
    ensures Reach(g, a, b)
  {
    var p :| PathBetween(g, p, c, b);
    var q := [a] + p;
    assert forall k :: 0 < k < |q| ==> q[k] == p[k - 1];
    assert PathBetween(g, q, a, b);
  }

  /** A set that holds the start and every successor of its members holds all that is
      reachable. */
  lemma {:induction false} ClosedHoldsPath(g: Graph, s: set<Text>, p: seq<Text>)
    requires Path(g, p) && p[0] in s
    requires forall n, c :: n in s && n in g && c in g[n] && c in g ==> c in s
    ensures p[|p| - 1] in s
    decreases |p|
  {
    if |p| > 1 {
      assert p[1] in g[p[0]];
      var q := p[1..];
      assert forall k :: 0 <= k < |q| ==> q[k] == p[k + 1];
      ClosedHoldsPath(g, s, q);
    }
  }

  lemma ClosedHoldsReach(g: Graph, s: set<Text>, a: Text)
    requires a in s
    requires forall n, c :: n in s && n in g && c in g[n] && c in g ==> c in s
    ensures forall b :: Reach(g, a, b) ==> b in s
  {
    forall b | Reach(g, a, b)
      ensures b in s
    {
      var p :| PathBetween(g, p, a, b);
      ClosedHoldsPath(g, s, p);
    }
  }

  /** The last position of `a` in `p`. */
  lemma {:induction false} LastIndex(p: seq<Text>, a: Text, n: nat) returns (k: nat)
    requires 0 < n <= |p| && a in p[..n]
    ensures k < n && p[k] == a && forall j :: k < j < n ==> p[j] != a
  {
    if p[n - 1] == a {
      k := n - 1;
    } else {
      assert p[..n] == p[..n - 1] + [p[n - 1]];
      k := LastIndex(p, a, n - 1);
    }
  }

  /** What can be reached avoiding `bad` is the start itself or can be reached from one of
      its successors avoiding the start as well: no path need visit a node twice. */
  lemma AvoidingUnfolds(g: Graph, a: Text, b: Text, bad: set<Text>)
    requires ReachAvoiding(g, a, b, bad) && a != b
    ensures exists c :: c in g && a in g && c in g[a] && ReachAvoiding(g, c, b, bad + {a})
  {
    var p :| PathBetween(g, p, a, b) && Avoids(p, bad);
    assert p[..|p|] == p;
    var k := LastIndex(p, a, |p|);
    var q := p[k + 1..];
    assert p[k + 1] in g[p[k]];
    assert forall j :: 0 <= j < |q| ==> q[j] == p[k + 1 + j];
    assert PathBetween(g, q, p[k + 1], b);
    assert Avoids(q, bad + {a});
  }

  lemma AvoidingFolds(g: Graph, a: Text, c: Text, b: Text, bad: set<Text>)
    requires a in g && a !in bad && c in g[a] && ReachAvoiding(g, c, b, bad + {a})
    ensures ReachAvoiding(g, a, b, bad)
  {
    var p :| PathBetween(g, p, c, b) && Avoids(p, bad + {a});
    var q := [a] + p;
    assert forall k :: 0 < k < |q| ==> q[k] == p[k - 1];
    assert PathBetween(g, q, a, b);
    assert Avoids(q, bad);
  }
}
