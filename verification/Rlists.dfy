/** Lists of item-by-response rectangles, and the operations that combine them. */
module Rlists {

  const HIGHBOUND := 20000

  datatype Node = Node(i0: int, i1: int, r0: int, r1: int)

  /** A list without its head node; null is what the operations return on bad arguments. */
  datatype Rlist = RLNULL | Rl(nodes: seq<Node>)

  /** The head node, which the loops can find at their tail: it holds no items. */
  const HEAD := Node(-9999, -9999, 0, -1)

  function Min(a: int, b: int): int { if a < b then a else b }
  function Max(a: int, b: int): int { if a > b then a else b }

  /** A response bound, with -1 read as the highest. */
  function Dec(r: int): int {
    if r == -1 then HIGHBOUND else r
  }

  predicate In(n: Node, i: int, r: int) {
    n.i0 <= i <= n.i1 && Dec(n.r0) <= r <= Dec(n.r1)
  }

  /** Response `r` of item `i` is in some rectangle. */
  ghost predicate Means(l: seq<Node>, i: int, r: int) {
    exists k :: 0 <= k < |l| && In(l[k], i, r)
  }

  lemma MeansConcat(a: seq<Node>, b: seq<Node>, i: int, r: int)
    ensures Means(a + b, i, r) <==> Means(a, i, r) || Means(b, i, r)
  {
    if k :| 0 <= k < |a| && In(a[k], i, r) {
      assert In((a + b)[k], i, r);
    }
    if k :| 0 <= k < |b| && In(b[k], i, r) {
      assert In((a + b)[|a| + k], i, r);
    }
  }

  // ------------------------------------------------------------- and_rlist

  /** What two rectangles have in common, as a list of at most one. */
  function Meet(p: Node, q: Node): seq<Node> {
    var ilo, ihi := Max(p.i0, q.i0), Min(p.i1, q.i1);
    var rlo, rhi := Max(Dec(p.r0), Dec(q.r0)), Min(Dec(p.r1), Dec(q.r1));
    if ihi < ilo || rhi < rlo then []
    else [Node(ilo, ihi, if rlo == HIGHBOUND then -1 else rlo, if rhi == HIGHBOUND then -1 else rhi)]
  }

  function MeetRow(p: Node, b: seq<Node>, k: nat): seq<Node>
    requires k <= |b|
  {
    if k == 0 then [] else MeetRow(p, b, k - 1) + Meet(p, b[k - 1])
  }

  function MeetAll(a: seq<Node>, b: seq<Node>, k: nat): seq<Node>
    requires k <= |a|
  {
    if k == 0 then [] else MeetAll(a, b, k - 1) + MeetRow(a[k - 1], b, |b|)
  }

  method AndRlist(rla: Rlist, rlb: Rlist) returns (result: Rlist)
    ensures rla.RLNULL? || rlb.RLNULL? ==> result.RLNULL?
    ensures rla.Rl? && rlb.Rl? ==> result == Rl(MeetAll(rla.nodes, rlb.nodes, |rla.nodes|))
  {
    if rla.RLNULL? || rlb.RLNULL? { return RLNULL; }
    var a, b := rla.nodes, rlb.nodes;
    var nodes := [];
    var pa := 0;
    while pa < |a|
      invariant 0 <= pa <= |a|
      invariant nodes == MeetAll(a, b, pa)
    {
      ghost var before := nodes;
      var pb := 0;
      while pb < |b|
        invariant 0 <= pb <= |b|
        invariant nodes == before + MeetRow(a[pa], b, pb)
      {
        var ilo := Max(a[pa].i0, b[pb].i0);
        var ihi := Min(a[pa].i1, b[pb].i1);
        if ihi >= ilo {
          var rlo := Max(Dec(a[pa].r0), Dec(b[pb].r0));
          var rhi := Min(Dec(a[pa].r1), Dec(b[pb].r1));
          if rhi >= rlo {
            if rlo == HIGHBOUND { rlo := -1; }
            if rhi == HIGHBOUND { rhi := -1; }
            nodes := nodes + [Node(ilo, ihi, rlo, rhi)];
          }
        }
        pb := pb + 1;
      }
      pa := pa + 1;
    }
    result := Rl(nodes);
  }

  lemma MeetMeans(p: Node, q: Node, i: int, r: int)
    ensures Means(Meet(p, q), i, r) <==> In(p, i, r) && In(q, i, r)
  {
    if Meet(p, q) != [] {
      assert In(Meet(p, q)[0], i, r) <==> In(p, i, r) && In(q, i, r);
    }
  }

  lemma {:induction false} MeetRowMeans(p: Node, b: seq<Node>, k: nat, i: int, r: int)
    requires k <= |b|
    ensures Means(MeetRow(p, b, k), i, r) <==> In(p, i, r) && Means(b[..k], i, r)
  {
    if k > 0 {
      MeetRowMeans(p, b, k - 1, i, r);
      MeetMeans(p, b[k - 1], i, r);
      MeansConcat(MeetRow(p, b, k - 1), Meet(p, b[k - 1]), i, r);
      MeansConcat(b[..k - 1], [b[k - 1]], i, r);
      assert b[..k] == b[..k - 1] + [b[k - 1]];
      assert Means([b[k - 1]], i, r) <==> In(b[k - 1], i, r) by {
        assert [b[k - 1]][0] == b[k - 1];
      }
    }
  }

  lemma {:induction false} MeetAllMeans(a: seq<Node>, b: seq<Node>, k: nat, i: int, r: int)
    requires k <= |a|
    ensures Means(MeetAll(a, b, k), i, r) <==> Means(a[..k], i, r) && Means(b, i, r)
  {
    if k > 0 {
      MeetAllMeans(a, b, k - 1, i, r);
      MeetRowMeans(a[k - 1], b, |b|, i, r);
      assert b[..|b|] == b;
      MeansConcat(MeetAll(a, b, k - 1), MeetRow(a[k - 1], b, |b|), i, r);
      MeansConcat(a[..k - 1], [a[k - 1]], i, r);
      assert a[..k] == a[..k - 1] + [a[k - 1]];
      assert Means([a[k - 1]], i, r) <==> In(a[k - 1], i, r) by {
        assert [a[k - 1]][0] == a[k - 1];
      }
    }
  }

  /** `and_rlist` of any two lists, sorted or not, overlapping or not, means exactly what
      both of them mean. */
  lemma AndMeansIntersection(a: seq<Node>, b: seq<Node>, i: int, r: int)
    ensures Means(MeetAll(a, b, |a|), i, r) <==> Means(a, i, r) && Means(b, i, r)
  {
    MeetAllMeans(a, b, |a|, i, r);
    assert a[..|a|] == a;
  }

  // ------------------------------------------------------------- add_to_rlist, and_isince

  /** Adds `item` to the first node from `old` on that it extends, or as a new last node.
      `l` includes the head node. */
  method AddToRlist(l: seq<Node>, old_: nat, item: int, r0: int, r1: int) returns (l': seq<Node>, k: nat)
    requires old_ < |l|
    ensures k < |l'| && old_ <= k
    ensures if exists j :: old_ <= j < |l| && Extends(l[j], item, r0, r1)
            then |l'| == |l| && Extends(l[k], item, r0, r1) && l' == l[k := l[k].(i1 := item)]
                 && forall j :: old_ <= j < k ==> !Extends(l[j], item, r0, r1)
            else k == |l| && l' == l + [Node(item, item, r0, r1)]
  {
    k := old_;
    while k < |l|
      invariant old_ <= k <= |l|
      invariant forall j :: old_ <= j < k ==> !Extends(l[j], item, r0, r1)
    {
      if item == l[k].i1 + 1 && r0 == l[k].r0 && r1 == l[k].r1 {
        l' := l[k := l[k].(i1 := item)];
        return;
      }
      k := k + 1;
    }
    l' := l + [Node(item, item, r0, r1)];
  }

  predicate Extends(n: Node, item: int, r0: int, r1: int) {
    item == n.i1 + 1 && r0 == n.r0 && r1 == n.r1
  }

  /** Item bounds in order; a node may also end just before it begins. */
  predicate Ordered(l: seq<Node>) {
    forall k :: 0 <= k < |l| ==> l[k].i0 <= l[k].i1 + 1
  }

  /** What one node of the list adds to the result, of which `out` includes the head node. */
  function SinceStep(out: seq<Node>, ptr: Node, since: int): (out': seq<Node>)
    requires |out| > 0
    ensures |out'| > 0
  {
    var lo, t := Max(since, ptr.i0), |out| - 1;
    if ptr.i1 < since then out
    else if Extends(out[t], lo, ptr.r0, ptr.r1) then out[t := out[t].(i1 := ptr.i1)]
    else out + [Node(lo, ptr.i1, ptr.r0, ptr.r1)]
  }

  function Since(nodes: seq<Node>, p: nat, since: int): (out: seq<Node>)
    requires p <= |nodes|
    ensures |out| > 0
  {
    if p == 0 then [HEAD] else SinceStep(Since(nodes, p - 1, since), nodes[p - 1], since)
  }

  /** The loop of `and_isince`: `since` is the first item entered since the date asked for. */
  method AndIsince(rl: Rlist, since: int) returns (result: Rlist)
    ensures rl.RLNULL? ==> result.RLNULL?
    ensures rl.Rl? ==> result == Rl(Since(rl.nodes, |rl.nodes|, since)[1..])
  {
    if rl.RLNULL? { return RLNULL; }
    var nodes := rl.nodes;
    var out, tail := [HEAD], 0;
    var p := 0;
    while p < |nodes|
      invariant 0 <= p <= |nodes|
      invariant tail == |out| - 1
      invariant out == Since(nodes, p, since)
    {
      var ptr := nodes[p];
      p := p + 1;
      if ptr.i1 < since { continue; }
      var lobound := if since > ptr.i0 then since else ptr.i0;
      out, tail := AddToRlist(out, tail, lobound, ptr.r0, ptr.r1);
      out := out[tail := out[tail].(i1 := ptr.i1)];
    }
    result := Rl(out[1..]);
  }

  /** `and_isince` of any list of ordered nodes, overlapping or not, means exactly what the
      list means at or after `since`. */
  lemma {:induction false} SinceMeansRestriction(nodes: seq<Node>, p: nat, since: int)
    requires Ordered(nodes) && p <= |nodes| && since > HEAD.i1 + 1
    ensures var out := Since(nodes, p, since);
            && out[0] == HEAD && Ordered(out[1..])
            && forall i, r :: Means(out[1..], i, r) <==> Means(nodes[..p], i, r) && i >= since
  {
    if p > 0 {
      SinceMeansRestriction(nodes, p - 1, since);
      var before, ptr, out := nodes[..p - 1], nodes[p - 1], Since(nodes, p - 1, since);
      assert nodes[..p] == before + [ptr];
      if ptr.i1 < since {
        SkipMeans(before, ptr, since);
      } else {
        PatchMeans(out, SinceStep(out, ptr, since), before, ptr, since);
      }
    }
  }

  /** The result of `and_isince` means the restriction of the list to items from `since` on. */
  ghost predicate Restricts(nodes: seq<Node>, since: int) {
    forall i, r :: Means(Since(nodes, |nodes|, since)[1..], i, r) <==> Means(nodes, i, r) && i >= since
  }

  /** A node whose bounds are out of order stands for no item, but it can take away items that
      an earlier node stands for. */
  lemma UnorderedNodeClips(n: Node, since: int)
    requires n.i0 > n.i1 + 1 && n.i1 >= since && Dec(n.r0) <= Dec(n.r1) && since > HEAD.i1 + 1
    ensures Means([Node(n.i0 - 1, n.i0 - 1, n.r0, n.r1), n], n.i0 - 1, Dec(n.r0))
    ensures !Means(Since([Node(n.i0 - 1, n.i0 - 1, n.r0, n.r1), n], 2, since)[1..], n.i0 - 1, Dec(n.r0))
  {
    var m := Node(n.i0 - 1, n.i0 - 1, n.r0, n.r1);
    var nodes := [m, n];
    assert In(nodes[0], n.i0 - 1, Dec(n.r0));
    assert Since(nodes, 0, since) == [HEAD];
    assert Since(nodes, 1, since) == [HEAD, m];
    assert Since(nodes, 2, since) == [HEAD, m.(i1 := n.i1)];
  }

  /** Behind every list of ordered nodes, a node is handled right if and only if it is itself
      ordered, or is skipped, or means no response. */
  lemma HandledRightIff(n: Node, since: int)
    requires since > HEAD.i1 + 1
    ensures (forall before :: Ordered(before) ==> Restricts(before + [n], since))
            <==> n.i0 <= n.i1 + 1 || n.i1 < since || Dec(n.r0) > Dec(n.r1)
  {
    if n.i0 <= n.i1 + 1 || n.i1 < since || Dec(n.r0) > Dec(n.r1) {
      forall before | Ordered(before) ensures Restricts(before + [n], since) {
        HandledRight(before, n, since);
      }
    } else {
      var before := [Node(n.i0 - 1, n.i0 - 1, n.r0, n.r1)];
      UnorderedNodeClips(n, since);
      assert before + [n] == [before[0], n];
      assert Ordered(before) && !Restricts(before + [n], since);
    }
  }

  lemma {:induction false} SincePrefix(before: seq<Node>, n: Node, p: nat, since: int)
    requires p <= |before|
    ensures Since(before + [n], p, since) == Since(before, p, since)
  {
    if p > 0 { SincePrefix(before, n, p - 1, since); }
  }

  lemma HandledRight(before: seq<Node>, n: Node, since: int)
    requires Ordered(before) && since > HEAD.i1 + 1
    requires n.i0 <= n.i1 + 1 || n.i1 < since || Dec(n.r0) > Dec(n.r1)
    ensures Restricts(before + [n], since)
  {
    var out := Since(before, |before|, since);
    SinceMeansRestriction(before, |before|, since);
    assert before[..|before|] == before;
    SincePrefix(before, n, |before|, since);
    if n.i1 < since {
      SkipMeans(before, n, since);
    } else if n.i0 <= n.i1 + 1 {
      PatchMeans(out, SinceStep(out, n, since), before, n, since);
    } else {
      NoResponse(out, before, n, since);
    }
  }

  /** A node that means no response can only stretch or cut nodes that mean none either. */
  lemma NoResponse(out: seq<Node>, before: seq<Node>, n: Node, since: int)
    requires |out| > 0 && out[0] == HEAD && since > HEAD.i1 + 1 && Dec(n.r0) > Dec(n.r1) && n.i1 >= since
    requires forall i, r :: Means(out[1..], i, r) <==> Means(before, i, r) && i >= since
    ensures forall i, r :: Means(SinceStep(out, n, since)[1..], i, r) <==> Means(before + [n], i, r) && i >= since
  {
    var lo, t, out' := Max(since, n.i0), |out| - 1, SinceStep(out, n, since);
    var m := Node(lo, n.i1, n.r0, n.r1);
    if Extends(out[t], lo, n.r0, n.r1) {
      assert out'[1..] == out[1..t] + [out'[t]] && out[1..] == out[1..t] + [out[t]];
    } else {
      assert out'[1..] == out[1..] + [m];
    }
    forall i, r ensures Means(out'[1..], i, r) <==> Means(before + [n], i, r) && i >= since {
      MeansConcat(before, [n], i, r);
      if Extends(out[t], lo, n.r0, n.r1) {
        MeansConcat(out[1..t], [out'[t]], i, r);
        MeansConcat(out[1..t], [out[t]], i, r);
      } else {
        MeansConcat(out[1..], [m], i, r);
      }
    }
  }

  lemma SkipMeans(before: seq<Node>, ptr: Node, since: int)
    requires ptr.i1 < since
    ensures forall i, r :: i >= since ==> (Means(before + [ptr], i, r) <==> Means(before, i, r))
  {
    forall i, r | i >= since
      ensures Means(before + [ptr], i, r) <==> Means(before, i, r)
    {
      MeansConcat(before, [ptr], i, r);
      assert !Means([ptr], i, r);
    }
  }

  /** One node joins the result: at the end, or by stretching the last node up to its end. */
  lemma PatchMeans(out: seq<Node>, out': seq<Node>, before: seq<Node>, ptr: Node, since: int)
    requires |out| > 0 && out[0] == HEAD && ptr.i0 <= ptr.i1 + 1 && since <= ptr.i1 && since > HEAD.i1 + 1
    requires Ordered(out[1..])
    requires forall i, r :: Means(out[1..], i, r) <==> Means(before, i, r) && i >= since
    requires var lo := Max(since, ptr.i0); var t := |out| - 1;
             if Extends(out[t], lo, ptr.r0, ptr.r1) then out' == out[t := out[t].(i1 := ptr.i1)]
             else out' == out + [Node(lo, ptr.i1, ptr.r0, ptr.r1)]
    ensures |out'| > 0 && out'[0] == HEAD && Ordered(out'[1..])
    ensures forall i, r :: Means(out'[1..], i, r) <==> Means(before + [ptr], i, r) && i >= since
  {
    var lo, t := Max(since, ptr.i0), |out| - 1;
    var n := Node(lo, ptr.i1, ptr.r0, ptr.r1);
    if Extends(out[t], lo, ptr.r0, ptr.r1) {
      assert t > 0;
      assert out'[1..] == out[1..t] + [out'[t]];
      assert out[1..] == out[1..t] + [out[t]];
      assert out[t] == out[1..][t - 1];
    } else {
      assert out'[1..] == out[1..] + [n];
    }
    forall i, r
      ensures Means(out'[1..], i, r) <==> Means(before + [ptr], i, r) && i >= since
    {
      MeansConcat(before, [ptr], i, r);
      assert Means([ptr], i, r) <==> In(ptr, i, r) by { assert [ptr][0] == ptr; }
      if Extends(out[t], lo, ptr.r0, ptr.r1) {
        MeansConcat(out[1..t], [out'[t]], i, r);
        MeansConcat(out[1..t], [out[t]], i, r);
        assert Means([out'[t]], i, r) <==> In(out'[t], i, r) by { assert [out'[t]][0] == out'[t]; }
        assert Means([out[t]], i, r) <==> In(out[t], i, r) by { assert [out[t]][0] == out[t]; }
      } else {
        MeansConcat(out[1..], [n], i, r);
        assert Means([n], i, r) <==> In(n, i, r) by { assert [n][0] == n; }
      }
    }
  }
}
