/** `or_rlist` and `rl_of_select`, on lists that are sorted by item. */
module RlistOr {
  import opened Rlists

  /** The responses of one item: none, or an interval. */
  datatype Span = Empty | Span(lo: int, hi: int)

  function SpanOf(n: Node): Span {
    Span(Dec(n.r0), Dec(n.r1))
  }

  /** The responses that the first node with item `i` gives it. */
  function At(l: seq<Node>, i: int): Span {
    if l == [] then Empty
    else if l[0].i0 <= i <= l[0].i1 then SpanOf(l[0])
    else At(l[1..], i)
  }

  /** The smallest interval that covers both. */
  function Hull(s: Span, t: Span): Span {
    if s.Empty? then t else if t.Empty? then s else Span(Min(s.lo, t.lo), Max(s.hi, t.hi))
  }

  /** Bounds in order and within 0 .. HIGHBOUND. */
  predicate NodeOk(n: Node) {
    n.i0 <= n.i1 && 0 <= Dec(n.r0) <= Dec(n.r1) <= HIGHBOUND
  }

  /** Sorted by item, no item in two nodes. */
  ghost predicate Sorted(l: seq<Node>) {
    && (forall k :: 0 <= k < |l| ==> NodeOk(l[k]))
    && (forall j, k :: 0 <= j < k < |l| ==> l[j].i1 < l[k].i0)
  }

  /** No two neighbours could be one node. */
  ghost predicate Maximal(l: seq<Node>) {
    forall j, k :: 0 <= j < k < |l| && k == j + 1 && l[j].i1 + 1 == l[k].i0 ==> SpanOf(l[j]) != SpanOf(l[k])
  }

  /** Bounds written the one way the list operations write them. */
  ghost predicate Canonical(l: seq<Node>) {
    && Sorted(l) && Maximal(l)
    && forall k :: 0 <= k < |l| ==> l[k].r0 != -1 && l[k].r1 != HIGHBOUND
  }

  // ------------------------------------------------------------- looking up items

  lemma {:induction false} AtIndex(l: seq<Node>, k: nat, i: int)
    requires Sorted(l) && k < |l| && l[k].i0 <= i <= l[k].i1
    ensures At(l, i) == SpanOf(l[k])
  {
    if k > 0 {
      assert l[0].i1 < l[k].i0;
      AtIndex(l[1..], k - 1, i);
    }
  }

  lemma {:induction false} AtOutside(l: seq<Node>, i: int)
    requires forall k :: 0 <= k < |l| ==> !(l[k].i0 <= i <= l[k].i1)
    ensures At(l, i) == Empty
  {
    if l != [] {
      AtOutside(l[1..], i);
    }
  }

  lemma {:induction false} AtInside(l: seq<Node>, i: int) returns (k: nat)
    requires At(l, i) != Empty
    ensures k < |l| && l[k].i0 <= i <= l[k].i1
  {
    if l[0].i0 <= i <= l[0].i1 {
      k := 0;
    } else {
      k := AtInside(l[1..], i);
      k := k + 1;
    }
  }

  /** For sorted lists, looking up an item is the same as asking what the list means. */
  lemma AtMeans(l: seq<Node>, i: int, r: int)
    requires Sorted(l)
    ensures Means(l, i, r) <==> At(l, i).Span? && At(l, i).lo <= r <= At(l, i).hi
  {
    if k :| 0 <= k < |l| && In(l[k], i, r) {
      AtIndex(l, k, i);
    }
    if At(l, i).Span? {
      var k := AtInside(l, i);
      AtIndex(l, k, i);
      assert In(l[k], i, r) <==> At(l, i).lo <= r <= At(l, i).hi;
    }
  }

  lemma HeadSeen(l: seq<Node>)
    requires Sorted(l)
    ensures l != [] ==> forall i :: l[0].i0 <= i <= l[0].i1 ==> At(l, i) == SpanOf(l[0])
    ensures l != [] ==> At(l, l[0].i0) != Empty
    ensures l == [] ==> forall i :: At(l, i) == Empty
  {
  }

  /** A sorted, maximally merged list in canonical form is determined by its lookups. */
  lemma {:induction false} CanonicalUnique(l: seq<Node>, m: seq<Node>)
    requires Canonical(l) && Canonical(m)
    requires forall i :: At(l, i) == At(m, i)
    ensures l == m
    decreases |l| + |m|
  {
    HeadSeen(l);
    HeadSeen(m);
    if l != [] && m != [] {
      HeadsEqual(l, m);
      TailsAgree(l, m);
      CanonicalUnique(l[1..], m[1..]);
    }
  }

  /** Right after its first node a maximal list changes. */
  lemma AtAfterHead(m: seq<Node>)
    requires Canonical(m) && m != []
    ensures At(m, m[0].i1 + 1) != SpanOf(m[0])
  {
    var i := m[0].i1 + 1;
    if |m| > 1 && m[1].i0 == i {
      AtIndex(m, 1, i);
    } else {
      forall k | 0 <= k < |m|
        ensures !(m[k].i0 <= i <= m[k].i1)
      {
        if k > 0 {
          assert m[0].i1 < m[1].i0;
          assert k > 1 ==> m[1].i1 < m[k].i0;
        }
      }
      AtOutside(m, i);
    }
  }

  /** The first item of `m` is not above the first of `l`, and its node reaches as far. */
  lemma HeadReaches(l: seq<Node>, m: seq<Node>)
    requires Canonical(l) && Canonical(m) && l != [] && m != []
    requires forall i :: At(l, i) == At(m, i)
    ensures m[0].i0 <= l[0].i0
    ensures m[0].i0 == l[0].i0 ==> m[0].i1 >= l[0].i1 && SpanOf(m[0]) == SpanOf(l[0])
  {
    AtIndex(l, 0, l[0].i0);
    var k := AtInside(m, l[0].i0);
    assert k > 0 ==> m[0].i1 < m[k].i0;
    AtAfterHead(m);
    HeadSeen(l);
    HeadSeen(m);
  }

  lemma HeadsEqual(l: seq<Node>, m: seq<Node>)
    requires Canonical(l) && Canonical(m) && l != [] && m != []
    requires forall i :: At(l, i) == At(m, i)
    ensures l[0] == m[0]
  {
    HeadReaches(l, m);
    HeadReaches(m, l);
  }

  lemma CanonicalTail(l: seq<Node>)
    requires Canonical(l) && l != []
    ensures Canonical(l[1..])
    ensures forall i :: l[0].i0 <= i <= l[0].i1 ==> At(l[1..], i) == Empty
  {
    var t := l[1..];
    forall j, k | 0 <= j < k < |t|
      ensures t[j].i1 < t[k].i0
    {
      assert l[j + 1].i1 < l[k + 1].i0;
    }
    forall j, k | 0 <= j < k < |t| && k == j + 1 && t[j].i1 + 1 == t[k].i0
      ensures SpanOf(t[j]) != SpanOf(t[k])
    {
      assert SpanOf(l[j + 1]) != SpanOf(l[k + 1]);
    }
    forall i | l[0].i0 <= i <= l[0].i1
      ensures At(t, i) == Empty
    {
      AtOutside(t, i);
    }
  }

  lemma TailsAgree(l: seq<Node>, m: seq<Node>)
    requires Canonical(l) && Canonical(m) && l != [] && m != [] && l[0] == m[0]
    requires forall i :: At(l, i) == At(m, i)
    ensures Canonical(l[1..]) && Canonical(m[1..])
    ensures forall i :: At(l[1..], i) == At(m[1..], i)
  {
    hide Canonical;
    CanonicalTail(l);
    CanonicalTail(m);
    forall i
      ensures At(l[1..], i) == At(m[1..], i)
    {
      assert At(l, i) == At(m, i);
    }
  }

  // ------------------------------------------------------------- growing a list at its end

  /** `l` ends before `item`, and looking up what is below `item` gives `f`. */
  ghost predicate Built(l: seq<Node>, item: int) {
    Sorted(l) && Maximal(l) && forall k :: 0 <= k < |l| ==> l[k].i1 < item && l[k].r0 != -1
  }

  lemma {:induction false} AtSnoc(l: seq<Node>, n: Node, i: int)
    requires Sorted(l + [n])
    ensures At(l + [n], i) == if n.i0 <= i <= n.i1 then SpanOf(n) else At(l, i)
  {
    if n.i0 <= i <= n.i1 {
      AtIndex(l + [n], |l|, i);
    } else if l != [] {
      assert (l + [n])[1..] == l[1..] + [n];
      AtSnoc(l[1..], n, i);
    }
  }

  /** A new last node for `item`. */
  lemma AppendNode(l: seq<Node>, item: int, lo: int, hi: int)
    requires Built(l, item) && 0 <= lo <= hi <= HIGHBOUND
    requires l != [] ==> !(l[|l| - 1].i1 + 1 == item && SpanOf(l[|l| - 1]) == Span(lo, hi))
    ensures var l' := l + [Node(item, item, lo, hi)];
            Built(l', item + 1) && forall i :: At(l', i) == if i == item then Span(lo, hi) else At(l, i)
  {
    var n := Node(item, item, lo, hi);
    var l' := l + [n];
    assert Sorted(l');
    forall j, k | 0 <= j < k < |l'| && k == j + 1 && l'[j].i1 + 1 == l'[k].i0
      ensures SpanOf(l'[j]) != SpanOf(l'[k])
    {
      if k < |l| { assert l'[j] == l[j] && l'[k] == l[k]; }
    }
    forall i
      ensures At(l', i) == if i == item then Span(lo, hi) else At(l, i)
    {
      AtSnoc(l, n, i);
    }
  }

  lemma StretchedSorted(l: seq<Node>, item: int)
    requires Built(l, item) && l != [] && l[|l| - 1].i1 + 1 == item
    ensures Built(l[|l| - 1 := l[|l| - 1].(i1 := item)], item + 1)
  {
    var l' := l[|l| - 1 := l[|l| - 1].(i1 := item)];
    forall j, k | 0 <= j < k < |l'|
      ensures l'[j].i1 < l'[k].i0
    {
      assert l[j].i1 < l[k].i0;
    }
    forall j, k | 0 <= j < k < |l'| && k == j + 1 && l'[j].i1 + 1 == l'[k].i0
      ensures SpanOf(l'[j]) != SpanOf(l'[k])
    {
      assert l[j].i1 + 1 == l[k].i0;
    }
  }

  /** The last node stretched over `item`. */
  lemma StretchNode(l: seq<Node>, item: int)
    requires Built(l, item) && l != [] && l[|l| - 1].i1 + 1 == item
    ensures var t := |l| - 1;
            var l' := l[t := l[t].(i1 := item)];
            Built(l', item + 1) && forall i :: At(l', i) == if i == item then SpanOf(l[t]) else At(l, i)
  {
    hide Maximal, At;
    var t := |l| - 1;
    var l' := l[t := l[t].(i1 := item)];
    StretchedSorted(l, item);
    assert l == l[..t] + [l[t]] && l' == l[..t] + [l'[t]];
    assert l'[t].i0 <= l[t].i1;
    forall i
      ensures At(l', i) == if i == item then SpanOf(l[t]) else At(l, i)
    {
      AtSnoc(l[..t], l[t], i);
      AtSnoc(l[..t], l'[t], i);
    }
  }

  // ------------------------------------------------------------- or_rlist

  /** `r` is the canonical list whose every item has the hull of what `a` and `b` give it. */
  ghost predicate IsOr(a: seq<Node>, b: seq<Node>, r: seq<Node>) {
    Canonical(r) && forall i :: At(r, i) == Hull(At(a, i), At(b, i))
  }

  /** The node of `l` that item `item` is in or before, when all earlier ones are passed. */
  ghost predicate Cursor(l: seq<Node>, p: int, item: int) {
    && 0 <= p <= |l|
    && (forall k :: 0 <= k < p ==> l[k].i1 < item)
    && (p < |l| ==> item <= l[p].i1 + 1)
  }

  predicate Inside(l: seq<Node>, p: nat, item: int) {
    p < |l| && l[p].i0 <= item <= l[p].i1
  }

  lemma AtCursor(l: seq<Node>, p: nat, item: int)
    requires Sorted(l) && Cursor(l, p, item) && (p < |l| ==> item <= l[p].i1)
    ensures At(l, item) == if Inside(l, p, item) then SpanOf(l[p]) else Empty
  {
    if Inside(l, p, item) {
      AtIndex(l, p, item);
    } else {
      forall k | 0 <= k < |l|
        ensures !(l[k].i0 <= item <= l[k].i1)
      {
        if k > p { assert l[p].i1 < l[k].i0; }
      }
      AtOutside(l, item);
    }
  }

  /** Past the end of both lists there is nothing. */
  lemma AtPast(l: seq<Node>, item: int)
    requires Cursor(l, |l|, item)
    ensures forall i :: item <= i ==> At(l, i) == Empty
  {
    forall i | item <= i
      ensures At(l, i) == Empty
    {
      AtOutside(l, i);
    }
  }

  lemma AtBefore(l: seq<Node>, item: int)
    requires Sorted(l) && (l != [] ==> item <= l[0].i0)
    ensures forall i :: i < item ==> At(l, i) == Empty
  {
    forall i | i < item
      ensures At(l, i) == Empty
    {
      forall k | 0 <= k < |l|
        ensures i < l[k].i0
      {
        if k > 0 { assert l[0].i1 < l[k].i0; }
      }
      AtOutside(l, i);
    }
  }

  /** The low and high response of `item` over both lists; high below low when in neither. */
  method Bounds(a: seq<Node>, pa: nat, b: seq<Node>, pb: nat, item: int) returns (rlo: int, rhi: int)
    ensures rlo == Min(if Inside(a, pa, item) then Dec(a[pa].r0) else HIGHBOUND,
                       Min(if Inside(b, pb, item) then Dec(b[pb].r0) else HIGHBOUND, HIGHBOUND))
    ensures rhi == Max(if Inside(a, pa, item) then Dec(a[pa].r1) else 0,
                       Max(if Inside(b, pb, item) then Dec(b[pb].r1) else 0, 0))
  {
    rlo, rhi := HIGHBOUND, 0;
    if Inside(a, pa, item) {
      var r0, r1 := a[pa].r0, a[pa].r1;
      if r0 == -1 { r0 := HIGHBOUND; }
      if r1 == -1 { r1 := HIGHBOUND; }
      rlo, rhi := Min(rlo, r0), Max(rhi, r1);
    }
    if Inside(b, pb, item) {
      var r0, r1 := b[pb].r0, b[pb].r1;
      if r0 == -1 { r0 := HIGHBOUND; }
      if r1 == -1 { r1 := HIGHBOUND; }
      rlo, rhi := Min(rlo, r0), Max(rhi, r1);
    }
  }

  /** What has been built when the scan stands at `item`. */
  ghost predicate Scanned(a: seq<Node>, b: seq<Node>, pa: int, pb: int, item: int, l: seq<Node>) {
    && Cursor(a, pa, item) && Cursor(b, pb, item)
    && Built(l, item)
    && (forall k :: 0 <= k < |l| ==> l[k].r1 != -1)
    && (forall i :: i < item ==> At(l, i) == Hull(At(a, i), At(b, i)))
    && (forall i :: item <= i ==> At(l, i) == Empty)
  }

  lemma ScanBegins(a: seq<Node>, b: seq<Node>, item: int)
    requires Sorted(a) && Sorted(b)
    requires (a != [] ==> item <= a[0].i0) && (b != [] ==> item <= b[0].i0)
    ensures Scanned(a, b, 0, 0, item, [])
  {
    AtBefore(a, item);
    AtBefore(b, item);
  }

  function Step(l: seq<Node>, p: nat, item: int): nat {
    if p < |l| && item > l[p].i1 then p + 1 else p
  }

  /** One step forward keeps up with the items: in a sorted list no node is skipped. */
  lemma CursorSteps(l: seq<Node>, p: nat, item: int)
    requires Sorted(l) && Cursor(l, p, item)
    ensures Cursor(l, Step(l, p, item), item) && (Step(l, p, item) < |l| ==> item <= l[Step(l, p, item)].i1)
  {
    if p < |l| && item > l[p].i1 && p + 1 < |l| {
      assert l[p].i1 < l[p + 1].i0;
    }
  }

  /** The node list after `item` has been put in. */
  function Put(l: seq<Node>, item: int, first: bool, rlo: int, rhi: int): seq<Node> {
    var tail := if l == [] then HEAD else l[|l| - 1];
    if rlo > rhi then l
    else if !first && tail.i1 + 1 == item && tail.r0 == rlo && tail.r1 == rhi then
      if l == [] then l else l[|l| - 1 := tail.(i1 := item)]
    else l + [Node(item, item, rlo, rhi)]
  }

  lemma ScanSteps(a: seq<Node>, b: seq<Node>, pa: nat, pb: nat, item: int, l: seq<Node>, first: bool, rlo: int, rhi: int)
    requires Sorted(a) && Sorted(b) && Scanned(a, b, pa, pb, item, l)
    requires (pa < |a| ==> item <= a[pa].i1) && (pb < |b| ==> item <= b[pb].i1)
    requires first ==> l == []
    requires rlo == Min(if Inside(a, pa, item) then Dec(a[pa].r0) else HIGHBOUND,
                        Min(if Inside(b, pb, item) then Dec(b[pb].r0) else HIGHBOUND, HIGHBOUND))
    requires rhi == Max(if Inside(a, pa, item) then Dec(a[pa].r1) else 0,
                        Max(if Inside(b, pb, item) then Dec(b[pb].r1) else 0, 0))
    ensures Scanned(a, b, pa, pb, item + 1, Put(l, item, first, rlo, rhi))
  {
    AtCursor(a, pa, item);
    AtCursor(b, pb, item);
    var s := Hull(At(a, item), At(b, item));
    if rlo <= rhi {
      assert s == Span(rlo, rhi);
      var tail := if l == [] then HEAD else l[|l| - 1];
      if !first && tail.i1 + 1 == item && tail.r0 == rlo && tail.r1 == rhi {
        assert l != [];
        StretchNode(l, item);
      } else {
        AppendNode(l, item, rlo, rhi);
      }
    } else {
      assert s == Empty;
    }
  }

  lemma ScannedMoves(a: seq<Node>, b: seq<Node>, pa: nat, pb: nat, item: int, l: seq<Node>)
    requires Sorted(a) && Sorted(b) && Scanned(a, b, pa, pb, item, l)
    ensures pa <= |a| && pb <= |b|
    ensures var qa, qb := Step(a, pa, item), Step(b, pb, item);
            && Scanned(a, b, qa, qb, item, l)
            && (qa < |a| ==> item <= a[qa].i1) && (qb < |b| ==> item <= b[qb].i1)
  {
    hide Sorted, At, Built;
    CursorSteps(a, pa, item);
    CursorSteps(b, pb, item);
  }

  lemma ScanEnds(a: seq<Node>, b: seq<Node>, item: int, l: seq<Node>, fixed: seq<Node>)
    requires Sorted(a) && Sorted(b) && Scanned(a, b, |a|, |b|, item, l)
    requires |fixed| == |l| && forall k :: 0 <= k < |l| ==> fixed[k] == FixNode(l[k])
    ensures IsOr(a, b, fixed)
  {
    hide Sorted, At, Built, Canonical;
    AtPast(a, item);
    AtPast(b, item);
    FixedIsCanonical(l, fixed, item);
  }

  /** Items still to come in the nodes at the cursors. */
  ghost function Ahead(l: seq<Node>, p: nat, item: int): nat {
    if p < |l| && item <= l[p].i1 then l[p].i1 + 1 - item else 0
  }

  /** Scans the items from the lowest one up.  It ends for all lists; for sorted ones the
      result is the canonical list of the hulls. */
  method OrRlist(rla: Rlist, rlb: Rlist) returns (result: Rlist)
    ensures rla.RLNULL? || rlb.RLNULL? <==> result.RLNULL?
    ensures rla.Rl? && rlb.Rl? && Sorted(rla.nodes) && Sorted(rlb.nodes) ==>
              IsOr(rla.nodes, rlb.nodes, result.nodes)
  {
    hide Sorted, Scanned, Put, At, IsOr, Inside;
    if rla.RLNULL? || rlb.RLNULL? { return RLNULL; }
    var a, b := rla.nodes, rlb.nodes;
    var pa, pb := 0, 0;
    var ilo := HIGHBOUND;
    if pa < |a| { ilo := Min(ilo, a[0].i0); }
    if pb < |b| { ilo := Min(ilo, b[0].i0); }
    var nodes: seq<Node> := [];
    var item := ilo;
    ghost var sorted := Sorted(a) && Sorted(b);
    if sorted { ScanBegins(a, b, item); }
    while pa < |a| || pb < |b|
      invariant 0 <= pa <= |a| && 0 <= pb <= |b|
      invariant ilo <= item && (item == ilo ==> nodes == [])
      invariant sorted ==> Scanned(a, b, pa, pb, item, nodes)
      decreases (|a| - pa) + (|b| - pb), Ahead(a, pa, item) + Ahead(b, pb, item)
    {
      if sorted {
        ScannedMoves(a, b, pa, pb, item, nodes);
      }
      if pa < |a| && item > a[pa].i1 { pa := pa + 1; }
      if pb < |b| && item > b[pb].i1 { pb := pb + 1; }
      var rlo, rhi := Bounds(a, pa, b, pb, item);
      if sorted { ScanSteps(a, b, pa, pb, item, nodes, item == ilo, rlo, rhi); }
      nodes := Put(nodes, item, item == ilo, rlo, rhi);
      item := item + 1;
    }
    var fixed := FixUp(nodes);
    if sorted {
      ScanEnds(a, b, item, nodes, fixed);
    }
    result := Rl(fixed);
  }

  function FixNode(n: Node): Node {
    if n.r1 == HIGHBOUND then n.(r1 := -1) else n
  }

  /** The pass that writes high bounds as -1 again. */
  method FixUp(nodes: seq<Node>) returns (fixed: seq<Node>)
    ensures |fixed| == |nodes| && forall k :: 0 <= k < |nodes| ==> fixed[k] == FixNode(nodes[k])
  {
    fixed := nodes;
    var p := 0;
    while p < |fixed|
      invariant 0 <= p <= |fixed| == |nodes|
      invariant forall k :: 0 <= k < p ==> fixed[k] == FixNode(nodes[k])
      invariant forall k :: p <= k < |nodes| ==> fixed[k] == nodes[k]
    {
      if fixed[p].r1 == HIGHBOUND { fixed := fixed[p := fixed[p].(r1 := -1)]; }
      p := p + 1;
    }
  }

  lemma {:induction false} AtFixed(l: seq<Node>, m: seq<Node>, i: int)
    requires |l| == |m| && forall k :: 0 <= k < |l| ==> m[k] == FixNode(l[k])
    ensures At(m, i) == At(l, i)
  {
    if l != [] {
      AtFixed(l[1..], m[1..], i);
    }
  }

  lemma FixedIsCanonical(l: seq<Node>, m: seq<Node>, item: int)
    requires Built(l, item) && |l| == |m| && forall k :: 0 <= k < |l| ==> m[k] == FixNode(l[k])
    ensures Canonical(m) && forall i :: At(m, i) == At(l, i)
  {
    forall i
      ensures At(m, i) == At(l, i)
    {
      AtFixed(l, m, i);
    }
    forall k | 0 <= k < |m|
      ensures NodeOk(m[k]) && SpanOf(m[k]) == SpanOf(l[k])
    {
      assert NodeOk(l[k]);
    }
    forall j, k | 0 <= j < k < |m|
      ensures m[j].i1 < m[k].i0
    {
      assert l[j].i1 < l[k].i0;
    }
    forall j, k | 0 <= j < k < |m| && k == j + 1 && m[j].i1 + 1 == m[k].i0
      ensures SpanOf(m[j]) != SpanOf(m[k])
    {
      assert l[j].i1 + 1 == l[k].i0;
    }
  }

  // ------------------------------------------------------------- laws of or

  /** There is only one list that `or_rlist` can return. */
  lemma OrUnique(a: seq<Node>, b: seq<Node>, r: seq<Node>, r': seq<Node>)
    requires IsOr(a, b, r) && IsOr(a, b, r')
    ensures r == r'
  {
    CanonicalUnique(r, r');
  }

  lemma OrCommutes(a: seq<Node>, b: seq<Node>, ab: seq<Node>, ba: seq<Node>)
    requires IsOr(a, b, ab) && IsOr(b, a, ba)
    ensures ab == ba
  {
    assert forall i :: Hull(At(a, i), At(b, i)) == Hull(At(b, i), At(a, i));
    OrUnique(a, b, ab, ba);
  }

  lemma OrAssociates(a: seq<Node>, b: seq<Node>, c: seq<Node>, ab: seq<Node>, bc: seq<Node>, l: seq<Node>, r: seq<Node>)
    requires IsOr(a, b, ab) && IsOr(ab, c, l) && IsOr(b, c, bc) && IsOr(a, bc, r)
    ensures l == r
  {
    forall i
      ensures At(l, i) == At(r, i)
    {
      assert At(l, i) == Hull(Hull(At(a, i), At(b, i)), At(c, i));
      assert At(r, i) == Hull(At(a, i), Hull(At(b, i), At(c, i)));
    }
    CanonicalUnique(l, r);
  }

  lemma OrIdempotent(a: seq<Node>, r: seq<Node>)
    requires Canonical(a) && IsOr(a, a, r)
    ensures r == a
  {
    assert forall i :: Hull(At(a, i), At(a, i)) == At(a, i);
    CanonicalUnique(r, a);
  }

  // ------------------------------------------------------------- rl_of_select

  /** `select[i]` for items 1 .. maxitems: negative, or the first response selected. */
  ghost predicate SelectOk(select: seq<int>, maxitems: int) {
    0 <= maxitems < |select| && forall i :: 1 <= i <= maxitems ==> select[i] <= HIGHBOUND
  }

  function SelectAt(select: seq<int>, maxitems: int, i: int): Span
    requires maxitems < |select|
  {
    if 1 <= i <= maxitems && select[i] >= 0 then Span(select[i], HIGHBOUND) else Empty
  }

  /** `r` is the canonical list of what is selected. */
  ghost predicate IsSelect(select: seq<int>, maxitems: int, r: seq<Node>)
    requires maxitems < |select|
  {
    Canonical(r) && forall i :: At(r, i) == SelectAt(select, maxitems, i)
  }

  /** Assembles blocks of items with the same first response; when a block ends without a
      gap the item is looked at again. */
  method RlOfSelect(select: seq<int>, maxitems: int) returns (nodes: seq<Node>)
    requires SelectOk(select, maxitems)
    ensures IsSelect(select, maxitems, nodes)
  {
    nodes := [];
    var prev, item := 0, 1;
    while item <= maxitems
      invariant 1 <= item <= maxitems + 1
      invariant prev >= 0 && (prev > 0 ==> nodes != [] && nodes[|nodes| - 1].i1 + 1 == item)
      invariant prev == 0 && nodes != [] && nodes[|nodes| - 1].i1 + 1 == item && item <= maxitems ==>
                  nodes[|nodes| - 1].r0 != select[item]
      invariant Built(nodes, item)
      invariant forall k :: 0 <= k < |nodes| ==> nodes[k].r1 == -1
      invariant forall i :: At(nodes, i) == if i < item then SelectAt(select, maxitems, i) else Empty
      decreases maxitems - item, prev
    {
      if select[item] < 0 {
        prev := 0;
      } else if prev == 0 {
        NewBlock(nodes, item, select[item]);
        nodes := nodes + [Node(item, item, select[item], -1)];
        prev := item;
      } else if select[item] == nodes[|nodes| - 1].r0 {
        StretchNode(nodes, item);
        nodes := nodes[|nodes| - 1 := nodes[|nodes| - 1].(i1 := item)];
      } else {
        prev := 0;
        item := item - 1;
      }
      item := item + 1;
    }
    assert Canonical(nodes);
  }

  lemma NewBlock(l: seq<Node>, item: int, lo: int)
    requires Built(l, item) && 0 <= lo <= HIGHBOUND
    requires l != [] ==> !(l[|l| - 1].i1 + 1 == item && SpanOf(l[|l| - 1]) == Span(lo, HIGHBOUND))
    ensures var l' := l + [Node(item, item, lo, -1)];
            Built(l', item + 1) && forall i :: At(l', i) == if i == item then Span(lo, HIGHBOUND) else At(l, i)
  {
    AppendNode(l, item, lo, HIGHBOUND);
    var p, l' := l + [Node(item, item, lo, HIGHBOUND)], l + [Node(item, item, lo, -1)];
    forall k | 0 <= k < |p|
      ensures SpanOf(p[k]) == SpanOf(l'[k]) && p[k].i0 == l'[k].i0 && p[k].i1 == l'[k].i1 && NodeOk(l'[k])
    {
      assert NodeOk(p[k]);
    }
    forall i
      ensures At(l', i) == At(p, i)
    {
      AtSnoc(l, p[|l|], i);
      AtSnoc(l, l'[|l|], i);
    }
  }

  /** Selecting what either of two selections selects. */
  function JoinSelect(s: int, t: int): int {
    if s < 0 then t else if t < 0 then s else Min(s, t)
  }

  /** `or_rlist` of two selections is, node for node, the list of the joined selection. */
  lemma OrOfSelects(s: seq<int>, t: seq<int>, u: seq<int>, maxitems: int,
                    ls: seq<Node>, lt: seq<Node>, lu: seq<Node>, r: seq<Node>)
    requires SelectOk(s, maxitems) && SelectOk(t, maxitems) && SelectOk(u, maxitems)
    requires forall i :: 1 <= i <= maxitems ==> u[i] == JoinSelect(s[i], t[i])
    requires IsSelect(s, maxitems, ls) && IsSelect(t, maxitems, lt) && IsSelect(u, maxitems, lu)
    requires IsOr(ls, lt, r)
    ensures r == lu
  {
    forall i
      ensures At(r, i) == At(lu, i)
    {
      assert At(r, i) == Hull(SelectAt(s, maxitems, i), SelectAt(t, maxitems, i));
      assert At(lu, i) == SelectAt(u, maxitems, i);
    }
    CanonicalUnique(r, lu);
  }

  /** `or_rlist` of two selections means exactly what either means, and `and_rlist` of them
      exactly what both mean. */
  lemma SelectsCombine(s: seq<int>, t: seq<int>, maxitems: int, ls: seq<Node>, lt: seq<Node>, lor: seq<Node>, i: int, r: int)
    requires SelectOk(s, maxitems) && SelectOk(t, maxitems)
    requires IsSelect(s, maxitems, ls) && IsSelect(t, maxitems, lt) && IsOr(ls, lt, lor)
    ensures var inS := 1 <= i <= maxitems && 0 <= s[i] <= r <= HIGHBOUND;
            var inT := 1 <= i <= maxitems && 0 <= t[i] <= r <= HIGHBOUND;
            && (Means(lor, i, r) <==> inS || inT)
            && (Means(MeetAll(ls, lt, |ls|), i, r) <==> inS && inT)
  {
    AtMeans(ls, i, r);
    AtMeans(lt, i, r);
    AtMeans(lor, i, r);
    AndMeansIntersection(ls, lt, i, r);
    assert At(ls, i) == SelectAt(s, maxitems, i) && At(lt, i) == SelectAt(t, maxitems, i);
  }
}
