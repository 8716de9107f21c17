/** Lines of a string: `chxnextline`, and the two ways text is put together from lines. */
module Lines {
  import opened Text

  predicate NoNewline(l: Text) {
    forall k :: 0 <= k < |l| ==> l[k] != NEWLINE
  }

  predicate NoNewlines(ls: seq<Text>) {
    forall k :: 0 <= k < |ls| ==> NoNewline(ls[k])
  }

  /** The first newline at or after `i`, or the end of `t`. */
  function LineEnd(t: Text, i: nat): (r: nat)
    requires i <= |t|
    ensures i <= r <= |t|
    ensures forall k :: i <= k < r ==> t[k] != NEWLINE
    ensures r < |t| ==> t[r] == NEWLINE
    decreases |t| - i
  {
    if i < |t| && t[i] != NEWLINE then LineEnd(t, i + 1) else i
  }

  /** The lines of `t` from `i` on.  A final newline ends the last line, it does not
      start an empty one. */
  function LinesFrom(t: Text, i: nat): seq<Text>
    requires i <= |t|
    decreases |t| - i
  {
    if i == |t| then []
    else
      var e := LineEnd(t, i);
      [t[i..e]] + LinesFrom(t, if e < |t| then e + 1 else e)
  }

  function LinesOf(t: Text): seq<Text> {
    LinesFrom(t, 0)
  }

  lemma LinesStep(t: Text, i: nat)
    requires i <= |t|
    ensures i == |t| ==> LinesFrom(t, i) == []
    ensures i < |t| ==> var e := LineEnd(t, i);
                        LinesFrom(t, i) == [t[i..e]] + LinesFrom(t, if e < |t| then e + 1 else e)
  {
  }

  /** The next line of `b` from `pos`: code 2 when a newline ended it, 1 when the end of
      `b` did, 0 when `pos` was already at the end. */
  method ChxNextLine(b: Text, pos: nat) returns (code: int, a: Text, newpos: nat)
    requires pos <= |b|
    ensures pos <= newpos <= |b|
    ensures code == 0 <==> LinesFrom(b, pos) == []
    ensures code == 0 ==> newpos == pos == |b|
    ensures code != 0 ==> newpos > pos && LinesFrom(b, pos) == [a] + LinesFrom(b, newpos)
    ensures code != 0 ==> code == if b[newpos - 1] == NEWLINE then 2 else 1
  {
    hide LinesFrom;
    LinesStep(b, pos);
    var count, newline := 0, 0;
    while pos + count < |b|
      invariant 0 <= count && pos + count <= |b|
      invariant LineEnd(b, pos + count) == LineEnd(b, pos)
      invariant newline == 0
    {
      if b[pos + count] == NEWLINE { newline := 1; break; }
      count := count + 1;
    }
    if count + newline == 0 { return 0, [], pos; }
    a := b[pos..pos + count];
    newpos := pos + count + newline;
    code := 1 + newline;
  }

  // ------------------------------------------------ every line newline-terminated

  function Unlines(ls: seq<Text>): Text {
    if ls == [] then [] else ls[0] + [NEWLINE] + Unlines(ls[1..])
  }

  lemma {:induction false} UnlinesConcat(a: seq<Text>, b: seq<Text>)
    ensures Unlines(a + b) == Unlines(a) + Unlines(b)
  {
    if a == [] {
      assert a + b == b;
    } else {
      assert (a + b)[1..] == a[1..] + b;
      UnlinesConcat(a[1..], b);
    }
  }

  lemma LineEndIs(t: Text, i: nat, r: nat)
    requires i <= r <= |t|
    requires forall k :: i <= k < r ==> t[k] != NEWLINE
    requires r < |t| ==> t[r] == NEWLINE
    ensures LineEnd(t, i) == r
  {
  }

  /** Reading `a + b` from inside `b` is reading `b`. */
  lemma {:induction false} LinesOfTail(a: Text, b: Text, j: nat)
    requires j <= |b|
    ensures LinesFrom(a + b, |a| + j) == LinesFrom(b, j)
    decreases |b| - j
  {
    hide LinesFrom, LineEnd;
    LinesStep(b, j);
    LinesStep(a + b, |a| + j);
    if j < |b| {
      var e := LineEnd(b, j);
      LineEndIs(a + b, |a| + j, |a| + e);
      SliceOfTail(a, b, j, e);
      LinesOfTail(a, b, if e < |b| then e + 1 else e);
    }
  }

  /** Text that begins with `l` and a newline has `l` as its first line. */
  lemma FirstLine(l: Text, rest: Text)
    requires NoNewline(l)
    ensures LinesOf(l + [NEWLINE] + rest) == [l] + LinesOf(rest)
  {
    var q := l + [NEWLINE];
    LineEndIs(q + rest, 0, |l|);
    assert (q + rest)[0..|l|] == l;
    LinesOfTail(q, rest, 0);
  }

  /** Writing lines with a newline after each, and reading them, is the identity. */
  lemma {:induction false} LinesOfUnlines(ls: seq<Text>)
    requires NoNewlines(ls)
    ensures LinesOf(Unlines(ls)) == ls
  {
    if ls != [] {
      FirstLine(ls[0], Unlines(ls[1..]));
      LinesOfUnlines(ls[1..]);
    }
  }

  // ------------------------------------------------ newlines between the lines only

  function Join(ls: seq<Text>): Text {
    if ls == [] then []
    else if |ls| == 1 then ls[0]
    else ls[0] + [NEWLINE] + Join(ls[1..])
  }

  lemma {:induction false} JoinSnoc(ls: seq<Text>, l: Text)
    requires ls != []
    ensures Join(ls + [l]) == Join(ls) + [NEWLINE] + l
  {
    assert (ls + [l])[1..] == ls[1..] + [l];
    if |ls| > 1 {
      JoinSnoc(ls[1..], l);
    }
  }

  /** Lines hold no newline. */
  lemma {:induction false} LinesHaveNoNewlines(t: Text, i: nat)
    requires i <= |t|
    ensures NoNewlines(LinesFrom(t, i))
    decreases |t| - i
  {
    if i < |t| {
      var e := LineEnd(t, i);
      LinesHaveNoNewlines(t, if e < |t| then e + 1 else e);
    }
  }

  /** `t` without a final newline. */
  function Chomp(t: Text): Text {
    if t != [] && t[|t| - 1] == NEWLINE then t[..|t| - 1] else t
  }

  lemma ChompConcat(a: Text, b: Text)
    requires b != []
    ensures Chomp(a + b) == a + Chomp(b)
  {
  }

  lemma JoinCons(l: Text, ls: seq<Text>)
    requires ls != []
    ensures Join([l] + ls) == l + [NEWLINE] + Join(ls)
  {
    assert ([l] + ls)[1..] == ls;
  }

  /** Splitting a text and joining its lines again gives the text without a final newline. */
  lemma {:induction false} JoinLines(t: Text, i: nat)
    requires i <= |t|
    ensures Join(LinesFrom(t, i)) == Chomp(t[i..])
    decreases |t| - i
  {
    hide Join, Chomp, LineEnd;
    if i == |t| {
      JoinShort([]);
    } else {
      var e := LineEnd(t, i);
      if e + 1 < |t| {
        JoinLines(t, e + 1);
        JoinCons(t[i..e], LinesFrom(t, e + 1));
        assert t[i..] == t[i..e] + [NEWLINE] + t[e + 1..];
        ChompConcat(t[i..e] + [NEWLINE], t[e + 1..]);
      } else {
        JoinShort(t[i..e]);
        assert LinesFrom(t, i) == [t[i..e]];
        assert t[i..] == if e < |t| then t[i..e] + [NEWLINE] else t[i..e];
        ChompShort(t[i..e]);
      }
    }
  }

  lemma JoinShort(l: Text)
    ensures Join([]) == [] && Join([l]) == l && Chomp([]) == []
  {
  }

  lemma ChompShort(l: Text)
    requires NoNewline(l)
    ensures Chomp(l) == l && Chomp(l + [NEWLINE]) == l
  {
  }

  /** Only a final newline is lost. */
  lemma JoinLinesIff(t: Text)
    ensures Join(LinesOf(t)) == t <==> t == [] || t[|t| - 1] != NEWLINE
  {
    JoinLines(t, 0);
    assert t[0..] == t;
  }
}
