/** `chxcollate` and `chxcompare`: comparing strings under a list of collation rules. */
module Collation {
  import opened Text
  import opened Chixen
  import opened ChixStrings
  import opened ChixSearch

  /** Characters `a` .. `b` collate from `c` on, in steps of `i`. */
  datatype Rule = Rule(a: int, b: int, c: int, i: int)

  /** The value of a nonzero `v` after the first `k` rules: the last rule that fits wins. */
  function Applied(rules: seq<Rule>, v: int, k: nat): int
    requires k <= |rules|
  {
    if k == 0 then v
    else
      var r := rules[k - 1];
      if r.a <= v <= r.b then r.c + r.i * (v - r.a) else Applied(rules, v, k - 1)
  }

  function Collate(rules: seq<Rule>, v: int): int {
    if v == 0 then 0 else Applied(rules, v, |rules|)
  }

  /** The static list of rules. */
  class RuleList {
    var rules: seq<Rule>

    constructor ()
      ensures rules == []
    {
      rules := [];
    }

    method Clear()
      modifies this
      ensures rules == []
    {
      rules := [];
    }

    method AddRule(a: int, b: int, c: int, i: int)
      modifies this
      ensures rules == old(rules) + [Rule(a, b, c, i)]
    {
      rules := rules + [Rule(a, b, c, i)];
    }

    method Apply(a: int) returns (value: int)
      ensures value == Collate(rules, a)
    {
      if a == 0 { return 0; }
      value := a;
      var p := 0;
      while p < |rules|
        invariant 0 <= p <= |rules|
        invariant value == Applied(rules, a, p)
      {
        var r := rules[p];
        p := p + 1;
        if a < r.a || a > r.b { continue; }
        value := r.c + r.i * (a - r.a);
      }
    }

    /** The rules set up when the library starts: "!" before everything, "~" after. */
    method Init()
      modifies this
      ensures rules == INIT_RULES
    {
      Clear();
      AddRule(33, 33, 0, 0);
      AddRule(126, 126, 100000, 0);
    }
  }

  const INIT_RULES := [Rule(33, 33, 0, 0), Rule(126, 126, 100000, 0)]

  // ------------------------------------------------------------- comparing

  function Diff(x: Text, y: Text): (n: nat)
    ensures n <= |x| && n <= |y|
  {
    if x == [] || y == [] || x[0] != y[0] then 0 else 1 + Diff(x[1..], y[1..])
  }

  /** -1, 0 or 1; `len` limits how many characters count, unless it is ALLCHARS. */
  function Compare(rules: seq<Rule>, x: Text, y: Text, len: int): int {
    var n := Diff(x, y);
    var xend, yend := CharOrZero(x, n), CharOrZero(y, n);
    if len != ALLCHARS && len <= n then 0
    else if xend == 0 && yend == 0 then 0
    else if len == ALLCHARS && xend == 0 then -1
    else if len == ALLCHARS && yend == 0 then 1
    else if Collate(rules, xend) > Collate(rules, yend) then 1
    else if Collate(rules, xend) < Collate(rules, yend) then -1
    else 0
  }

  lemma {:induction false} DiffIsFirst(x: Text, y: Text)
    ensures FirstDiff(x, y, Diff(x, y))
      || (exists k :: 0 <= k < |x| && x[k] == 0) || (exists k :: 0 <= k < |y| && y[k] == 0)
  {
    if x != [] && y != [] && x[0] == y[0] {
      DiffIsFirst(x[1..], y[1..]);
      if k :| 0 <= k < |x[1..]| && x[1..][k] == 0 { assert x[k + 1] == 0; }
      if k :| 0 <= k < |y[1..]| && y[1..][k] == 0 { assert y[k + 1] == 0; }
      var n := Diff(x[1..], y[1..]);
      if FirstDiff(x[1..], y[1..], n) {
        forall k | 0 <= k < n + 1
          ensures x[k] == y[k]
        {
          if k > 0 { assert x[1..][k - 1] == y[1..][k - 1]; }
        }
      }
    }
  }

  lemma FirstDiffUnique(x: Text, y: Text, m: int, n: int)
    requires FirstDiff(x, y, m) && FirstDiff(x, y, n)
    requires forall k :: 0 <= k < |x| ==> x[k] != 0
    requires forall k :: 0 <= k < |y| ==> y[k] != 0
    ensures m == n
  {
  }

  method ChxCompare(x: Chix, y: Chix, len: int, collation: RuleList) returns (r: int)
    requires x.Held() && y.Held()
    ensures r == Compare(collation.rules, x.text, y.text, len)
  {
    var diff, xend, yend := ChxScan(x.p, 0, x.width, y.p, 0, y.width, x.text, y.text);
    TextNonzero(x.p[..], 0, x.width, x.text);
    TextNonzero(y.p[..], 0, y.width, y.text);
    DiffIsFirst(x.text, y.text);
    FirstDiffUnique(x.text, y.text, diff, Diff(x.text, y.text));
    if len != ALLCHARS && len <= diff { return 0; }
    if xend == 0 && yend == 0 { return 0; }
    if len == ALLCHARS && xend == 0 { return -1; }
    if len == ALLCHARS && yend == 0 { return 1; }
    var xc := collation.Apply(xend);
    var yc := collation.Apply(yend);
    if xc > yc { return 1; }
    if xc < yc { return -1; }
    return 0;
  }

  // ------------------------------------------------------------- when it is an order

  predicate IsChar(v: int) {
    0 < v < 65536
  }

  predicate IsText(t: Text) {
    forall k :: 0 <= k < |t| ==> IsChar(t[k])
  }

  /** No two characters collate alike. */
  ghost predicate OneToOne(rules: seq<Rule>) {
    forall a, b :: IsChar(a) && IsChar(b) && Collate(rules, a) == Collate(rules, b) ==> a == b
  }

  /** The whole string decides. */
  function Cmp(rules: seq<Rule>, x: Text, y: Text): int {
    Compare(rules, x, y, ALLCHARS)
  }

  /** Comparing by the first characters, or by the rest. */
  lemma CmpUnfold(rules: seq<Rule>, x: Text, y: Text)
    requires IsText(x) && IsText(y)
    ensures Cmp(rules, x, y) ==
            if x == [] then (if y == [] then 0 else -1)
            else if y == [] then 1
            else if x[0] == y[0] then Cmp(rules, x[1..], y[1..])
            else if Collate(rules, x[0]) > Collate(rules, y[0]) then 1
            else if Collate(rules, x[0]) < Collate(rules, y[0]) then -1 else 0
  {
    assert x != [] ==> IsChar(x[0]);
    assert y != [] ==> IsChar(y[0]);
    if x != [] && y != [] && x[0] == y[0] {
      var n := Diff(x[1..], y[1..]);
      assert CharOrZero(x, n + 1) == CharOrZero(x[1..], n);
      assert CharOrZero(y, n + 1) == CharOrZero(y[1..], n);
    }
  }

  /** Swapping the strings negates the result, whatever the rules. */
  lemma {:induction false} CmpAntisymmetric(rules: seq<Rule>, x: Text, y: Text)
    requires IsText(x) && IsText(y)
    ensures Cmp(rules, x, y) == -Cmp(rules, y, x)
  {
    CmpUnfold(rules, x, y);
    CmpUnfold(rules, y, x);
    if x != [] && y != [] && x[0] == y[0] {
      CmpAntisymmetric(rules, x[1..], y[1..]);
    }
  }

  lemma {:induction false} CmpSelf(rules: seq<Rule>, x: Text)
    requires IsText(x)
    ensures Cmp(rules, x, x) == 0
  {
    CmpUnfold(rules, x, x);
    if x != [] {
      CmpSelf(rules, x[1..]);
    }
  }

  lemma {:induction false} CmpZeroIsEqual(rules: seq<Rule>, x: Text, y: Text)
    requires OneToOne(rules) && IsText(x) && IsText(y) && Cmp(rules, x, y) == 0
    ensures x == y
  {
    CmpUnfold(rules, x, y);
    if x != [] && y != [] {
      assert IsChar(x[0]) && IsChar(y[0]);
      assert x[0] == y[0];
      CmpZeroIsEqual(rules, x[1..], y[1..]);
      assert x == [x[0]] + x[1..] && y == [y[0]] + y[1..];
    }
  }

  lemma {:induction false} CmpTransitive(rules: seq<Rule>, x: Text, y: Text, z: Text)
    requires OneToOne(rules) && IsText(x) && IsText(y) && IsText(z)
    requires Cmp(rules, x, y) <= 0 && Cmp(rules, y, z) <= 0
    ensures Cmp(rules, x, z) <= 0
  {
    CmpUnfold(rules, x, y);
    CmpUnfold(rules, y, z);
    CmpUnfold(rules, x, z);
    if x != [] && y != [] && z != [] {
      assert IsChar(x[0]) && IsChar(y[0]) && IsChar(z[0]);
      if x[0] == y[0] == z[0] {
        CmpTransitive(rules, x[1..], y[1..], z[1..]);
      }
    }
  }

  ghost predicate ZeroOnlyIfEqual(rules: seq<Rule>) {
    forall x, y :: IsText(x) && IsText(y) && Cmp(rules, x, y) == 0 ==> x == y
  }

  ghost predicate Transitive(rules: seq<Rule>) {
    forall x, y, z :: IsText(x) && IsText(y) && IsText(z) && Cmp(rules, x, y) <= 0 && Cmp(rules, y, z) <= 0 ==>
      Cmp(rules, x, z) <= 0
  }

  /** Comparison is a total order, with 0 only for equal strings, exactly when the rules are
      one-to-one; and it is not even transitive when they are not. */
  lemma TotalOrderIff(rules: seq<Rule>)
    ensures ZeroOnlyIfEqual(rules) <==> OneToOne(rules)
    ensures Transitive(rules) <==> OneToOne(rules)
  {
    if OneToOne(rules) {
      forall x, y | IsText(x) && IsText(y) && Cmp(rules, x, y) == 0
        ensures x == y
      {
        CmpZeroIsEqual(rules, x, y);
      }
      forall x, y, z | IsText(x) && IsText(y) && IsText(z) && Cmp(rules, x, y) <= 0 && Cmp(rules, y, z) <= 0
        ensures Cmp(rules, x, z) <= 0
      {
        CmpTransitive(rules, x, y, z);
      }
    } else {
      var a, b :| IsChar(a) && IsChar(b) && Collate(rules, a) == Collate(rules, b) && a != b;
      var x, y, z := [a, 1], [b], [a];
      CmpUnfold(rules, x, y);
      CmpUnfold(rules, y, z);
      CmpUnfold(rules, z, y);
      CmpUnfold(rules, x, z);
      assert x[1..] == [1] && z[1..] == [];
      CmpUnfold(rules, x[1..], z[1..]);
      assert Cmp(rules, y, z) == 0 && Cmp(rules, x, z) == 1 && Cmp(rules, x, y) == 0;
    }
  }

  /** The rules the library starts with give a total order. */
  lemma InitRulesOrder()
    ensures OneToOne(INIT_RULES) && ZeroOnlyIfEqual(INIT_RULES) && Transitive(INIT_RULES)
  {
    InitValues();
    TotalOrderIff(INIT_RULES);
  }

  // ------------------------------------------------------------- one rule more

  /** A rule added last decides for the characters of its range, in its steps, and leaves the
      others as they were; zero is always zero. */
  lemma RuleAdded(rules: seq<Rule>, a: int, b: int, c: int, i: int, v: int)
    ensures var more := rules + [Rule(a, b, c, i)];
            Collate(more, v) == if v == 0 then 0
                                else if a <= v <= b then c + i * (v - a)
                                else Collate(rules, v)
    ensures Collate([], v) == v
  {
    AppliedPrefix(rules, Rule(a, b, c, i), v, |rules|);
  }

  lemma {:induction false} AppliedPrefix(rules: seq<Rule>, r: Rule, v: int, k: nat)
    requires k <= |rules|
    ensures Applied(rules + [r], v, k) == Applied(rules, v, k)
  {
    if k > 0 { AppliedPrefix(rules, r, v, k - 1); }
  }

  // ------------------------------------------------------------- comparing up to a length

  function Sign(n: int): int {
    if n > 0 then 1 else if n < 0 then -1 else 0
  }

  /** The first place where two texts differ, or one of them ends. */
  ghost predicate DiffersAt(x: Text, y: Text, n: int) {
    0 <= n <= |x| && n <= |y| && x[..n] == y[..n] && (n < |x| && n < |y| ==> x[n] != y[n])
  }

  lemma {:induction false} DiffIs(x: Text, y: Text, n: nat)
    requires DiffersAt(x, y, n)
    ensures Diff(x, y) == n
    decreases n
  {
    if n > 0 {
      assert x[0] == x[..n][0] && y[0] == y[..n][0];
      assert x[1..][..n - 1] == x[..n][1..] && y[1..][..n - 1] == y[..n][1..];
      DiffIs(x[1..], y[1..], n - 1);
    }
  }

  lemma SomeDiff(x: Text, y: Text) returns (n: nat)
    ensures DiffersAt(x, y, n)
  {
    n := 0;
    while n < |x| && n < |y| && x[n] == y[n]
      invariant 0 <= n <= |x| && n <= |y| && x[..n] == y[..n]
    {
      assert x[..n + 1] == x[..n] + [x[n]] && y[..n + 1] == y[..n] + [y[n]];
      n := n + 1;
    }
  }

  /** The result in terms of the first difference: nothing counts from `len` on; before that the
      characters decide as they collate, the end of a string as the value 0. */
  lemma LimitedIs(rules: seq<Rule>, x: Text, y: Text, len: int, n: nat)
    requires IsText(x) && IsText(y) && len != ALLCHARS && DiffersAt(x, y, n)
    ensures Compare(rules, x, y, len) ==
            if len <= n then 0
            else if n < |x| && n < |y| then Sign(Collate(rules, x[n]) - Collate(rules, y[n]))
            else if n < |x| then Sign(Collate(rules, x[n]))
            else if n < |y| then -Sign(Collate(rules, y[n]))
            else 0
  {
    hide Collate;
    DiffIs(x, y, n);
    assert n < |x| ==> IsChar(x[n]);
    assert n < |y| ==> IsChar(y[n]);
    EndIsZero(rules);
  }

  lemma EndIsZero(rules: seq<Rule>)
    ensures Collate(rules, 0) == 0
  {
  }

  /** Where both strings are long enough, equal beginnings compare as equal, whatever the rules;
      under one-to-one rules only they do. */
  lemma PrefixesIff(rules: seq<Rule>, x: Text, y: Text, len: nat)
    requires IsText(x) && IsText(y) && len <= |x| && len <= |y|
    ensures x[..len] == y[..len] ==> Compare(rules, x, y, len) == 0
    ensures OneToOne(rules) ==> (Compare(rules, x, y, len) == 0 <==> x[..len] == y[..len])
  {
    hide Compare, Collate;
    var n := SomeDiff(x, y);
    LimitedIs(rules, x, y, len, n);
    if len <= n {
      assert x[..len] == x[..n][..len] && y[..len] == y[..n][..len];
    } else {
      assert x[..len][n] == x[n] && y[..len][n] == y[n];
      assert IsChar(x[n]) && IsChar(y[n]);
    }
  }

  /** Looking up an abbreviation `y`, to its own length: under one-to-one rules `x` is found if
      and only if it begins with `y`, or ends inside `y` before a character that has the value 0. */
  lemma AbbreviationIff(rules: seq<Rule>, x: Text, y: Text)
    requires OneToOne(rules) && IsText(x) && IsText(y)
    ensures Compare(rules, x, y, |y|) == 0 <==> y <= x || (x < y && Collate(rules, y[|x|]) == 0)
  {
    hide Compare, Collate;
    if |y| <= |x| {
      PrefixesIff(rules, x, y, |y|);
      assert y[..|y|] == y;
    } else {
      var n := SomeDiff(x, y);
      LimitedIs(rules, x, y, |y|, n);
      if n == |x| {
        assert x[..n] == x;
      } else {
        assert IsChar(x[n]) && IsChar(y[n]);
      }
    }
  }

  /** No character has the value 0. */
  ghost predicate NoneIsZero(rules: seq<Rule>) {
    forall v :: IsChar(v) ==> Collate(rules, v) != 0
  }

  /** Under one-to-one rules, abbreviations find exactly the strings that begin with them if and
      only if no character has the value 0. */
  lemma AbbreviationsIff(rules: seq<Rule>)
    requires OneToOne(rules)
    ensures (forall x, y :: IsText(x) && IsText(y) ==> (Compare(rules, x, y, |y|) == 0 <==> y <= x))
            <==> NoneIsZero(rules)
  {
    hide Compare, Collate, OneToOne;
    if NoneIsZero(rules) {
      forall x, y | IsText(x) && IsText(y) ensures Compare(rules, x, y, |y|) == 0 <==> y <= x {
        AbbreviationIff(rules, x, y);
      }
    } else {
      var v :| IsChar(v) && Collate(rules, v) == 0;
      var x, y := [], [v];
      AbbreviationIff(rules, x, y);
      assert IsText(x) && IsText(y) && !(y <= x) && x < y;
    }
  }

  /** The rules that the library starts with give "!" the value 0: an abbreviation finds the
      strings that begin with it, and those that end inside it just before a "!". */
  lemma InitAbbreviations(x: Text, y: Text)
    requires IsText(x) && IsText(y)
    ensures Compare(INIT_RULES, x, y, |y|) == 0 <==> y <= x || (x < y && y[|x|] == 33)
    ensures !NoneIsZero(INIT_RULES)
  {
    hide Compare;
    InitRulesOrder();
    InitValues();
    AbbreviationIff(INIT_RULES, x, y);
    if x < y { assert IsChar(y[|x|]); }
    assert IsChar(33);
  }

  lemma InitValues()
    ensures forall v :: IsChar(v) ==> Collate(INIT_RULES, v) == if v == 33 then 0 else if v == 126 then 100000 else v
  {
    forall v | IsChar(v)
      ensures Collate(INIT_RULES, v) == if v == 33 then 0 else if v == 126 then 100000 else v
    {
      assert Applied(INIT_RULES, v, 1) == if v == 33 then 0 else v by {
        assert Applied(INIT_RULES, v, 0) == v;
      }
      assert Collate(INIT_RULES, v) == Applied(INIT_RULES, v, 2);
    }
  }
}
