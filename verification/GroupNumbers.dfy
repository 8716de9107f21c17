/** What 16-bit numbers in the history do to the values of `groupmatch`: a file that is
    included twice can come back with bits that it does not have. */
module GroupNumbers {
  import opened Text
  import opened Numbers
  import opened Graph
  import opened GroupFiles
  import opened GroupLines
  import opened Groups

  const A: Text := [97]
  const B: Text := [98]
  const C: Text := [99]
  const D: Text := [100]

  /** `a` includes `b` and `c`, and both include `d`, which is the line `l`. */
  function Diamond(l: Text): map<Text, seq<Text>> {
    map[A := [[LESS] + B, [LESS] + C], B := [[LESS] + D], C := [[LESS] + D], D := [l]]
  }

  /** Include lines with one-letter names are read as they are written. */
  ghost predicate ReadsPlainly(q: Query) {
    && LESS !in q.blanks
    && forall c :: 97 <= c <= 100 ==> c !in q.blanks && q.reduce([LESS, c]) == [LESS, c]
  }

  lemma IncludeLine(q: Query, c: int)
    requires ReadsPlainly(q) && 97 <= c <= 100
    ensures LineSubs(q, [LESS, c]) == [Sub([c], {})] && LineBits(q, [LESS, c]) == {}
  {
    var line := [LESS, c];
    assert Trim(line) == line;
    TwoLetters(line, q.blanks);
    assert line[1..] == [c];
    assert Split(line, q.blanks) == Include([c], []) && FirstTail(line, q.blanks) == [c];
    assert PermsOf(WordsFrom([], 0, q.blanks), q.permnames, q.blanks) == {} && Short({}) == {};
  }

  lemma TwoLetters(line: Text, blanks: set<int>)
    requires |line| == 2 && line[0] !in blanks && line[1] !in blanks
    ensures WordsFrom(line, 0, blanks) == [Token(0, line)]
  {
    SkipIs(line, 0, 0, blanks);
    EndIs(line, 0, 2, blanks);
    SkipIs(line, 2, 2, blanks);
    assert line[0..2] == line;
  }

  /** A file with nothing but one include line. */
  lemma OneInclude(q: Query, f: Text, t: Text, es: seq<Seen>)
    requires f in IncludeGraph(q) && f !in Names(es)
    requires DirectFrom(q, q.files[f], 0) == {} && SubsFrom(q, q.files[f], 0) == [Sub(t, {})]
    ensures var r := Search(q, t, es + [Seen(f, {})], true);
            SearchFile(q, f, es, true) == Found(r.v, r.seen[|es| := Seen(f, Short(r.v))])
  {
    hide Search, Short;
    var now := es + [Seen(f, {})];
    var subs := [Sub(t, {})];
    var r := Search(q, t, now, true);
    assert Joined({}, {}, r.v) == r.v;
    ListEnds(q, subs, r.seen, r.v);
    ListStep(q, subs, 0, now, {}, r);
  }

  lemma ListEnds(q: Query, subs: seq<Sub>, es: seq<Seen>, v: Bits)
    ensures SearchList(q, subs, |subs|, es, v, true) == Found(v, es)
  {
  }

  lemma ListStep(q: Query, subs: seq<Sub>, k: nat, es: seq<Seen>, v: Bits, r: Found)
    requires k < |subs| && r == Search(q, subs[k].target, es, true)
    ensures SearchList(q, subs, k, es, v, true) ==
            SearchList(q, subs, k + 1, r.seen, Joined(v, subs[k].perm, r.v), true)
  {
    hide Search;
  }

  /** A file searched for the first time, and one that is in the history. */
  lemma SearchFirst(q: Query, f: Text, es: seq<Seen>)
    requires f in q.files && AT !in f && f !in Names(es)
    ensures f in IncludeGraph(q) && Search(q, f, es, true) == SearchFile(q, f, es, true)
  {
    hide SearchFile;
    NotThere(es, f);
  }

  lemma SearchAgain(q: Query, f: Text, es: seq<Seen>, k: nat)
    requires AT !in f && k < |es| && es[k].name == f && forall i :: 0 <= i < k ==> es[i].name != f
    ensures Search(q, f, es, true) == Found(es[k].num, es)
  {
    hide SearchFile;
    PositionIs(es, f, k);
  }

  /** The files of the diamond, as they are read. */
  lemma DiamondFiles(q: Query, l: Text)
    requires ReadsPlainly(q) && q.files == Diamond(l) && LineSubs(q, l) == []
    ensures SubsFrom(q, q.files[A], 0) == [Sub(B, {}), Sub(C, {})] && DirectFrom(q, q.files[A], 0) == {}
    ensures SubsFrom(q, q.files[B], 0) == [Sub(D, {})] && DirectFrom(q, q.files[B], 0) == {}
    ensures SubsFrom(q, q.files[C], 0) == [Sub(D, {})] && DirectFrom(q, q.files[C], 0) == {}
    ensures SubsFrom(q, q.files[D], 0) == [] && DirectFrom(q, q.files[D], 0) == LineBits(q, l)
  {
    hide LineBits, LineSubs;
    IncludeLine(q, 98);
    IncludeLine(q, 99);
    IncludeLine(q, 100);
    assert [LESS] + B == [LESS, 98] && [LESS] + C == [LESS, 99] && [LESS] + D == [LESS, 100];
    assert forall f :: f in q.files ==> SubsFrom(q, q.files[f], |q.files[f]|) == [];
    assert forall f :: f in q.files ==> DirectFrom(q, q.files[f], |q.files[f]|) == {};
    assert SubsFrom(q, q.files[A], 1) == [Sub(C, {})] && DirectFrom(q, q.files[A], 1) == {};
  }

  /** The value found for `a`: that of `d`, and that of `d` as the history has it. */
  lemma DiamondValue(q: Query, l: Text)
    requires ReadsPlainly(q) && q.files == Diamond(l) && LineSubs(q, l) == []
    ensures var w := LineBits(q, l); Search(q, A, [], true).v == w + Short(w)
  {
    hide Search, SearchFile, SearchList, SubsFrom, DirectFrom, LineBits, LineSubs, IncludeGraph, Short;
    DiamondFiles(q, l);
    var w := LineBits(q, l);
    var start: seq<Seen> := [Seen(A, {})];
    var b := Found(w, [Seen(A, {}), Seen(B, Short(w)), Seen(D, Short(w))]);
    FirstBranch(q, l, start);
    var r := SecondBranch(q, l, b.seen);
    SearchFirst(q, A, []);
    var subs := [Sub(B, {}), Sub(C, {})];
    assert [] + [Seen(A, {})] == start;
    ListStep(q, subs, 0, start, {}, b);
    ListStep(q, subs, 1, b.seen, w, r);
    ListEnds(q, subs, r.seen, w + Short(w));
    assert Joined({}, {}, w) == w && Joined(w, {}, Short(w)) == w + Short(w);
    FileIs(q, A, [], subs, Found(w + Short(w), r.seen));
  }

  lemma FileIs(q: Query, f: Text, es: seq<Seen>, subs: seq<Sub>, r: Found)
    requires f in IncludeGraph(q) && f !in Names(es) && subs == SubsFrom(q, q.files[f], 0)
    requires DirectFrom(q, q.files[f], 0) == {} && r == SearchList(q, subs, 0, es + [Seen(f, {})], {}, true)
    ensures SearchFile(q, f, es, true).v == r.v
  {
    hide SearchList, Short;
  }

  lemma FirstBranch(q: Query, l: Text, start: seq<Seen>)
    requires ReadsPlainly(q) && q.files == Diamond(l) && LineSubs(q, l) == [] && start == [Seen(A, {})]
    ensures var w := LineBits(q, l);
            Search(q, B, start, true) == Found(w, [Seen(A, {}), Seen(B, Short(w)), Seen(D, Short(w))])
  {
    hide Search, SearchFile, SearchList, SubsFrom, DirectFrom, LineBits, LineSubs, IncludeGraph, Short;
    DiamondFiles(q, l);
    var w, now := LineBits(q, l), start + [Seen(B, {})];
    assert Names(start) == {A} && Names(now) == {A, B} by { NamesSnoc([], Seen(A, {})); NamesSnoc(start, Seen(B, {})); }
    SearchFirst(q, B, start);
    OneInclude(q, B, D, start);
    SearchFirst(q, D, now);
    LeafFile(q, D, now);
  }

  /** A file without include lines. */
  lemma LeafFile(q: Query, f: Text, es: seq<Seen>)
    requires f in IncludeGraph(q) && f !in Names(es) && SubsFrom(q, q.files[f], 0) == []
    ensures var w := DirectFrom(q, q.files[f], 0);
            SearchFile(q, f, es, true) == Found(w, es + [Seen(f, Short(w))])
  {
    hide Short;
    var w := DirectFrom(q, q.files[f], 0);
    ListEnds(q, [], es + [Seen(f, {})], w);
    assert (es + [Seen(f, {})])[|es| := Seen(f, Short(w))] == es + [Seen(f, Short(w))];
  }

  lemma SecondBranch(q: Query, l: Text, es: seq<Seen>) returns (r: Found)
    requires ReadsPlainly(q) && q.files == Diamond(l) && LineSubs(q, l) == []
    requires es == [Seen(A, {}), Seen(B, Short(LineBits(q, l))), Seen(D, Short(LineBits(q, l)))]
    ensures r == Search(q, C, es, true) && r.v == Short(LineBits(q, l))
  {
    hide Search, SearchFile, SearchList, SubsFrom, DirectFrom, LineBits, LineSubs, IncludeGraph, Short;
    DiamondFiles(q, l);
    assert C !in Names(es);
    SearchFirst(q, C, es);
    OneInclude(q, C, D, es);
    SearchAgain(q, D, es + [Seen(C, {})], 2);
    r := Search(q, C, es, true);
  }

  lemma DiamondGraph(q: Query, l: Text)
    requires ReadsPlainly(q) && q.files == Diamond(l) && LineSubs(q, l) == []
    ensures Bare(q) && Reach(IncludeGraph(q), A, D) && A in IncludeGraph(q)
    ensures forall f :: f in q.files ==> Direct(q, f) == if f == D then LineBits(q, l) else {}
  {
    hide SubsFrom, DirectFrom, LineBits, LineSubs;
    DiamondFiles(q, l);
    var g := IncludeGraph(q);
    assert Sub(B, {}) in SubsFrom(q, q.files[A], 0) && Sub(D, {}) in SubsFrom(q, q.files[B], 0);
    assert B in g[A] && D in g[B];
    assert PathBetween(g, [A, B, D], A, D);
  }

  lemma DiamondGives(q: Query, l: Text, b: int)
    requires ReadsPlainly(q) && q.files == Diamond(l) && LineSubs(q, l) == []
    ensures Gives(q, A, b) <==> b in LineBits(q, l)
  {
    hide SubsFrom, DirectFrom, LineBits, LineSubs, Direct;
    DiamondGraph(q, l);
    assert StartsAt(q, A, A);
    if Gives(q, A, b) {
      var m :| Reach(IncludeGraph(q), A, m) && b in Direct(q, m);
    }
  }

  /** For every line that names users: included twice, its value is found right if and only if
      it has bits 16 to 31 or does not have bit 15. */
  lemma DiamondRightIff(q: Query, l: Text)
    requires ReadsPlainly(q) && q.files == Diamond(l) && LineSubs(q, l) == []
    ensures Bare(q)
    ensures (forall b :: b in Search(q, A, [], true).v <==> Gives(q, A, b)) <==> FitsShort(LineBits(q, l))
  {
    hide Search, LineBits, LineSubs, Gives, FitsShort, Short, Bare;
    DiamondGraph(q, l);
    DiamondValue(q, l);
    var w := LineBits(q, l);
    FitsShortIff(w);
    forall b ensures Gives(q, A, b) <==> b in w {
      DiamondGives(q, l, b);
    }
    if forall b :: b in w + Short(w) <==> b in w {
      forall b | b in Short(w) ensures b in w { assert b in w + Short(w); }
    }
  }

  // ------------------------------------------------------------- one such line

  lemma {:induction false} BitOfPower(n: nat, k: nat)
    ensures Shift(Power(n), k) % 2 == 1 <==> k == n
    decreases k
  {
    if k > 0 && n == 0 {
      ZeroShift(k - 1);
    } else if k > 0 {
      BitOfPower(n - 1, k - 1);
    }
  }

  lemma BitsOfPower(n: nat)
    requires n < 32
    ensures BitsOf(Power(n)) == {n}
  {
    forall k | 0 <= k < 32 ensures k in BitsOf(Power(n)) <==> k == n {
      BitOfPower(n, k);
    }
  }

  const ROTH: Text := [114, 111, 116, 104]

  /** "roth 32768", included twice, comes out as 0xFFFF8000. */
  lemma SignBitExample(q: Query)
    requires ReadsPlainly(q) && q.accepts(ROTH) && SPACE in q.blanks
    requires IsWord(ROTH, q.blanks) && (forall k :: Digit(k) ==> k !in q.blanks)
    requires var l := ROTH + [SPACE] + Decimal(32768); q.reduce(l) == l && q.files == Diamond(l)
    ensures Bare(q) && Search(q, A, [], true).v == HIGH
    ensures forall b :: Gives(q, A, b) <==> b == 15
  {
    hide Search, Gives, Bare, Decimal, IncludeGraph, LineBits, LineSubs;
    var l := ROTH + [SPACE] + Decimal(32768);
    RothLine(q);
    DiamondGraph(q, l);
    DiamondValue(q, l);
    assert {15} + Short({15}) == HIGH;
    forall b ensures Gives(q, A, b) <==> b == 15 { DiamondGives(q, l, b); }
  }

  lemma RothLine(q: Query)
    requires q.accepts(ROTH) && SPACE in q.blanks && IsWord(ROTH, q.blanks)
    requires forall k :: Digit(k) ==> k !in q.blanks
    requires var l := ROTH + [SPACE] + Decimal(32768); q.reduce(l) == l
    ensures var l := ROTH + [SPACE] + Decimal(32768); LineBits(q, l) == {15} && LineSubs(q, l) == []
  {
    hide Decimal, Int4, BitsOf, Power, Trim, WordsFrom;
    var l, n := ROTH + [SPACE] + Decimal(32768), Decimal(32768);
    assert IsWord(n, q.blanks);
    TwoWords(ROTH, n, q.blanks);
    assert l[|l| - 1] == n[|n| - 1] && Digit(n[|n| - 1]);
    TrimNothing(l);
    assert KindOf(q, l) == Name(ROTH, n);
    OnlyWord(n, q.blanks);
    UnsignedDecimal(32768, q.blanks);
    PowerValues();
    BitsOfPower(15);
    assert PermsOf([Token(0, n)], q.permnames, q.blanks) == {15} by {
      assert WordPerm(n, q.permnames, q.blanks) == {15};
      assert [Token(0, n)][1..] == [];
    }
  }
}
