/** `groupmatch` and `users_by_group` compared: one reads names in their reduced form, the other
    as they are written. */
module GroupAgreement {
  import opened Text
  import opened Graph
  import opened GroupFiles
  import opened Groups
  import opened GroupUsers

  /** Both searches read the line alike: the same file, of a local and unclipped name, or the
      same name, reduced. */
  predicate ReadAlike(q: Query, line: Text) {
    match Parse(line, q.blanks)
    case Skip => KindOf(q, line).Skip?
    case Include(t, _) => KindOf(q, line).Include? && t != [] && AT !in t && |t| <= 200
    case Name(n, _) => KindOf(q, line).Name? && KindOf(q, line).name == q.reduce(n)
  }

  ghost predicate FilesAlike(q: Query) {
    && (forall f :: f in q.files ==> AT !in f)
    && (forall f, i :: f in q.files && 0 <= i < |q.files[f]| ==> ReadAlike(q, q.files[f][i]))
  }

  /** The group files that the query searches. */
  function DirOf(q: Query): Dir {
    Dir(q.files, q.blanks)
  }

  ghost predicate Matched(q: Query, file: Text) {
    exists f :: StartsAt(q, file, f) && Matches(q, f)
  }

  lemma SameLineTargets(q: Query, line: Text)
    requires ReadAlike(q, line)
    ensures Targets(q.me, LineSubs(q, line)) == WordSet(LineTargets(line, q.blanks))
  {
    hide WordsFrom, PermsOf, Short, Trim;
    var head, ts := LineSubs(q, line), LineTargets(line, q.blanks);
    if Parse(line, q.blanks).Include? {
      assert KindOf(q, line).target == Parse(line, q.blanks).target;
      assert head == [head[0]] && ts == [head[0].target];
      assert Resolve(q.me, head[0].target) == Some(ts[0]);
      assert Targets(q.me, head) == {ts[0]};
    }
  }

  lemma TargetsConcat(me: Text, a: seq<Sub>, b: seq<Sub>)
    ensures Targets(me, a + b) == Targets(me, a) + Targets(me, b)
  {
    assert forall s :: s in a + b <==> s in a || s in b;
  }

  lemma {:induction false} SameTargets(q: Query, lines: seq<Text>, i: nat)
    requires i <= |lines|
    requires forall k :: 0 <= k < |lines| ==> ReadAlike(q, lines[k])
    ensures Targets(q.me, SubsFrom(q, lines, i)) == WordSet(TargetsFrom(lines, i, q.blanks))
    decreases |lines| - i
  {
    hide LineSubs, LineTargets, ReadAlike;
    if i < |lines| {
      SameTargets(q, lines, i + 1);
      SameLineTargets(q, lines[i]);
      TargetsConcat(q.me, LineSubs(q, lines[i]), SubsFrom(q, lines, i + 1));
      var ts, more := LineTargets(lines[i], q.blanks), TargetsFrom(lines, i + 1, q.blanks);
      assert WordSet(ts + more) == WordSet(ts) + WordSet(more);
    }
  }

  /** A file matches when one of the names in it, reduced, is accepted. */
  lemma {:induction false} DirectIsUser(q: Query, lines: seq<Text>, i: nat)
    requires i <= |lines|
    requires forall k :: 0 <= k < |lines| ==> ReadAlike(q, lines[k])
    ensures DirectFrom(q, lines, i) != {} <==> exists u :: u in UsersFrom(lines, i, q.blanks) && q.accepts(q.reduce(u))
    decreases |lines| - i
  {
    hide LineBits, LineUsers, ReadAlike;
    if i < |lines| {
      DirectIsUser(q, lines, i + 1);
      LineIsUser(q, lines[i]);
      SomeOfBoth(q, LineUsers(lines[i], q.blanks), UsersFrom(lines, i + 1, q.blanks));
    }
  }

  lemma SomeOfBoth(q: Query, us: seq<Text>, more: seq<Text>)
    ensures (exists u :: u in us + more && q.accepts(q.reduce(u)))
            <==> (exists u :: u in us && q.accepts(q.reduce(u))) || (exists u :: u in more && q.accepts(q.reduce(u)))
  {
    assert forall u :: u in us + more <==> u in us || u in more;
  }

  lemma LineIsUser(q: Query, line: Text)
    requires ReadAlike(q, line)
    ensures LineBits(q, line) != {} <==> exists u :: u in LineUsers(line, q.blanks) && q.accepts(q.reduce(u))
  {
    hide WordsFrom, PermsOf, Short, Trim;
    if Parse(line, q.blanks).Name? {
      var n := Parse(line, q.blanks).name;
      assert LineUsers(line, q.blanks) == [n];
      assert q.accepts(q.reduce(n)) ==> LineBits(q, line) != {};
    }
  }

  lemma SameGraph(q: Query)
    requires FilesAlike(q)
    ensures IncludeGraph(q) == UserGraph(DirOf(q))
  {
    hide ReadAlike, SubsFrom, TargetsFrom;
    var g, h := IncludeGraph(q), UserGraph(DirOf(q));
    assert g.Keys == h.Keys;
    forall f | f in q.files
      ensures g[f] == h[f]
    {
      SameTargets(q, q.files[f], 0);
    }
  }

  /** On files that both read alike, `groupmatch` accepts the user exactly when the list of
      `users_by_group` has a name whose reduced form is accepted: for any comparison, wildcards
      included. */
  lemma MatchedIffSomeListed(q: Query, file: Text)
    requires FilesAlike(q) && IsWord(file, q.blanks) && AT !in file
    ensures Matched(q, file) <==> exists u :: u in Visit(DirOf(q), file, {}, []) && q.accepts(q.reduce(u))
  {
    hide ReadAlike, Visit, DirectFrom, UsersFrom;
    var d, g := DirOf(q), IncludeGraph(q);
    SameGraph(q);
    forall m | m in q.files
      ensures Direct(q, m) != {} <==> exists u :: UserOf(d, m, u) && q.accepts(q.reduce(u))
    {
      DirectIsUser(q, q.files[m], 0);
    }
    forall u
      ensures u in Visit(d, file, {}, []) <==> exists m :: Reach(g, file, m) && UserOf(d, m, u)
    {
      UsersOfReachable(d, file, u);
    }
    assert forall p, m :: PathBetween(g, p, file, m) ==> file in g && m in g;
    assert StartsAt(q, file, file) <==> file in g;
  }

  /** So a user is listed exactly when `groupmatch` accepts that user, if of the names in the
      files only that user's is accepted. */
  lemma ListedIffMatched(q: Query, file: Text, u: Text)
    requires FilesAlike(q) && IsWord(file, q.blanks) && AT !in file
    requires forall f, n :: f in q.files && UserOf(DirOf(q), f, n) ==> (q.accepts(q.reduce(n)) <==> n == u)
    ensures u in Visit(DirOf(q), file, {}, []) <==> Matched(q, file)
  {
    hide ReadAlike, Visit, Matched, FilesAlike;
    var d := DirOf(q);
    MatchedIffSomeListed(q, file);
    forall n | n in Visit(d, file, {}, [])
      ensures q.accepts(q.reduce(n)) <==> n == u
    {
      UsersOfReachable(d, file, n);
      var m :| Reach(UserGraph(d), file, m) && UserOf(d, m, n);
      var p :| PathBetween(UserGraph(d), p, file, m);
    }
  }

  // ------------------------------------------------------------- the reduction of one-byte text

  function LowerChar(c: int): int {
    if 65 <= c <= 90 then c + 32 else c
  }

  /** `jixreduce` of a one-byte string. */
  function Lower(t: Text): Text {
    seq(|t|, i requires 0 <= i < |t| => LowerChar(t[i]))
  }

  lemma LowerTwice(t: Text)
    ensures Lower(Lower(t)) == Lower(t)
  {
  }

  /** No letter is a word separator, and the blank is one. */
  ghost predicate LettersApart(blanks: set<int>) {
    SPACE in blanks && forall c :: 65 <= c <= 90 || 97 <= c <= 122 ==> c !in blanks
  }

  lemma LibraryLettersApart()
    ensures LettersApart(ASCII_BLANKS) && LettersApart(JIX_BLANKS)
  {
  }

  function LowerAll(ws: seq<Text>): seq<Text> {
    if ws == [] then [] else [Lower(ws[0])] + LowerAll(ws[1..])
  }

  lemma {:induction false} LowerWords(t: Text, i: nat, blanks: set<int>)
    requires LettersApart(blanks) && i <= |t|
    ensures WordList(Lower(t), i, blanks) == LowerAll(WordList(t, i, blanks))
    decreases |t| - i
  {
    hide Lower, WordList, SkipBlanks, WordEnd;
    var l, s := Lower(t), SkipBlanks(t, i, blanks);
    LowerKeepsBlanks(t, blanks);
    SkipIs(l, i, s, blanks);
    WordListStep(t, i, blanks);
    WordListStep(l, i, blanks);
    if s < |t| {
      var e := WordEnd(t, s, blanks);
      EndIs(l, s, e, blanks);
      LowerWords(t, e, blanks);
      LowerSlice(t, s, e);
      var more := WordList(t, e, blanks);
      assert ([t[s..e]] + more)[1..] == more;
    }
  }

  lemma LowerKeepsBlanks(t: Text, blanks: set<int>)
    requires LettersApart(blanks)
    ensures |Lower(t)| == |t| && forall k :: 0 <= k < |t| ==> (Lower(t)[k] in blanks <==> t[k] in blanks)
  {
  }

  lemma LowerSlice(t: Text, s: nat, e: nat)
    requires s <= e <= |t|
    ensures |Lower(t)| == |t| && Lower(t)[s..e] == Lower(t[s..e])
  {
  }

  lemma {:induction false} OnlyBlanks(t: Text, blanks: set<int>)
    requires forall k :: 0 <= k < |t| ==> t[k] in blanks
    ensures Words(t, blanks) == []
  {
    SkipIs(t, 0, |t|, blanks);
  }

  /** Blanks at the end are no words. */
  lemma TrimWords(t: Text, blanks: set<int>)
    requires SPACE in blanks
    ensures Words(Trim(t), blanks) == Words(t, blanks)
  {
    var u := Trim(t);
    var rest := t[|u|..];
    assert t == u + rest;
    forall k | 0 <= k < |rest| ensures rest[k] in blanks { assert rest[k] == t[|u| + k]; }
    WordsConcat(u, rest, blanks);
    OnlyBlanks(rest, blanks);
    assert Words(u, blanks) + [] == Words(u, blanks);
  }

  /** What a line is depends on its first word. */
  lemma SplitByWords(line: Text, blanks: set<int>)
    ensures var ws, kind := Words(line, blanks), Split(line, blanks);
            if ws == [] then kind.Skip?
            else ws[0] != [] && if ws[0][0] == LESS then kind.Include? && kind.target == ws[0][1..]
                                else kind.Name? && kind.name == ws[0]
  {
    WordListIsWordsFrom(line, 0, blanks);
    FirstNotEmpty(line, blanks);
  }

  /** Lowering the letters of a line changes the letters of the name on it, and nothing else. */
  lemma LoweredReadAlike(q: Query, line: Text)
    requires LettersApart(q.blanks) && q.reduce(line) == Lower(line)
    requires forall n :: q.reduce(n) == Lower(n)
    requires Parse(line, q.blanks).Include? ==>
               var t := Parse(line, q.blanks).target; t != [] && AT !in t && |t| <= 200
    ensures ReadAlike(q, line)
  {
    hide WordsFrom, WordList, Trim, Split, FirstTail, Lower;
    var low := Trim(Lower(line));
    var ws := Words(line, q.blanks);
    SplitByWords(line, q.blanks);
    SplitByWords(low, q.blanks);
    TrimWords(Lower(line), q.blanks);
    LowerWords(line, 0, q.blanks);
    assert Words(low, q.blanks) == LowerAll(ws);
    if ws != [] {
      assert LowerAll(ws)[0] == Lower(ws[0]);
      LowerFirst(ws[0]);
    }
  }

  lemma LowerFirst(w: Text)
    requires w != []
    ensures Lower(w) != [] && (Lower(w)[0] == LESS <==> w[0] == LESS)
  {
  }

  // ------------------------------------------------------------- names in capitals

  /** A search for exactly one user, whose name is in small letters, among one-byte files. */
  function Exactly(files: map<Text, seq<Text>>, me: Text, blanks: set<int>, permnames: Text, u: Text): Query {
    Query(files, me, blanks, permnames, Lower, x => x == u)
  }

  ghost predicate PlainFiles(files: map<Text, seq<Text>>, blanks: set<int>) {
    && (forall f :: f in files ==> AT !in f)
    && (forall f, i :: f in files && 0 <= i < |files[f]| && Parse(files[f][i], blanks).Include? ==>
          var t := Parse(files[f][i], blanks).target; t != [] && AT !in t && |t| <= 200)
  }

  lemma ExactFilesAlike(files: map<Text, seq<Text>>, me: Text, blanks: set<int>, permnames: Text, u: Text)
    requires PlainFiles(files, blanks) && LettersApart(blanks)
    ensures FilesAlike(Exactly(files, me, blanks, permnames, u))
  {
    hide Parse, Lower, ReadAlike;
    var q := Exactly(files, me, blanks, permnames, u);
    forall f, i | f in files && 0 <= i < |files[f]| ensures ReadAlike(q, files[f][i]) {
      LoweredReadAlike(q, files[f][i]);
    }
  }

  /** `groupmatch` accepts a user exactly when the list has that name in some mixture of small
      and capital letters. */
  lemma ExactlyMatched(files: map<Text, seq<Text>>, me: Text, blanks: set<int>, permnames: Text, file: Text, u: Text)
    requires PlainFiles(files, blanks) && LettersApart(blanks) && IsWord(file, blanks) && AT !in file
    ensures Matched(Exactly(files, me, blanks, permnames, u), file)
            <==> exists n :: n in Visit(Dir(files, blanks), file, {}, []) && Lower(n) == u
  {
    hide Lower, Visit, Matched, FilesAlike;
    ExactFilesAlike(files, me, blanks, permnames, u);
    MatchedIffSomeListed(Exactly(files, me, blanks, permnames, u), file);
  }

  /** Every user is listed exactly when `groupmatch` accepts that user, if and only if every
      name that the files list is also there in small letters. */
  lemma ListedAsMatchedIff(files: map<Text, seq<Text>>, me: Text, blanks: set<int>, permnames: Text, file: Text)
    requires PlainFiles(files, blanks) && LettersApart(blanks) && IsWord(file, blanks) && AT !in file
    ensures var listed := Visit(Dir(files, blanks), file, {}, []);
            (forall u :: Lower(u) == u ==>
               (u in listed <==> Matched(Exactly(files, me, blanks, permnames, u), file)))
            <==> (forall n :: n in listed ==> Lower(n) in listed)
  {
    hide Lower, Visit, Matched;
    var listed := Visit(Dir(files, blanks), file, {}, []);
    forall u ensures Matched(Exactly(files, me, blanks, permnames, u), file) <==> exists n :: n in listed && Lower(n) == u {
      ExactlyMatched(files, me, blanks, permnames, file, u);
    }
    forall n ensures Lower(Lower(n)) == Lower(n) {
      LowerTwice(n);
    }
  }

  /** A file with the one line "Roth" lists "Roth", and `groupmatch` accepts "roth". */
  lemma CapitalExample(me: Text, permnames: Text)
    ensures var g, roth := [103], [82, 111, 116, 104];
            var files := map[g := [roth]];
            var listed := Visit(Dir(files, ASCII_BLANKS), g, {}, []);
            && roth in listed && Lower(roth) !in listed
            && Matched(Exactly(files, me, ASCII_BLANKS, permnames, Lower(roth)), g)
  {
    hide Visit, Matched;
    var g, roth := [103], [82, 111, 116, 104];
    var files, blanks := map[g := [roth]], ASCII_BLANKS;
    var d := Dir(files, blanks);
    OneWord(roth, blanks);
    SplitByWords(roth, blanks);
    assert Parse(roth, blanks).Name? && Parse(roth, blanks).name == roth;
    assert files[g] == [roth] && UsersFrom([roth], 1, blanks) == [];
    assert UsersFrom(files[g], 0, blanks) == [roth];
    assert forall n :: UserOf(d, g, n) <==> n == roth;
    assert PathBetween(UserGraph(d), [g], g, g);
    assert Reach(UserGraph(d), g, g);
    UsersOfReachable(d, g, roth);
    UsersOfReachable(d, g, Lower(roth));
    assert Lower(roth)[0] == 114;
    ExactlyMatched(files, me, blanks, permnames, g, Lower(roth));
  }
}
