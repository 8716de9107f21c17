/** `users_by_group`: the users of a group file and of all the files it includes.  Here the
    history belongs to one path of the search, not to the whole of it. */
module GroupUsers {
  import opened Text
  import opened Graph
  import opened GroupFiles
  import opened Groups

  /** The group files of a site. */
  datatype Dir = Dir(files: map<Text, seq<Text>>, blanks: set<int>)

  /** The list being built: words, each followed by a blank. */
  class UserList {
    var text: Text
    constructor ()
      ensures text == []
    {
      text := [];
    }
  }

  predicate Closed(t: Text, blanks: set<int>) {
    t == [] || t[|t| - 1] in blanks
  }

  function WordSet(ws: seq<Text>): set<Text> {
    set w | w in ws
  }

  predicate NoDup(ws: seq<Text>) {
    forall i, j :: 0 <= i < j < |ws| ==> ws[i] != ws[j]
  }

  // ------------------------------------------------------------- one file

  function LineUsers(line: Text, blanks: set<int>): seq<Text> {
    match Parse(line, blanks)
    case Name(name, _) => [name]
    case _ => []
  }

  function LineTargets(line: Text, blanks: set<int>): seq<Text> {
    match Parse(line, blanks)
    case Include(target, _) => if target == [] then [] else [Clip(target, 1000)]
    case _ => []
  }

  function UsersFrom(lines: seq<Text>, i: nat, blanks: set<int>): seq<Text>
    requires i <= |lines|
    decreases |lines| - i
  {
    if i == |lines| then [] else LineUsers(lines[i], blanks) + UsersFrom(lines, i + 1, blanks)
  }

  function TargetsFrom(lines: seq<Text>, i: nat, blanks: set<int>): seq<Text>
    requires i <= |lines|
    decreases |lines| - i
  {
    if i == |lines| then [] else LineTargets(lines[i], blanks) + TargetsFrom(lines, i + 1, blanks)
  }

  predicate AllWords(ws: seq<Text>, blanks: set<int>) {
    forall k :: 0 <= k < |ws| ==> IsWord(ws[k], blanks)
  }

  lemma LineWordsAreWords(line: Text, blanks: set<int>)
    ensures AllWords(LineUsers(line, blanks), blanks) && AllWords(LineTargets(line, blanks), blanks)
  {
    WordsAreWords(line, blanks);
    WordListIsWordsFrom(line, 0, blanks);
    var ws := WordsFrom(line, 0, blanks);
    if ws != [] {
      assert Words(line, blanks)[0] == ws[0].word;
      assert IsWord(ws[0].word, blanks);
    }
  }

  lemma {:induction false} TargetsAreWords(lines: seq<Text>, i: nat, blanks: set<int>)
    requires i <= |lines|
    ensures AllWords(TargetsFrom(lines, i, blanks), blanks)
    decreases |lines| - i
  {
    if i < |lines| {
      LineWordsAreWords(lines[i], blanks);
      TargetsAreWords(lines, i + 1, blanks);
    }
  }

  /** `ws` with the users it does not have yet. */
  function AddUsers(ws: seq<Text>, us: seq<Text>): seq<Text>
    decreases |us|
  {
    if us == [] then ws
    else AddUsers(if us[0] in ws then ws else ws + [us[0]], us[1..])
  }

  lemma {:induction false} AddUsersAdds(ws: seq<Text>, us: seq<Text>)
    ensures forall u :: u in AddUsers(ws, us) <==> u in ws || u in us
    ensures ws <= AddUsers(ws, us)
    ensures NoDup(ws) ==> NoDup(AddUsers(ws, us))
    decreases |us|
  {
    if us != [] {
      var ws' := if us[0] in ws then ws else ws + [us[0]];
      AddUsersAdds(ws', us[1..]);
      assert us == [us[0]] + us[1..];
      assert forall u :: u in ws' <==> u in ws || u == us[0];
    }
  }

  lemma {:induction false} AddUsersConcat(ws: seq<Text>, us: seq<Text>, vs: seq<Text>)
    ensures AddUsers(ws, us + vs) == AddUsers(AddUsers(ws, us), vs)
    decreases |us|
  {
    if us == [] {
      assert us + vs == vs;
    } else {
      assert (us + vs)[1..] == us[1..] + vs;
      AddUsersConcat(if us[0] in ws then ws else ws + [us[0]], us[1..], vs);
    }
  }

  method AddTarget(recurse: Text, target: Text, blanks: set<int>) returns (recurse': Text)
    requires SPACE in blanks && Closed(recurse, blanks) && (target == [] || IsWord(target, blanks))
    ensures Closed(recurse', blanks)
    ensures Words(recurse', blanks) == Words(recurse, blanks) + (if target == [] then [] else [target])
  {
    recurse' := recurse + target + [SPACE];
    if target != [] {
      WordsAppend(recurse, target, SPACE, blanks);
    } else {
      WordsConcat(recurse, [SPACE], blanks);
      BlankHasNoWords(SPACE, blanks);
      assert recurse' == recurse + [SPACE];
    }
  }

  method AddUser(userlist: UserList, word: Text, blanks: set<int>)
    requires SPACE in blanks && Closed(userlist.text, blanks) && IsWord(word, blanks)
    modifies userlist
    ensures Closed(userlist.text, blanks)
    ensures Words(userlist.text, blanks) == AddUsers(old(Words(userlist.text, blanks)), [word])
  {
    var found := TableFind(userlist.text, word, blanks);
    if found < 0 {
      WordsAppend(userlist.text, word, SPACE, blanks);
      userlist.text := userlist.text + word + [SPACE];
    }
  }

  /** Read one line: a new user goes on the list, an included file on `recurse`. */
  method ScanUserLine(line: Text, userlist: UserList, recurse: Text, blanks: set<int>) returns (recurse': Text)
    requires SPACE in blanks && Closed(userlist.text, blanks) && Closed(recurse, blanks)
    modifies userlist
    ensures Closed(userlist.text, blanks) && Closed(recurse', blanks)
    ensures Words(userlist.text, blanks) == AddUsers(old(Words(userlist.text, blanks)), LineUsers(line, blanks))
    ensures Words(recurse', blanks) == Words(recurse, blanks) + LineTargets(line, blanks)
  {
    hide WordList, WordsFrom;
    recurse' := recurse;
    assert Words(recurse, blanks) + [] == Words(recurse, blanks);
    if line != [] && line[0] == HASH { return; }
    var start, word, _ := ChxToken(1, line, blanks);
    ghost var ws := WordsFrom(line, 0, blanks);
    WordsAreRuns(line, 0, blanks);
    SplitTokens(line, blanks, start, word, if |ws| > 1 then line[ws[1].start..] else []);
    LineWordsAreWords(line, blanks);
    if word == [] { return; }
    if word[0] == LESS {
      var target := Clip(word[1..], 1000);
      assert target != [] ==> LineTargets(line, blanks) == [target];
      recurse' := AddTarget(recurse, target, blanks);
    } else {
      assert LineUsers(line, blanks) == [word] && LineTargets(line, blanks) == [];
      AddUser(userlist, word, blanks);
    }
  }

  /** Read one file. */
  method ScanUsers(lines: seq<Text>, userlist: UserList, blanks: set<int>) returns (recurse: Text)
    requires SPACE in blanks && Closed(userlist.text, blanks)
    modifies userlist
    ensures Closed(userlist.text, blanks)
    ensures Words(userlist.text, blanks) == AddUsers(old(Words(userlist.text, blanks)), UsersFrom(lines, 0, blanks))
    ensures Words(recurse, blanks) == TargetsFrom(lines, 0, blanks)
  {
    hide LineUsers, LineTargets, WordList;
    recurse := [];
    EmptyHasNoWords(blanks);
    ghost var ws := Words(userlist.text, blanks);
    var i := 0;
    while i < |lines|
      invariant 0 <= i <= |lines|
      invariant Closed(userlist.text, blanks) && Closed(recurse, blanks)
      invariant AddUsers(ws, UsersFrom(lines, 0, blanks))
                == AddUsers(Words(userlist.text, blanks), UsersFrom(lines, i, blanks))
      invariant TargetsFrom(lines, 0, blanks) == Words(recurse, blanks) + TargetsFrom(lines, i, blanks)
    {
      ghost var before, others := Words(userlist.text, blanks), Words(recurse, blanks);
      AddUsersConcat(before, LineUsers(lines[i], blanks), UsersFrom(lines, i + 1, blanks));
      recurse := ScanUserLine(lines[i], userlist, recurse, blanks);
      assert TargetsFrom(lines, 0, blanks) == others + LineTargets(lines[i], blanks) + TargetsFrom(lines, i + 1, blanks);
      i := i + 1;
    }
  }

  // ------------------------------------------------------------- all included files

  /** The list after file `f` has been visited, on a path that has been through `hist`. */
  function Visit(d: Dir, f: Text, hist: set<Text>, ws: seq<Text>): seq<Text>
    decreases if IsWord(f, d.blanks) then 0 else 1, d.files.Keys - hist, 0
  {
    if (f != [] && f in hist) || f !in d.files then ws
    else
      TargetsAreWords(d.files[f], 0, d.blanks);
      if IsWord(f, d.blanks) then OneWord(f, d.blanks);
        VisitAll(d, TargetsFrom(d.files[f], 0, d.blanks), hist + {f}, AddUsers(ws, UsersFrom(d.files[f], 0, d.blanks)))
      else
        VisitAll(d, TargetsFrom(d.files[f], 0, d.blanks), hist + WordSet(Words(f, d.blanks)),
                 AddUsers(ws, UsersFrom(d.files[f], 0, d.blanks)))
  }

  function VisitAll(d: Dir, cs: seq<Text>, hist: set<Text>, ws: seq<Text>): seq<Text>
    requires AllWords(cs, d.blanks)
    decreases 0, d.files.Keys - hist, 1 + |cs|
  {
    if cs == [] then ws else VisitAll(d, cs[1..], hist, Visit(d, cs[0], hist, ws))
  }

  /** The search itself.  It ends on every include graph: along one path no file repeats. */
  method UsersByGroup(d: Dir, userlist: UserList, groupfile: Text, grouphistory: Text)
    requires SPACE in d.blanks && Closed(userlist.text, d.blanks)
    modifies userlist
    ensures Closed(userlist.text, d.blanks)
    ensures Words(userlist.text, d.blanks)
            == Visit(d, groupfile, WordSet(Words(grouphistory, d.blanks)), old(Words(userlist.text, d.blanks)))
    decreases if IsWord(groupfile, d.blanks) then 0 else 1,
              d.files.Keys - WordSet(Words(grouphistory, d.blanks)), 0
  {
    var found := TableFind(grouphistory, groupfile, d.blanks);
    if found >= 0 { return; }
    if groupfile !in d.files { return; }
    var recurse := ScanUsers(d.files[groupfile], userlist, d.blanks);
    var history := grouphistory + [SPACE] + groupfile + [SPACE];
    HistoryWords(grouphistory, groupfile, d.blanks);
    TargetsAreWords(d.files[groupfile], 0, d.blanks);
    WordListIsWordsFrom(recurse, 0, d.blanks);
    EachUser(d, userlist, recurse, history);
    assert Words(recurse, d.blanks) == WordList(recurse, 0, d.blanks);
  }

  method EachUser(d: Dir, userlist: UserList, recurse: Text, history: Text)
    requires SPACE in d.blanks && Closed(userlist.text, d.blanks)
    requires AllWords(WordList(recurse, 0, d.blanks), d.blanks)
    modifies userlist
    ensures Closed(userlist.text, d.blanks)
    ensures Words(userlist.text, d.blanks)
            == VisitAll(d, WordList(recurse, 0, d.blanks), WordSet(Words(history, d.blanks)), old(Words(userlist.text, d.blanks)))
    decreases 0, d.files.Keys - WordSet(Words(history, d.blanks)), 1
  {
    ghost var hist := WordSet(Words(history, d.blanks));
    ghost var ws := Words(userlist.text, d.blanks);
    var pos := 0;
    while true
      invariant 0 <= pos <= |recurse|
      invariant Closed(userlist.text, d.blanks)
      invariant AllWords(WordList(recurse, pos, d.blanks), d.blanks)
      invariant VisitAll(d, WordList(recurse, 0, d.blanks), hist, ws)
                == VisitAll(d, WordList(recurse, pos, d.blanks), hist, Words(userlist.text, d.blanks))
      decreases |recurse| - pos
    {
      var start, word, newpos := ChxNextWord(recurse, pos, d.blanks);
      NextOfList(recurse, pos, start, word, newpos, d.blanks);
      if start < 0 { break; }
      assert IsWord(WordList(recurse, pos, d.blanks)[0], d.blanks);
      UsersByGroup(d, userlist, word, history);
      pos := newpos;
    }
  }

  lemma NextOfList(t: Text, pos: nat, start: int, word: Text, newpos: nat, blanks: set<int>)
    requires pos <= newpos <= |t|
    requires start == -1 <==> WordsFrom(t, pos, blanks) == []
    requires start != -1 ==> start >= 0
    requires start != -1 ==> WordsFrom(t, pos, blanks) == [Token(start, word)] + WordsFrom(t, newpos, blanks)
    ensures start == -1 ==> WordList(t, pos, blanks) == []
    ensures start != -1 ==> WordList(t, pos, blanks) == [word] + WordList(t, newpos, blanks)
  {
    WordListIsWordsFrom(t, pos, blanks);
    WordListIsWordsFrom(t, newpos, blanks);
    if start != -1 {
      var a, b := WordList(t, pos, blanks), [word] + WordList(t, newpos, blanks);
      assert |a| == |b|;
      forall k | 0 <= k < |a|
        ensures a[k] == b[k]
      {
        assert a[k] == ([Token(start, word)] + WordsFrom(t, newpos, blanks))[k].word;
      }
    }
  }

  lemma HistoryWords(history: Text, f: Text, blanks: set<int>)
    requires SPACE in blanks
    ensures WordSet(Words(history + [SPACE] + f + [SPACE], blanks)) == WordSet(Words(history, blanks)) + WordSet(Words(f, blanks))
    ensures IsWord(f, blanks) ==> WordSet(Words(f, blanks)) == {f}
  {
    WordsConcat(history, [SPACE], blanks);
    WordsConcat(history + [SPACE], f, blanks);
    WordsConcat(history + [SPACE] + f, [SPACE], blanks);
    BlankHasNoWords(SPACE, blanks);
    if IsWord(f, blanks) { OneWord(f, blanks); }
  }

  // ------------------------------------------------------------- who is on the list

  function UserGraph(d: Dir): Graph {
    map f | f in d.files :: WordSet(TargetsFrom(d.files[f], 0, d.blanks))
  }

  ghost predicate UserOf(d: Dir, f: Text, u: Text) {
    f in d.files && u in UsersFrom(d.files[f], 0, d.blanks)
  }

  /** `u` is a user of a file that can be reached from `f` without going through `bad`. */
  ghost predicate UserAvoiding(d: Dir, f: Text, u: Text, bad: set<Text>) {
    exists m :: ReachAvoiding(UserGraph(d), f, m, bad) && UserOf(d, m, u)
  }

  /** Unfolding a search along paths that do not repeat a file. */
  lemma UserAvoidingStep(d: Dir, f: Text, u: Text, bad: set<Text>)
    requires f in d.files && f !in bad
    ensures UserAvoiding(d, f, u, bad)
            <==> UserOf(d, f, u)
                 || exists c :: c in TargetsFrom(d.files[f], 0, d.blanks) && UserAvoiding(d, c, u, bad + {f})
  {
    var g := UserGraph(d);
    if UserAvoiding(d, f, u, bad) && !UserOf(d, f, u) {
      var m :| ReachAvoiding(g, f, m, bad) && UserOf(d, m, u);
      AvoidingUnfolds(g, f, m, bad);
      var c :| c in g && c in g[f] && ReachAvoiding(g, c, m, bad + {f});
      assert UserAvoiding(d, c, u, bad + {f});
    }
    if UserOf(d, f, u) {
      assert PathBetween(g, [f], f, f) && Avoids([f], bad);
    }
    if c :| c in TargetsFrom(d.files[f], 0, d.blanks) && UserAvoiding(d, c, u, bad + {f}) {
      var m :| ReachAvoiding(g, c, m, bad + {f}) && UserOf(d, m, u);
      AvoidingFolds(g, f, c, m, bad);
    }
  }

  /** Visiting a file adds exactly the users of what can be reached off the history. */
  lemma {:induction false} VisitFinds(d: Dir, f: Text, hist: set<Text>, ws: seq<Text>, u: Text)
    requires IsWord(f, d.blanks)
    ensures u in Visit(d, f, hist, ws) <==> u in ws || UserAvoiding(d, f, u, hist)
    decreases d.files.Keys - hist, 0
  {
    if f in hist || f !in d.files {
      forall p, m | PathBetween(UserGraph(d), p, f, m)
        ensures !Avoids(p, hist)
      {
        assert p[0] == f;
      }
    } else {
      var us := UsersFrom(d.files[f], 0, d.blanks);
      TargetsAreWords(d.files[f], 0, d.blanks);
      VisitAllFinds(d, TargetsFrom(d.files[f], 0, d.blanks), hist + {f}, AddUsers(ws, us), u);
      AddUsersAdds(ws, us);
      UserAvoidingStep(d, f, u, hist);
    }
  }

  lemma {:induction false} VisitAllFinds(d: Dir, cs: seq<Text>, hist: set<Text>, ws: seq<Text>, u: Text)
    requires AllWords(cs, d.blanks)
    ensures u in VisitAll(d, cs, hist, ws) <==> u in ws || exists c :: c in cs && UserAvoiding(d, c, u, hist)
    decreases d.files.Keys - hist, 1 + |cs|
  {
    if cs != [] {
      VisitFinds(d, cs[0], hist, ws, u);
      VisitAllFinds(d, cs[1..], hist, Visit(d, cs[0], hist, ws), u);
      assert forall c :: c in cs <==> c == cs[0] || c in cs[1..];
    }
  }

  /** Nobody is listed twice, and nobody who was listed is lost or moved. */
  lemma {:induction false} VisitKeeps(d: Dir, f: Text, hist: set<Text>, ws: seq<Text>)
    requires IsWord(f, d.blanks)
    ensures ws <= Visit(d, f, hist, ws)
    ensures NoDup(ws) ==> NoDup(Visit(d, f, hist, ws))
    decreases d.files.Keys - hist, 0
  {
    if f !in hist && f in d.files {
      var us := UsersFrom(d.files[f], 0, d.blanks);
      TargetsAreWords(d.files[f], 0, d.blanks);
      AddUsersAdds(ws, us);
      VisitAllKeeps(d, TargetsFrom(d.files[f], 0, d.blanks), hist + {f}, AddUsers(ws, us));
    }
  }

  lemma {:induction false} VisitAllKeeps(d: Dir, cs: seq<Text>, hist: set<Text>, ws: seq<Text>)
    requires AllWords(cs, d.blanks)
    ensures ws <= VisitAll(d, cs, hist, ws)
    ensures NoDup(ws) ==> NoDup(VisitAll(d, cs, hist, ws))
    decreases d.files.Keys - hist, 1 + |cs|
  {
    if cs != [] {
      VisitKeeps(d, cs[0], hist, ws);
      VisitAllKeeps(d, cs[1..], hist, Visit(d, cs[0], hist, ws));
    }
  }

  /** From an empty history: exactly the users of the files reachable from `f`, each once. */
  lemma UsersOfReachable(d: Dir, f: Text, u: Text)
    requires IsWord(f, d.blanks)
    ensures u in Visit(d, f, {}, []) <==> exists m :: Reach(UserGraph(d), f, m) && UserOf(d, m, u)
    ensures NoDup(Visit(d, f, {}, []))
  {
    VisitFinds(d, f, {}, [], u);
    VisitKeeps(d, f, {}, []);
    forall m
      ensures Reach(UserGraph(d), f, m) <==> ReachAvoiding(UserGraph(d), f, m, {})
    {
      ReachAvoidsNothing(UserGraph(d), f, m);
    }
  }
}
