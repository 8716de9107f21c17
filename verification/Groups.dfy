/** `groupmatch`: a depth-first search of group files for one user, with one history
    that all the recursive calls share. */
module Groups {
  import opened Text
  import opened Graph
  import opened GroupFiles

  /** An entry of the history; its number is a 16-bit one. */
  datatype Seen = Seen(name: Text, num: Bits)

  /** The `groups` name list: files already searched, with the value found. */
  class History {
    var entries: seq<Seen>
    constructor ()
      ensures entries == []
    {
      entries := [];
    }
  }

  ghost function Names(es: seq<Seen>): set<Text> {
    set e | e in es :: e.name
  }

  /** No include line carries a permission of its own. */
  ghost predicate Bare(q: Query) {
    forall f, s :: f in q.files && s in SubsFrom(q, q.files[f], 0) ==> s.perm == {}
  }

  /** Some file that can be reached from `f` matches. */
  ghost predicate Matches(q: Query, f: Text) {
    exists m :: Reach(IncludeGraph(q), f, m) && Direct(q, m) != {}
  }

  /** Some file that can be reached from `f` matches with bit `b`. */
  ghost predicate MatchesBit(q: Query, f: Text, b: int) {
    exists m :: Reach(IncludeGraph(q), f, m) && b in Direct(q, m)
  }

  /** Bit `b` is in the value of a file, or in a permission on one of its include lines. */
  ghost predicate HasBit(q: Query, m: Text, b: int)
    requires m in q.files
  {
    b in Direct(q, m) || exists s :: s in SubsFrom(q, q.files[m], 0) && b in s.perm
  }

  /** Some file that can be reached from `f` has bit `b`. */
  ghost predicate GrantsBit(q: Query, f: Text, b: int) {
    exists m :: Reach(IncludeGraph(q), f, m) && HasBit(q, m, b)
  }

  /** Bit `b` comes from a file that can be reached from `f`, or is a copy of the sign bit of a
      number that was kept in the history. */
  ghost predicate PromisesBit(q: Query, f: Text, b: int) {
    GrantsBit(q, f, b) || (16 <= b < 32 && GrantsBit(q, f, 15))
  }

  /** Without permissions on include lines only the values of files count. */
  lemma BareGrants(q: Query, f: Text, b: int)
    requires Bare(q)
    ensures GrantsBit(q, f, b) <==> MatchesBit(q, f, b)
  {
  }

  /** `v` promises no more than the files reachable from `f` give. */
  ghost predicate SoundValue(q: Query, f: Text, v: Bits, searchall: bool) {
    && (v != {} ==> f in IncludeGraph(q) && Matches(q, f))
    && (searchall ==> forall b :: b in v ==> PromisesBit(q, f, b))
  }

  ghost predicate Sound(q: Query, es: seq<Seen>, searchall: bool) {
    forall e :: e in es ==> SoundValue(q, e.name, e.num, searchall)
  }

  /** Of the file `n`, everything has been seen that the search still needs. */
  ghost predicate Done(q: Query, n: Text, seen: set<Text>, v: Bits, searchall: bool)
    requires n in IncludeGraph(q)
  {
    var g := IncludeGraph(q);
    && (v == {} ==> Direct(q, n) == {})
    && (searchall && Bare(q) ==> Direct(q, n) <= v)
    && (v == {} || searchall ==> forall c :: c in g[n] && c in g ==> c in seen)
  }

  /** The files entered between two histories are done. */
  ghost predicate Covered(q: Query, es: seq<Seen>, es': seq<Seen>, v: Bits, searchall: bool) {
    forall n :: n in Names(es') && n !in Names(es) && n in IncludeGraph(q) ==> Done(q, n, Names(es'), v, searchall)
  }

  lemma NamesGrow(es: seq<Seen>, es': seq<Seen>)
    requires es <= es'
    ensures Names(es) <= Names(es')
  {
    assert forall e :: e in es ==> e in es';
  }

  lemma NamesSnoc(es: seq<Seen>, e: Seen)
    ensures Names(es + [e]) == Names(es) + {e.name}
  {
    assert forall x :: x in es + [e] <==> x in es || x == e;
  }

  /** Changing the value of one entry leaves the names. */
  lemma NamesUpdate(es: seq<Seen>, k: nat, v: Bits)
    requires k < |es|
    ensures Names(es[k := Seen(es[k].name, v)]) == Names(es)
  {
    var es' := es[k := Seen(es[k].name, v)];
    forall i | 0 <= i < |es|
      ensures es[i].name in Names(es') && es'[i].name in Names(es)
    {
      assert es'[i] in es' && es[i] in es;
    }
  }

  /** More seen and a bigger value: what was covered stays covered. */
  lemma CoveredMore(q: Query, es: seq<Seen>, es': seq<Seen>, v: Bits, es'': seq<Seen>, v': Bits, searchall: bool)
    requires Covered(q, es, es', v, searchall) && Names(es') <= Names(es'')
    requires v <= v'
    requires searchall || v == {} || v' != {}
    requires Covered(q, es', es'', v', searchall)
    ensures Covered(q, es, es'', v', searchall)
  {
    forall n | n in Names(es'') && n !in Names(es) && n in IncludeGraph(q)
      ensures Done(q, n, Names(es''), v', searchall)
    {
      if n in Names(es') {
        assert Done(q, n, Names(es'), v, searchall);
      }
    }
  }

  /** What holds of an included file holds of the including one. */
  lemma SoundUp(q: Query, f: Text, c: Text, v: Bits, searchall: bool)
    requires f in IncludeGraph(q) && c in IncludeGraph(q)[f] && SoundValue(q, c, v, searchall)
    ensures SoundValue(q, f, v, searchall)
  {
    var g := IncludeGraph(q);
    if v != {} {
      var m :| Reach(g, c, m) && Direct(q, m) != {};
      ReachVia(g, f, c, m);
    }
    if searchall {
      forall b | GrantsBit(q, c, b)
        ensures GrantsBit(q, f, b)
      {
        var m :| Reach(g, c, m) && HasBit(q, m, b);
        ReachVia(g, f, c, m);
      }
    }
  }

  lemma SoundDirect(q: Query, f: Text, v: Bits, searchall: bool)
    requires f in IncludeGraph(q)
    requires v != {} ==> Direct(q, f) != {}
    requires searchall ==> v == Direct(q, f)
    ensures SoundValue(q, f, v, searchall)
  {
    ReachSelf(IncludeGraph(q), f);
  }

  /** Keeping a value in the history promises no more. */
  lemma SoundShort(q: Query, f: Text, v: Bits, searchall: bool)
    requires SoundValue(q, f, v, searchall)
    ensures SoundValue(q, f, Short(v), searchall)
  {
    hide Short, GrantsBit, Matches, IncludeGraph;
    ShortBits(v);
  }

  lemma ShortBits(v: Bits)
    ensures forall b :: b in Short(v) ==> b in v || (15 in v && 16 <= b < 32)
    ensures v == {} ==> Short(v) == {}
  {
  }

  /** One included file's value joins the value so far. */
  lemma SoundJoin(q: Query, f: Text, v: Bits, value: Bits, perm: Bits, searchall: bool)
    requires SoundValue(q, f, v, searchall) && SoundValue(q, f, value, searchall)
    requires f in IncludeGraph(q) && exists s :: s in SubsFrom(q, q.files[f], 0) && s.perm == perm
    ensures SoundValue(q, f, v + (if Positive(perm) && Positive(value) then perm else value), searchall)
  {
    hide SubsFrom, DirectFrom;
    ReachSelf(IncludeGraph(q), f);
    forall b | b in perm ensures GrantsBit(q, f, b) {
      assert HasBit(q, f, b);
    }
  }

  /** The file that the search of `file` starts with, if there is one here. */
  ghost predicate StartsAt(q: Query, file: Text, f: Text) {
    Resolve(q.me, file) == Some(f) && f in IncludeGraph(q)
  }

  /** What one call has established when it returns `v`. */
  ghost predicate Searched(q: Query, file: Text, es: seq<Seen>, es': seq<Seen>, v: Bits, searchall: bool) {
    && es <= es'
    && Sound(q, es', searchall)
    && Covered(q, es, es', v, searchall)
    && (forall f :: StartsAt(q, file, f) ==> f in Names(es') && SoundValue(q, f, v, searchall))
    && ((forall f :: !StartsAt(q, file, f)) ==> v == {})
  }

  lemma SearchedNothing(q: Query, file: Text, es: seq<Seen>, searchall: bool)
    requires Sound(q, es, searchall) && forall f :: !StartsAt(q, file, f)
    ensures Searched(q, file, es, es, {}, searchall)
  {
  }

  lemma SearchedBefore(q: Query, file: Text, f: Text, es: seq<Seen>, k: nat, searchall: bool)
    requires Sound(q, es, searchall) && Resolve(q.me, file) == Some(f) && k < |es| && es[k].name == f
    ensures Searched(q, file, es, es, es[k].num, searchall)
  {
    assert es[k] in es;
    if es[k].num != {} {
      assert StartsAt(q, file, f);
    }
  }

  lemma SearchedUnreadable(q: Query, file: Text, f: Text, es: seq<Seen>, searchall: bool)
    requires Sound(q, es, searchall) && Resolve(q.me, file) == Some(f) && f !in q.files
    ensures Searched(q, file, es, es + [Seen(file, {})], {}, searchall)
  {
    NamesSnoc(es, Seen(file, {}));
    assert file !in IncludeGraph(q);
  }

  lemma SearchedFirst(q: Query, file: Text, f: Text, es: seq<Seen>, v: Bits)
    requires Sound(q, es, false) && Resolve(q.me, file) == Some(f) && f in q.files
    requires v != {} && Direct(q, f) != {}
    ensures Searched(q, file, es, es + [Seen(f, ONE)], v, false)
  {
    var es' := es + [Seen(f, ONE)];
    assert StartsAt(q, file, f);
    NamesSnoc(es, Seen(f, ONE));
    SoundDirect(q, f, v, false);
    SoundDirect(q, f, ONE, false);
    assert Sound(q, es', false) by {
      assert forall e :: e in es' <==> e in es || e == Seen(f, ONE);
    }
    assert Done(q, f, Names(es'), v, false);
  }

  /** What holds after the first `k` of the included files have been searched. */
  ghost predicate Searching(q: Query, f: Text, es: seq<Seen>, now: seq<Seen>, subs: seq<Sub>, k: int, v: Bits, searchall: bool)
    requires f in IncludeGraph(q) && 0 <= k <= |subs|
  {
    var base := es + [Seen(f, {})];
    && base <= now
    && Sound(q, now, searchall)
    && SoundValue(q, f, v, searchall)
    && Covered(q, base, now, v, searchall)
    && (v == {} ==> Direct(q, f) == {})
    && (searchall ==> Direct(q, f) <= v)
    && (forall i, c :: 0 <= i < k && StartsAt(q, subs[i].target, c) ==> c in Names(now))
  }

  lemma SearchingStart(q: Query, f: Text, es: seq<Seen>, v: Bits, searchall: bool)
    requires f in IncludeGraph(q) && Sound(q, es, searchall)
    requires v != {} ==> Direct(q, f) != {}
    requires v == {} ==> Direct(q, f) == {}
    requires searchall ==> v == Direct(q, f)
    ensures Searching(q, f, es, es + [Seen(f, {})], SubsFrom(q, q.files[f], 0), 0, v, searchall)
  {
    SoundDirect(q, f, v, searchall);
  }

  lemma SearchingStep(q: Query, f: Text, es: seq<Seen>, now: seq<Seen>, k: nat, v: Bits,
                      now': seq<Seen>, value: Bits, searchall: bool)
    requires f in IncludeGraph(q)
    requires var subs := SubsFrom(q, q.files[f], 0);
             && k < |subs|
             && Searching(q, f, es, now, subs, k, v, searchall)
             && Searched(q, subs[k].target, now, now', value, searchall)
    requires searchall || v == {}
    ensures var subs := SubsFrom(q, q.files[f], 0);
            Searching(q, f, es, now', subs, k + 1, Joined(v, subs[k].perm, value), searchall)
  {
    var subs := SubsFrom(q, q.files[f], 0);
    var sub := subs[k];
    assert sub in subs;
    var gain := if Positive(sub.perm) && Positive(value) then sub.perm else value;
    var v' := v + gain;
    var base := es + [Seen(f, {})];
    NamesGrow(now, now');
    assert SoundValue(q, f, value, searchall) by {
      if c :| StartsAt(q, sub.target, c) {
        SoundUp(q, f, c, value, searchall);
      }
    }
    SoundJoin(q, f, v, value, sub.perm, searchall);
    assert Covered(q, now, now', v', searchall) by {
      forall n | n in Names(now') && n !in Names(now) && n in IncludeGraph(q)
        ensures Done(q, n, Names(now'), v', searchall)
      {
        assert Done(q, n, Names(now'), value, searchall);
      }
    }
    CoveredMore(q, base, now, v, now', v', searchall);
  }

  /** When every included file has been searched, or one matched and that is enough. */
  lemma SearchingEnd(q: Query, file: Text, f: Text, es: seq<Seen>, now: seq<Seen>, k: nat, v: Bits, searchall: bool)
    requires StartsAt(q, file, f) && f !in Names(es) && Sound(q, es, searchall)
    requires var subs := SubsFrom(q, q.files[f], 0);
             && k <= |subs|
             && Searching(q, f, es, now, subs, k, v, searchall)
             && (k == |subs| || (v != {} && !searchall))
    ensures |es| < |now| && Searched(q, file, es, now[|es| := Seen(f, Short(v))], v, searchall)
  {
    hide SubsFrom, DirectFrom, SoundValue;
    var g := IncludeGraph(q);
    var subs := SubsFrom(q, q.files[f], 0);
    var base := es + [Seen(f, {})];
    assert base[|es|] == now[|es|] == Seen(f, {});
    var end := now[|es| := Seen(f, Short(v))];
    NamesUpdate(now, |es|, Short(v));
    SoundShort(q, f, v, searchall);
    NamesSnoc(es, Seen(f, {}));
    assert es <= end by {
      assert forall i :: 0 <= i < |es| ==> es[i] == base[i] == now[i] == end[i];
    }
    assert Sound(q, end, searchall) by {
      forall e | e in end
        ensures SoundValue(q, e.name, e.num, searchall)
      {
        assert e == Seen(f, Short(v)) || e in now;
      }
    }
    assert f in Names(end) by { NamesGrow(base, now); }
    forall n | n in Names(end) && n !in Names(es) && n in g
      ensures Done(q, n, Names(end), v, searchall)
    {
      if n == f {
        if v == {} || searchall {
          forall c | c in g[f] && c in g
            ensures c in Names(end)
          {
            var s :| s in subs && Resolve(q.me, s.target) == Some(c);
            var i :| 0 <= i < |subs| && subs[i] == s;
            assert StartsAt(q, subs[i].target, c);
          }
        }
      } else {
        assert Done(q, n, Names(now), v, searchall);
      }
    }
  }

  // ------------------------------------------------------------- the search as a function

  /** Where the history has `f`, -1 if nowhere. */
  function Position(es: seq<Seen>, f: Text): (k: int)
    ensures -1 <= k < |es|
    ensures k >= 0 ==> es[k].name == f && forall i :: 0 <= i < k ==> es[i].name != f
    ensures k < 0 ==> forall i :: 0 <= i < |es| ==> es[i].name != f
  {
    if es == [] then -1
    else if es[0].name == f then 0
    else var k := Position(es[1..], f); if k < 0 then -1 else k + 1
  }

  lemma NotThere(es: seq<Seen>, f: Text)
    ensures Position(es, f) < 0 <==> f !in Names(es)
  {
    var k := Position(es, f);
    if k >= 0 { assert es[k] in es; }
  }

  lemma PositionIs(es: seq<Seen>, f: Text, k: nat)
    requires k <= |es| && (forall i :: 0 <= i < k ==> es[i].name != f) && (k < |es| ==> es[k].name == f)
    ensures Position(es, f) == if k < |es| then k else -1
  {
  }

  /** The value returned and the history left behind. */
  datatype Found = Found(v: Bits, seen: seq<Seen>)

  ghost function Search(q: Query, file: Text, es: seq<Seen>, searchall: bool): (r: Found)
    ensures es <= r.seen
    decreases IncludeGraph(q).Keys - Names(es), 1, 0
  {
    match Resolve(q.me, file)
    case None => Found({}, es)
    case Some(f) =>
      NotThere(es, f);
      var k := Position(es, f);
      if k >= 0 then Found(es[k].num, es)
      else if f !in q.files then Found({}, es + [Seen(file, {})])
      else SearchFile(q, f, es, searchall)
  }

  /** A file that is not in the history yet.  It is entered with the value 0 while the files
      that it includes are searched. */
  ghost function SearchFile(q: Query, f: Text, es: seq<Seen>, searchall: bool): (r: Found)
    requires f in IncludeGraph(q) && f !in Names(es)
    ensures es <= r.seen
    decreases IncludeGraph(q).Keys - Names(es), 0, 0
  {
    var m := Scanned(q, q.files[f], searchall);
    if m != {} && !searchall then Found(m, es + [Seen(f, ONE)])
    else
      NamesSnoc(es, Seen(f, {}));
      var r := SearchList(q, SubsFrom(q, q.files[f], 0), 0, es + [Seen(f, {})], m, searchall);
      Found(r.v, r.seen[|es| := Seen(f, Short(r.v))])
  }

  /** The included files from the k-th on. */
  ghost function SearchList(q: Query, subs: seq<Sub>, k: nat, es: seq<Seen>, v: Bits, searchall: bool): (r: Found)
    requires k <= |subs|
    ensures es <= r.seen
    decreases IncludeGraph(q).Keys - Names(es), 2, |subs| - k
  {
    if k == |subs| || (v != {} && !searchall) then Found(v, es)
    else
      var r := Search(q, subs[k].target, es, searchall);
      NamesGrow(es, r.seen);
      SearchList(q, subs, k + 1, r.seen, Joined(v, subs[k].perm, r.v), searchall)
  }

  /** A permission on the include line takes the place of what the file gives. */
  function Joined(v: Bits, perm: Bits, value: Bits): Bits {
    v + if Positive(perm) && Positive(value) then perm else value
  }

  // ------------------------------------------------------------- it finds what is reachable

  lemma {:induction false} SearchFinds(q: Query, file: Text, es: seq<Seen>, searchall: bool)
    requires Sound(q, es, searchall)
    ensures var r := Search(q, file, es, searchall); Searched(q, file, es, r.seen, r.v, searchall)
    decreases IncludeGraph(q).Keys - Names(es), 1, 0
  {
    hide Searched, Sound, IncludeGraph;
    match Resolve(q.me, file)
    case None => SearchedNothing(q, file, es, searchall);
    case Some(f) =>
      NotThere(es, f);
      var k := Position(es, f);
      if k >= 0 {
        SearchedBefore(q, file, f, es, k, searchall);
      } else if f !in q.files {
        SearchedUnreadable(q, file, f, es, searchall);
      } else {
        InGraph(q, file, f);
        SearchFileFinds(q, file, f, es, searchall);
      }
  }

  lemma InFiles(q: Query, f: Text)
    requires f in IncludeGraph(q)
    ensures f in q.files
  {
  }

  lemma InGraph(q: Query, file: Text, f: Text)
    requires Resolve(q.me, file) == Some(f) && f in q.files
    ensures StartsAt(q, file, f) && f in IncludeGraph(q)
  {
  }

  lemma {:induction false} SearchFileFinds(q: Query, file: Text, f: Text, es: seq<Seen>, searchall: bool)
    requires Sound(q, es, searchall) && StartsAt(q, file, f) && f !in Names(es)
    ensures var r := SearchFile(q, f, es, searchall); Searched(q, file, es, r.seen, r.v, searchall)
    decreases IncludeGraph(q).Keys - Names(es), 0, 0
  {
    hide Searched, Sound, Searching, SubsFrom, DirectFrom, FirstFrom;
    var m, subs := Scanned(q, q.files[f], searchall), SubsFrom(q, q.files[f], 0);
    FirstIsSome(q, q.files[f], 0);
    if m != {} && !searchall {
      SearchedFirst(q, file, f, es, m);
    } else {
      SearchingStart(q, f, es, m, searchall);
      NamesSnoc(es, Seen(f, {}));
      var k := SearchListFinds(q, f, es, 0, es + [Seen(f, {})], m, searchall);
      var r := SearchList(q, subs, 0, es + [Seen(f, {})], m, searchall);
      SearchingEnd(q, file, f, es, r.seen, k, r.v, searchall);
    }
  }

  lemma {:induction false} SearchListFinds(q: Query, f: Text, es: seq<Seen>, k: nat, now: seq<Seen>, v: Bits, searchall: bool)
    returns (end: nat)
    requires f in IncludeGraph(q) && k <= |SubsFrom(q, q.files[f], 0)|
    requires Searching(q, f, es, now, SubsFrom(q, q.files[f], 0), k, v, searchall)
    ensures var subs := SubsFrom(q, q.files[f], 0);
            var r := SearchList(q, subs, k, now, v, searchall);
            && end <= |subs| && (end == |subs| || (r.v != {} && !searchall))
            && Searching(q, f, es, r.seen, subs, end, r.v, searchall)
    decreases IncludeGraph(q).Keys - Names(now), 2, |SubsFrom(q, q.files[f], 0)| - k
  {
    hide Searched, Searching, SubsFrom, IncludeGraph;
    InFiles(q, f);
    var subs := SubsFrom(q, q.files[f], 0);
    if k == |subs| || (v != {} && !searchall) {
      end := k;
    } else {
      SearchingSound(q, f, es, now, k, v, searchall);
      SearchFinds(q, subs[k].target, now, searchall);
      var r := Search(q, subs[k].target, now, searchall);
      SearchingStep(q, f, es, now, k, v, r.seen, r.v, searchall);
      NamesGrow(now, r.seen);
      end := SearchListFinds(q, f, es, k + 1, r.seen, Joined(v, subs[k].perm, r.v), searchall);
    }
  }

  lemma SearchingSound(q: Query, f: Text, es: seq<Seen>, now: seq<Seen>, k: nat, v: Bits, searchall: bool)
    requires f in IncludeGraph(q) && k <= |SubsFrom(q, q.files[f], 0)|
    requires Searching(q, f, es, now, SubsFrom(q, q.files[f], 0), k, v, searchall)
    ensures Sound(q, now, searchall)
  {
  }

  // ------------------------------------------------------------- the code

  /** Where the history has `filename`, -1 if nowhere. */
  method Lookup(groups: History, filename: Text) returns (k: int)
    ensures k == Position(groups.entries, filename)
  {
    k := 0;
    while k < |groups.entries|
      invariant 0 <= k <= |groups.entries|
      invariant forall i :: 0 <= i < k ==> groups.entries[i].name != filename
    {
      if groups.entries[k].name == filename {
        PositionIs(groups.entries, filename, k);
        return;
      }
      k := k + 1;
    }
    k := -1;
  }

  /** The recursive search.  It ends on every include graph, cyclic ones too: each call that
      goes on adds a readable file to the history. */
  method GroupMatch(q: Query, file: Text, groups: History, searchall: bool) returns (v: Bits)
    modifies groups
    ensures Found(v, groups.entries) == Search(q, file, old(groups.entries), searchall)
    decreases IncludeGraph(q).Keys - Names(groups.entries), 1
  {
    hide IncludeGraph;
    var resolved := Resolve(q.me, file);
    if resolved == None { return {}; }
    var filename := resolved.value;
    var k := Lookup(groups, filename);
    if k >= 0 { return groups.entries[k].num; }
    NotThere(groups.entries, filename);
    if filename !in q.files {
      groups.entries := groups.entries + [Seen(file, {})];
      return {};
    }
    InGraph(q, file, filename);
    v := SearchNewFile(q, filename, groups, searchall);
  }

  /** A file that is not in the history yet. */
  method SearchNewFile(q: Query, filename: Text, groups: History, searchall: bool) returns (v: Bits)
    requires filename in IncludeGraph(q) && filename !in Names(groups.entries)
    modifies groups
    ensures Found(v, groups.entries) == SearchFile(q, filename, old(groups.entries), searchall)
    decreases IncludeGraph(q).Keys - Names(groups.entries), 0
  {
    hide SubsFrom, Scanned, Short, Search, SearchList;
    var match_, searchlist := ScanGroupFile(q, q.files[filename], searchall);
    if match_ != {} && !searchall {
      groups.entries := groups.entries + [Seen(filename, ONE)];
      return match_;
    }
    NamesSnoc(groups.entries, Seen(filename, {}));
    groups.entries := groups.entries + [Seen(filename, {})];
    var g := |groups.entries| - 1;
    v := SearchSubs(q, groups, searchlist, match_, searchall);
    groups.entries := groups.entries[g := Seen(filename, Short(v))];
  }

  /** The files included by `filename`, one after the other. */
  method SearchSubs(q: Query, groups: History, searchlist: seq<Sub>, found: Bits, searchall: bool)
    returns (match_: Bits)
    modifies groups
    ensures Found(match_, groups.entries) == SearchList(q, searchlist, 0, old(groups.entries), found, searchall)
    decreases IncludeGraph(q).Keys - Names(groups.entries), 2
  {
    hide IncludeGraph, Search;
    match_ := found;
    var i := 0;
    while i < |searchlist| && (match_ == {} || searchall)
      invariant 0 <= i <= |searchlist|
      invariant SearchList(q, searchlist, i, groups.entries, match_, searchall)
             == SearchList(q, searchlist, 0, old(groups.entries), found, searchall)
      invariant Names(old(groups.entries)) <= Names(groups.entries)
    {
      var sub := searchlist[i];
      ghost var now := groups.entries;
      var value := GroupMatch(q, sub.target, groups, searchall);
      NamesGrow(now, groups.entries);
      match_ := Joined(match_, sub.perm, value);
      i := i + 1;
    }
  }

  /** A file reachable from where the search of `file` starts matches with bit `b`. */
  ghost predicate Gives(q: Query, file: Text, b: int) {
    exists f :: StartsAt(q, file, f) && MatchesBit(q, f, b)
  }

  /** A search that starts with no history.  On every include graph the answer is nonzero
      exactly when a reachable file matches.  Searching everything, and with no permissions on
      the include lines, no bit of a reachable file is lost, and the only bits added are copies
      of bit 15; so it is the bitwise or of all values if that has bits 16 to 31 whenever it
      has bit 15. */
  method GroupMatchAll(q: Query, file: Text, searchall: bool) returns (v: Bits)
    ensures v == Search(q, file, [], searchall).v
    ensures v != {} <==> exists f :: StartsAt(q, file, f) && Matches(q, f)
    ensures searchall ==> forall b :: b in v ==> exists f :: StartsAt(q, file, f) && PromisesBit(q, f, b)
    ensures searchall && Bare(q) ==> forall b :: Gives(q, file, b) ==> b in v
    ensures searchall && Bare(q) ==> forall b :: b in v ==> Gives(q, file, b) || (16 <= b < 32 && Gives(q, file, 15))
    ensures searchall && Bare(q) && (Gives(q, file, 15) ==> forall b :: 16 <= b < 32 ==> Gives(q, file, b)) ==>
              forall b :: b in v <==> Gives(q, file, b)
  {
    var groups := new History();
    v := GroupMatch(q, file, groups, searchall);
    FromScratch(q, file, searchall);
  }

  lemma FromScratch(q: Query, file: Text, searchall: bool)
    ensures var v := Search(q, file, [], searchall).v;
            && (v != {} <==> exists f :: StartsAt(q, file, f) && Matches(q, f))
            && (searchall ==> forall b :: b in v ==> exists f :: StartsAt(q, file, f) && PromisesBit(q, f, b))
            && (searchall && Bare(q) ==>
                  && (forall b :: Gives(q, file, b) ==> b in v)
                  && (forall b :: b in v ==> Gives(q, file, b) || (16 <= b < 32 && Gives(q, file, 15))))
  {
    hide Search;
    var r := Search(q, file, [], searchall);
    SearchFinds(q, file, [], searchall);
    Everywhere(q, file, r.seen, r.v, searchall);
    if f :| StartsAt(q, file, f) {
      assert forall f' :: StartsAt(q, file, f') ==> f' == f;
      if Bare(q) {
        forall b ensures GrantsBit(q, f, b) <==> MatchesBit(q, f, b) { BareGrants(q, f, b); }
      }
    }
  }

  /** With no history to start from, the search has been everywhere. */
  lemma Everywhere(q: Query, file: Text, es: seq<Seen>, v: Bits, searchall: bool)
    requires Searched(q, file, [], es, v, searchall)
    ensures forall f :: StartsAt(q, file, f) ==> SoundValue(q, f, v, searchall) && (Matches(q, f) ==> v != {})
    ensures forall f :: StartsAt(q, file, f) && searchall && Bare(q) ==> forall b :: MatchesBit(q, f, b) ==> b in v
    ensures (forall f :: !StartsAt(q, file, f)) ==> v == {}
  {
    var g := IncludeGraph(q);
    if f :| StartsAt(q, file, f) {
      assert forall f' :: StartsAt(q, file, f') ==> f' == f;
      assert Names([]) == {};
      if v == {} || searchall {
        forall n, c | n in Names(es) && n in g && c in g[n] && c in g
          ensures c in Names(es)
        {
          assert Done(q, n, Names(es), v, searchall);
        }
        ClosedHoldsReach(g, Names(es), f);
        forall m | Reach(g, f, m)
          ensures m in g && Done(q, m, Names(es), v, searchall)
        {
          var p :| PathBetween(g, p, f, m);
        }
      }
    }
  }

  // ------------------------------------------------------------- what each line contributes

  /** What an include line with permission `perm` gives when the file it names has `value`. */
  ghost predicate LineGives(perm: Bits, value: Bits, gain: Bits) {
    && (Positive(perm) && Positive(value) ==> gain == perm)
    && (!(Positive(perm) && Positive(value)) ==> gain == value)
  }

  /** The searches that a file makes: the k-th include line, searched with the history that the
      lines before it have left, has the value `vals[k]` and gives `gains[k]`. */
  ghost predicate Searches(q: Query, subs: seq<Sub>, from: nat, hists: seq<seq<Seen>>, vals: seq<Bits>,
                           gains: seq<Bits>, searchall: bool)
  {
    && from + |vals| <= |subs| && |hists| == |vals| + 1 && |gains| == |vals|
    && forall k :: 0 <= k < |vals| ==>
         && Search(q, subs[from + k].target, hists[k], searchall) == Found(vals[k], hists[k + 1])
         && LineGives(subs[from + k].perm, vals[k], gains[k])
  }

  lemma SearchesCons(q: Query, subs: seq<Sub>, from: nat, es: seq<Seen>, r: Found, gain: Bits, h: seq<seq<Seen>>,
                     w: seq<Bits>, g: seq<Bits>, searchall: bool)
    requires from < |subs| && r == Search(q, subs[from].target, es, searchall)
    requires LineGives(subs[from].perm, r.v, gain)
    requires Searches(q, subs, from + 1, h, w, g, searchall) && h[0] == r.seen
    ensures Searches(q, subs, from, [es] + h, [r.v] + w, [gain] + g, searchall)
  {
    hide Search, LineGives;
    var hists, vals, gains := [es] + h, [r.v] + w, [gain] + g;
    forall k | 0 <= k < |vals|
      ensures Search(q, subs[from + k].target, hists[k], searchall) == Found(vals[k], hists[k + 1])
      ensures LineGives(subs[from + k].perm, vals[k], gains[k])
    {
      if k > 0 { assert subs[from + k] == subs[from + 1 + (k - 1)]; }
    }
  }

  lemma GainsCons(v: Bits, gain: Bits, g: seq<Bits>, b: int)
    ensures (b in v + gain || exists k :: 0 <= k < |g| && b in g[k])
            <==> b in v || exists k :: 0 <= k < |[gain] + g| && b in ([gain] + g)[k]
  {
    var gains := [gain] + g;
    if k :| 0 <= k < |g| && b in g[k] { assert b in gains[k + 1]; }
    if k :| 0 <= k < |gains| && b in gains[k] {
      if k > 0 { assert b in g[k - 1]; }
    }
    assert gains[0] == gain;
  }

  /** The include lines from `from` on: all are searched, or without `searchall` those up to the
      first that gives something; the value is what was there, and what they give. */
  lemma {:induction false} ListValue(q: Query, subs: seq<Sub>, from: nat, es: seq<Seen>, v: Bits, searchall: bool)
    returns (hists: seq<seq<Seen>>, vals: seq<Bits>, gains: seq<Bits>)
    requires from <= |subs|
    ensures Searches(q, subs, from, hists, vals, gains, searchall) && hists[0] == es
    ensures var r := SearchList(q, subs, from, es, v, searchall);
            && r.seen == hists[|vals|]
            && (forall b :: b in r.v <==> b in v || exists k :: 0 <= k < |gains| && b in gains[k])
            && (searchall || (v == {} && r.v == {}) ==> from + |vals| == |subs|)
            && (!searchall ==> forall k :: 0 <= k < |gains| - 1 ==> gains[k] == {})
            && (!searchall && v != {} ==> |vals| == 0)
    decreases |subs| - from
  {
    hide Search, Positive;
    if from == |subs| || (v != {} && !searchall) {
      hists, vals, gains := [es], [], [];
    } else {
      var r := Search(q, subs[from].target, es, searchall);
      var gain := if Positive(subs[from].perm) && Positive(r.v) then subs[from].perm else r.v;
      var h, w, g := ListValue(q, subs, from + 1, r.seen, v + gain, searchall);
      hists, vals, gains := [es] + h, [r.v] + w, [gain] + g;
      SearchesCons(q, subs, from, es, r, gain, h, w, g, searchall);
      forall b ensures (b in v + gain || exists k :: 0 <= k < |g| && b in g[k])
                       <==> b in v || exists k :: 0 <= k < |gains| && b in gains[k]
      {
        GainsCons(v, gain, g, b);
      }
      if !searchall {
        forall k | 0 <= k < |gains| - 1 ensures gains[k] == {} {
          if k > 0 { assert gains[k] == g[k - 1]; }
        }
      }
    }
  }

  /** What a search of a file finds that is not in the history: the file's own value, and what
      its include lines give. */
  lemma FileValue(q: Query, file: Text, f: Text, es: seq<Seen>, searchall: bool)
    returns (hists: seq<seq<Seen>>, vals: seq<Bits>, gains: seq<Bits>)
    requires Resolve(q.me, file) == Some(f) && f in q.files && f !in Names(es)
    ensures var r, subs := Search(q, file, es, searchall), SubsFrom(q, q.files[f], 0);
            var own := if searchall then Direct(q, f) else FirstFrom(q, q.files[f], 0);
            && Searches(q, subs, 0, hists, vals, gains, searchall) && hists[0] == es + [Seen(f, {})]
            && (forall b :: b in r.v <==> b in own || exists k :: 0 <= k < |gains| && b in gains[k])
            && (searchall || r.v == {} ==> |vals| == |subs|)
            && (!searchall ==> forall k :: 0 <= k < |gains| - 1 ==> gains[k] == {})
            && (!searchall && own != {} ==> |vals| == 0 && r.seen == es + [Seen(f, ONE)])
            && (searchall || own == {} ==> |es| < |hists[|vals|]| && r.seen == hists[|vals|][|es| := Seen(f, Short(r.v))])
  {
    hide Search, SearchList, SubsFrom, DirectFrom, FirstFrom, Short;
    InGraph(q, file, f);
    SearchIsFile(q, file, f, es, searchall);
    var own, start := Scanned(q, q.files[f], searchall), es + [Seen(f, {})];
    hists, vals, gains := ListValue(q, SubsFrom(q, q.files[f], 0), 0, start, own, searchall);
  }

  lemma SearchIsFile(q: Query, file: Text, f: Text, es: seq<Seen>, searchall: bool)
    requires Resolve(q.me, file) == Some(f) && f in q.files && f !in Names(es)
    ensures f in IncludeGraph(q) && Search(q, file, es, searchall) == SearchFile(q, f, es, searchall)
  {
    hide SearchFile;
    InGraph(q, file, f);
    NotThere(es, f);
  }

  /** The other cases: a file on another host, one that the history has, and one that cannot be
      read, which is entered under the name it was asked for. */
  lemma NotSearched(q: Query, file: Text, es: seq<Seen>, searchall: bool)
    ensures var r, f := Search(q, file, es, searchall), Resolve(q.me, file);
            && (f == None ==> r == Found({}, es))
            && (f.Some? && f.value !in Names(es) && f.value !in q.files ==> r == Found({}, es + [Seen(file, {})]))
            && (forall k :: 0 <= k < |es| && f == Some(es[k].name) && (forall i :: 0 <= i < k ==> es[i].name != es[k].name) ==>
                  r == Found(es[k].num, es))
  {
    hide SearchFile;
    var f := Resolve(q.me, file);
    if f.Some? {
      NotThere(es, f.value);
      forall k | 0 <= k < |es| && f == Some(es[k].name) && (forall i :: 0 <= i < k ==> es[i].name != es[k].name)
        ensures Position(es, f.value) == k
      {
        PositionIs(es, f.value, k);
      }
    }
  }

  /** A file of one include line and no match of its own gives the permission on the line if the
      included file, and the permission, are above zero; otherwise what the included file gives. */
  lemma PermissionOverrides(q: Query, file: Text, f: Text, es: seq<Seen>, target: Text, perm: Bits)
    requires Resolve(q.me, file) == Some(f) && f in q.files && f !in Names(es)
    requires Direct(q, f) == {} && SubsFrom(q, q.files[f], 0) == [Sub(target, perm)]
    ensures var value := Search(q, target, es + [Seen(f, {})], true).v;
            Search(q, file, es, true).v == if Positive(perm) && Positive(value) then perm else value
  {
    hide Search, SubsFrom, DirectFrom, FirstFrom, Short;
    var hists, vals, gains := FileValue(q, file, f, es, true);
    assert |vals| == 1 && Search(q, target, hists[0], true) == Found(vals[0], hists[1]);
    assert LineGives(perm, vals[0], gains[0]);
    var v := Search(q, file, es, true).v;
    assert forall b :: b in v <==> b in gains[0];
  }
}
