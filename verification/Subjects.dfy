/** Lists of items as text: `send_subjects` writes them, `scan_subject` reads them on
    another host. */
module Subjects {
  import opened Text
  import opened Lines
  import opened Numbers
  import opened Identity
  import opened Network

  // ------------------------------------------------------------- writing

  /** "+<number>@<host>" */
  function ItemWord(id: Id): Text
    requires id.num >= 0
  {
    [PLUS] + Decimal(id.num) + [AT] + id.host
  }

  /** Numbers that can be printed: no import has a negative one. */
  ghost predicate Printable(tab: Table) {
    Linked(tab) && forall i :: 0 <= i < |tab.items| ==> tab.items[i].orighost > 0 ==> tab.items[i].origitem >= 0
  }

  /** The lines for the found items from `i` on. */
  ghost function ListedLines(me: Text, tab: Table, found: seq<int>, i: int): seq<Text>
    requires Printable(tab) && |found| == |tab.items| + 1 && 1 <= i
    decreases |tab.items| - i
  {
    if i > |tab.items| then []
    else (if found[i] >= 0 then [[SPACE] + ItemWord(OrigIdentity(me, tab, i))] else [])
         + ListedLines(me, tab, found, i + 1)
  }

  lemma ItemLine(id: Id)
    requires id.num >= 0
    ensures [SPACE, PLUS] + Decimal(id.num) + [AT] + id.host + [NEWLINE] == [SPACE] + ItemWord(id) + [NEWLINE]
  {
  }

  lemma PrintableId(me: Text, tab: Table, i: int)
    requires Printable(tab) && 1 <= i <= |tab.items|
    ensures OrigIdentity(me, tab, i).num >= 0
  {
  }

  /** The loop that builds the text of one subject: `found[i] >= 0` marks item `i`. */
  method SubjectText(m: Master, found: seq<int>) returns (ctext: Text)
    requires m.Valid() && Printable(m.Model()) && |found| == m.items + 1
    ensures ctext == Unlines(ListedLines(m.me, m.Model(), found, 1))
  {
    hide Master.Model, Master.Valid, OrigIdentity, Decimal, Linked, ItemWord;
    ctext := [];
    ghost var all := ListedLines(m.me, m.Model(), found, 1);
    ghost var done: seq<Text> := [];
    var i := 1;
    while i <= m.items
      invariant 1 <= i <= m.items + 1
      invariant all == done + ListedLines(m.me, m.Model(), found, i)
      invariant ctext == Unlines(done)
    {
      if found[i] >= 0 {
        PrintableId(m.me, m.Model(), i);
        var id := m.GetOItem(i);
        ghost var line := [SPACE] + ItemWord(id);
        UnlinesConcat(done, [line]);
        assert Unlines([line]) == line + [NEWLINE];
        done := done + [line];
        var itemhost := [SPACE, PLUS] + Decimal(id.num) + [AT] + id.host + [NEWLINE];
        ItemLine(id);
        ctext := ctext + itemhost;
      }
      i := i + 1;
    }
    assert all == done;
  }

  // ------------------------------------------------------------- reading

  /** Local number of the item a word names, as `scan_subject` works it out. */
  function WordLocal(me: Text, tab: Table, w: Text, blanks: set<int>): int {
    var k := Index(w, 0, [AT]);
    var citem := if k < 0 then w else w[..k];
    var chost := if k < 0 then [] else w[k + 1..];
    var oitem := Int4(citem, 0, blanks).0;
    ToLocal(me, tab, Id(chost, if oitem < 0 then -oitem else oitem)).1
  }

  predicate Marks(me: Text, tab: Table, w: Text, sign: int, blanks: set<int>) {
    w != [] && w[0] == sign && WordLocal(me, tab, w, blanks) > 0
  }

  function MarkedBy(me: Text, tab: Table, ws: seq<Text>, sign: int, blanks: set<int>): set<int> {
    set w | w in ws && Marks(me, tab, w, sign, blanks) :: WordLocal(me, tab, w, blanks)
  }

  function LineWords(ls: seq<Text>, blanks: set<int>): seq<Text> {
    if ls == [] then [] else Words(ls[0], blanks) + LineWords(ls[1..], blanks)
  }

  /** The items that `csubj` marks on host `me`. */
  function Marked(me: Text, tab: Table, csubj: Text, sign: int, blanks: set<int>): set<int> {
    MarkedBy(me, tab, LineWords(LinesOf(csubj), blanks), sign, blanks)
  }

  lemma MarkedBySnoc(me: Text, tab: Table, ws: seq<Text>, w: Text, sign: int, blanks: set<int>)
    ensures MarkedBy(me, tab, ws + [w], sign, blanks)
            == MarkedBy(me, tab, ws, sign, blanks)
               + (if Marks(me, tab, w, sign, blanks) then {WordLocal(me, tab, w, blanks)} else {})
  {
    assert forall v :: v in ws + [w] <==> v in ws || v == w;
  }

  lemma SplitAt(w: Text, fore: Text, aft: Text, ok: bool)
    requires ok <==> Index(w, 0, [AT]) >= 0
    requires ok ==> w == fore + [AT] + aft && |fore| == Index(w, 0, [AT])
    requires !ok ==> fore == w && aft == []
    ensures ok ==> w[..Index(w, 0, [AT])] == fore && w[Index(w, 0, [AT]) + 1..] == aft
  {
  }

  /** One word of `scan_subject`: the item it marks, 0 if none. */
  method ScanWord(m: Master, word: Text, sign: int, blanks: set<int>) returns (local: int)
    requires m.Valid() && word != []
    ensures local > 0 <==> Marks(m.me, m.Model(), word, sign, blanks)
    ensures local > 0 ==> local == WordLocal(m.me, m.Model(), word, blanks)
  {
    hide Int4, Index, FirstImport, Master.Valid, Master.Model, ToLocal;
    if word[0] != sign { return 0; }
    var ok, citem, chost := ChxBreak(word, [AT]);
    var oitem, _ := ChxInt4(citem, 0, blanks);
    WordLocalIs(m.me, m.Model(), word, citem, chost, ok, blanks);
    if oitem < 0 { oitem := -oitem; }
    var _, number := m.IorigToLocal(Id(chost, oitem));
    local := number;
  }

  /** The number that the two parts of a word stand for. */
  lemma WordLocalIs(me: Text, tab: Table, w: Text, citem: Text, chost: Text, ok: bool, blanks: set<int>)
    requires ok <==> Index(w, 0, [AT]) >= 0
    requires ok ==> w == citem + [AT] + chost && |citem| == Index(w, 0, [AT])
    requires !ok ==> citem == w && chost == []
    ensures var oitem := Int4(citem, 0, blanks).0;
            WordLocal(me, tab, w, blanks) == ToLocal(me, tab, Id(chost, if oitem < 0 then -oitem else oitem)).1
  {
    hide Int4, Index, ToLocal;
    SplitAt(w, citem, chost, ok);
  }

  /** One line of `scan_subject`: every word of it. */
  method ScanLine(m: Master, line: Text, sign: int, blanks: set<int>, marked: set<int>, ghost before: seq<Text>)
    returns (range: set<int>)
    requires m.Valid() && marked == MarkedBy(m.me, m.Model(), before, sign, blanks)
    ensures range == MarkedBy(m.me, m.Model(), before + Words(line, blanks), sign, blanks)
  {
    range := marked;
    var i := 1;
    ghost var ws := Words(line, blanks);
    WordListIsWordsFrom(line, 0, blanks);
    WordsAreWords(line, blanks);
    ghost var done := before;
    while true
      invariant 1 <= i <= |ws| + 1
      invariant done == before + ws[..i - 1]
      invariant range == MarkedBy(m.me, m.Model(), done, sign, blanks)
      decreases |ws| - i
    {
      var start, word, _ := ChxToken(i, line, blanks);
      if start == -1 { break; }
      assert word == ws[i - 1] && IsWord(ws[i - 1], blanks);
      var local := ScanWord(m, word, sign, blanks);
      MarkedBySnoc(m.me, m.Model(), done, word, sign, blanks);
      done := done + [word];
      if local > 0 { range := range + {local}; }
      i := i + 1;
    }
    assert ws[..i - 1] == ws;
  }

  /** `range[local]` is set for exactly the items marked; the result says if any was. */
  method ScanSubject(m: Master, csubj: Text, sign: int, blanks: set<int>) returns (range: set<int>, any: bool)
    requires m.Valid()
    ensures range == Marked(m.me, m.Model(), csubj, sign, blanks)
    ensures any <==> range != {}
  {
    range := {};
    var pos := 0;
    ghost var before: seq<Text> := [];
    ghost var all := LineWords(LinesOf(csubj), blanks);
    while true
      invariant 0 <= pos <= |csubj|
      invariant all == before + LineWords(LinesFrom(csubj, pos), blanks)
      invariant range == MarkedBy(m.me, m.Model(), before, sign, blanks)
      decreases |csubj| - pos
    {
      var code, line, newpos := ChxNextLine(csubj, pos);
      if code == 0 { break; }
      range := ScanLine(m, line, sign, blanks, range, before);
      assert LinesFrom(csubj, pos)[1..] == LinesFrom(csubj, newpos);
      before := before + Words(line, blanks);
      pos := newpos;
    }
    assert all == before;
    any := range != {};
  }

  // ------------------------------------------------------------- from host to host

  /** Blank tables the printed words survive: the newline is in them, the characters of
      "+<number>@" are not.  Both of the library's tables qualify. */
  predicate PlainBlanks(blanks: set<int>) {
    SPACE in blanks && NEWLINE in blanks && PLUS !in blanks && AT !in blanks
    && forall c :: c in blanks ==> !Digit(c)
  }

  lemma LibraryBlanksArePlain()
    ensures PlainBlanks(ASCII_BLANKS) && PlainBlanks(JIX_BLANKS)
  {
  }

  lemma ItemWordIsWord(id: Id, blanks: set<int>)
    requires id.num >= 0 && PlainBlanks(blanks) && IsWord(id.host, blanks)
    ensures IsWord(ItemWord(id), blanks) && NoNewline([SPACE] + ItemWord(id))
    ensures Words([SPACE] + ItemWord(id), blanks) == [ItemWord(id)]
  {
    var w := ItemWord(id);
    var d := Decimal(id.num);
    forall k | 0 <= k < |w|
      ensures w[k] !in blanks
    {
      if k == 0 {
      } else if k < 1 + |d| {
        assert w[k] == d[k - 1];
      } else if k == 1 + |d| {
      } else {
        assert w[k] == id.host[k - 2 - |d|];
      }
    }
    WordsConcat([SPACE], w, blanks);
    BlankHasNoWords(SPACE, blanks);
    OneWord(w, blanks);
    assert [] + [w] == [w];
  }

  /** A printed word is read as the identity it was printed from. */
  lemma ItemWordLocal(me: Text, tab: Table, id: Id, blanks: set<int>)
    requires id.num >= 0 && PlainBlanks(blanks)
    ensures WordLocal(me, tab, ItemWord(id), blanks) == ToLocal(me, tab, id).1
  {
    var w := ItemWord(id);
    var fore := [PLUS] + Decimal(id.num);
    assert w == fore + [AT] + id.host;
    assert AT !in fore;
    BreakAtFirst(fore, AT, id.host);
    assert w[..|fore|] == fore && w[|fore| + 1..] == id.host;
    SignedDecimal(id.num, blanks);
  }

  /** Item `i` is among the found ones. */
  ghost predicate Listed(tab: Table, found: seq<int>, i: int) {
    1 <= i <= |tab.items| && i < |found| && found[i] >= 0
  }

  /** The words of the listing are the printed identities of the found items. */
  lemma {:induction false} ListingWords(me: Text, tab: Table, found: seq<int>, i: int, blanks: set<int>)
    requires Printable(tab) && |found| == |tab.items| + 1 && 1 <= i <= |tab.items| + 1
    requires PlainBlanks(blanks)
    requires forall k :: 1 <= k <= |tab.items| ==> IsWord(OrigIdentity(me, tab, k).host, blanks)
    ensures var ls := ListedLines(me, tab, found, i);
            && NoNewlines(ls)
            && (forall w :: w in LineWords(ls, blanks) ==>
                  exists k :: i <= k && Listed(tab, found, k) && w == ItemWord(OrigIdentity(me, tab, k)))
            && (forall k :: i <= k && Listed(tab, found, k) ==>
                  ItemWord(OrigIdentity(me, tab, k)) in LineWords(ls, blanks))
    decreases |tab.items| - i
  {
    if i <= |tab.items| {
      ListingWords(me, tab, found, i + 1, blanks);
      var ls, rest := ListedLines(me, tab, found, i), ListedLines(me, tab, found, i + 1);
      if found[i] >= 0 {
        var id := OrigIdentity(me, tab, i);
        ItemWordIsWord(id, blanks);
        assert ls[1..] == rest;
        assert LineWords(ls, blanks) == [ItemWord(id)] + LineWords(rest, blanks);
        assert Listed(tab, found, i);
      } else {
        assert ls == rest;
      }
    }
  }

  /** The word printed for item `k` of host `a` is read on host `b` as `b`'s copy of it. */
  lemma ItemWordTravels(s: Net, a: Text, k: int, b: Text, blanks: set<int>)
    requires NetInv(s) && a in s.tables && b in s.tables && PlainBlanks(blanks)
    requires Printable(s.tables[a]) && Linked(s.tables[b]) && 1 <= k <= |s.tables[a].items|
    ensures var id := OrigIdentity(a, s.tables[a], k);
            var local := WordLocal(b, s.tables[b], ItemWord(id), blanks);
            && 0 <= local <= |s.tables[b].items|
            && (local > 0 ==> OrigIdentity(b, s.tables[b], local) == id)
            && (local == 0 ==> forall i :: 1 <= i <= |s.tables[b].items| ==> OrigIdentity(b, s.tables[b], i) != id)
  {
    var id := OrigIdentity(a, s.tables[a], k);
    assert Authentic(s, id);
    ItemWordLocal(b, s.tables[b], id, blanks);
    IdentityOfToLocal(s, b, id);
  }

  /** In a reachable network every item can be printed, as a single word. */
  lemma PrintableHost(s: Net, a: Text, blanks: set<int>)
    requires NetInv(s) && a in s.tables && forall h :: h in s.tables ==> IsWord(h, blanks)
    ensures HostInv(a, s.tables[a]) && Printable(s.tables[a])
    ensures forall k :: 1 <= k <= |s.tables[a].items| ==> IsWord(OrigIdentity(a, s.tables[a], k).host, blanks)
  {
    var tab := s.tables[a];
    assert HostInv(a, tab);
    assert forall i :: 0 <= i < |tab.items| ==> EntryOk(tab.items[i], |tab.hostnames|);
    forall k | 1 <= k <= |tab.items|
      ensures IsWord(OrigIdentity(a, tab, k).host, blanks)
    {
      assert Authentic(s, OrigIdentity(a, tab, k));
    }
  }

  /** What host `a` prints, host `b` reads as exactly its own copies of the items listed:
      item `j` of `b` is marked if and only if it has the identity of a listed item of `a`. */
  lemma SubjectsTravel(s: Net, a: Text, found: seq<int>, b: Text, j: int, blanks: set<int>)
    requires NetInv(s) && a in s.tables && b in s.tables && |found| == |s.tables[a].items| + 1
    requires PlainBlanks(blanks) && forall h :: h in s.tables ==> IsWord(h, blanks)
    ensures Printable(s.tables[a]) && Linked(s.tables[b])
    ensures j in Marked(b, s.tables[b], Unlines(ListedLines(a, s.tables[a], found, 1)), PLUS, blanks)
            <==> 1 <= j <= |s.tables[b].items|
                 && exists i :: Listed(s.tables[a], found, i)
                                && OrigIdentity(a, s.tables[a], i) == OrigIdentity(b, s.tables[b], j)
  {
    var ta, tb := s.tables[a], s.tables[b];
    PrintableHost(s, a, blanks);
    assert HostInv(b, tb);
    ListingWords(a, ta, found, 1, blanks);
    var ls := ListedLines(a, ta, found, 1);
    LinesOfUnlines(ls);
    var ws := LineWords(ls, blanks);
    if j in MarkedBy(b, tb, ws, PLUS, blanks) {
      var w :| w in ws && Marks(b, tb, w, PLUS, blanks) && WordLocal(b, tb, w, blanks) == j;
      var k :| 1 <= k && Listed(ta, found, k) && w == ItemWord(OrigIdentity(a, ta, k));
      ItemWordTravels(s, a, k, b, blanks);
    } else {
      forall i | Listed(ta, found, i) && 1 <= j <= |tb.items|
        ensures OrigIdentity(a, ta, i) != OrigIdentity(b, tb, j)
      {
        var w := ItemWord(OrigIdentity(a, ta, i));
        ItemWordTravels(s, a, i, b, blanks);
        assert w in ws && w[0] == PLUS;
        var local := WordLocal(b, tb, w, blanks);
        assert local > 0 ==> Marks(b, tb, w, PLUS, blanks) && local != j;
        if local > 0 && OrigIdentity(b, tb, local) == OrigIdentity(b, tb, j) {
          DistinctItems(b, tb, local, j);
        }
      }
    }
  }

  /** On one host, printing a set of items and reading it back is the identity. */
  lemma SubjectsRoundTrip(s: Net, a: Text, found: seq<int>, blanks: set<int>)
    requires NetInv(s) && a in s.tables && |found| == |s.tables[a].items| + 1
    requires PlainBlanks(blanks) && forall h :: h in s.tables ==> IsWord(h, blanks)
    ensures Printable(s.tables[a])
    ensures Marked(a, s.tables[a], Unlines(ListedLines(a, s.tables[a], found, 1)), PLUS, blanks)
            == set i | 1 <= i <= |s.tables[a].items| && found[i] >= 0
  {
    var tab := s.tables[a];
    SubjectsTravel(s, a, found, a, 1, blanks);
    var m := Marked(a, tab, Unlines(ListedLines(a, tab, found, 1)), PLUS, blanks);
    forall j
      ensures j in m <==> 1 <= j <= |tab.items| && found[j] >= 0
    {
      SubjectsTravel(s, a, found, a, j, blanks);
      assert HostInv(a, tab);
      if j in m {
        var i :| Listed(tab, found, i) && OrigIdentity(a, tab, i) == OrigIdentity(a, tab, j);
        DistinctItems(a, tab, i, j);
      }
      if 1 <= j <= |tab.items| && found[j] >= 0 {
        assert Listed(tab, found, j);
      }
    }
  }

  // ------------------------------------------------------------- signs and hosts

  /** The words that mark items are those that begin with the sign asked for. */
  lemma MarkedIff(me: Text, tab: Table, csubj: Text, sign: int, blanks: set<int>, j: int)
    ensures j in Marked(me, tab, csubj, sign, blanks)
            <==> j > 0 && exists w :: w in LineWords(LinesOf(csubj), blanks) && w != [] && w[0] == sign
                                      && WordLocal(me, tab, w, blanks) == j
  {
    hide WordLocal, LineWords;
    var ws := LineWords(LinesOf(csubj), blanks);
    if w :| w in ws && w != [] && w[0] == sign && WordLocal(me, tab, w, blanks) == j && j > 0 {
      assert Marks(me, tab, w, sign, blanks);
    }
  }

  /** A word names the item with its number on the host after '@', whichever the sign. */
  lemma SignedWord(me: Text, tab: Table, sign: int, n: nat, host: Text, blanks: set<int>)
    requires sign == PLUS || sign == MINUS
    requires sign !in blanks
    ensures WordLocal(me, tab, [sign] + Decimal(n) + [AT] + host, blanks) == ToLocal(me, tab, Id(host, n)).1
  {
    hide ToLocal, Int4, Decimal, Index;
    var fore := [sign] + Decimal(n);
    assert AT !in fore;
    BreakAtFirst(fore, AT, host);
    var w := fore + [AT] + host;
    assert w[..|fore|] == fore && w[|fore| + 1..] == host;
    if sign == PLUS { SignedDecimal(n, blanks); } else { NegativeDecimal(n, blanks); }
  }

  /** Without a host it is the number of an item here. */
  lemma LocalWord(me: Text, tab: Table, sign: int, n: nat, blanks: set<int>)
    requires sign == PLUS || sign == MINUS
    requires sign !in blanks
    ensures WordLocal(me, tab, [sign] + Decimal(n), blanks) == n
  {
    hide Int4, Decimal, Index;
    var w := [sign] + Decimal(n);
    assert AT !in w;
    NoMark(w);
    if sign == PLUS { SignedDecimal(n, blanks); } else { NegativeDecimal(n, blanks); }
  }

  lemma NoMark(w: Text)
    requires AT !in w
    ensures Index(w, 0, [AT]) == -1
  {
    forall j | 0 <= j < |w| ensures w[j] == AT <==> MatchAt(w, j, [AT]) {
      assert w[j..j + 1] == [w[j]];
    }
  }

  /** What is printed for one sign marks nothing under the other. */
  lemma OtherSignMarksNothing(s: Net, a: Text, found: seq<int>, b: Text, blanks: set<int>)
    requires NetInv(s) && a in s.tables && b in s.tables && |found| == |s.tables[a].items| + 1
    requires PlainBlanks(blanks) && forall h :: h in s.tables ==> IsWord(h, blanks)
    ensures Printable(s.tables[a])
    ensures Marked(b, s.tables[b], Unlines(ListedLines(a, s.tables[a], found, 1)), MINUS, blanks) == {}
  {
    hide NetInv, WordLocal, ListedLines, LineWords, ItemWord;
    PrintableHost(s, a, blanks);
    var tab := s.tables[a];
    var ls := ListedLines(a, tab, found, 1);
    ListingWords(a, tab, found, 1, blanks);
    LinesOfUnlines(ls);
    forall w | w in LineWords(ls, blanks) ensures w != [] && w[0] == PLUS {
      var k :| 1 <= k && Listed(tab, found, k) && w == ItemWord(OrigIdentity(a, tab, k));
      PrintableId(a, tab, k);
      ItemWordSign(OrigIdentity(a, tab, k));
    }
    forall j ensures j !in Marked(b, s.tables[b], Unlines(ls), MINUS, blanks) {
      MarkedIff(b, s.tables[b], Unlines(ls), MINUS, blanks, j);
    }
  }

  lemma ItemWordSign(id: Id)
    requires id.num >= 0
    ensures ItemWord(id) != [] && ItemWord(id)[0] == PLUS
  {
  }
}
