/** Group files: lines that name users, possibly with permissions, or include other files. */
module GroupFiles {
  import opened Text
  import opened Numbers
  import opened Graph

  datatype Option<T> = None | Some(value: T)

  // ------------------------------------------------------------- permission values

  /** A 32-bit permission value is kept as the set of its one bits; `|` is union. */
  type Bits = set<int>

  /** An integer shifted right by `k` bits. */
  function Shift(v: int, k: nat): int
    decreases k
  {
    if k == 0 then v else Shift(v / 2, k - 1)
  }

  /** The one bits of an integer in 32-bit two's complement. */
  function BitsOf(v: int): Bits {
    set k | 0 <= k < 32 && Shift(v, k) % 2 == 1
  }

  /** The value 1. */
  const ONE: Bits := {0}

  /** The value is above zero as a signed number. */
  predicate Positive(b: Bits) {
    b != {} && 31 !in b
  }

  /** The sign bit of a 16-bit number, and all higher bits. */
  const HIGH: Bits := {15, 16, 17, 18, 19, 20, 21, 22, 23, 24, 25, 26, 27, 28, 29, 30, 31}

  /** A value stored in a name list, whose numbers are 16-bit signed, and read back: the low
      bits are kept, and the sign bit is copied into all higher ones. */
  function Short(v: Bits): Bits {
    (set b | b in v && b < 15) + (if 15 in v then HIGH else {})
  }

  /** Storing the value adds no bit to it. */
  predicate FitsShort(v: Bits) {
    15 in v ==> forall b :: 16 <= b < 32 ==> b in v
  }

  lemma FitsShortIff(v: Bits)
    ensures FitsShort(v) <==> Short(v) <= v
  {
    if Short(v) <= v && 15 in v {
      forall b | 16 <= b < 32 ensures b in v { assert b in Short(v); }
    }
  }

  /** The index of `w` among `ws`, or -1. */
  function Find(ws: seq<Text>, w: Text): (r: int)
    ensures -1 <= r < |ws|
    ensures r >= 0 ==> ws[r] == w
    ensures r < 0 <==> w !in ws
    ensures forall k :: 0 <= k < r ==> ws[k] != w
  {
    if ws == [] then -1
    else if ws[0] == w then 0
    else var r := Find(ws[1..], w); if r < 0 then -1 else r + 1
  }

  /** A permission word is a number, or a name that `permnames` follows with a number. */
  function WordPerm(w: Text, permnames: Text, blanks: set<int>): Bits {
    var (v, end) := Int4(w, 0, blanks);
    if end > 0 then BitsOf(v)
    else
      var names := Words(permnames, blanks);
      var k := Find(names, w);
      if w == [] || k < 0 || k + 1 >= |names| then {}
      else
        var (v', end') := Int4(names[k + 1], 0, blanks);
        if end' > 0 then BitsOf(v') else {}
  }

  function PermsOf(ws: seq<Token>, permnames: Text, blanks: set<int>): Bits {
    if ws == [] then {} else WordPerm(ws[0].word, permnames, blanks) + PermsOf(ws[1..], permnames, blanks)
  }

  method GroupMatchPerm(perms: Text, permnames: Text, blanks: set<int>) returns (match_: Bits)
    ensures match_ == PermsOf(WordsFrom(perms, 0, blanks), permnames, blanks)
  {
    match_ := {};
    if perms == [] { return; }
    var pos := 0;
    ghost var all := PermsOf(WordsFrom(perms, 0, blanks), permnames, blanks);
    while true
      invariant 0 <= pos <= |perms|
      invariant all == match_ + PermsOf(WordsFrom(perms, pos, blanks), permnames, blanks)
      decreases |perms| - pos
    {
      var start, temp, newpos := ChxNextWord(perms, pos, blanks);
      if start < 0 { break; }
      assert WordsFrom(perms, pos, blanks)[1..] == WordsFrom(perms, newpos, blanks);
      var value := OneWordPerm(temp, permnames, blanks);
      match_ := match_ + value;
      pos := newpos;
    }
  }

  method OneWordPerm(temp: Text, permnames: Text, blanks: set<int>) returns (bits: Bits)
    ensures bits == WordPerm(temp, permnames, blanks)
  {
    hide Int4, WordList, WordsFrom, BitsOf;
    var value, end := ChxInt4(temp, 0, blanks);
    if end > 0 { return BitsOf(value); }
    var found := TableFind(permnames, temp, blanks);
    if found < 0 { return {}; }
    var start, number, _ := ChxToken(found + 2, permnames, blanks);
    WordListIsWordsFrom(permnames, 0, blanks);
    if start == -1 { return {}; }
    value, end := ChxInt4(number, 0, blanks);
    if end > 0 { return BitsOf(value); }
    return {};
  }

  // ------------------------------------------------------------- lines

  datatype Kind =
    | Skip
    | Include(target: Text, perm: Text)
    | Name(name: Text, perm: Text)

  /** What the words of a line say. */
  function Split(line: Text, blanks: set<int>): Kind {
    var ws := WordsFrom(line, 0, blanks);
    if ws == [] then Skip
    else
      var perm := if |ws| > 1 && ws[1].start <= |line| then line[ws[1].start..] else [];
      var name := ws[0].word;
      if name != [] && name[0] == LESS then Include(name[1..], perm) else Name(name, perm)
  }

  /** A line that starts with '#' is a comment. */
  function Parse(line: Text, blanks: set<int>): Kind {
    if line != [] && line[0] == HASH then Skip else Split(line, blanks)
  }

  /** At most `n` characters of `t`. */
  function Clip(t: Text, n: nat): Text {
    if |t| > n then t[..n] else t
  }

  /** What a search for one user depends on: `reduce` stands for `jixreduce`, `accepts` for
      `equal_id`. */
  datatype Query = Query(files: map<Text, seq<Text>>, me: Text, blanks: set<int>, permnames: Text,
                         reduce: Text -> Text, accepts: Text -> bool)

  /** The first word of a line without its first character. */
  function FirstTail(line: Text, blanks: set<int>): Text {
    var ws := WordsFrom(line, 0, blanks);
    if ws == [] || ws[0].word == [] then [] else ws[0].word[1..]
  }

  /** Names and permissions are read from the reduced line, the name of an included file from
      the line as it is. */
  function KindOf(q: Query, line: Text): Kind {
    if line != [] && line[0] == HASH then Skip
    else
      match Split(Trim(q.reduce(line)), q.blanks)
      case Include(_, perm) => Include(FirstTail(line, q.blanks), perm)
      case kind => kind
  }

  datatype Sub = Sub(target: Text, perm: Bits)

  function LineBits(q: Query, line: Text): Bits {
    match KindOf(q, line)
    case Name(name, perm) =>
      if !q.accepts(name) then {}
      else
        var value := PermsOf(WordsFrom(perm, 0, q.blanks), q.permnames, q.blanks);
        if value == {} then ONE else value
    case _ => {}
  }

  /** Value of the matches in the lines from `i` on. */
  function DirectFrom(q: Query, lines: seq<Text>, i: nat): Bits
    requires i <= |lines|
    decreases |lines| - i
  {
    if i == |lines| then {} else LineBits(q, lines[i]) + DirectFrom(q, lines, i + 1)
  }

  function LineSubs(q: Query, line: Text): seq<Sub> {
    match KindOf(q, line)
    case Include(target, perm) =>
      [Sub(Clip(target, 200), Short(PermsOf(WordsFrom(perm, 0, q.blanks), q.permnames, q.blanks)))]
    case _ => []
  }

  /** The files included by the lines from `i` on. */
  function SubsFrom(q: Query, lines: seq<Text>, i: nat): seq<Sub>
    requires i <= |lines|
    decreases |lines| - i
  {
    if i == |lines| then [] else LineSubs(q, lines[i]) + SubsFrom(q, lines, i + 1)
  }

  /** Value of the first line that matches. */
  function FirstFrom(q: Query, lines: seq<Text>, i: nat): Bits
    requires i <= |lines|
    decreases |lines| - i
  {
    if i == |lines| then {}
    else if LineBits(q, lines[i]) != {} then LineBits(q, lines[i])
    else FirstFrom(q, lines, i + 1)
  }

  /** Value found in a file: of all its lines, or of the first that matches. */
  function Scanned(q: Query, lines: seq<Text>, searchall: bool): Bits {
    if searchall then DirectFrom(q, lines, 0) else FirstFrom(q, lines, 0)
  }

  lemma {:induction false} FirstIsSome(q: Query, lines: seq<Text>, i: nat)
    requires i <= |lines|
    ensures FirstFrom(q, lines, i) != {} <==> DirectFrom(q, lines, i) != {}
    ensures FirstFrom(q, lines, i) <= DirectFrom(q, lines, i)
    decreases |lines| - i
  {
    hide LineBits;
    if i < |lines| { FirstIsSome(q, lines, i + 1); }
  }

  /** The first match is that of the first line that has one. */
  lemma {:induction false} FirstIsFirst(q: Query, lines: seq<Text>, i: nat, k: nat)
    requires i <= k < |lines| && LineBits(q, lines[k]) != {}
    requires forall j :: i <= j < k ==> LineBits(q, lines[j]) == {}
    ensures FirstFrom(q, lines, i) == LineBits(q, lines[k])
    decreases k - i
  {
    hide LineBits;
    if i < k { FirstIsFirst(q, lines, i + 1, k); }
  }

  /** The value of a file is that of its lines together. */
  lemma {:induction false} DirectIsUnion(q: Query, lines: seq<Text>, i: nat, b: int)
    requires i <= |lines|
    ensures b in DirectFrom(q, lines, i) <==> exists k :: i <= k < |lines| && b in LineBits(q, lines[k])
    decreases |lines| - i
  {
    hide LineBits;
    if i < |lines| { DirectIsUnion(q, lines, i + 1, b); }
  }

  /** Read one line: the value it matches with, and the file it includes, if any. */
  method ScanGroupLine(q: Query, line: Text) returns (bits: Bits, subs: seq<Sub>)
    ensures bits == LineBits(q, line) && subs == LineSubs(q, line)
  {
    hide Short, WordsFrom, PermsOf;
    bits, subs := {}, [];
    if line != [] && line[0] == HASH { return; }
    var temp := ChxTrim(q.reduce(line));
    var start, name, _ := ChxToken(1, temp, q.blanks);
    var _, _, perm := ChxToken(2, temp, q.blanks);
    SplitTokens(temp, q.blanks, start, name, perm);
    if name == [] { return; }
    var value := GroupMatchPerm(perm, q.permnames, q.blanks);
    if name[0] == LESS {
      var first, groupfile, _ := ChxToken(1, line, q.blanks);
      subs := [Sub(Clip(if groupfile == [] then [] else groupfile[1..], 200), Short(value))];
    } else if q.accepts(name) {
      bits := if value == {} then ONE else value;
    }
  }

  /** Read one file.  Without `searchall` reading stops at the first match. */
  method ScanGroupFile(q: Query, lines: seq<Text>, searchall: bool) returns (match_: Bits, searchlist: seq<Sub>)
    ensures match_ == Scanned(q, lines, searchall)
    ensures searchall || match_ == {} ==> searchlist == SubsFrom(q, lines, 0)
  {
    hide LineBits, LineSubs;
    match_, searchlist := {}, [];
    var i := 0;
    while i < |lines| && (match_ == {} || searchall)
      invariant 0 <= i <= |lines|
      invariant searchall ==> DirectFrom(q, lines, 0) == match_ + DirectFrom(q, lines, i)
      invariant !searchall ==> FirstFrom(q, lines, 0) == if match_ != {} then match_ else FirstFrom(q, lines, i)
      invariant SubsFrom(q, lines, 0) == searchlist + SubsFrom(q, lines, i)
    {
      var bits, subs := ScanGroupLine(q, lines[i]);
      match_ := match_ + bits;
      searchlist := searchlist + subs;
      i := i + 1;
    }
  }

  lemma SplitTokens(line: Text, blanks: set<int>, start: int, name: Text, perm: Text)
    requires var ws := WordsFrom(line, 0, blanks);
             && (if 1 <= |ws| then start == ws[0].start && name == ws[0].word else start == -1 && name == [])
             && (if 2 <= |ws| then ws[1].start < |line| && perm == line[ws[1].start..] else perm == [])
    ensures Split(line, blanks) == if name == [] then Skip
                                   else if name[0] == LESS then Include(name[1..], perm)
                                   else Name(name, perm)
  {
    FirstNotEmpty(line, blanks);
  }

  lemma FirstNotEmpty(line: Text, blanks: set<int>)
    ensures var ws := WordsFrom(line, 0, blanks); ws != [] ==> ws[0].word != []
  {
    WordsAreRuns(line, 0, blanks);
    var ws := WordsFrom(line, 0, blanks);
    if ws != [] {
      assert MaximalRun(line, ws[0].start, ws[0].start + |ws[0].word|, blanks);
    }
  }

  // ------------------------------------------------------------- names and the include graph

  /** The local file a name stands for: "name@host" is a file here only if `host` is us. */
  function Resolve(me: Text, file: Text): (r: Option<Text>)
    ensures r.Some? ==> AT !in r.value
    ensures AT !in file ==> r == Some(file)
  {
    var k := Index(file, 0, [AT]);
    NoEarlierAt(file, k);
    if k < 0 then Some(file)
    else if file[k + 1..] == me then Some(file[..k])
    else None
  }

  lemma NoEarlierAt(file: Text, k: int)
    requires k == Index(file, 0, [AT])
    ensures k < 0 <==> AT !in file
    ensures k >= 0 ==> AT !in file[..k]
  {
    forall j | 0 <= j < |file|
      ensures file[j] == AT <==> MatchAt(file, j, [AT])
    {
      assert file[j..j + 1] == [file[j]];
    }
  }

  /** The names among `subs` that are local files' names. */
  function Targets(me: Text, subs: seq<Sub>): set<Text> {
    set s | s in subs && Resolve(me, s.target).Some? :: Resolve(me, s.target).value
  }

  /** Which files include which. */
  function IncludeGraph(q: Query): Graph {
    map f | f in q.files && AT !in f :: Targets(q.me, SubsFrom(q, q.files[f], 0))
  }

  function Direct(q: Query, f: Text): Bits
    requires f in q.files
  {
    DirectFrom(q, q.files[f], 0)
  }
}
