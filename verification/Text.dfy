/** Words and lines of character strings, at the level of character values.

    A string is the sequence of its nonzero character values; position |t| is
    where a reader of the string finds the terminating zero.  `blanks` is the set
    of word separators that the library keeps in its "blank" table. */
module Text {

  type Text = seq<int>

  const TAB := 9
  const NEWLINE := 10
  const SPACE := 32
  const HASH := 35
  const PLUS := 43
  const MINUS := 45
  const LESS := 60
  const AT := 64

  /** The word separators set up for the ASCII and ISO 8859 languages. */
  const ASCII_BLANKS: set<int> := {SPACE, NEWLINE, TAB}
  /** The word separators set up for Japanese: 41377 is the double width space. */
  const JIX_BLANKS: set<int> := {SPACE, 41377, NEWLINE, TAB}

  /** A slice grows by the character that follows it. */
  lemma Grow(t: Text, s: nat, i: nat)
    requires s <= i < |t|
    ensures t[s..i] + [t[i]] == t[s..i + 1]
    ensures t[i..i] == []
  {
  }

  // ---------------------------------------------------------------- blanks at the end

  /** `l` without the blanks at its end. */
  function Trim(l: Text): (t: Text)
    ensures t <= l && (t == [] || t[|t| - 1] != SPACE)
    ensures forall k :: |t| <= k < |l| ==> l[k] == SPACE
  {
    if l == [] || l[|l| - 1] != SPACE then l else Trim(l[..|l| - 1])
  }

  lemma TrimNothing(l: Text)
    requires l != [] && l[|l| - 1] != SPACE
    ensures Trim(l) == l
  {
  }

  method ChxTrim(x: Text) returns (t: Text)
    ensures t == Trim(x)
  {
    var last := |x| - 1;
    assert x[..|x|] == x;
    while last >= 0 && x[last] == SPACE
      invariant -1 <= last < |x|
      invariant Trim(x[..last + 1]) == Trim(x)
    {
      assert x[..last + 1][..last] == x[..last];
      last := last - 1;
    }
    t := x[..last + 1];
  }

  // ---------------------------------------------------------------- words

  /** The first position at or after `i` that holds no blank. */
  function SkipBlanks(t: Text, i: nat, blanks: set<int>): (r: nat)
    requires i <= |t|
    ensures i <= r <= |t|
    ensures forall k :: i <= k < r ==> t[k] in blanks
    ensures r < |t| ==> t[r] !in blanks
    decreases |t| - i
  {
    if i < |t| && t[i] in blanks then SkipBlanks(t, i + 1, blanks) else i
  }

  /** The first position at or after `i` that holds a blank, or the end. */
  function WordEnd(t: Text, i: nat, blanks: set<int>): (r: nat)
    requires i <= |t|
    ensures i <= r <= |t|
    ensures forall k :: i <= k < r ==> t[k] !in blanks
    ensures r < |t| ==> t[r] in blanks
    decreases |t| - i
  {
    if i < |t| && t[i] !in blanks then WordEnd(t, i + 1, blanks) else i
  }

  datatype Token = Token(start: nat, word: Text)

  /** The words of `t` from position `i` on, each with its start position. */
  function WordsFrom(t: Text, i: nat, blanks: set<int>): seq<Token>
    requires i <= |t|
    decreases |t| - i
  {
    var s := SkipBlanks(t, i, blanks);
    if s == |t| then []
    else
      var e := WordEnd(t, s, blanks);
      [Token(s, t[s..e])] + WordsFrom(t, e, blanks)
  }

  /** The words alone, without positions. */
  function WordList(t: Text, i: nat, blanks: set<int>): (r: seq<Text>)
    requires i <= |t|
    decreases |t| - i
  {
    var s := SkipBlanks(t, i, blanks);
    if s == |t| then []
    else
      var e := WordEnd(t, s, blanks);
      [t[s..e]] + WordList(t, e, blanks)
  }

  lemma WordListStep(t: Text, i: nat, blanks: set<int>)
    requires i <= |t|
    ensures WordList(t, i, blanks) ==
            var s := SkipBlanks(t, i, blanks);
            if s == |t| then [] else [t[s..WordEnd(t, s, blanks)]] + WordList(t, WordEnd(t, s, blanks), blanks)
  {
  }

  lemma {:induction false} WordListIsWordsFrom(t: Text, i: nat, blanks: set<int>)
    requires i <= |t|
    ensures |WordList(t, i, blanks)| == |WordsFrom(t, i, blanks)|
    ensures forall k :: 0 <= k < |WordList(t, i, blanks)| ==>
              WordList(t, i, blanks)[k] == WordsFrom(t, i, blanks)[k].word
    decreases |t| - i
  {
    var s := SkipBlanks(t, i, blanks);
    if s < |t| {
      WordListIsWordsFrom(t, WordEnd(t, s, blanks), blanks);
    }
  }

  function Words(t: Text, blanks: set<int>): seq<Text> {
    WordList(t, 0, blanks)
  }

  /** `t[s..e]` is a maximal run of nonblank characters. */
  ghost predicate MaximalRun(t: Text, s: int, e: int, blanks: set<int>) {
    && 0 <= s < e <= |t|
    && (forall k :: s <= k < e ==> t[k] !in blanks)
    && (s > 0 ==> t[s - 1] in blanks)
    && (e < |t| ==> t[e] in blanks)
  }

  lemma WordsStep(t: Text, i: nat, blanks: set<int>)
    requires i <= |t|
    ensures WordsFrom(t, i, blanks) ==
            var s := SkipBlanks(t, i, blanks);
            if s == |t| then []
            else [Token(s, t[s..WordEnd(t, s, blanks)])] + WordsFrom(t, WordEnd(t, s, blanks), blanks)
  {
  }

  /** The word is the text at its place, and a maximal run. */
  ghost predicate RunAt(t: Text, w: Token, blanks: set<int>) {
    var e := w.start + |w.word|;
    e <= |t| && w.word == t[w.start..e] && MaximalRun(t, w.start, e, blanks)
  }

  ghost predicate RunsFrom(t: Text, ws: seq<Token>, i: int, blanks: set<int>) {
    && (forall k :: 0 <= k < |ws| ==> i <= ws[k].start && RunAt(t, ws[k], blanks))
    && (forall k :: 0 <= k < |ws| - 1 ==> ws[k].start + |ws[k].word| < ws[k + 1].start)
  }

  lemma RunsCons(t: Text, w: Token, rest: seq<Token>, i: int, e: int, blanks: set<int>)
    requires i <= w.start && RunAt(t, w, blanks) && e == w.start + |w.word| && RunsFrom(t, rest, e, blanks)
    requires rest != [] ==> e < rest[0].start
    ensures RunsFrom(t, [w] + rest, i, blanks)
  {
    hide RunAt;
    var ws := [w] + rest;
    forall k | 1 <= k < |ws| ensures ws[k] == rest[k - 1] {
    }
  }

  lemma {:induction false} WordsRun(t: Text, i: nat, blanks: set<int>)
    requires i <= |t|
    requires i == 0 || i == |t| || t[i] in blanks || t[i - 1] in blanks
    ensures RunsFrom(t, WordsFrom(t, i, blanks), i, blanks)
    decreases |t| - i
  {
    hide SkipBlanks, WordEnd, WordsFrom, RunAt, RunsFrom;
    WordsStep(t, i, blanks);
    var s := SkipBlanks(t, i, blanks);
    if s == |t| {
      NoRuns(t, i, blanks);
    } else {
      var e := WordEnd(t, s, blanks);
      WordsRun(t, e, blanks);
      var rest := WordsFrom(t, e, blanks);
      FirstRun(t, i, s, e, blanks);
      RunAfter(t, rest, e, blanks);
      RunsCons(t, Token(s, t[s..e]), rest, i, e, blanks);
    }
  }

  /** Every word is a maximal run of nonblanks, and words come in text order. */
  lemma WordsAreRuns(t: Text, i: nat, blanks: set<int>)
    requires i <= |t|
    requires i == 0 || i == |t| || t[i] in blanks || t[i - 1] in blanks
    ensures forall k :: 0 <= k < |WordsFrom(t, i, blanks)| ==>
              var w := WordsFrom(t, i, blanks)[k];
              && i <= w.start
              && w.start + |w.word| <= |t|
              && w.word == t[w.start..w.start + |w.word|]
              && MaximalRun(t, w.start, w.start + |w.word|, blanks)
    ensures forall k :: 0 <= k < |WordsFrom(t, i, blanks)| - 1 ==>
              WordsFrom(t, i, blanks)[k].start + |WordsFrom(t, i, blanks)[k].word|
              < WordsFrom(t, i, blanks)[k + 1].start
  {
    hide WordsFrom, MaximalRun;
    WordsRun(t, i, blanks);
  }

  lemma FirstRun(t: Text, i: nat, s: nat, e: nat, blanks: set<int>)
    requires i <= |t| && (i == 0 || i == |t| || t[i] in blanks || t[i - 1] in blanks)
    requires s == SkipBlanks(t, i, blanks) && s < |t| && e == WordEnd(t, s, blanks)
    ensures s < e && RunAt(t, Token(s, t[s..e]), blanks)
  {
    assert s > i ==> t[s - 1] in blanks;
    assert e > s;
  }

  lemma NoRuns(t: Text, i: int, blanks: set<int>)
    ensures RunsFrom(t, [], i, blanks)
  {
  }

  /** A run that begins where a word has ended begins later. */
  lemma RunAfter(t: Text, rest: seq<Token>, e: nat, blanks: set<int>)
    requires RunsFrom(t, rest, e, blanks) && (e < |t| ==> t[e] in blanks)
    ensures rest != [] ==> e < rest[0].start
  {
  }

  /** Conversely, every maximal run of nonblanks is one of the words. */
  lemma {:induction false} RunsAreWords(t: Text, i: nat, s: int, e: int, blanks: set<int>)
    requires i <= s
    requires MaximalRun(t, s, e, blanks)
    requires i == 0 || t[i] in blanks || t[i - 1] in blanks
    ensures Token(s, t[s..e]) in WordsFrom(t, i, blanks)
    decreases |t| - i
  {
    var s' := SkipBlanks(t, i, blanks);
    var e' := WordEnd(t, s', blanks);
    if s' == s {
      assert e' == e;
    } else {
      assert t[s] !in blanks;
      assert s' < s;
      assert e' <= s - 1;
      RunsAreWords(t, e', s, e, blanks);
    }
  }

  /** The next word of `text` at or after `pos`; -1 when there is none.  Iterated
      from 0 it therefore hands out exactly the words `ChxToken` numbers from 1. */
  method ChxNextWord(text: Text, pos: nat, blanks: set<int>)
    returns (start: int, word: Text, newpos: nat)
    requires pos <= |text|
    ensures pos <= newpos <= |text|
    ensures start == -1 <==> WordsFrom(text, pos, blanks) == []
    ensures start == -1 ==> newpos == |text|
    ensures start != -1 ==> start >= 0 && newpos > pos
    ensures start != -1 ==> WordsFrom(text, pos, blanks)
                            == [Token(start, word)] + WordsFrom(text, newpos, blanks)
  {
    var ptr := pos;
    while ptr < |text| && text[ptr] in blanks
      invariant pos <= ptr <= |text|
      invariant SkipBlanks(text, ptr, blanks) == SkipBlanks(text, pos, blanks)
    {
      ptr := ptr + 1;
    }
    newpos := ptr;
    if ptr == |text| { return -1, [], newpos; }
    start := ptr;
    word := [text[ptr]];
    ptr := ptr + 1;
    while ptr < |text| && text[ptr] !in blanks
      invariant start < ptr <= |text|
      invariant word == text[start..ptr]
      invariant WordEnd(text, ptr, blanks) == WordEnd(text, start, blanks)
    {
      word := word + [text[ptr]];
      ptr := ptr + 1;
    }
    newpos := ptr;
  }

  /** Where a left-to-right scan of `t` for its `n`th word stands at position `i`:
      `w` words have been started, the last of them at `s`, and between words the
      scan has not come to the end of word `n` yet. */
  ghost predicate Scanning(t: Text, i: int, between: bool, w: int, s: int, n: int, blanks: set<int>) {
    var ws := WordsFrom(t, 0, blanks);
    && 0 <= i <= |t|
    && 0 <= w <= |ws|
    && (between ==> (w < n || w == 0) && ws[w..] == WordsFrom(t, i, blanks))
    && (!between ==> InWord(t, i, s, w, ws, blanks) && (w <= n || w == 1))
  }

  /** Word number `w` starts at `s` and has reached `i`. */
  ghost predicate InWord(t: Text, i: int, s: int, w: int, ws: seq<Token>, blanks: set<int>) {
    && 0 <= s < i <= |t|
    && 0 < w <= |ws|
    && ws[w - 1] == Token(s, t[s..WordEnd(t, i, blanks)])
    && ws[w..] == WordsFrom(t, WordEnd(t, i, blanks), blanks)
  }

  lemma ScanInit(t: Text, n: int, blanks: set<int>)
    ensures Scanning(t, 0, true, 0, 0, n, blanks)
  {
    assert WordsFrom(t, 0, blanks)[0..] == WordsFrom(t, 0, blanks);
  }

  lemma ScanBlank(t: Text, i: int, between: bool, w: int, s: int, n: int, blanks: set<int>)
    requires Scanning(t, i, between, w, s, n, blanks)
    requires i < |t| && t[i] in blanks && w < n
    ensures Scanning(t, i + 1, true, w, s, n, blanks)
  {
    assert WordsFrom(t, i, blanks) == WordsFrom(t, i + 1, blanks);
  }

  lemma ScanStart(t: Text, i: int, w: int, s: int, n: int, blanks: set<int>)
    requires Scanning(t, i, true, w, s, n, blanks)
    requires i < |t| && t[i] !in blanks
    ensures Scanning(t, i + 1, false, w + 1, i, n, blanks)
  {
    var ws := WordsFrom(t, 0, blanks);
    assert WordEnd(t, i, blanks) == WordEnd(t, i + 1, blanks);
    assert ws[w..][0] == ws[w];
    assert ws[w..][1..] == ws[w + 1..];
  }

  lemma ScanContinue(t: Text, i: int, w: int, s: int, n: int, blanks: set<int>)
    requires Scanning(t, i, false, w, s, n, blanks)
    requires i < |t| && t[i] !in blanks
    ensures Scanning(t, i + 1, false, w, s, n, blanks)
  {
    assert WordEnd(t, i, blanks) == WordEnd(t, i + 1, blanks);
  }

  lemma ScanDone(t: Text, i: int, between: bool, w: int, s: int, n: int, blanks: set<int>)
    requires Scanning(t, i, between, w, s, n, blanks)
    requires i == |t| || (t[i] in blanks && w >= n)
    ensures var ws := WordsFrom(t, 0, blanks);
            if 1 <= n <= |ws| then w == n && 0 <= s < i && ws[n - 1] == Token(s, t[s..i]) else n < 1 || w != n
  {
    if !between {
      assert WordEnd(t, i, blanks) == i;
    }
    if i == |t| {
      assert WordsFrom(t, i, blanks) == [];
    }
  }

  /** The `n`th word of `line`, counted from 1, with its start and the suffix of
      `line` from that start; -1 and empty strings when there are fewer words. */
  method ChxToken(n: int, line: Text, blanks: set<int>) returns (start: int, word: Text, rest: Text)
    ensures var ws := WordsFrom(line, 0, blanks);
            if 1 <= n <= |ws|
            then start == ws[n - 1].start && word == ws[n - 1].word
                 && start < |line| && rest == line[start..]
            else start == -1 && word == [] && rest == []
  {
    hide Scanning, WordsFrom;
    var between, w, i := true, 0, 0;
    start, word, rest := -1, [], [];
    ScanInit(line, n, blanks);
    ghost var s := 0;
    while i < |line|
      invariant 0 <= s <= i <= |line|
      invariant Scanning(line, i, between, w, s, n, blanks)
      invariant if between then w < n || w == 0 else w > 0
      invariant start == if 1 <= n == w then s else -1
      invariant word == if 1 <= n == w then line[s..i] else []
    {
      var c := line[i];
      if c in blanks {
        if w >= n { break; }
        ScanBlank(line, i, between, w, s, n, blanks);
        between := true;
      } else {
        if between {
          ScanStart(line, i, w, s, n, blanks);
          s := i;
          w := w + 1;
          if w == n { start := i; }
        } else {
          ScanContinue(line, i, w, s, n, blanks);
        }
        Grow(line, s, i);
        if w == n { word := word + [c]; }
        between := false;
      }
      i := i + 1;
    }
    ScanDone(line, i, between, w, s, n, blanks);
    if start < 0 { return -1, word, rest; }
    rest := line[start..];
  }

  // ------------------------------------------------- words of a concatenation

  lemma SkipIs(t: Text, i: nat, r: nat, blanks: set<int>)
    requires i <= r <= |t|
    requires forall k :: i <= k < r ==> t[k] in blanks
    requires r < |t| ==> t[r] !in blanks
    ensures SkipBlanks(t, i, blanks) == r
  {
  }

  lemma EndIs(t: Text, i: nat, r: nat, blanks: set<int>)
    requires i <= r <= |t|
    requires forall k :: i <= k < r ==> t[k] !in blanks
    requires r < |t| ==> t[r] in blanks
    ensures WordEnd(t, i, blanks) == r
  {
  }

  lemma SliceOfTail(a: Text, b: Text, s: nat, e: nat)
    requires s <= e <= |b|
    ensures (a + b)[|a| + s..|a| + e] == b[s..e]
  {
  }

  lemma SliceOfHead(a: Text, b: Text, s: nat, e: nat)
    requires s <= e <= |a|
    ensures (a + b)[s..e] == a[s..e]
  {
  }

  /** Reading `a + b` from inside `b` is reading `b`. */
  lemma {:induction false} WordsOfTail(a: Text, b: Text, j: nat, blanks: set<int>)
    requires j <= |b|
    ensures WordList(a + b, |a| + j, blanks) == WordList(b, j, blanks)
    decreases |b| - j
  {
    hide SkipBlanks, WordEnd;
    var s := SkipBlanks(b, j, blanks);
    SkipIs(a + b, |a| + j, |a| + s, blanks);
    if s < |b| {
      var e := WordEnd(b, s, blanks);
      EndIs(a + b, |a| + s, |a| + e, blanks);
      SliceOfTail(a, b, s, e);
      assert WordList(a + b, |a| + j, blanks) == [b[s..e]] + WordList(a + b, |a| + e, blanks);
      WordsOfTail(a, b, e, blanks);
    }
  }

  /** Where `a` and `b` meet at a blank (or at an end), the words of `a + b` are the
      words of `a` followed by the words of `b`. */
  lemma {:induction false} WordsConcatFrom(a: Text, b: Text, i: nat, blanks: set<int>)
    requires i <= |a|
    requires a == [] || b == [] || a[|a| - 1] in blanks || b[0] in blanks
    ensures WordList(a + b, i, blanks) == WordList(a, i, blanks) + Words(b, blanks)
    decreases |a| - i
  {
    hide SkipBlanks, WordEnd, WordList;
    var s := SkipBlanks(a, i, blanks);
    WordListStep(a, i, blanks);
    WordListStep(a + b, i, blanks);
    SkipConcat(a, b, i, blanks);
    if s == |a| {
      WordListStep(a + b, |a|, blanks);
      WordsOfTail(a, b, 0, blanks);
    } else {
      var e := WordEnd(a, s, blanks);
      EndConcat(a, b, s, blanks);
      SliceOfHead(a, b, s, e);
      WordsConcatFrom(a, b, e, blanks);
    }
  }

  lemma SkipConcat(a: Text, b: Text, i: nat, blanks: set<int>)
    requires i <= |a|
    ensures var s := SkipBlanks(a, i, blanks);
            SkipBlanks(a + b, i, blanks) == if s < |a| then s else SkipBlanks(a + b, |a|, blanks)
  {
    hide SkipBlanks;
    var s := SkipBlanks(a, i, blanks);
    SkipIs(a + b, i, if s < |a| then s else SkipBlanks(a + b, |a|, blanks), blanks);
  }

  lemma EndConcat(a: Text, b: Text, s: nat, blanks: set<int>)
    requires s < |a| && a[s] !in blanks && (b == [] || a[|a| - 1] in blanks || b[0] in blanks)
    ensures WordEnd(a + b, s, blanks) == WordEnd(a, s, blanks)
  {
    hide WordEnd;
    EndIs(a + b, s, WordEnd(a, s, blanks), blanks);
  }

  lemma WordsConcat(a: Text, b: Text, blanks: set<int>)
    requires a == [] || b == [] || a[|a| - 1] in blanks || b[0] in blanks
    ensures Words(a + b, blanks) == Words(a, blanks) + Words(b, blanks)
  {
    WordsConcatFrom(a, b, 0, blanks);
  }

  /** A nonempty string without blanks is one word. */
  predicate IsWord(w: Text, blanks: set<int>) {
    w != [] && forall k :: 0 <= k < |w| ==> w[k] !in blanks
  }

  lemma OneWord(w: Text, blanks: set<int>)
    requires IsWord(w, blanks)
    ensures Words(w, blanks) == [w]
  {
    assert SkipBlanks(w, 0, blanks) == 0;
    assert WordEnd(w, 0, blanks) == |w|;
    assert w[0..|w|] == w;
    assert WordList(w, |w|, blanks) == [];
  }

  lemma TwoWords(a: Text, b: Text, blanks: set<int>)
    requires IsWord(a, blanks) && IsWord(b, blanks) && SPACE in blanks
    ensures var line := a + [SPACE] + b;
            WordsFrom(line, 0, blanks) == [Token(0, a), Token(|a| + 1, b)] && line[|a| + 1..] == b
  {
    var line, s := a + [SPACE] + b, |a| + 1;
    assert line[0..|a|] == a && line[s..|line|] == b && line[|a|] == SPACE;
    assert forall k :: 0 <= k < |a| ==> line[k] == a[k];
    assert forall k :: 0 <= k < |b| ==> line[s + k] == b[k];
    SkipIs(line, 0, 0, blanks);
    EndIs(line, 0, |a|, blanks);
    SkipIs(line, |a|, s, blanks);
    EndIs(line, s, |line|, blanks);
    SkipIs(line, |line|, |line|, blanks);
    assert WordsFrom(line, |line|, blanks) == [];
    assert WordsFrom(line, |a|, blanks) == [Token(s, b)];
  }

  lemma OnlyWord(w: Text, blanks: set<int>)
    requires IsWord(w, blanks)
    ensures WordsFrom(w, 0, blanks) == [Token(0, w)]
  {
    SkipIs(w, 0, 0, blanks);
    EndIs(w, 0, |w|, blanks);
    SkipIs(w, |w|, |w|, blanks);
    assert w[0..|w|] == w;
  }

  lemma EmptyHasNoWords(blanks: set<int>)
    ensures Words([], blanks) == []
  {
  }

  lemma BlankHasNoWords(c: int, blanks: set<int>)
    requires c in blanks
    ensures Words([c], blanks) == []
  {
    assert SkipBlanks([c], 0, blanks) == 1;
  }

  /** Appending a word and a blank to a table of words appends one entry. */
  lemma WordsAppend(a: Text, w: Text, c: int, blanks: set<int>)
    requires IsWord(w, blanks) && c in blanks
    requires a == [] || a[|a| - 1] in blanks
    ensures Words(a + w + [c], blanks) == Words(a, blanks) + [w]
  {
    WordsConcat(a, w, blanks);
    OneWord(w, blanks);
    WordsConcat(a + w, [c], blanks);
    BlankHasNoWords(c, blanks);
  }

  /** Words hold no blanks and are not empty. */
  lemma WordsAreWords(t: Text, blanks: set<int>)
    ensures forall k :: 0 <= k < |Words(t, blanks)| ==> IsWord(Words(t, blanks)[k], blanks)
  {
    WordsAreRuns(t, 0, blanks);
    WordListIsWordsFrom(t, 0, blanks);
    forall k | 0 <= k < |Words(t, blanks)|
      ensures IsWord(Words(t, blanks)[k], blanks)
    {
      var w := WordsFrom(t, 0, blanks)[k];
      assert MaximalRun(t, w.start, w.start + |w.word|, blanks);
      forall j | 0 <= j < |w.word|
        ensures w.word[j] !in blanks
      {
        assert w.word[j] == t[w.start + j];
      }
    }
  }

  /** Position of `word` among the words of `table`, -1 if it is not there. */
  method TableFind(table: Text, word: Text, blanks: set<int>) returns (found: int)
    ensures word == [] ==> found == -1
    ensures word != [] ==> (found >= 0 <==> word in Words(table, blanks))
    ensures found >= 0 ==> found < |Words(table, blanks)| && Words(table, blanks)[found] == word
    ensures found < 0 ==> found == -1
    ensures forall k :: 0 <= k < found ==> Words(table, blanks)[k] != word
  {
    if table == [] || word == [] { return -1; }
    var i := 1;
    ghost var ws := Words(table, blanks);
    WordListIsWordsFrom(table, 0, blanks);
    while true
      invariant 1 <= i <= |ws| + 1
      invariant forall k :: 0 <= k < i - 1 ==> ws[k] != word
      decreases |ws| - i
    {
      var start, token, _ := ChxToken(i, table, blanks);
      if start == -1 { break; }
      if word == token { return i - 1; }
      i := i + 1;
    }
    return -1;
  }
}
