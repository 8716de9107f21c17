/** What the lines of a group file say, and what the numbers on them are. */
module GroupLines {
  import opened Text
  import opened Numbers
  import opened GroupFiles

  // ------------------------------------------------------------- lines

  /** A line that starts with '#' says nothing to either reader. */
  lemma CommentLine(q: Query, rest: Text)
    ensures Parse([HASH] + rest, q.blanks) == Skip && KindOf(q, [HASH] + rest) == Skip
  {
  }

  /** Nor does a line of blanks. */
  lemma BlankLine(line: Text, blanks: set<int>)
    requires forall k :: 0 <= k < |line| ==> line[k] in blanks
    ensures Split(line, blanks) == Skip
  {
    SkipIs(line, 0, |line|, blanks);
  }

  /** A word alone is a name, or after '<' the name of a file to include. */
  lemma OneWordLine(w: Text, blanks: set<int>)
    requires IsWord(w, blanks)
    ensures Split(w, blanks) == if w[0] == LESS then Include(w[1..], []) else Name(w, [])
  {
    OnlyWord(w, blanks);
  }

  /** What follows the first word is its permission. */
  lemma TwoWordLine(w: Text, perm: Text, blanks: set<int>)
    requires IsWord(w, blanks) && IsWord(perm, blanks) && SPACE in blanks
    ensures Split(w + [SPACE] + perm, blanks) == if w[0] == LESS then Include(w[1..], perm) else Name(w, perm)
  {
    TwoWords(w, perm, blanks);
  }

  /** "name@host" is the file `name` here exactly when the host is this one. */
  lemma NameWithHost(me: Text, name: Text, host: Text)
    requires AT !in name
    ensures Resolve(me, name + [AT] + host) == if host == me then Some(name) else None
  {
    var file := name + [AT] + host;
    BreakAtFirst(name, AT, host);
    assert file[|name| + 1..] == host && file[..|name|] == name;
  }

  /** A line that is reduced to a name and a permission gives the permission, or 1 if that has no
      bits, to those whom the reduced name accepts. */
  lemma ReducedLine(q: Query, line: Text, w: Text, perm: Text)
    requires !(line != [] && line[0] == HASH) && q.reduce(line) == w + [SPACE] + perm && SPACE in q.blanks
    requires IsWord(w, q.blanks) && IsWord(perm, q.blanks) && w[0] != LESS
    ensures var bits := WordPerm(perm, q.permnames, q.blanks);
            LineBits(q, line) == if !q.accepts(w) then {} else if bits == {} then ONE else bits
    ensures LineSubs(q, line) == []
  {
    hide WordPerm, WordsFrom, Trim;
    var low := w + [SPACE] + perm;
    assert low[|low| - 1] == perm[|perm| - 1];
    TrimNothing(low);
    TwoWordLine(w, perm, q.blanks);
    OnlyWord(perm, q.blanks);
    assert [Token(0, perm)][1..] == [];
    assert PermsOf([Token(0, perm)], q.permnames, q.blanks) == WordPerm(perm, q.permnames, q.blanks);
  }

  /** The name of an included file is the first word of the line as it is written, without the
      '<', and at most 200 characters of it. */
  lemma IncludedName(q: Query, line: Text)
    requires KindOf(q, line).Include?
    ensures var t := FirstTail(line, q.blanks);
            |LineSubs(q, line)| == 1 && LineSubs(q, line)[0].target == (if |t| > 200 then t[..200] else t)
  {
    hide PermsOf, WordsFrom, Short;
  }

  // ------------------------------------------------------------- permissions

  /** Several permission words give all their bits together. */
  lemma {:induction false} PermsAreUnion(ws: seq<Token>, permnames: Text, blanks: set<int>, b: int)
    ensures b in PermsOf(ws, permnames, blanks)
            <==> exists k :: 0 <= k < |ws| && b in WordPerm(ws[k].word, permnames, blanks)
  {
    hide WordPerm;
    if ws != [] {
      PermsAreUnion(ws[1..], permnames, blanks, b);
      if k :| 0 <= k < |ws[1..]| && b in WordPerm(ws[1..][k].word, permnames, blanks) {
        assert ws[k + 1] == ws[1..][k];
      }
      if k :| 0 <= k < |ws| && b in WordPerm(ws[k].word, permnames, blanks) {
        if k > 0 { assert ws[1..][k - 1] == ws[k]; }
      }
    }
  }

  /** A permission that is a number has the bits of the number. */
  lemma NumberPerm(n: nat, permnames: Text, blanks: set<int>)
    requires forall k :: Digit(k) ==> k !in blanks
    ensures WordPerm(Decimal(n), permnames, blanks) == BitsOf(n)
  {
    hide Int4;
    UnsignedDecimal(n, blanks);
  }

  /** A name has the bits of the number that follows its first place in the table. */
  lemma NamedPerm(w: Text, permnames: Text, blanks: set<int>, k: nat, n: nat)
    requires Int4(w, 0, blanks).1 == 0 && w != [] && forall d :: Digit(d) ==> d !in blanks
    requires var names := Words(permnames, blanks);
             k + 1 < |names| && names[k] == w && names[k + 1] == Decimal(n) && forall j :: 0 <= j < k ==> names[j] != w
    ensures WordPerm(w, permnames, blanks) == BitsOf(n)
  {
    hide Int4;
    UnsignedDecimal(n, blanks);
    FindIs(Words(permnames, blanks), w, k);
  }

  lemma FindIs(ws: seq<Text>, w: Text, k: nat)
    requires k < |ws| && ws[k] == w && forall j :: 0 <= j < k ==> ws[j] != w
    ensures Find(ws, w) == k
  {
    var r := Find(ws, w);
    assert ws[k] in ws;
  }

  /** A name that the table does not have has no bits. */
  lemma UnknownPerm(w: Text, permnames: Text, blanks: set<int>)
    requires Int4(w, 0, blanks).1 == 0 && w !in Words(permnames, blanks)
    ensures WordPerm(w, permnames, blanks) == {}
  {
    hide Int4;
  }

  // ------------------------------------------------------------- numbers as bits

  /** The bits of a number, from the lowest up. */
  lemma BitsStep(v: int, k: nat)
    requires k < 31
    ensures 0 in BitsOf(v) <==> v % 2 == 1
    ensures k + 1 in BitsOf(v) <==> k in BitsOf(v / 2)
  {
  }

  lemma {:induction false} ShiftSmall(v: int, k: nat, bound: int)
    requires bound == Power(k) && -bound <= v < bound
    ensures Shift(v, k) == if v < 0 then -1 else 0
    decreases k
  {
    if k > 0 { ShiftSmall(v / 2, k - 1, Power(k - 1)); }
  }

  function Power(k: nat): (p: int)
    ensures p > 0
  {
    if k == 0 then 1 else 2 * Power(k - 1)
  }

  /** In 32 bits, zero is the number without bits, and the highest bit is the sign. */
  lemma PositiveIs(v: int)
    requires -Power(31) <= v < Power(31)
    ensures Positive(BitsOf(v)) <==> v > 0
  {
    hide Shift;
    ShiftSmall(v, 31, Power(31));
    assert 31 in BitsOf(v) <==> v < 0;
    if v > 0 {
      var k := SomeBit(v, 31);
      assert k in BitsOf(v);
    }
    if v == 0 {
      forall k | 0 <= k < 32 ensures k !in BitsOf(v) { ZeroShift(k); }
    }
  }

  lemma {:induction false} ZeroShift(k: nat)
    ensures Shift(0, k) == 0
  {
    if k > 0 { ZeroShift(k - 1); }
  }

  lemma {:induction false} SomeBit(v: int, n: nat) returns (k: nat)
    requires 0 < v < Power(n)
    ensures k < n && Shift(v, k) % 2 == 1
  {
    if v % 2 == 1 {
      k := 0;
    } else {
      var j := SomeBit(v / 2, n - 1);
      k := j + 1;
    }
  }

  /** The 16-bit number that C makes of an integer. */
  function ShortOf(v: int): int {
    (v + 32768) % 65536 - 32768
  }

  lemma {:induction false} SameLowBits(v: int, m: int, k: nat, n: nat)
    requires k < n
    ensures Shift(v + Power(n) * m, k) % 2 == Shift(v, k) % 2
    decreases k
  {
    var p := Power(n - 1) * m;
    assert Power(n) * m == 2 * p;
    if k == 0 {
      assert (v + 2 * p) % 2 == v % 2;
    } else {
      assert (v + 2 * p) / 2 == v / 2 + p;
      SameLowBits(v / 2, m, k - 1, n - 1);
    }
  }

  /** Keeping a value in a name list is C's conversion to a 16-bit number. */
  lemma ShortIsShort(v: int)
    ensures Short(BitsOf(v)) == BitsOf(ShortOf(v))
  {
    hide Shift, Power;
    var w := ShortOf(v);
    var m := (v + 32768) / 65536;
    PowerValues();
    assert v == w + Power(16) * m;
    forall k | 0 <= k < 32 ensures k in Short(BitsOf(v)) <==> k in BitsOf(w) {
      SameLowBits(w, m, 15, 16);
      if k < 16 {
        SameLowBits(w, m, k, 16);
      } else {
        HighBits(w, k);
      }
    }
    assert forall k :: k in Short(BitsOf(v)) ==> 0 <= k < 32;
  }

  lemma PowerValues()
    ensures Power(15) == 32768 && Power(16) == 65536
  {
    assert Power(3) == 8;
    assert Power(6) == 64;
    assert Power(9) == 512;
    assert Power(12) == 4096;
  }

  /** From bit 15 on, the bits of a 16-bit number are its sign. */
  lemma HighBits(w: int, k: nat)
    requires -32768 <= w < 32768 && 15 <= k
    ensures Shift(w, k) % 2 == Shift(w, 15) % 2
  {
    PowerValues();
    ShiftSmall(w, 15, Power(15));
    PowerGrows(15, k);
    ShiftSmall(w, k, Power(k));
  }

  lemma {:induction false} PowerGrows(a: nat, b: nat)
    requires a <= b
    ensures Power(a) <= Power(b)
    decreases b
  {
    if a < b { PowerGrows(a, b - 1); }
  }
}
