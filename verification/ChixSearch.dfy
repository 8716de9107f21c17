/** Searching and replacing in chix of any widths. */
module ChixSearch {
  import opened Text
  import opened Numbers
  import opened Chixen
  import opened ChixStrings

  function CharOrZero(t: Text, n: nat): int {
    if n < |t| then t[n] else 0
  }

  /** `n` is the first position where `x` and `y` differ, or where both end. */
  ghost predicate FirstDiff(x: Text, y: Text, n: int) {
    && 0 <= n <= |x| && n <= |y|
    && (forall k :: 0 <= k < n ==> x[k] == y[k])
    && (CharOrZero(x, n) != CharOrZero(y, n) || (n == |x| && n == |y|))
  }

  /** `chxscan`: the first difference of two strings, and the characters found there. */
  method ChxScan(p: array<byte>, at: nat, w: int, q: array<byte>, bt: nat, v: int, ghost x: Text, ghost y: Text)
    returns (n: nat, enda: int, endb: int)
    requires HasText(p[..], at, w, x) && HasText(q[..], bt, v, y)
    ensures FirstDiff(x, y, n) && enda == CharOrZero(x, n) && endb == CharOrZero(y, n)
    ensures endb == 0 <==> n == |y|
  {
    hide HasText, HasChars, CharAt;
    n := 0;
    TextChar(p[..], at, w, x, 0);
    TextChar(q[..], bt, v, y, 0);
    var ap, bp := at, bt;
    while true
      invariant 0 <= n <= |x| && n <= |y|
      invariant ap == at + Off(w, n) && bp == bt + Off(v, n)
      invariant forall k :: 0 <= k < n ==> x[k] == y[k]
      decreases |x| - n
    {
      TextChar(p[..], at, w, x, n);
      TextChar(q[..], bt, v, y, n);
      enda := ReadChar(p, ap, w);
      endb := ReadChar(q, bp, v);
      if enda != endb || enda == 0 { break; }
      ap := ap + w;
      bp := bp + v;
      n := n + 1;
    }
  }

  /** The one-byte form: the same contract at width 1. */
  method ChxScanThin(p: array<byte>, at: nat, q: array<byte>, bt: nat, ghost x: Text, ghost y: Text)
    returns (n: nat, enda: int, endb: int)
    requires HasText(p[..], at, THIN, x) && HasText(q[..], bt, THIN, y)
    ensures FirstDiff(x, y, n) && enda == CharOrZero(x, n) && endb == CharOrZero(y, n)
    ensures endb == 0 <==> n == |y|
  {
    n := 0;
    while true
      invariant 0 <= n <= |x| && n <= |y|
      invariant forall k :: 0 <= k < n ==> x[k] == y[k]
      decreases |x| - n
    {
      TextChar(p[..], at, THIN, x, n);
      TextChar(q[..], bt, THIN, y, n);
      if p[at + n] != q[bt + n] || p[at + n] == 0 { break; }
      n := n + 1;
    }
    enda, endb := p[at + n], q[bt + n];
  }

  lemma MatchIsPrefix(x: Text, i: nat, y: Text, n: nat)
    requires i <= |x| && FirstDiff(x[i..], y, n)
    ensures MatchAt(x, i, y) <==> n == |y|
  {
    if n == |y| {
      assert x[i..i + |y|] == y by {
        assert forall k :: 0 <= k < |y| ==> x[i..][k] == y[k];
      }
    } else if i + |y| <= |x| {
      assert CharOrZero(x[i..], n) != CharOrZero(y, n);
      assert x[i..i + |y|][n] == x[i..][n];
    }
  }

  /** `chxindex`: the least position at or after `pos` where `y` occurs, for any widths. */
  method ChxIndex(x: Chix, pos: nat, y: Chix) returns (r: int)
    requires x.Valid() && y.Valid()
    modifies x`actlen, y`actlen
    ensures x.Valid() && y.Valid()
    ensures r == Index(x.text, pos, y.text)
  {
    hide HasText, HasChars, CharAt, MatchAt;
    var y0 := y.Value(0);
    if y0 == 0 { return -1; }
    if x.actlen < 0 { var _ := x.Len(); }
    if pos >= x.actlen { return -1; }
    var i := pos;
    while true
      modifies {}
      invariant pos <= i <= |x.text|
      invariant Index(x.text, i, y.text) == Index(x.text, pos, y.text)
      invariant y.text != []
      decreases |x.text| - i
    {
      TextChar(x.p[..], 0, x.width, x.text, i);
      var sum := ReadChar(x.p, Off(x.width, i), x.width);
      if sum == 0 { break; }
      TextSuffix(x.p[..], 0, x.width, x.text, i);
      var n, xend, yend := ChxScan(x.p, Off(x.width, i), x.width, y.p, 0, y.width, x.text[i..], y.text);
      MatchIsPrefix(x.text, i, y.text, n);
      if yend == 0 { return i; }
      i := i + 1;
    }
    r := -1;
  }

  /** The exchange of `a` with the chix built in its place. */
  method TakeOver(a: Chix, z: Chix)
    requires z.Valid()
    modifies a
    ensures a.Valid() && a.p == z.p && a.text == old(z.text)
  {
    a.p, a.maxlen, a.actlen, a.width, a.text := z.p, z.maxlen, z.actlen, z.width, z.text;
  }

  /** A new chix of the characters of `a` before `i`, all of `c`, and `a` from `j` on. */
  method BuildAltered(a: Chix, i: nat, j: nat, c: Chix) returns (z: Chix)
    requires a.Valid() && c.Valid() && Apart(a, c) && i <= j <= |a.text|
    modifies a`actlen, c`actlen
    ensures fresh(z) && fresh(z.p) && z.Valid() && a.Valid() && c.Valid()
    ensures z.text == a.text[..i] + c.text + a.text[j..]
  {
    hide Holds;
    z := new Chix(a.maxlen, a.width);
    HeldBounds(a);
    AlterPieces(a.text, i, j - i, a.maxlen);
    ChxCatSub(z, a, 0, i);
    ChxCat(z, c);
    ChxCatSub(z, a, j, a.maxlen);
  }

  /** `chxalter`: replaces the first occurrence of `b` at or after `pos` by `c`. */
  method ChxAlter(a: Chix, pos: nat, b: Chix, c: Chix) returns (changed: bool)
    requires a.Valid() && b.Valid() && c.Valid() && Apart(a, b) && Apart(a, c)
    modifies a, b`actlen, c`actlen
    ensures a.Valid() && b.Valid() && c.Valid() && (a.p == old(a.p) || fresh(a.p))
    ensures changed <==> Index(old(a.text), pos, b.text) >= 0
    ensures !changed ==> a.text == old(a.text)
    ensures changed ==> var i := Index(old(a.text), pos, b.text);
                        a.text == old(a.text)[..i] + c.text + old(a.text)[i + |b.text|..]
  {
    hide Holds;
    var i := ChxIndex(a, pos, b);
    if i < 0 { return false; }
    if c.width > a.width { a.Resize(c.width, 0); }
    var blen := b.Len();
    var z := BuildAltered(a, i, i + blen, c);
    TakeOver(a, z);
    changed := true;
  }

  lemma AlterPieces(t: Text, i: nat, len: nat, maxlen: int)
    requires i + len <= |t| < maxlen
    ensures [] + Sub(t, 0, i) == t[..i] && Sub(t, i + len, maxlen) == t[i + len..]
  {
    assert t[0..] == t;
  }

  // ------------------------------------------------------------- replacing all occurrences

  /** Left to right from `i`: where `b` starts, `c` is written and the scan goes on after it. */
  function Replaced(x: Text, i: nat, b: Text, c: Text): Text
    requires i <= |x| && b != []
    decreases |x| - i
  {
    if i == |x| then []
    else if MatchAt(x, i, b) then c + Replaced(x, i + |b|, b, c)
    else [x[i]] + Replaced(x, i + 1, b, c)
  }

  lemma ReplacedUnfolds(x: Text, i: nat, b: Text, c: Text)
    requires i <= |x| && b != []
    ensures i == |x| ==> Replaced(x, i, b, c) == []
    ensures i < |x| && MatchAt(x, i, b) ==> i + |b| <= |x| && Replaced(x, i, b, c) == c + Replaced(x, i + |b|, b, c)
    ensures i < |x| && !MatchAt(x, i, b) ==> Replaced(x, i, b, c) == [x[i]] + Replaced(x, i + 1, b, c)
  {
  }

  lemma IndexUnfolds(x: Text, i: nat, b: Text)
    requires b != []
    ensures i < |x| ==> Index(x, i, b) == if MatchAt(x, i, b) then i else Index(x, i + 1, b)
    ensures i >= |x| ==> Index(x, i, b) == -1
  {
  }

  /** The same by occurrences: up to the leftmost one unchanged, then `c`, then the rest. */
  lemma {:induction false} ReplacedByIndex(x: Text, i: nat, b: Text, c: Text)
    requires i <= |x| && b != []
    ensures var k := Index(x, i, b);
            Replaced(x, i, b, c) == if k < 0 then x[i..]
                                    else x[i..k] + c + Replaced(x, k + |b|, b, c)
    decreases |x| - i
  {
    hide MatchAt, Replaced, Index;
    ReplacedUnfolds(x, i, b, c);
    IndexUnfolds(x, i, b);
    if i < |x| {
      if MatchAt(x, i, b) {
        assert x[i..i] == [];
      } else {
        ReplacedByIndex(x, i + 1, b, c);
        var k := Index(x, i + 1, b);
        if k < 0 {
          assert x[i..] == [x[i]] + x[i + 1..];
        } else {
          MatchBounds(x, k, b);
          var rest := Replaced(x, k + |b|, b, c);
          assert x[i..k] == [x[i]] + x[i + 1..k];
          assert [x[i]] + (x[i + 1..k] + c + rest) == x[i..k] + c + rest;
        }
      }
    }
  }

  /** Replacing `b` by itself changes nothing. */
  lemma {:induction false} ReplacedBySelf(x: Text, i: nat, b: Text)
    requires i <= |x| && b != []
    ensures Replaced(x, i, b, b) == x[i..]
    decreases |x| - i
  {
    if i < |x| {
      if MatchAt(x, i, b) {
        ReplacedBySelf(x, i + |b|, b);
        assert x[i..] == b + x[i + |b|..];
      } else {
        ReplacedBySelf(x, i + 1, b);
        assert x[i..] == [x[i]] + x[i + 1..];
      }
    }
  }

  /** Replacing from the leftmost occurrence on is replacing from `pos` on. */
  lemma ReplacedFromFirst(x: Text, pos: nat, b: Text, c: Text, k: nat)
    requires pos <= |x| && b != [] && k == Index(x, pos, b)
    ensures x[..k] + Replaced(x, k, b, c) == x[..pos] + Replaced(x, pos, b, c)
  {
    hide Replaced, Index, MatchAt;
    ReplacedByIndex(x, pos, b, c);
    MatchBounds(x, k, b);
    var rest := Replaced(x, k + |b|, b, c);
    ReplacedUnfolds(x, k, b, c);
    assert x[..k] == x[..pos] + x[pos..k];
    assert x[..pos] + (x[pos..k] + c + rest) == x[..k] + (c + rest);
  }

  /** `chxreplace`: replaces every occurrence of `b` at or after `pos`, leftmost first; text
      that was put in is not looked at again. */
  method ChxReplace(a: Chix, pos: nat, b: Chix, c: Chix) returns (changed: bool)
    requires a.Valid() && b.Valid() && c.Valid() && Apart(a, b) && Apart(a, c)
    modifies a, b`actlen, c`actlen
    ensures a.Valid() && b.Valid() && c.Valid() && (a.p == old(a.p) || fresh(a.p))
    ensures changed <==> Index(old(a.text), pos, b.text) >= 0
    ensures !changed ==> a.text == old(a.text)
    ensures changed ==> b.text != [] && pos <= |old(a.text)|
                        && a.text == old(a.text)[..pos] + Replaced(old(a.text), pos, b.text, c.text)
  {
    hide Holds;
    var first := ChxIndex(a, pos, b);
    if first < 0 { return false; }
    if c.width > a.width { a.Resize(c.width, 0); }
    var z := BuildReplaced(a, first, b, c);
    ReplacedFromFirst(a.text, pos, b.text, c.text, first);
    TakeOver(a, z);
    changed := true;
  }

  /** A new chix of the characters of `a` before `first`, and the rest of `a` replaced. */
  method BuildReplaced(a: Chix, first: nat, b: Chix, c: Chix) returns (z: Chix)
    requires a.Valid() && b.Valid() && c.Valid() && Apart(a, b) && Apart(a, c)
    requires b.text != [] && first <= |a.text|
    modifies a`actlen, b`actlen, c`actlen
    ensures fresh(z) && fresh(z.p) && z.Valid() && a.Valid() && b.Valid() && c.Valid()
    ensures z.text == a.text[..first] + Replaced(a.text, first, b.text, c.text)
  {
    hide Holds;
    z := new Chix(a.maxlen, a.width);
    HeldBounds(a);
    AlterPieces(a.text, first, 0, a.maxlen);
    ChxCatSub(z, a, 0, first);
    var pos := first;
    while true
      invariant first <= pos <= |a.text|
      invariant a.Valid() && b.Valid() && c.Valid() && z.Valid() && fresh(z.p)
      invariant a.text[..first] + Replaced(a.text, first, b.text, c.text)
                == z.text + Replaced(a.text, pos, b.text, c.text)
      decreases |a.text| - pos
    {
      var cval := a.Value(pos);
      if cval == 0 { break; }
      pos := ReplaceStep(z, a, pos, cval, b, c);
    }
  }

  /** One step of the scan of `a`: a character, or an occurrence of `b`. */
  method ReplaceStep(z: Chix, a: Chix, pos: nat, cval: int, b: Chix, c: Chix) returns (newpos: nat)
    requires a.Valid() && b.Valid() && c.Valid() && z.Valid()
    requires Apart(z, a) && Apart(z, b) && Apart(z, c) && b.text != [] && pos < |a.text|
    requires cval == a.text[pos]
    modifies z, z.p, a`actlen, b`actlen, c`actlen
    ensures a.Valid() && b.Valid() && c.Valid() && z.Valid() && (z.p == old(z.p) || fresh(z.p))
    ensures pos < newpos <= |a.text|
    ensures z.text + Replaced(a.text, newpos, b.text, c.text)
            == old(z.text) + Replaced(a.text, pos, b.text, c.text)
  {
    hide Holds, MatchAt;
    var found := StartsHere(a, pos, b);
    if !found {
      ValueFits(a, pos);
      ChxCatVal(z, a.maxlen, cval);
      newpos := pos + 1;
    } else {
      MatchBounds(a.text, pos, b.text);
      ChxCat(z, c);
      var blen := b.Len();
      newpos := pos + blen;
    }
  }

  lemma MatchBounds(x: Text, i: int, y: Text)
    requires MatchAt(x, i, y)
    ensures i + |y| <= |x|
  {
  }

  /** In the wider form a character of any chix is kept whole. */
  lemma ValueFits(a: Chix, pos: nat)
    requires a.Held() && pos < |a.text|
    ensures a.maxlen >= WIDE && Cut(a.text[pos], WIDE) == a.text[pos] != 0
  {
    TextFits(a.p[..], 0, a.width, a.text);
  }

  method StartsHere(a: Chix, pos: nat, b: Chix) returns (found: bool)
    requires a.Held() && b.Held() && pos < |a.text|
    ensures found <==> MatchAt(a.text, pos, b.text)
  {
    hide HasText, HasChars, CharAt;
    TextChar(a.p[..], 0, a.width, a.text, pos);
    TextSuffix(a.p[..], 0, a.width, a.text, pos);
    var n, aend, bend := ChxScan(a.p, Off(a.width, pos), a.width, b.p, 0, b.width, a.text[pos..], b.text);
    MatchIsPrefix(a.text, pos, b.text, n);
    found := bend == 0;
  }
}
