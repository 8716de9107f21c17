/** The branches that are compiled when every character has one byte.  Each does for one-byte
    chix what the general branch does: the contracts are the general ones. */
module ChixThin {
  import opened Text
  import opened Numbers
  import opened Chixen
  import opened ChixStrings
  import opened ChixSearch

  /** `chxlen`. */
  method LenThin(x: Chix) returns (n: int)
    requires x.Valid() && x.width == THIN
    modifies x`actlen
    ensures x.Valid() && n == |x.text| == x.actlen
  {
    hide HasText, HasChars;
    if x.actlen >= 0 { return x.actlen; }
    HeldBounds(x);
    n := 0;
    TextChar(x.p[..], 0, THIN, x.text, 0);
    while x.p[n] != 0
      invariant 0 <= n <= |x.text| < x.maxlen && n < x.p.Length
      invariant x.p[n] == if n < |x.text| then x.text[n] else 0
      decreases |x.text| - n
    {
      n := n + 1;
      TextChar(x.p[..], 0, THIN, x.text, n);
    }
    TextChar(x.p[..], 0, THIN, x.text, n);
    x.actlen := n;
  }

  /** `chxvalue`. */
  method ValueThin(x: Chix, n: int) returns (v: int)
    requires x.Valid() && x.width == THIN && n >= 0
    modifies x`actlen
    ensures x.Valid() && x.actlen == |x.text|
    ensures v == if n < |x.text| then x.text[n] else 0
    ensures n < |x.text| ==> v != 0
  {
    hide HasText, HasChars;
    if 0 > x.actlen { var _ := LenThin(x); }
    if n >= x.actlen { return 0; }
    TextChar(x.p[..], 0, THIN, x.text, n);
    v := x.p[n];
  }

  /** `chxclear`. */
  method ClearThin(x: Chix)
    requires x.Held() && x.width == THIN
    modifies x`actlen, x`text, x.p
    ensures x.Valid() && x.text == []
  {
    x.p[0] := 0;
    x.actlen := 0;
    x.text := [];
  }

  /** The character and the terminator at the end of the text. */
  method PutLastThin(a: Chix, len: nat, v: int)
    requires a.Held() && a.width == THIN && len == |a.text| && len + 1 < a.maxlen
    modifies a`text, a.p
    ensures a.Held() && a.text == old(a.text) + CharText(Cut(v, THIN))
  {
    hide HasText, HasChars;
    ghost var before := a.p[..];
    ghost var c := Cut(v, THIN);
    var z := len;
    a.p[z] := v % 256;
    ghost var middle := a.p[..];
    z := z + 1;
    a.p[z] := 0;
    OneChar(middle, a.p[..], len, THIN, c);
    TextsJoin(before, a.p[..], THIN, a.text, CharText(c));
    a.text := a.text + CharText(c);
  }

  /** `chxcatval`. */
  method ChxCatValThin(a: Chix, v: int)
    requires a.Valid() && a.width == THIN
    modifies a, a.p
    ensures a.Held() && (a.p == old(a.p) || fresh(a.p)) && a.width == THIN
    ensures a.text == old(a.text) + CharText(Cut(v, THIN))
    ensures a.Valid() <==> Cut(v, THIN) != 0
  {
    hide Holds;
    var len := a.actlen;
    if len < 0 { len := LenThin(a); }
    if a.maxlen <= len + 2 { a.Resize(THIN, len + 5); }
    PutLastThin(a, len, v);
    a.actlen := a.actlen + 1;
  }

  /** `chxcpy`: `CopyBytes` with one byte for each character. */
  method ChxCpyThin(a: Chix, b: Chix)
    requires a.Valid() && b.Valid() && a.width == b.width == THIN && (a == b || Apart(a, b))
    modifies a, a.p, b`actlen
    ensures a.Valid() && b.Valid() && (a.p == old(a.p) || fresh(a.p))
    ensures a.text == old(b.text) == b.text && a.width == THIN
  {
    hide HasText, HasChars, CharAt;
    var blen := LenThin(b);
    var len := blen + 1;
    if a.maxlen < len { a.Resize(THIN, len + 20); }
    ghost var src := b.p[..];
    CopyBytes(a.p, b.p, len);
    TextCopied(src, a.p[..], THIN, b.text);
    a.text := b.text;
    a.actlen := b.actlen;
  }

  /** `chxindex`. */
  method ChxIndexThin(x: Chix, pos: nat, y: Chix) returns (r: int)
    requires x.Valid() && y.Valid() && x.width == y.width == THIN
    modifies x`actlen, y`actlen
    ensures x.Valid() && y.Valid()
    ensures r == Index(x.text, pos, y.text)
  {
    hide HasText, HasChars, MatchAt;
    var y0 := ValueThin(y, 0);
    if y0 == 0 { return -1; }
    if x.actlen < 0 { var _ := LenThin(x); }
    if pos >= x.actlen { return -1; }
    var i := pos;
    while true
      modifies {}
      invariant pos <= i <= |x.text|
      invariant Index(x.text, i, y.text) == Index(x.text, pos, y.text)
      invariant y.text != []
      decreases |x.text| - i
    {
      TextChar(x.p[..], 0, THIN, x.text, i);
      if x.p[i] == 0 { break; }
      TextSuffix(x.p[..], 0, THIN, x.text, i);
      var n, xend, yend := ChxScanThin(x.p, i, y.p, 0, x.text[i..], y.text);
      MatchIsPrefix(x.text, i, y.text, n);
      if yend == 0 { return i; }
      i := i + 1;
    }
    r := -1;
  }
}
