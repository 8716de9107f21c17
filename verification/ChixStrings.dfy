/** Chix objects: a buffer of `maxlen + 1` characters of one width, and a cached length. */
module ChixStrings {
  import opened Text
  import opened Chixen

  const ALLCHARS := -1000
  const MINLEN := 63

  function MaxOf(a: int, b: int): int { if a > b then a else b }

  /** A width forced into THIN .. WIDE. */
  function Clamp(w: int): (r: int)
    ensures Width(r)
  {
    if w < THIN then THIN else if w > WIDE then WIDE else w
  }

  /** A buffer that holds `t`, with the terminator below `maxlen`. */
  ghost predicate Holds(p: array<byte>, w: int, maxlen: int, t: Text)
    reads p
  {
    && Width(w) && p.Length == Off(w, maxlen + 1)
    && |t| < maxlen
    && HasText(p[..], 0, w, t)
  }

  class Chix {
    var p: array<byte>
    var maxlen: int
    var actlen: int      // the length, or -1 when it is not known
    var width: int
    ghost var text: Text // what the buffer holds

    ghost predicate Held()
      reads this, p
    {
      Holds(p, width, maxlen, text)
    }

    /** The buffer holds the text, and the cached length is right, if there is one. */
    ghost predicate Valid()
      reads this, p
    {
      Held() && (actlen == -1 || actlen == |text|)
    }

    /** `chxalloc`. */
    constructor (maxl: int, type_: int)
      ensures Valid() && fresh(p) && text == []
      ensures width == Clamp(type_) && maxlen == MaxOf(maxl, MINLEN) && actlen == 0
    {
      var w := Clamp(type_);
      var m := MaxOf(maxl, MINLEN);
      var buffer := new byte[Off(w, m + 1)](_ => 0);
      p, maxlen, actlen, width, text := buffer, m, 0, w, [];
      new;
      assert CharAt(p[..], 0, width) == 0;
    }

    /** `chxlen`: the length, looked up or counted. */
    method Len() returns (n: int)
      requires Valid()
      modifies this`actlen
      ensures Valid() && n == |text| == actlen
    {
      hide HasText, HasChars, CharAt;
      if actlen >= 0 { return actlen; }
      n := 0;
      while true
        invariant 0 <= n <= |text|
        invariant actlen == old(actlen)
        decreases |text| - n
      {
        TextChar(p[..], 0, width, text, n);
        var sum := ReadChar(p, Off(width, n), width);
        if sum == 0 {
          actlen := n;
          return;
        }
        n := n + 1;
      }
    }

    /** `chxvalue`: character `n`, 0 at and after the end. */
    method Value(n: int) returns (v: int)
      requires Valid() && n >= 0
      modifies this`actlen
      ensures Valid() && actlen == |text|
      ensures v == if n < |text| then text[n] else 0
      ensures n < |text| ==> v != 0
    {
      hide HasText, HasChars, CharAt;
      if 0 > actlen { var _ := Len(); }
      if n >= actlen { return 0; }
      TextChar(p[..], 0, width, text, n);
      v := ReadChar(p, Off(width, n), width);
    }

    /** `chxclear`. */
    method Clear()
      requires Held()
      modifies this`actlen, this`text, p
      ensures Valid() && text == []
    {
      ClearChar(p, 0, width);
      actlen := 0;
      text := [];
    }

    /** `chxresize`: never narrower, never shorter; the text and the cached length stay. */
    method Resize(newtype_: int, newmax_: int)
      requires Held()
      modifies this`p, this`maxlen, this`width
      ensures Held() && (p == old(p) || fresh(p))
      ensures width == MaxOf(old(width), Clamp(newtype_))
      ensures maxlen >= MaxOf(newmax_, old(maxlen))
    {
      hide HasText, HasChars, CharAt;
      var newtype' := Clamp(newtype_);
      var newmax := newmax_;
      if newtype' < width { newtype' := width; }
      if newmax < 2 { newmax := 2; }
      if newtype' == width && newmax < maxlen { return; }
      if newmax < maxlen { newmax := maxlen; }
      var expand := 3 * maxlen / 2;
      if newmax < expand { newmax := expand; }
      var p1 := new byte[Off(newtype', newmax + 1)];
      Chxcapc(p1, 0, newtype', p, 0, width, -1, text);
      assert text[..|text|] == text;
      maxlen := newmax;
      width := newtype';
      p := p1;
    }
  }

  lemma HeldBounds(a: Chix)
    requires a.Held()
    ensures |a.text| < a.maxlen && Width(a.width)
  {
  }

  /** Two chix that share nothing. */
  ghost predicate Apart(a: Chix, b: Chix)
    reads a, b
  {
    a != b && a.p != b.p
  }

  /** `chxcat`: appends `b` to `a`.  The buffer grows only if the text with its terminator
      would not end below `maxlen`; the second terminator that the copy writes still fits. */
  method ChxCat(a: Chix, b: Chix)
    requires a.Valid() && b.Valid() && Apart(a, b)
    modifies a, a.p, b`actlen
    ensures a.Valid() && b.Valid() && (a.p == old(a.p) || fresh(a.p))
    ensures a.text == old(a.text) + b.text
    ensures a.width == MaxOf(old(a.width), b.width)
  {
    hide HasText, HasChars, CharAt;
    var blen := b.Len();
    var alen := a.Len();
    if a.width < b.width || a.maxlen < alen + blen + 1 {
      a.Resize(b.width, alen + blen + 5);
    }
    Append(a, b, 0, -1, alen);
    a.actlen := alen + blen;
  }

  /** The copy at the end of `a`, which is big and wide enough. */
  method Append(a: Chix, b: Chix, i: nat, n: int, alen: nat)
    requires a.Held() && b.Held() && Apart(a, b) && alen == |a.text| && i <= |b.text| && b.width <= a.width
    requires alen + Taken(b.text[i..], n) < a.maxlen
    modifies a`text, a.p
    ensures a.Held()
    ensures a.text == old(a.text) + b.text[i..][..Taken(b.text[i..], n)]
  {
    hide HasText, HasChars, CharAt;
    ghost var t := b.text[i..];
    ghost var m := Taken(t, n);
    TextSuffix(b.p[..], 0, b.width, b.text, i);
    ghost var before := a.p[..];
    Chxcapc(a.p, Off(a.width, alen), a.width, b.p, Off(b.width, i), b.width, n, t);
    TextsJoin(before, a.p[..], a.width, a.text, t[..m]);
    a.text := a.text + t[..m];
  }

  lemma TextsJoin(before: seq<byte>, p: seq<byte>, w: int, t: Text, u: Text)
    requires HasText(before, 0, w, t) && |p| == |before|
    requires forall k :: 0 <= k < Off(w, |t|) ==> p[k] == before[k]
    requires HasText(p, Off(w, |t|), w, u)
    ensures HasText(p, 0, w, t + u)
  {
    forall k | 0 <= k < |t + u|
      ensures CharAt(p, Off(w, k), w) == (t + u)[k] && (t + u)[k] != 0
    {
      if k < |t| {
        assert CharAt(before, 0 + Off(w, k), w) == t[k];
      } else {
        assert CharAt(p, Off(w, |t|) + Off(w, k - |t|), w) == u[k - |t|];
      }
    }
    assert CharAt(p, Off(w, |t|) + Off(w, |u|), w) == 0;
  }

  /** The part of `t` that position `i` and count `n` name, with the source's corrections. */
  function Sub(t: Text, i: int, n: int): Text {
    var from := if i < 0 then 0 else if i > |t| then |t| else i;
    var count := if n == ALLCHARS then |t| else if n < 0 then 0 else n;
    t[from..][..Taken(t[from..], count)]
  }

  /** `chxcatsub`: appends `n` characters of `b` from position `i`. */
  method ChxCatSub(a: Chix, b: Chix, i: int, n: int)
    requires a.Valid() && b.Valid() && (a == b || Apart(a, b))
    modifies a, a.p, b`actlen
    ensures a.Valid() && b.Valid() && (a.p == old(a.p) || fresh(a.p))
    ensures a == b ==> a.text == old(a.text)
    ensures a != b ==> a.text == old(a.text) + Sub(b.text, i, n)
    ensures a != b ==> old(a.width) <= a.width <= MaxOf(old(a.width), b.width)
  {
    hide HasText, HasChars, CharAt;
    if a == b { return; }
    var alen := a.Len();
    var blen := b.Len();
    var n', i' := n, i;
    if n' == ALLCHARS { n' := blen; }
    if n' < 0 { n' := 0; }
    if i' < 0 { i' := 0; }
    if i' >= blen { i' := blen; }
    var use := blen - i';
    if n' < use { use := n'; }
    if a.width < b.width || a.maxlen < alen + use + 3 {
      a.Resize(b.width, alen + use + 5);
    }
    Append(a, b, i', n', alen);
    a.actlen := -1;
  }

  /** What is left of the value `v` in a character of width `w`. */
  function Cut(v: int, w: int): (c: int)
    ensures 0 <= c
  {
    if w == THIN then v % 256 else v % 65536
  }

  function CharText(c: int): Text {
    if c == 0 then [] else [c]
  }

  /** Writes the character and a terminator at the end of the text. */
  method PutLast(a: Chix, len: nat, v: int)
    requires a.Held() && len == |a.text| && len + 1 < a.maxlen
    modifies a`text, a.p
    ensures a.Held() && a.text == old(a.text) + CharText(Cut(v, a.width))
  {
    hide HasText, HasChars, CharAt;
    ghost var before := a.p[..];
    ghost var c := Cut(v, a.width);
    WriteChar(a.p, Off(a.width, len), a.width, v);
    ghost var middle := a.p[..];
    ClearChar(a.p, Off(a.width, len + 1), a.width);
    OneChar(middle, a.p[..], Off(a.width, len), a.width, c);
    TextsJoin(before, a.p[..], a.width, a.text, CharText(c));
    a.text := a.text + CharText(c);
  }

  /** `chxcatval`: appends the character `v`, cut to what the width can hold.  The cached
      length counts it, so it stays right exactly if something is left of the character. */
  method ChxCatVal(a: Chix, width: int, v: int)
    requires a.Valid()
    modifies a, a.p
    ensures a.Held() && (a.p == old(a.p) || fresh(a.p))
    ensures a.width == MaxOf(old(a.width), Clamp(width))
    ensures a.text == old(a.text) + CharText(Cut(v, a.width))
    ensures a.Valid() <==> Cut(v, a.width) != 0
  {
    hide Holds;
    var w := Clamp(width);
    var len := a.actlen;
    if len < 0 { len := a.Len(); }
    if a.width < w || a.maxlen <= len + 2 {
      a.Resize(w, len + 5);
    }
    PutLast(a, len, v);
    a.actlen := a.actlen + 1;
  }

  /** A character and a terminator are a text of that character, unless it is zero itself. */
  lemma OneChar(middle: seq<byte>, p: seq<byte>, at: int, w: int, c: int)
    requires Width(w) && 0 <= at && at + Off(w, 2) <= |p| == |middle|
    requires CharAt(middle, at, w) == c && CharAt(p, at + Off(w, 1), w) == 0
    requires forall k :: at <= k < at + Off(w, 1) ==> p[k] == middle[k]
    ensures HasText(p, at, w, CharText(c))
  {
    assert CharAt(p, at, w) == CharAt(middle, at, w);
    if c != 0 {
      assert [c][0] == c;
    }
  }

  /** The bytes of a text and its terminator, copied, are that text. */
  lemma TextCopied(src: seq<byte>, p: seq<byte>, w: int, t: Text)
    requires HasText(src, 0, w, t) && Off(w, |t| + 1) <= |p|
    requires forall k :: 0 <= k < Off(w, |t| + 1) ==> p[k] == src[k]
    ensures HasText(p, 0, w, t)
  {
    CharsKept(src, p, 0, w, t, |t|);
  }

  /** Copies one character inside a buffer. */
  method CopyWithin(p: array<byte>, ap: nat, bp: nat, w: int) returns (zero: bool)
    requires Width(w) && ap + w <= p.Length && bp + w <= p.Length && (ap == bp || bp + w <= ap)
    modifies p
    ensures CharAt(p[..], ap, w) == old(CharAt(p[..], bp, w)) && (zero <==> CharAt(p[..], ap, w) == 0)
    ensures forall k :: 0 <= k < p.Length && !(ap <= k < ap + w) ==> p[k] == old(p[k])
  {
    p[ap] := p[bp];
    zero := p[ap] == 0;
    if w == WIDE {
      p[ap + 1] := p[bp + 1];
      zero := zero && p[ap + 1] == 0;
    }
  }

  /** The copying loop, from the start of a buffer to its end.  It is stopped where it would
      write outside. */
  method CopyOntoItself(p: array<byte>, w: int, alen: nat) returns (inside: bool)
    requires Width(w) && NonzeroTo(p[..], w, alen) && Off(w, alen + 1) <= p.Length
    requires CharAt(p[..], Off(w, alen), w) == 0
    modifies p
    ensures inside <==> alen == 0
    ensures alen == 0 ==> p[..] == old(p[..])
  {
    hide CharAt, NonzeroTo;
    if alen == 0 {
      ghost var was := p[..];
      inside := CopyWithin(p, 0, 0, w);
      SameChar(was, p[..], w);
      return;
    }
    var k := 0;
    while true
      invariant 0 <= k && NonzeroTo(p[..], w, alen + k)
      decreases p.Length - k
    {
      if Off(w, alen + k + 1) > p.Length { return false; }
      ghost var before := p[..];
      var zero := CopyWithin(p, Off(w, alen + k), Off(w, k), w);
      NonzeroMore(before, p[..], w, alen + k, k);
      if zero { break; }
      k := k + 1;
    }
    inside := true;
  }

  lemma SameChar(was: seq<byte>, p: seq<byte>, w: int)
    requires Width(w) && |p| == |was| >= w && CharAt(p, 0, w) == CharAt(was, 0, w)
    requires forall k :: 0 <= k < |p| && !(0 <= k < w) ==> p[k] == was[k]
    ensures p == was
  {
    assert p[0] == was[0] && (w == WIDE ==> p[1] == was[1]);
  }

  /** `chxcat` of a chix with itself.  The copy runs over the terminator that should stop it, so
      it stays inside the buffer if and only if there is nothing to copy. */
  method ChxCatSelf(a: Chix) returns (inside: bool)
    requires a.Valid()
    modifies a, a.p
    ensures inside <==> old(a.text) == []
    ensures inside ==> a.Valid() && a.text == []
  {
    hide HasText, HasChars, CharAt, NonzeroTo;
    var alen := a.Len();
    if a.maxlen < alen + alen + 1 { a.Resize(a.width, alen + alen + 5); }
    HeldBounds(a);
    TextNonzeroChars(a.p[..], a.width, a.text);
    TextChar(a.p[..], 0, a.width, a.text, |a.text|);
    inside := CopyOntoItself(a.p, a.width, alen);
    if !inside { return; }
    ghost var before := a.p[..];
    ClearChar(a.p, Off(a.width, alen + 1), a.width);
    StillEmpty(before, a.p[..], a.width);
    a.actlen := alen + alen;
  }

  /** The first `n` characters of a buffer are not zero. */
  ghost predicate NonzeroTo(p: seq<byte>, w: int, n: int) {
    Width(w) && 0 <= Off(w, n) <= |p| && forall k :: 0 <= k < n ==> CharAt(p, Off(w, k), w) != 0
  }

  lemma TextNonzeroChars(p: seq<byte>, w: int, t: Text)
    requires HasText(p, 0, w, t)
    ensures NonzeroTo(p, w, |t|)
  {
    forall k | 0 <= k < |t| ensures CharAt(p, Off(w, k), w) != 0 {
      assert CharAt(p, 0 + Off(w, k), w) == t[k];
    }
  }

  lemma NonzeroMore(before: seq<byte>, p: seq<byte>, w: int, n: int, k: int)
    requires NonzeroTo(before, w, n) && 0 <= k < n && |p| == |before| && Off(w, n + 1) <= |p|
    requires CharAt(p, Off(w, n), w) == CharAt(before, Off(w, k), w)
    requires forall i :: 0 <= i < |p| && !(Off(w, n) <= i < Off(w, n) + w) ==> p[i] == before[i]
    ensures NonzeroTo(p, w, n + 1) && CharAt(p, Off(w, n), w) != 0
  {
    forall i | 0 <= i < n ensures CharAt(p, Off(w, i), w) != 0 {
      assert CharAt(before, Off(w, i), w) != 0;
    }
  }

  lemma StillEmpty(before: seq<byte>, p: seq<byte>, w: int)
    requires Width(w) && |p| == |before| && Off(w, 2) <= |p| && CharAt(before, 0, w) == 0
    requires forall i :: 0 <= i < |p| && !(Off(w, 1) <= i < Off(w, 1) + w) ==> p[i] == before[i]
    ensures HasText(p, 0, w, [])
  {
  }

  method CopyBytes(p: array<byte>, q: array<byte>, bytes: nat)
    requires bytes <= p.Length && bytes <= q.Length
    modifies p
    ensures forall k :: 0 <= k < bytes ==> p[k] == old(q[k])
    ensures p == q ==> p[..] == old(p[..])
  {
    var i := 0;
    while i < bytes
      invariant 0 <= i <= bytes
      invariant q[..] == old(q[..])
      invariant forall k :: 0 <= k < i ==> p[k] == old(q[k])
    {
      p[i] := q[i];
      i := i + 1;
    }
  }

  /** `chxcpy`: makes `a` a copy of `b`, which may be `a` itself. */
  method ChxCpy(a: Chix, b: Chix)
    requires a.Valid() && b.Valid() && (a == b || Apart(a, b))
    modifies a, a.p, b`actlen
    ensures a.Valid() && b.Valid() && (a.p == old(a.p) || fresh(a.p))
    ensures a.text == old(b.text) == b.text
    ensures a.width == MaxOf(old(a.width), b.width)
  {
    hide HasText, HasChars, CharAt;
    if a.width > b.width {
      a.Clear();
      ChxCat(a, b);
      assert [] + b.text == b.text;
      return;
    }
    var blen := b.Len();
    var len := blen + 1;
    if a.width < b.width { a.Resize(b.width, len + 20); }
    if a.maxlen < len { a.Resize(a.width, len + 20); }
    ghost var src := b.p[..];
    CopyBytes(a.p, b.p, Off(b.width, len));
    TextCopied(src, a.p[..], b.width, b.text);
    a.text := b.text;
    a.actlen := b.actlen;
  }

  /** The substring that `chxcatsub` takes: at most `n` characters from position `i` on, where
      positions outside count as the nearest end and ALLCHARS as all. */
  lemma SubIs(t: Text, i: int, n: int)
    ensures var from := if i < 0 then 0 else if i > |t| then |t| else i;
            var rest := |t| - from;
            && |Sub(t, i, n)| == (if n == ALLCHARS || n > rest then rest else if n < 0 then 0 else n)
            && forall k :: 0 <= k < |Sub(t, i, n)| ==> Sub(t, i, n)[k] == t[from + k]
  {
  }
}
