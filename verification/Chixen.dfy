/** The byte buffers of chix: zero-terminated strings whose characters are one or two bytes
    wide, high byte first. */
module Chixen {
  import opened Text

  type byte = b: int | 0 <= b < 256

  const THIN := 1
  const WIDE := 2

  predicate Width(w: int) {
    w == THIN || w == WIDE
  }

  /** Byte offset of character `k`. */
  function Off(w: int, k: int): int {
    if w == THIN then k else 2 * k
  }

  /** The character at byte offset `at`. */
  function CharAt(p: seq<byte>, at: int, w: int): int
    requires Width(w) && 0 <= at && at + w <= |p|
  {
    var high: int := p[at];
    if w == THIN then high else high * 256 + p[at + 1]
  }

  /** From byte `at` on, `p` holds the first `n` characters of `t`. */
  ghost predicate HasChars(p: seq<byte>, at: int, w: int, t: Text, n: int) {
    && Width(w) && 0 <= at && 0 <= n <= |t| && at + Off(w, n) <= |p|
    && forall k :: 0 <= k < n ==> CharAt(p, at + Off(w, k), w) == t[k]
  }

  /** From byte `at` on, `p` holds the characters of `t` and a terminator. */
  ghost predicate HasText(p: seq<byte>, at: int, w: int, t: Text) {
    && HasChars(p, at, w, t, |t|)
    && (forall k :: 0 <= k < |t| ==> t[k] != 0)
    && at + Off(w, |t| + 1) <= |p|
    && CharAt(p, at + Off(w, |t|), w) == 0
  }

  /** Equal bytes are equal characters. */
  lemma CharsKept(p: seq<byte>, p': seq<byte>, at: int, w: int, t: Text, n: int)
    requires HasChars(p, at, w, t, n) && at + Off(w, n) <= |p'|
    requires forall k :: at <= k < at + Off(w, n) ==> p'[k] == p[k]
    ensures HasChars(p', at, w, t, n)
  {
    forall k | 0 <= k < n
      ensures CharAt(p', at + Off(w, k), w) == t[k]
    {
      assert CharAt(p, at + Off(w, k), w) == t[k];
    }
  }

  lemma NoChars(p: seq<byte>, at: int, w: int, t: Text)
    requires Width(w) && 0 <= at <= |p|
    ensures HasChars(p, at, w, t, 0)
  {
  }

  lemma CharsMore(p: seq<byte>, at: int, w: int, t: Text, n: int)
    requires HasChars(p, at, w, t, n) && n < |t| && at + Off(w, n + 1) <= |p|
    requires CharAt(p, at + Off(w, n), w) == t[n]
    ensures HasChars(p, at, w, t, n + 1)
  {
  }

  lemma TextNonzero(p: seq<byte>, at: int, w: int, t: Text)
    requires HasText(p, at, w, t)
    ensures forall k :: 0 <= k < |t| ==> t[k] != 0
  {
  }

  lemma TextFits(p: seq<byte>, at: int, w: int, t: Text)
    requires HasText(p, at, w, t)
    ensures forall k :: 0 <= k < |t| ==> 0 < t[k] < (if w == THIN then 256 else 65536)
  {
    forall k | 0 <= k < |t|
      ensures 0 < t[k] < (if w == THIN then 256 else 65536)
    {
      assert CharAt(p, at + Off(w, k), w) == t[k];
    }
  }

  lemma TextSuffix(p: seq<byte>, at: int, w: int, t: Text, i: nat)
    requires HasText(p, at, w, t) && i <= |t|
    ensures HasText(p, at + Off(w, i), w, t[i..])
  {
    forall k | 0 <= k < |t| - i
      ensures CharAt(p, at + Off(w, i) + Off(w, k), w) == t[i..][k]
    {
      assert CharAt(p, at + Off(w, i + k), w) == t[i + k];
    }
  }

  /** A buffer can hold only one text. */
  lemma TextUnique(p: seq<byte>, at: int, w: int, t: Text, t': Text)
    requires HasText(p, at, w, t) && HasText(p, at, w, t')
    ensures t == t'
  {
    var n := if |t| < |t'| then |t| else |t'|;
    assert forall k :: 0 <= k < n ==> t[k] == CharAt(p, at + Off(w, k), w) == t'[k];
  }

  lemma TextChar(p: seq<byte>, at: int, w: int, t: Text, k: nat)
    requires HasText(p, at, w, t) && k <= |t|
    ensures Width(w) && at + Off(w, k + 1) <= |p| && 0 <= at + Off(w, k) <= |p| - w
    ensures CharAt(p, at + Off(w, k), w) == if k < |t| then t[k] else 0
    ensures k < |t| ==> t[k] != 0
  {
  }

  // ------------------------------------------------------------- copying characters

  /** Number of characters that a copy limited to `n` takes; negative `n` is no limit. */
  function Taken(t: Text, n: int): nat {
    if 0 <= n <= |t| then n else |t|
  }

  /** One character, with zero bytes in front where the destination is wider. */
  method CopyChar(dst: array<byte>, ap: nat, atype: int, src: array<byte>, bp: nat, btype: int) returns (zero: bool)
    requires Width(atype) && Width(btype) && btype <= atype && dst != src
    requires ap + atype <= dst.Length && bp + btype <= src.Length
    modifies dst
    ensures CharAt(dst[..], ap, atype) == CharAt(src[..], bp, btype)
    ensures zero <==> CharAt(src[..], bp, btype) == 0
    ensures forall k :: 0 <= k < dst.Length && !(ap <= k < ap + atype) ==> dst[k] == old(dst[k])
  {
    var deltype := atype - btype;
    var sum: int := 0;
    var i := 0;
    while i < deltype
      invariant 0 <= i <= deltype
      invariant forall k :: ap <= k < ap + i ==> dst[k] == 0
      invariant forall k :: 0 <= k < dst.Length && !(ap <= k < ap + i) ==> dst[k] == old(dst[k])
    {
      dst[ap + i] := 0;
      i := i + 1;
    }
    i := 0;
    while i < btype
      invariant 0 <= i <= btype
      invariant sum >= 0 && (sum == 0 <==> forall k :: bp <= k < bp + i ==> src[k] == 0)
      invariant forall k :: ap <= k < ap + deltype ==> dst[k] == 0
      invariant forall k :: ap + deltype <= k < ap + deltype + i ==> dst[k] == src[k - ap - deltype + bp]
      invariant forall k :: 0 <= k < dst.Length && !(ap <= k < ap + deltype + i) ==> dst[k] == old(dst[k])
    {
      sum := sum + src[bp + i];
      dst[ap + deltype + i] := src[bp + i];
      i := i + 1;
    }
    zero := sum == 0;
  }

  method ClearChar(dst: array<byte>, ap: nat, w: int)
    requires Width(w) && ap + w <= dst.Length
    modifies dst
    ensures CharAt(dst[..], ap, w) == 0
    ensures forall k :: 0 <= k < dst.Length && !(ap <= k < ap + w) ==> dst[k] == old(dst[k])
  {
    var i := 0;
    while i < w
      invariant 0 <= i <= w
      invariant forall k :: ap <= k < ap + i ==> dst[k] == 0
      invariant forall k :: 0 <= k < dst.Length && !(ap <= k < ap + i) ==> dst[k] == old(dst[k])
    {
      dst[ap + i] := 0;
      i := i + 1;
    }
  }

  /** Copies the text at `src[at0..]`, at most `n` characters of it, to `dst[at..]`, promoting
      it to the width of the destination.  When the text ends first its terminator is copied
      and a second one written: that is how far the writes reach. */
  method Chxcapc(dst: array<byte>, at: nat, atype: int, src: array<byte>, at0: nat, btype: int, n: int, ghost t: Text)
    requires Width(atype) && Width(btype) && btype <= atype && dst != src
    requires HasText(src[..], at0, btype, t)
    requires at + Off(atype, Taken(t, n) + (if n == Taken(t, n) then 1 else 2)) <= dst.Length
    modifies dst
    ensures HasText(dst[..], at, atype, t[..Taken(t, n)])
    ensures forall k :: 0 <= k < dst.Length && !(at <= k < at + Off(atype, Taken(t, n) + 2)) ==> dst[k] == old(dst[k])
  {
    hide HasText, HasChars, CharAt;
    var ap, bp := at, at0;
    var count := 0;
    ghost var m := Taken(t, n);
    NoChars(dst[..], at, atype, t);
    while count != n
      invariant 0 <= count <= m
      invariant ap == at + Off(atype, count) && bp == at0 + Off(btype, count)
      invariant HasChars(dst[..], at, atype, t, count)
      invariant forall k :: 0 <= k < dst.Length && !(at <= k < ap) ==> dst[k] == old(dst[k])
      decreases |t| - count
    {
      TextChar(src[..], at0, btype, t, count);
      ghost var before := dst[..];
      var zero := CopyChar(dst, ap, atype, src, bp, btype);
      CharsKept(before, dst[..], at, atype, t, count);
      ap := ap + atype;
      bp := bp + btype;
      if zero { break; }
      CharsMore(dst[..], at, atype, t, count);
      count := count + 1;
    }
    ghost var copied := dst[..];
    ClearChar(dst, ap, atype);
    CharsKept(copied, dst[..], at, atype, t, m);
    TextNonzero(src[..], at0, btype, t);
    TextDone(copied, dst[..], at, atype, t, m, ap);
  }

  lemma TextDone(before: seq<byte>, p: seq<byte>, at: int, w: int, t: Text, m: nat, ap: int)
    requires HasChars(p, at, w, t, m) && m <= |t| && (forall k :: 0 <= k < |t| ==> t[k] != 0)
    requires |p| == |before| && 0 <= ap && ap + w <= |p| && at + Off(w, m + 1) <= |p|
    requires ap == at + Off(w, m) || (ap == at + Off(w, m + 1) && CharAt(before, at + Off(w, m), w) == 0)
    requires CharAt(p, ap, w) == 0
    requires forall k :: 0 <= k < |p| && !(ap <= k < ap + w) ==> p[k] == before[k]
    ensures HasText(p, at, w, t[..m])
  {
    assert CharAt(p, at + Off(w, m), w) == 0;
    forall k | 0 <= k < m
      ensures CharAt(p, at + Off(w, k), w) == t[..m][k]
    {
      assert CharAt(p, at + Off(w, k), w) == t[k];
    }
  }

  /** The one-byte form of the same copy: the same contract at width 1. */
  method ChxcapcThin(dst: array<byte>, at: nat, src: array<byte>, at0: nat, n: int, ghost t: Text)
    requires dst != src && HasText(src[..], at0, THIN, t)
    requires at + Off(THIN, Taken(t, n) + (if n == Taken(t, n) then 1 else 2)) <= dst.Length
    modifies dst
    ensures HasText(dst[..], at, THIN, t[..Taken(t, n)])
    ensures forall k :: 0 <= k < dst.Length && !(at <= k < at + Off(THIN, Taken(t, n) + 2)) ==> dst[k] == old(dst[k])
  {
    var ap, bp := at, at0;
    var count := 0;
    while count != n
      invariant 0 <= count <= Taken(t, n)
      invariant ap == at + count && bp == at0 + count
      invariant forall k :: at <= k < ap ==> dst[k] == t[k - at]
      invariant forall k :: 0 <= k < dst.Length && !(at <= k < ap) ==> dst[k] == old(dst[k])
      decreases |t| - count
    {
      assert CharAt(src[..], at0 + Off(THIN, count), THIN) == if count < |t| then t[count] else 0;
      dst[ap] := src[bp];
      ap := ap + 1;
      bp := bp + 1;
      if dst[ap - 1] == 0 { break; }
      count := count + 1;
    }
    dst[ap] := 0;
  }

  /** The value of one character, byte by byte. */
  method ReadChar(p: array<byte>, at: nat, w: int) returns (v: int)
    requires Width(w) && at + w <= p.Length
    ensures v == CharAt(p[..], at, w)
  {
    v := p[at];
    var i := 1;
    while i < w
      invariant 1 <= i <= w
      invariant i == 1 ==> v == p[at]
      invariant i == 2 ==> v == CharAt(p[..], at, WIDE)
    {
      v := v * 256;
      v := v + p[at + i];
      i := i + 1;
    }
  }

  /** Writes `v`, as far as it fits, as one character. */
  method WriteChar(p: array<byte>, at: nat, w: int, v: int)
    requires Width(w) && at + w <= p.Length
    modifies p
    ensures CharAt(p[..], at, w) == v % (if w == THIN then 256 else 65536)
    ensures forall k :: 0 <= k < p.Length && !(at <= k < at + w) ==> p[k] == old(p[k])
  {
    if w == THIN {
      p[at] := v % 256;
    } else {
      p[at + 1] := v % 256;
      p[at] := (v / 256) % 256;
      TwoBytes(v);
    }
  }

  lemma TwoBytes(v: int)
    ensures (v / 256) % 256 * 256 + v % 256 == v % 65536
  {
    assert v == v / 256 * 256 + v % 256;
    assert v / 256 == v / 256 / 256 * 256 + (v / 256) % 256;
    var q := v / 256 / 256;
    assert v == q * 65536 + ((v / 256) % 256 * 256 + v % 256);
  }
}
