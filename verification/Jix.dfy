/** The Shift_JIS and EUC converters on chix: `jixofsjis` and `jixofeuc` read a byte stream
    into a wide chix, `sjisofjix` and `eucofjix` write a chix into a byte buffer. */
module Jix {
  import opened Text
  import opened Chixen
  import opened ChixStrings
  import opened Codecs

  /** What the buffer shows of a decoder's state: a waiting high byte stands there as if it
      were a character of its own. */
  ghost function Shown(d: Decoder): Text {
    d.chars + (if d.pending > 0 then [d.pending * 256] else [])
  }

  /** The new end of a wide text: one character, or nothing, after `cs`. */
  lemma NewEnd(before: seq<byte>, p: seq<byte>, cs: Text, rest: Text, c: int)
    requires HasText(before, 0, WIDE, cs + rest) && |p| == |before| && Off(WIDE, |cs| + 2) <= |p|
    requires forall k :: 0 <= k < Off(WIDE, |cs|) ==> p[k] == before[k]
    requires CharAt(p, Off(WIDE, |cs|), WIDE) == c && CharAt(p, Off(WIDE, |cs| + 1), WIDE) == 0
    ensures HasText(p, 0, WIDE, cs + CharText(c))
  {
    var t := cs + CharText(c);
    forall k | 0 <= k < |t|
      ensures CharAt(p, 0 + Off(WIDE, k), WIDE) == t[k] && t[k] != 0
    {
      if k < |cs| {
        assert CharAt(before, 0 + Off(WIDE, k), WIDE) == (cs + rest)[k];
      }
    }
  }

  /** A wide text cut off after `cs`. */
  lemma CutEnd(before: seq<byte>, p: seq<byte>, cs: Text, rest: Text)
    requires HasText(before, 0, WIDE, cs + rest) && |p| == |before| && Off(WIDE, |cs| + 1) <= |p|
    requires forall k :: 0 <= k < Off(WIDE, |cs|) ==> p[k] == before[k]
    requires CharAt(p, Off(WIDE, |cs|), WIDE) == 0
    ensures HasText(p, 0, WIDE, cs)
  {
    forall k | 0 <= k < |cs|
      ensures CharAt(p, 0 + Off(WIDE, k), WIDE) == cs[k] && cs[k] != 0
    {
      assert CharAt(before, 0 + Off(WIDE, k), WIDE) == (cs + rest)[k];
    }
  }

  /** The pair after the one that a decoder works on is not part of the text. */
  lemma ShownKept(before: seq<byte>, p: seq<byte>, d: Decoder)
    requires HasText(before, 0, WIDE, Shown(d)) && -1 <= d.pending < 256
    requires |p| == |before| && Off(WIDE, |d.chars| + 2) <= |p|
    requires p == before[2 * |d.chars| + 2 := 0][2 * |d.chars| + 3 := 0]
    ensures HasText(p, 0, WIDE, Shown(d))
  {
    var t := Shown(d);
    forall k | 0 <= k < |t|
      ensures CharAt(p, 0 + Off(WIDE, k), WIDE) == t[k] && t[k] != 0
    {
      assert CharAt(before, 0 + Off(WIDE, k), WIDE) == t[k];
    }
  }

  /** The last byte pair of a text of waiting and decoded characters. */
  lemma PendingByte(p: seq<byte>, d: Decoder)
    requires HasText(p, 0, WIDE, Shown(d)) && -1 <= d.pending < 256
    requires Off(WIDE, |d.chars| + 2) <= |p|
    ensures d.pending >= 0 ==> p[2 * |d.chars|] == d.pending
    ensures p[2 * |d.chars| + 1] == 0 && (d.pending < 0 ==> p[2 * |d.chars|] == 0)
    ensures d.chars != [] ==> var n := |d.chars| - 1; CharAt(p, 2 * n, WIDE) == d.chars[n] && p[2 * n] == d.chars[n] / 256
  {
    var t := Shown(d);
    TextChar(p, 0, WIDE, t, |d.chars|);
    if d.chars != [] {
      TextChar(p, 0, WIDE, t, |d.chars| - 1);
    }
  }

  /** The second byte that a pair is stored with. */
  lemma PairBytes(c: Coding, high: int, b: int)
    requires 0 <= high < 256 && 0 < b < 256
    ensures 0 < Pair(c, high, b) < 65536
  {
  }

  /** A decoder with its static variables, for one coding. */
  class Reader {
    const coding: Coding
    var lastJix: Chix?
    var pos: int
    var state: int
    ghost var dec: Decoder

    constructor (c: Coding)
      ensures coding == c && lastJix == null
    {
      coding := c;
      lastJix, pos, state, dec := null, 0, 0, Decoder([], -1);
    }

    /** The chix being read into shows the state of the decoder. */
    ghost predicate Reading(a: Chix)
      reads this, a, a.p
    {
      && lastJix == a && a.Held() && a.width == WIDE
      && -1 <= dec.pending < 256
      && pos == |dec.chars| && state == (if dec.pending >= 0 then 1 else 0)
      && a.text == Shown(dec)
    }

    /** Room for three more characters, as the loop makes it before each byte. */
    method MakeRoom(a: Chix)
      requires Reading(a)
      modifies a
      ensures Reading(a) && (a.p == old(a.p) || fresh(a.p)) && pos <= a.maxlen - 5
    {
      if pos > a.maxlen - 5 { a.Resize(WIDE, pos + 100); }
    }

    /** The byte pair after the current one is zero. */
    ghost predicate NextClear(a: Chix)
      reads this, a, a.p
    {
      0 <= 2 * pos && 2 * pos + 3 < a.p.Length && a.p[2 * pos + 2] == 0 && a.p[2 * pos + 3] == 0
    }

    /** Puts a terminator after the current position, before anything else is done. */
    method ClearNext(a: Chix)
      requires Reading(a) && pos <= a.maxlen - 5
      modifies a.p
      ensures Reading(a) && NextClear(a)
    {
      hide HasText, HasChars;
      ghost var before := a.p[..];
      var i := 2 * pos;
      a.p[i + 2] := 0;
      a.p[i + 3] := 0;
      ShownKept(before, a.p[..], dec);
    }

    /** A backspace over the last character. */
    method Erase(a: Chix) returns (code: int)
      requires Reading(a) && pos > 0 && pos <= a.maxlen - 5
      modifies this, a`text, a.p
      ensures Reading(a) && lastJix == old(lastJix)
      ensures (dec, code) == Feed(coding, old(dec), BACKSPACE)
    {
      hide HasText, HasChars;
      ghost var before := a.p[..];
      PendingByte(before, dec);
      pos := pos - 1;
      var i := 2 * pos;
      var highbyte: int := a.p[i];
      code := if highbyte >= 0x80 && highbyte != 0x8E then 4 else 3;
      ghost var cs := dec.chars[..pos];
      ghost var rest := a.text[pos..];
      assert a.text == cs + rest;
      a.p[i] := 0;
      a.p[i + 1] := 0;
      CutEnd(before, a.p[..], cs, rest);
      dec := Decoder(cs, if dec.pending >= 0 then 0 else -1);
      a.text := cs;
    }

    /** Stores the byte pair at `pos`. */
    method Store(a: Chix, high: byte, low: byte)
      requires Reading(a) && pos <= a.maxlen - 5 && NextClear(a)
      modifies a`text, a.p
      ensures a.Held() && a.text == dec.chars + CharText(high * 256 + low)
    {
      hide HasText, HasChars;
      ghost var before := a.p[..];
      var i := 2 * pos;
      a.p[i] := high;
      a.p[i + 1] := low;
      NewEnd(before, a.p[..], dec.chars, a.text[pos..], high * 256 + low);
      a.text := dec.chars + CharText(high * 256 + low);
    }

    /** One byte of the stream. */
    method FeedByte(a: Chix, b: byte) returns (code: int)
      requires Reading(a) && b != 0
      modifies this, a, a.p
      ensures Reading(a) && lastJix == old(lastJix) && (a.p == old(a.p) || fresh(a.p))
      ensures (dec, code) == Feed(coding, old(dec), b)
    {
      hide Holds, HasText, HasChars;
      MakeRoom(a);
      ClearNext(a);
      if b == BACKSPACE && pos == 0 { return 5; }
      if b == BACKSPACE {
        code := Erase(a);
        return;
      }
      if state == 0 {
        code := First(a, b);
      } else {
        code := Second(a, b);
      }
    }

    /** The first byte of a character. */
    method First(a: Chix, b: byte) returns (code: int)
      requires Reading(a) && pos <= a.maxlen - 5 && NextClear(a) && dec.pending < 0 && b != 0 && b != BACKSPACE
      modifies this, a`text, a.p
      ensures Reading(a) && lastJix == old(lastJix)
      ensures (dec, code) == Feed(coding, old(dec), b)
    {
      hide Holds;
      if Bad(coding, b) { return 2; }
      if Lead(coding, b) {
        HighIsByte(coding, b);
        Store(a, HighOf(coding, b), 0);
        state, code := 1, 1;
        dec := Decoder(dec.chars, HighOf(coding, b));
      } else {
        var v := Single(coding, b);
        SingleBytes(coding, b);
        Store(a, v / 256, v % 256);
        pos, code := pos + 1, 0;
        dec := Decoder(dec.chars + [v], -1);
      }
    }

    /** The second byte of a character. */
    method Second(a: Chix, b: byte) returns (code: int)
      requires Reading(a) && pos <= a.maxlen - 5 && NextClear(a) && dec.pending >= 0 && b != 0 && b != BACKSPACE
      modifies this, a`text, a.p
      ensures Reading(a) && lastJix == old(lastJix)
      ensures (dec, code) == Feed(coding, old(dec), b)
    {
      PendingByte(a.p[..], dec);
      var high: byte := a.p[2 * pos];
      var v := Pair(coding, high, b);
      PairBytes(coding, high, b);
      hide Holds, Pair;
      Store(a, v / 256, v % 256);
      state, pos, code := 0, pos + 1, 0;
      dec := Decoder(dec.chars + [v], -1);
    }

    /** `jixofsjis`, `jixofeuc`: reads the bytes `b` onto the end of `a`.  With `init` 0 a new
        stream begins; otherwise `a` must be the chix of the stream that goes on. */
    method Read(a: Chix, b: seq<byte>, init: int) returns (code: int)
      requires a.Valid() && forall k :: 0 <= k < |b| ==> b[k] != 0
      requires init != 0 && lastJix == a ==> Reading(a)
      modifies this, a, a.p
      ensures a.Valid() && (a.p == old(a.p) || fresh(a.p))
      ensures init != 0 && old(lastJix) != a ==> code == -2 && a.text == old(a.text)
      ensures init == 0 || old(lastJix) == a ==>
                var start := if init == 0 then Decoder(old(a.text), -1) else old(dec);
                Reading(a) && dec == Decode(coding, start, b) && code == LastCode(coding, start, b)
    {
      hide Holds, HasText, HasChars;
      if init == 0 {
        lastJix := a;
        HeldBounds(a);
        if a.width != WIDE { a.Resize(WIDE, a.maxlen); }
        state := 0;
        var len := a.Len();
        pos := len;
        dec := Decoder(a.text, -1);
        assert a.text + [] == a.text;
      }
      if lastJix != a { return -2; }
      ghost var start := dec;
      code := 0;
      var k := 0;
      while k < |b|
        invariant 0 <= k <= |b|
        invariant Reading(a) && (a.p == old(a.p) || fresh(a.p))
        invariant dec == Decode(coding, start, b[..k])
        invariant code == LastCode(coding, start, b[..k])
      {
        NextByte(coding, start, b, k);
        code := FeedByte(a, b[k]);
        k := k + 1;
      }
      assert b[..k] == b;
      a.actlen := -1;
    }
  }

  lemma NextByte(c: Coding, d: Decoder, b: seq<byte>, k: nat)
    requires k < |b|
    ensures Decode(c, d, b[..k + 1]) == Feed(c, Decode(c, d, b[..k]), b[k]).0
    ensures LastCode(c, d, b[..k + 1]) == Feed(c, Decode(c, d, b[..k]), b[k]).1
  {
    assert b[..k + 1] == b[..k] + [b[k]];
    assert b[..k + 1][..k] == b[..k];
    DecodeSnoc(c, d, b[..k], b[k]);
  }

  lemma HighIsByte(c: Coding, b: byte)
    requires Lead(c, b)
    ensures 0 < HighOf(c, b) < 256
  {
  }

  lemma SingleBytes(c: Coding, b: byte)
    requires b != 0
    ensures 0 < Single(c, b) < 65536
  {
  }

  // ------------------------------------------------------------- writing

  lemma EncodedBytes(c: Coding, v: int)
    requires 0 <= v < 65536
    ensures forall k :: 0 <= k < |EncodeChar(c, v)| ==> 0 <= EncodeChar(c, v)[k] < 256
  {
  }

  /** Writes the bytes of one character. */
  method PutChar(c: Coding, s: array<byte>, j: nat, v: int) returns (j': nat)
    requires 0 <= v < 65536 && j + |EncodeChar(c, v)| <= s.Length
    modifies s
    ensures j' == j + |EncodeChar(c, v)| && s[..j'] == old(s[..j]) + EncodeChar(c, v)
  {
    EncodedBytes(c, v);
    var e := EncodeChar(c, v);
    hide EncodeChar;
    EncodedLength(c, v);
    s[j] := e[0];
    j' := j + 1;
    if |e| == 2 {
      s[j'] := e[1];
      j' := j' + 1;
    }
  }

  /** Position of the next character to be written, in a text that is being encoded. */
  lemma GreedyStep(c: Coding, cs: Text, i: nat, conv: nat, room: int)
    requires i + conv < |cs| && room > |Encode(c, cs[i..i + conv])|
    requires Greedy(c, cs, i, room) == conv + Greedy(c, cs, i + conv, room - |Encode(c, cs[i..i + conv])|)
    ensures Encode(c, cs[i..i + conv + 1]) == Encode(c, cs[i..i + conv]) + EncodeChar(c, cs[i + conv])
    ensures Greedy(c, cs, i, room)
            == conv + 1 + Greedy(c, cs, i + conv + 1, room - |Encode(c, cs[i..i + conv + 1])|)
  {
    hide EncodeChar;
    var done, v := cs[i..i + conv], cs[i + conv];
    assert cs[i..i + conv + 1] == done + [v];
    EncodeConcat(c, done, [v]);
    assert Encode(c, [v]) == EncodeChar(c, v) by {
      assert [v][1..] == [];
      assert EncodeChar(c, v) + [] == EncodeChar(c, v);
    }
  }

  lemma NothingEncoded(c: Coding)
    ensures Encode(c, []) == []
  {
  }

  lemma GreedyStops(c: Coding, cs: Text, i: nat, room: int)
    requires i <= |cs|
    ensures i == |cs| || room <= 0 ==> Greedy(c, cs, i, room) == 0
  {
  }

  /** `sjisofjix`, `eucofjix` on a wide chix: as many characters of `a` from `i` as the buffer
      takes, and the closing zero; see `EncodeCall` for the bytes and the result. */
  method WriteWide(c: Coding, s: array<byte>, a: Chix, i: nat, n: int) returns (ret: int)
    requires a.Held() && a.width == WIDE && a.p != s && i <= |a.text| && 1 <= s.Length && n <= s.Length
    modifies s
    ensures var (bs, r) := EncodeCall(c, a.text, i, n);
            ret == r && |bs| < s.Length && s[..|bs|] == bs && s[|bs|] == 0
  {
    hide HasText, HasChars, CharAt, EncodeChar, Encode, Greedy;
    NothingEncoded(c);
    var conv, j, more := 0, 0, true;
    ghost var cs := a.text;
    assert cs[i..i] == [];
    while j < n - 2 && more
      invariant 0 <= conv && i + conv <= |cs|
      invariant j == |Encode(c, cs[i..i + conv])| && j < s.Length && (n >= 2 ==> j <= n - 1) && (n < 2 ==> j == 0)
      invariant s[..j] == Encode(c, cs[i..i + conv])
      invariant Greedy(c, cs, i, n - 2) == conv + Greedy(c, cs, i + conv, n - 2 - j)
      invariant !more ==> i + conv == |cs| && j < n - 2 && s[j] == 0
      decreases |cs| - conv, more
    {
      TextChar(a.p[..], 0, WIDE, cs, i + conv);
      var v := ReadChar(a.p, 2 * (i + conv), WIDE);
      if v == 0 {
        s[j] := 0;
        more := false;
      } else {
        WideRange(a, i + conv);
        EncodedLength(c, v);
        GreedyStep(c, cs, i, conv, n - 2);
        j := PutChar(c, s, j, v);
        conv := conv + 1;
      }
    }
    GreedyStops(c, cs, i + conv, n - 2 - j);
    s[if more then j else j + 1] := 0;
    ret := if more then conv else 0;
  }

  lemma WideRange(a: Chix, k: nat)
    requires a.Held() && k < |a.text|
    ensures 0 < a.text[k] < 65536
  {
    TextFits(a.p[..], 0, a.width, a.text);
  }

  /** What a call writes of a thin chix, and what it returns. */
  function ThinCall(cs: Text, i: nat, n: int): (Text, int)
    requires i <= |cs|
  {
    var k := if n - 1 < 0 then 0 else if n - 1 < |cs| - i then n - 1 else |cs| - i;
    (cs[i..i + k], if i + k < |cs| then k else 0)
  }

  /** Characters of one byte are their own encoding, in both codings. */
  lemma {:induction false} ThinEncodesItself(c: Coding, cs: Text)
    requires forall k :: 0 <= k < |cs| ==> 0 <= cs[k] < 256
    ensures Encode(c, cs) == cs
  {
    if cs != [] {
      ThinEncodesItself(c, cs[1..]);
      assert EncodeChar(c, cs[0]) == [cs[0]];
    }
  }

  /** Calls resumed at the returned count, until 0. */
  function ThinResumed(cs: Text, i: nat, n: int): Text
    requires i <= |cs| && n >= 2
    decreases |cs| - i
  {
    var (bs, ret) := ThinCall(cs, i, n);
    if ret == 0 then bs else bs + ThinResumed(cs, i + ret, n)
  }

  /** With room for one byte and the terminator, resumed calls copy the whole chix. */
  lemma {:induction false} ThinResumedIsWhole(cs: Text, i: nat, n: int)
    requires i <= |cs| && n >= 2
    ensures ThinResumed(cs, i, n) == cs[i..]
    decreases |cs| - i
  {
    var (bs, ret) := ThinCall(cs, i, n);
    if ret != 0 {
      ThinResumedIsWhole(cs, i + ret, n);
      assert cs[i..] == cs[i..i + ret] + cs[i + ret..];
    }
  }

  /** A returned 0 means that everything was copied, if and only if there is that room or
      nothing was left. */
  lemma ThinZeroMeansDoneIff(cs: Text, i: nat, n: int)
    requires i <= |cs|
    ensures (ThinCall(cs, i, n).1 == 0 ==> ThinCall(cs, i, n).0 == cs[i..]) <==> n >= 2 || i == |cs|
  {
    if n < 2 && i < |cs| {
      assert |ThinCall(cs, i, n).0| == 0 && |cs[i..]| > 0;
    }
  }

  /** The thin case: bytes are copied as they are. */
  method WriteThin(s: array<byte>, a: Chix, i: nat, n: int) returns (ret: int)
    requires a.Held() && a.width == THIN && a.p != s && i <= |a.text| && 1 <= s.Length && n <= s.Length
    modifies s
    ensures var (bs, r) := ThinCall(a.text, i, n);
            ret == r && |bs| < s.Length && s[..|bs|] == bs && s[|bs|] == 0
  {
    var j := 0;
    ghost var cs := a.text;
    TextChar(a.p[..], 0, THIN, cs, i);
    while a.p[i + j] != 0 && j < n - 1
      invariant 0 <= j && i + j <= |cs| && (j == 0 || j <= n - 1)
      invariant i + j < a.p.Length && a.p[i + j] == (if i + j < |cs| then cs[i + j] else 0)
      invariant forall k :: 0 <= k < j ==> s[k] == cs[i + k]
      decreases |cs| - j
    {
      TextChar(a.p[..], 0, THIN, cs, i + j);
      s[j] := a.p[i + j];
      j := j + 1;
      TextChar(a.p[..], 0, THIN, cs, i + j);
    }
    TextChar(a.p[..], 0, THIN, cs, i + j);
    s[j] := 0;
    ret := if a.p[i + j] != 0 then j else 0;
  }

  /** `sjisofjix`, `eucofjix`. */
  method Write(c: Coding, s: array<byte>, a: Chix, i: int, n: int) returns (ret: int)
    requires a.Held() && a.p != s && 1 <= s.Length && n <= s.Length
    requires i <= |a.text| || i >= a.maxlen
    modifies s
    ensures i >= a.maxlen ==> ret == -1 && s[0] == 0
    ensures i < a.maxlen ==>
              var from := if i < 0 then 0 else i;
              var (bs, r) := if a.width == THIN then ThinCall(a.text, from, n) else EncodeCall(c, a.text, from, n);
              ret == r && |bs| < s.Length && s[..|bs|] == bs && s[|bs|] == 0
  {
    HeldBounds(a);
    s[0] := 0;
    if i >= a.maxlen { return -1; }
    hide Holds, EncodeCall, ThinCall;
    var from := if i < 0 then 0 else i;
    if a.width == THIN {
      ret := WriteThin(s, a, from, n);
    } else {
      ret := WriteWide(c, s, a, from, n);
    }
  }

  /** A thin call copies as many bytes as there is room for, and the count says where to go on. */
  lemma ThinCallFills(cs: Text, i: nat, n: int)
    requires i <= |cs| && n >= 1
    ensures var (bs, ret) := ThinCall(cs, i, n);
            && |bs| == (if n - 1 <= |cs| - i then n - 1 else |cs| - i)
            && bs == cs[i..i + |bs|] && ret == if i + |bs| == |cs| then 0 else |bs|
  {
  }
}
