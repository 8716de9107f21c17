/** Shift_JIS and EUC against the two-byte internal form, at the level of byte streams.

    A character is `256 * high + low`: high 0 for ASCII, high 0x8E for single-width kana,
    otherwise a double-width character with both bytes from 0xA1 on. */
module Codecs {

  datatype Coding = SJIS | EUC

  /** A decoder between two bytes: the characters so far, and the high byte of a character
      that waits for its second byte, or -1. */
  datatype Decoder = Decoder(chars: seq<int>, pending: int)

  const BACKSPACE := 8

  /** C's remainder, which has the sign of the dividend. */
  function CMod(a: int, b: int): int
    requires b > 0
  {
    if a >= 0 then a % b else -((-a) % b)
  }

  /** First bytes that are dropped. */
  predicate Bad(c: Coding, b: int) {
    match c
    case SJIS => b == 0x80 || b >= 0xF0
    case EUC => 0x80 <= b <= 0x85 || 0x90 <= b <= 0xA0 || b == 0xFF
  }

  /** First bytes of two. */
  predicate Lead(c: Coding, b: int) {
    match c
    case SJIS => 0x81 <= b <= 0x9F || 0xE0 <= b <= 0xEF
    case EUC => 0x80 <= b < 256 && !Bad(EUC, b)
  }

  /** The high byte a first byte stands for, before the second is known. */
  function HighOf(c: Coding, b: int): int {
    match c
    case SJIS => if b <= 0x9F then (b - 0x80 - 1) * 2 + 0xA1 else (b - 0xE0 + 32 - 1) * 2 + 0xA1
    case EUC => b
  }

  /** A byte that is a character by itself. */
  function Single(c: Coding, b: int): int {
    if c == SJIS && 0xA0 <= b <= 0xDF then 0x8E * 256 + b else b
  }

  /** The character of a waiting high byte and a second byte. */
  function Pair(c: Coding, high: int, b: int): int {
    match c
    case SJIS =>
      var b' := if b >= 0x80 then b - 1 else b;
      var offset := b' - 0x40 + 1;
      (high + (if offset > 94 then 1 else 0)) % 256 * 256 + (CMod(offset - 1, 94) + 0xA1)
    case EUC => high * 256 + b
  }

  /** One byte: the new state, and the code that is returned if it is the last. */
  function Feed(c: Coding, d: Decoder, b: int): (Decoder, int) {
    if b == BACKSPACE then
      if d.chars == [] then (d, 5)
      else
        var last := d.chars[|d.chars| - 1] / 256;
        (Decoder(d.chars[..|d.chars| - 1], if d.pending >= 0 then 0 else -1),
         if last >= 0x80 && last != 0x8E then 4 else 3)
    else if d.pending >= 0 then (Decoder(d.chars + [Pair(c, d.pending, b)], -1), 0)
    else if Bad(c, b) then (d, 2)
    else if Lead(c, b) then (Decoder(d.chars, HighOf(c, b)), 1)
    else (Decoder(d.chars + [Single(c, b)], -1), 0)
  }

  function Decode(c: Coding, d: Decoder, bs: seq<int>): Decoder
    decreases |bs|
  {
    if bs == [] then d else Decode(c, Feed(c, d, bs[0]).0, bs[1..])
  }

  /** The code of the last byte of `bs`. */
  function LastCode(c: Coding, d: Decoder, bs: seq<int>): int {
    if bs == [] then 0 else Feed(c, Decode(c, d, bs[..|bs| - 1]), bs[|bs| - 1]).1
  }

  // ------------------------------------------------------------- cutting the stream

  /** Decoding a stream in two pieces, wherever it is cut, is decoding it whole. */
  lemma {:induction false} DecodeConcat(c: Coding, d: Decoder, a: seq<int>, b: seq<int>)
    ensures Decode(c, d, a + b) == Decode(c, Decode(c, d, a), b)
    decreases |a|
  {
    if a == [] {
      assert a + b == b;
    } else {
      assert (a + b)[1..] == a[1..] + b;
      DecodeConcat(c, Feed(c, d, a[0]).0, a[1..], b);
    }
  }

  lemma DecodeSnoc(c: Coding, d: Decoder, a: seq<int>, b: int)
    ensures Decode(c, d, a + [b]) == Feed(c, Decode(c, d, a), b).0
  {
    DecodeConcat(c, d, a, [b]);
    var e := Decode(c, d, a);
    assert [b][1..] == [];
    assert Decode(c, e, [b]) == Decode(c, Feed(c, e, b).0, []);
  }

  function Flatten(chunks: seq<seq<int>>): seq<int> {
    if chunks == [] then [] else chunks[0] + Flatten(chunks[1..])
  }

  function DecodeChunks(c: Coding, d: Decoder, chunks: seq<seq<int>>): Decoder
    decreases |chunks|
  {
    if chunks == [] then d else DecodeChunks(c, Decode(c, d, chunks[0]), chunks[1..])
  }

  /** Decoding any sequence of pieces is decoding the whole stream. */
  lemma {:induction false} ChunksAreWhole(c: Coding, d: Decoder, chunks: seq<seq<int>>)
    ensures DecodeChunks(c, d, chunks) == Decode(c, d, Flatten(chunks))
    decreases |chunks|
  {
    if chunks != [] {
      DecodeConcat(c, d, chunks[0], Flatten(chunks[1..]));
      ChunksAreWhole(c, Decode(c, d, chunks[0]), chunks[1..]);
    }
  }

  // ------------------------------------------------------------- encoding

  /** The bytes of one character. */
  function EncodeChar(c: Coding, v: int): seq<int> {
    var high, low := v / 256, v % 256;
    match c
    case EUC => if high != 0 then [high, low] else [low]
    case SJIS =>
      if high == 0 || high == 0x8E then [low]
      else
        var eucseg, eucoff := high - 0xA0, low - 0xA0;
        var sjisseg := CDiv(eucseg - 1, 2) + 1;
        var sjisoff := CMod(eucseg - 1, 2) * 94 + eucoff;
        [(if sjisseg <= 31 then 0x80 + sjisseg else 0xE0 + sjisseg - 32) % 256,
         (if sjisoff <= 63 then 0x40 + sjisoff - 1 else 0x80 + sjisoff - 64) % 256]
  }

  /** C's division, which truncates toward zero. */
  function CDiv(a: int, b: int): int
    requires b > 0
  {
    if a >= 0 then a / b else -((-a) / b)
  }

  function Encode(c: Coding, cs: seq<int>): seq<int> {
    if cs == [] then [] else EncodeChar(c, cs[0]) + Encode(c, cs[1..])
  }

  lemma {:induction false} EncodeConcat(c: Coding, a: seq<int>, b: seq<int>)
    ensures Encode(c, a + b) == Encode(c, a) + Encode(c, b)
    decreases |a|
  {
    if a == [] {
      assert a + b == b;
    } else {
      assert (a + b)[1..] == a[1..] + b;
      EncodeConcat(c, a[1..], b);
    }
  }

  // ------------------------------------------------------------- well-formed text

  /** A byte that stands alone in a well-formed stream: ASCII, and in Shift_JIS the kana. */
  predicate SingleOk(c: Coding, b: int) {
    || (1 <= b <= 0x7F && b != BACKSPACE)
    || (c == SJIS && 0xA0 <= b <= 0xDF)
  }

  /** A first byte of two in a well-formed stream: both banks of Shift_JIS, and in EUC the bytes
      from 0xA1 on, the kana prefix 0x8E, and the bytes around it that the reader takes as well. */
  predicate LeadOk(c: Coding, b: int) {
    match c
    case SJIS => 0x81 <= b <= 0x9F || 0xE0 <= b <= 0xEF
    case EUC => 0x86 <= b <= 0x8F || 0xA1 <= b <= 0xFE
  }

  /** A second byte of a well-formed stream.  The two-byte EUC reader takes any. */
  predicate TrailOk(c: Coding, b: int) {
    match c
    case SJIS => 0x40 <= b <= 0x7E || 0x80 <= b <= 0xFC
    case EUC => 1 <= b < 256 && b != BACKSPACE
  }

  predicate StreamOk(c: Coding, bs: seq<int>) {
    if bs == [] then true
    else if LeadOk(c, bs[0]) then |bs| > 1 && TrailOk(c, bs[1]) && StreamOk(c, bs[2..])
    else SingleOk(c, bs[0]) && StreamOk(c, bs[1..])
  }

  /** The characters that well-formed streams are decoded to. */
  predicate CharOk(c: Coding, v: int) {
    var high, low := v / 256, v % 256;
    match c
    case SJIS =>
      || (high == 0 && 1 <= low < 0x80 && low != BACKSPACE)
      || (high == 0x8E && 0xA0 <= low <= 0xDF)
      || (0xA1 <= high <= 0xFE && 0xA1 <= low <= 0xFE)
    case EUC =>
      || (high == 0 && 1 <= low < 0x80 && low != BACKSPACE)
      || ((0x86 <= high <= 0x8F || 0xA1 <= high <= 0xFE) && low != 0 && low != BACKSPACE)
  }

  /** What a reader that waits for a character does with a byte: which bytes are dropped, which
      begin a character of two bytes, and which are characters. */
  lemma FirstByteIs(c: Coding, chars: seq<int>, b: int)
    requires 1 <= b < 256 && b != BACKSPACE
    ensures var (d, code) := Feed(c, Decoder(chars, -1), b);
            if LeadOk(c, b) then code == 1 && d.chars == chars && d.pending >= 0
            else if SingleOk(c, b) then code == 0 && d == Decoder(chars + [if b <= 0x7F then b else 0x8E00 + b], -1)
            else code == 2 && d == Decoder(chars, -1)
    ensures !LeadOk(c, b) && !SingleOk(c, b) <==>
            if c == SJIS then b == 0x80 || b >= 0xF0 else 0x80 <= b <= 0x85 || 0x90 <= b <= 0xA0 || b == 0xFF
  {
  }

  /** Two bytes of EUC are the two bytes of the character, both ways. */
  lemma EucExact(chars: seq<int>, lead: int, trail: int)
    requires LeadOk(EUC, lead) && TrailOk(EUC, trail)
    ensures Decode(EUC, Decoder(chars, -1), [lead, trail]) == Decoder(chars + [256 * lead + trail], -1)
    ensures EncodeChar(EUC, 256 * lead + trail) == [lead, trail]
  {
    assert [lead, trail][1..] == [trail] && [trail][1..] == [];
    var d := Decoder(chars, lead);
    assert Feed(EUC, Decoder(chars, -1), lead).0 == d;
    assert Decode(EUC, d, [trail]) == Decode(EUC, Feed(EUC, d, trail).0, []);
    Bytes(lead, trail);
  }

  predicate CharsOk(c: Coding, cs: seq<int>) {
    forall k :: 0 <= k < |cs| ==> CharOk(c, cs[k])
  }

  // ------------------------------------------------------------- one character there and back

  lemma SingleRoundTrip(c: Coding, b: int)
    requires SingleOk(c, b)
    ensures CharOk(c, Single(c, b)) && EncodeChar(c, Single(c, b)) == [b]
  {
  }

  /** Segment 1 .. 47 of a Shift_JIS lead byte: two rows of 94 characters each. */
  function Segment(lead: int): int {
    if lead <= 0x9F then lead - 0x80 else lead - 0xE0 + 32
  }

  /** Place 0 .. 187 of a Shift_JIS trail byte in its segment. */
  function Place(trail: int): int {
    (if trail >= 0x80 then trail - 1 else trail) - 0x40
  }

  lemma Bytes(high: int, low: int)
    requires 0 <= low < 256
    ensures (high * 256 + low) / 256 == high && (high * 256 + low) % 256 == low
  {
  }

  /** The character of a segment and a place. */
  lemma SjisPair(lead: int, trail: int)
    requires LeadOk(SJIS, lead) && TrailOk(SJIS, trail)
    ensures var s, o := Segment(lead), Place(trail);
            && 1 <= s <= 47 && 0 <= o < 188
            && Pair(SJIS, HighOf(SJIS, lead), trail)
               == ((s - 1) * 2 + 0xA1 + o / 94) * 256 + (o % 94 + 0xA1)
  {
    var s, o := Segment(lead), Place(trail);
    assert o / 94 == if o >= 94 then 1 else 0;
    assert HighOf(SJIS, lead) == (s - 1) * 2 + 0xA1;
  }

  /** The bytes of a row and a column, both 1 .. 94. */
  lemma SjisBytes(row: int, col: int)
    requires 1 <= row <= 94 && 1 <= col <= 94
    ensures var e := EncodeChar(SJIS, (0xA0 + row) * 256 + (0xA0 + col));
            && |e| == 2
            && LeadOk(SJIS, e[0]) && Segment(e[0]) == (row - 1) / 2 + 1
            && TrailOk(SJIS, e[1]) && Place(e[1]) == (row - 1) % 2 * 94 + col - 1
  {
    hide EncodeChar;
    var seg, off := (row - 1) / 2 + 1, (row - 1) % 2 * 94 + col;
    assert 1 <= seg <= 47 && 1 <= off <= 188;
    SjisEncoded(row, col, seg, off);
  }

  lemma SjisEncoded(row: int, col: int, seg: int, off: int)
    requires 1 <= row <= 94 && 1 <= col <= 94 && seg == (row - 1) / 2 + 1 && off == (row - 1) % 2 * 94 + col
    requires 1 <= seg <= 47 && 1 <= off <= 188
    ensures EncodeChar(SJIS, (0xA0 + row) * 256 + (0xA0 + col)) ==
            [if seg <= 31 then 0x80 + seg else 0xE0 + seg - 32, if off <= 63 then 0x40 + off - 1 else 0x80 + off - 64]
  {
    Bytes(0xA0 + row, 0xA0 + col);
    assert CDiv(row - 1, 2) == (row - 1) / 2 && CMod(row - 1, 2) == (row - 1) % 2;
  }

  /** Segment and place determine lead and trail byte. */
  lemma SegmentPlaceInjective(lead: int, trail: int, lead': int, trail': int)
    requires LeadOk(SJIS, lead) && TrailOk(SJIS, trail) && LeadOk(SJIS, lead') && TrailOk(SJIS, trail')
    requires Segment(lead) == Segment(lead') && Place(trail) == Place(trail')
    ensures lead == lead' && trail == trail'
  {
  }

  lemma RowOf(s: int, o: int)
    requires 1 <= s <= 47 && 0 <= o < 188
    ensures 1 <= (s - 1) * 2 + o / 94 + 1 <= 94 && 1 <= o % 94 + 1 <= 94
    ensures ((s - 1) * 2 + o / 94) / 2 == s - 1 && ((s - 1) * 2 + o / 94) % 2 == o / 94
    ensures o / 94 * 94 + o % 94 == o
  {
  }

  /** The row and column of a pair of Shift_JIS bytes: they make its character, and the
      bytes of that character are the pair. */
  lemma SjisRoundTrip(lead: int, trail: int) returns (row: int, col: int)
    requires LeadOk(SJIS, lead) && TrailOk(SJIS, trail)
    ensures 1 <= row <= 94 && 1 <= col <= 94
    ensures Pair(SJIS, HighOf(SJIS, lead), trail) == (0xA0 + row) * 256 + (0xA0 + col)
    ensures EncodeChar(SJIS, (0xA0 + row) * 256 + (0xA0 + col)) == [lead, trail]
  {
    hide EncodeChar, Pair, LeadOk, TrailOk, Segment, Place, HighOf;
    SjisPair(lead, trail);
    var s, o := Segment(lead), Place(trail);
    row, col := (s - 1) * 2 + o / 94 + 1, o % 94 + 1;
    RowOf(s, o);
    SjisBytes(row, col);
    var e := EncodeChar(SJIS, (0xA0 + row) * 256 + (0xA0 + col));
    SegmentPlaceInjective(lead, trail, e[0], e[1]);
    assert e == [e[0], e[1]];
  }

  /** Both banks of lead bytes, and trail bytes on either side of the gap at 0x7F. */
  lemma PairRoundTrip(c: Coding, lead: int, trail: int)
    requires LeadOk(c, lead) && TrailOk(c, trail)
    ensures CharOk(c, Pair(c, HighOf(c, lead), trail))
    ensures EncodeChar(c, Pair(c, HighOf(c, lead), trail)) == [lead, trail]
  {
    match c
    case EUC => Bytes(lead, trail);
    case SJIS =>
      hide EncodeChar, Pair, HighOf;
      var row, col := SjisRoundTrip(lead, trail);
      Bytes(0xA0 + row, 0xA0 + col);
  }

  /** A unit of a well-formed stream that stands for the character `v`. */
  predicate Unit(c: Coding, e: seq<int>, v: int) {
    || (|e| == 1 && SingleOk(c, e[0]) && Single(c, e[0]) == v)
    || (|e| == 2 && LeadOk(c, e[0]) && TrailOk(c, e[1]) && Pair(c, HighOf(c, e[0]), e[1]) == v)
  }

  /** A well-formed character is encoded as a unit of a well-formed stream. */
  lemma CharRoundTrip(c: Coding, v: int)
    requires CharOk(c, v)
    ensures Unit(c, EncodeChar(c, v), v)
  {
    var high, low := v / 256, v % 256;
    assert v == high * 256 + low;
    if c == SJIS && 0xA1 <= high <= 0xFE {
      hide EncodeChar, Pair;
      var row, col := high - 0xA0, low - 0xA0;
      SjisBytes(row, col);
      var e := EncodeChar(SJIS, v);
      SjisPair(e[0], e[1]);
      var o := Place(e[1]);
      assert o / 94 == (row - 1) % 2 && o % 94 == col - 1;
    }
  }

  /** Feeding a unit appends its character. */
  lemma FeedUnit(c: Coding, pre: seq<int>, e: seq<int>, v: int, rest: seq<int>)
    requires Unit(c, e, v)
    ensures Decode(c, Decoder(pre, -1), e + rest) == Decode(c, Decoder(pre + [v], -1), rest)
  {
    var bs := e + rest;
    if |e| == 1 {
      assert bs[1..] == rest;
    } else {
      assert bs[1..][1..] == rest;
      assert HighOf(c, bs[0]) >= 0;
      assert Decode(c, Decoder(pre, -1), bs) == Decode(c, Decoder(pre, HighOf(c, bs[0])), bs[1..]);
    }
  }

  // ------------------------------------------------------------- streams there and back

  /** A nonempty well-formed stream starts with a unit that its character is encoded as. */
  lemma FirstUnit(c: Coding, bs: seq<int>) returns (n: nat, v: int)
    requires StreamOk(c, bs) && bs != []
    ensures 0 < n <= |bs| && StreamOk(c, bs[n..])
    ensures Unit(c, bs[..n], v) && CharOk(c, v) && EncodeChar(c, v) == bs[..n]
  {
    if LeadOk(c, bs[0]) {
      n, v := 2, Pair(c, HighOf(c, bs[0]), bs[1]);
      PairRoundTrip(c, bs[0], bs[1]);
    } else {
      n, v := 1, Single(c, bs[0]);
      SingleRoundTrip(c, bs[0]);
    }
  }

  lemma {:induction false} DecodeThenEncode(c: Coding, pre: seq<int>, bs: seq<int>)
    requires StreamOk(c, bs)
    ensures var d := Decode(c, Decoder(pre, -1), bs);
            && d.pending == -1 && pre <= d.chars
            && CharsOk(c, d.chars[|pre|..])
            && Encode(c, d.chars[|pre|..]) == bs
    decreases |bs|
  {
    hide EncodeChar, CharOk, StreamOk, Unit, Feed;
    if bs != [] {
      var n, v := FirstUnit(c, bs);
      assert bs == bs[..n] + bs[n..];
      FeedUnit(c, pre, bs[..n], v, bs[n..]);
      var more := pre + [v];
      DecodeThenEncode(c, more, bs[n..]);
      var cs := Decode(c, Decoder(more, -1), bs[n..]).chars;
      assert cs[|pre|] == more[|pre|] == v;
      assert cs[|pre|..] == [v] + cs[|more|..];
    }
  }

  /** Encoding after decoding is the identity on every well-formed stream. */
  lemma EncodeInvertsDecode(c: Coding, bs: seq<int>)
    requires StreamOk(c, bs)
    ensures var d := Decode(c, Decoder([], -1), bs);
            d.pending == -1 && CharsOk(c, d.chars) && Encode(c, d.chars) == bs
  {
    DecodeThenEncode(c, [], bs);
    var d := Decode(c, Decoder([], -1), bs);
    assert d.chars[0..] == d.chars;
  }

  /** Decoding after encoding is the identity on every well-formed character string, and it
      appends to whatever was decoded before. */
  lemma {:induction false} DecodeInvertsEncode(c: Coding, pre: seq<int>, cs: seq<int>)
    requires CharsOk(c, cs)
    ensures StreamOk(c, Encode(c, cs))
    ensures Decode(c, Decoder(pre, -1), Encode(c, cs)) == Decoder(pre + cs, -1)
    decreases |cs|
  {
    if cs == [] {
      assert pre + cs == pre;
    } else {
      var v, rest := cs[0], Encode(c, cs[1..]);
      CharRoundTrip(c, v);
      DecodeInvertsEncode(c, pre + [v], cs[1..]);
      assert pre + [v] + cs[1..] == pre + cs;
      FeedUnit(c, pre, EncodeChar(c, v), v, rest);
      UnitThenStream(c, EncodeChar(c, v), v, rest);
    }
  }

  lemma UnitThenStream(c: Coding, e: seq<int>, v: int, rest: seq<int>)
    requires Unit(c, e, v) && StreamOk(c, rest)
    ensures StreamOk(c, e + rest)
  {
    assert (e + rest)[|e|..] == rest;
  }

  /** The Shift_JIS bytes of row and cell, as Annex 1 of JIS X 0208 has them, both ways. */
  lemma SjisExact(chars: seq<int>, row: int, cell: int)
    requires 1 <= row <= 94 && 1 <= cell <= 94
    ensures var lead := (row - 1) / 2 + if row <= 62 then 0x81 else 0xC1;
            var trail := if row % 2 == 0 then cell + 0x9E else if cell <= 63 then cell + 0x3F else cell + 0x40;
            var v := (0xA0 + row) * 256 + (0xA0 + cell);
            && Decode(SJIS, Decoder(chars, -1), [lead, trail]) == Decoder(chars + [v], -1)
            && EncodeChar(SJIS, v) == [lead, trail]
  {
    hide EncodeChar, Decode;
    var v := (0xA0 + row) * 256 + (0xA0 + cell);
    SjisEncoded(row, cell, (row - 1) / 2 + 1, (row - 1) % 2 * 94 + cell);
    Bytes(0xA0 + row, 0xA0 + cell);
    DecodeInvertsEncode(SJIS, chars, [v]);
    EncodeOne(SJIS, v);
  }

  lemma EncodeOne(c: Coding, v: int)
    ensures Encode(c, [v]) == EncodeChar(c, v)
  {
    assert [v][1..] == [];
    assert EncodeChar(c, v) + [] == EncodeChar(c, v);
  }

  /** A character as wide as two on the screen: kana after the prefix 0x8E are not. */
  predicate DoubleWidth(c: Coding, v: int) {
    |EncodeChar(c, v)| == 2 && v / 256 != 0x8E
  }

  /** The code of a backspace tells how wide the erased character was; at the start there is
      nothing to erase. */
  lemma BackspaceCode(c: Coding, pre: seq<int>, v: int, pending: int)
    requires CharOk(c, v)
    ensures Feed(c, Decoder(pre + [v], pending), BACKSPACE).1 == if DoubleWidth(c, v) then 4 else 3
    ensures Feed(c, Decoder([], pending), BACKSPACE) == (Decoder([], pending), 5)
  {
    assert (pre + [v])[|pre|] == v;
  }

  /** A backspace between the two bytes of a character takes away the character before, and the
      second byte then makes a character with high byte 0 (in Shift_JIS, with that of its row). */
  lemma BackspaceInside(c: Coding, pre: seq<int>, v: int, pending: int, trail: int)
    requires pending >= 0 && 1 <= trail < 256 && trail != BACKSPACE
    ensures Decode(c, Decoder(pre + [v], pending), [BACKSPACE, trail]) == Decoder(pre + [Pair(c, 0, trail)], -1)
    ensures Pair(EUC, 0, trail) == trail
    ensures TrailOk(SJIS, trail) ==> Pair(SJIS, 0, trail) / 256 == (if trail >= 0x9F then 1 else 0)
  {
    hide Pair;
    assert (pre + [v])[..|pre|] == pre;
    var d := Decoder(pre, 0);
    assert [BACKSPACE, trail][1..] == [trail] && [trail][1..] == [];
    assert Feed(c, Decoder(pre + [v], pending), BACKSPACE).0 == d;
    assert Decode(c, d, [trail]) == Decode(c, Feed(c, d, trail).0, []);
    PairOfNothing(trail);
  }

  lemma PairOfNothing(trail: int)
    requires 1 <= trail < 256
    ensures Pair(EUC, 0, trail) == trail
    ensures TrailOk(SJIS, trail) ==> Pair(SJIS, 0, trail) / 256 == (if trail >= 0x9F then 1 else 0)
  {
  }

  /** A backspace after a complete character removes exactly that character. */
  lemma BackspaceErases(c: Coding, pre: seq<int>, v: int)
    requires CharOk(c, v)
    ensures Decode(c, Decoder(pre, -1), EncodeChar(c, v) + [BACKSPACE]) == Decoder(pre, -1)
  {
    DecodeInvertsEncode(c, pre, [v]);
    EncodeOne(c, v);
    DecodeSnoc(c, Decoder(pre, -1), EncodeChar(c, v), BACKSPACE);
    assert (pre + [v])[..|pre|] == pre;
  }

  // ------------------------------------------------------------- encoding into a small buffer

  /** How many characters from `i` on one call converts when `room` bytes may be passed. */
  function Greedy(c: Coding, cs: seq<int>, i: nat, room: int): (k: nat)
    requires i <= |cs|
    ensures i + k <= |cs|
    decreases |cs| - i
  {
    if room <= 0 || i == |cs| then 0 else 1 + Greedy(c, cs, i + 1, room - |EncodeChar(c, cs[i])|)
  }

  /** What one call with a buffer of `n` bytes writes before the closing zero, and what it
      returns: the number of characters converted, or 0 when it came to the end. */
  function EncodeCall(c: Coding, cs: seq<int>, i: nat, n: int): (seq<int>, int)
    requires i <= |cs|
  {
    var k := Greedy(c, cs, i, n - 2);
    var bs := Encode(c, cs[i..i + k]);
    (bs, if i + k == |cs| && |bs| < n - 2 then 0 else k)
  }

  /** The bytes of calling again and again from where the last call stopped. */
  function Resumed(c: Coding, cs: seq<int>, i: nat, n: int): seq<int>
    requires i <= |cs| && n >= 3
    decreases |cs| - i
  {
    var (bs, ret) := EncodeCall(c, cs, i, n);
    CallProgresses(c, cs, i, n);
    if ret == 0 then bs else bs + Resumed(c, cs, i + ret, n)
  }

  lemma CallProgresses(c: Coding, cs: seq<int>, i: nat, n: int)
    requires i <= |cs| && n >= 3
    ensures var ret := EncodeCall(c, cs, i, n).1;
            0 <= ret <= |cs| - i && (ret == 0 ==> i + Greedy(c, cs, i, n - 2) == |cs|)
  {
    if i == |cs| {
      assert cs[i..i] == [];
    }
  }

  lemma EncodedLength(c: Coding, v: int)
    ensures 1 <= |EncodeChar(c, v)| <= 2
  {
  }

  /** The characters converted fill no more than one byte over the room given. */
  lemma {:induction false} GreedyFits(c: Coding, cs: seq<int>, i: nat, room: int)
    requires i <= |cs|
    ensures var k := Greedy(c, cs, i, room);
            && |Encode(c, cs[i..i + k])| <= Max0(room + 1)
            && (i + k < |cs| ==> |Encode(c, cs[i..i + k])| >= room)
    decreases |cs| - i
  {
    hide EncodeChar;
    if room <= 0 || i == |cs| {
      assert cs[i..i] == [];
    } else {
      EncodedLength(c, cs[i]);
      var room' := room - |EncodeChar(c, cs[i])|;
      GreedyFits(c, cs, i + 1, room');
      var k, k' := Greedy(c, cs, i, room), Greedy(c, cs, i + 1, room');
      assert k == k' + 1;
      var taken := cs[i..i + k];
      assert taken[0] == cs[i] && taken[1..] == cs[i + 1..i + 1 + k'];
      assert Encode(c, taken) == EncodeChar(c, cs[i]) + Encode(c, taken[1..]);
    }
  }

  function Max0(n: int): int {
    if n > 0 then n else 0
  }

  /** No call writes past its buffer: `n` bytes with the closing zero. */
  lemma CallFits(c: Coding, cs: seq<int>, i: nat, n: int)
    requires i <= |cs| && n >= 1
    ensures |EncodeCall(c, cs, i, n).0| + 1 <= n
  {
    GreedyFits(c, cs, i, n - 2);
  }

  /** Any buffer of at least three bytes, resumed until 0 comes back, gives the whole
      encoding. */
  lemma {:induction false} ResumedIsWhole(c: Coding, cs: seq<int>, i: nat, n: int)
    requires i <= |cs| && n >= 3
    ensures Resumed(c, cs, i, n) == Encode(c, cs[i..])
    decreases |cs| - i
  {
    hide EncodeChar, Encode, Greedy;
    var (bs, ret) := EncodeCall(c, cs, i, n);
    CallProgresses(c, cs, i, n);
    if ret == 0 {
      assert cs[i..i + Greedy(c, cs, i, n - 2)] == cs[i..];
    } else {
      ResumedIsWhole(c, cs, i + ret, n);
      assert cs[i..] == cs[i..i + ret] + cs[i + ret..];
      EncodeConcat(c, cs[i..i + ret], cs[i + ret..]);
    }
  }

  /** A call that returns 0 has converted everything exactly when the buffer had three bytes
      or there was nothing to convert; with less room it returns 0 and converts nothing. */
  lemma ZeroMeansDoneIff(c: Coding, cs: seq<int>, i: nat, n: int)
    requires i <= |cs|
    ensures (EncodeCall(c, cs, i, n).1 == 0 ==> EncodeCall(c, cs, i, n).0 == Encode(c, cs[i..]))
            <==> n >= 3 || i == |cs|
  {
    var k := Greedy(c, cs, i, n - 2);
    if n >= 3 {
      CallProgresses(c, cs, i, n);
      if i + k == |cs| { assert cs[i..i + k] == cs[i..]; }
    } else {
      assert k == 0 && cs[i..i + k] == [];
      if i < |cs| {
        EncodedLength(c, cs[i]);
        assert cs[i..][0] == cs[i];
        assert |Encode(c, cs[i..])| >= 1;
      } else {
        assert cs[i..] == [];
      }
    }
  }
}
