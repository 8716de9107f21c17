/** What an update leaves to be read, line by line. */
module Stored {
  import opened Text
  import opened Lines
  import opened Blocks
  import opened Partfiles
  import opened Repaging
  import opened ItemUpdates
  import opened Opening
  import opened Responses
  import opened PartUpdate

  /** `t` is `l` without the blanks at its end. */
  predicate IsTrimmed(l: Text, t: Text) {
    && t <= l && (t == [] || t[|t| - 1] != SPACE)
    && forall k :: |t| <= k < |l| ==> l[k] == SPACE
  }

  /** `ls` are the lines of `text`, each behind one blank and trimmed. */
  predicate HasText(ls: seq<Text>, text: Text) {
    var body := LinesOf(text);
    |ls| == |body| && forall k :: 0 <= k < |body| ==> StartsBlank(ls[k]) && IsTrimmed(body[k], ls[k][1..])
  }

  lemma {:induction false} IndentAt(vs: seq<Text>, k: nat)
    requires k < |vs|
    ensures |Indent(vs)| == |vs| && Indent(vs)[k] == [SPACE] + vs[k]
  {
    IndentSize(vs);
    if k > 0 {
      IndentAt(vs[1..], k - 1);
    }
  }

  lemma {:induction false} TrimAllAt(ls: seq<Text>, k: nat)
    requires k < |ls|
    ensures TrimAll(ls)[k] == Trim(ls[k])
  {
    if k > 0 { TrimAllAt(ls[1..], k - 1); }
  }

  /** The lines of a response as it is stored. */
  lemma BlockLines(c: Change)
    ensures var ls := FileOf([NewBlock(c)]);
            var first := if c.title.Title? then 2 else 1;
            && |ls| == first + |LinesOf(c.text)| && ls[0] == c.header
            && (c.title.Title? ==> ls[1] == [SPACE] + c.title.text)
            && HasText(ls[first..], c.text)
  {
    hide FileOf, Indent, TrimAll, LinesOf, Trim;
    var b, body := NewBlock(c), LinesOf(c.text);
    var first := if c.title.Title? then 2 else 1;
    FileOfOne(b);
    IndentSize(b.vals);
    if c.title.Title? { IndentAt(b.vals, 0); }
    var ls := FileOf([b]);
    var lines := ls[first..];
    forall k | 0 <= k < |body| ensures StartsBlank(lines[k]) && IsTrimmed(body[k], lines[k][1..]) {
      assert lines[k] == ls[first + k];
      TrimAllAt(body, k);
      IndentAt(b.vals, first - 1 + k);
      assert b.vals[first - 1 + k] == TrimAll(body)[k];
      assert ([SPACE] + Trim(body[k]))[1..] == Trim(body[k]);
    }
  }

  /** Reading an item before and after a change: the lines before the response and the lines
      behind it are the same, and between them there are header, title and trimmed text. */
  lemma ResponseStored(base: int, pages: seq<Page>, n: int, c: Change, most: int, before: seq<Key>, after: seq<Key>)
    requires PagesOk(pages, most - 5) && 0 <= n <= Count(pages) && IsHeader(c.header) && most > 6
    requires Lists(before, LayoutDisk(base, pages)) && Lists(after, Changed(base, pages, n, c, most))
    ensures |Content(pages)| == Count(pages)
    ensures var was, now := ReadAll(LayoutDisk(base, pages), before), ReadAll(Changed(base, pages, n, c, most), after);
            var at := |FileOf(Content(pages)[..n])|;
            var gone := if n < Count(pages) then 1 + |Content(pages)[n].vals| else 0;
            var first := at + if c.title.Title? then 2 else 1;
            var end := first + |LinesOf(c.text)|;
            && at + gone <= |was| && end <= |now|
            && now[..at] == was[..at] && now[end..] == was[at + gone..]
            && now[at] == c.header
            && (c.title.Title? ==> now[at + 1] == [SPACE] + c.title.text)
            && HasText(now[first..end], c.text)
  {
    hide FileOf, NewBlock, LinesOf, LayoutDisk, Content, Count, Changed, Lists, ReadAll, PagesOk, HasText;
    var bs, b := Content(pages), NewBlock(c);
    ContentSize(pages, most - 5);
    ReadsBack(base, pages, most - 5, before);
    ChangedReads(base, pages, n, c, most, after);
    BlockLines(c);
    Around(bs, n, b);
    var pre, mid, post := FileOf(bs[..n]), FileOf([b]), FileOf(if n < |bs| then bs[n + 1..] else []);
    var now, first := pre + mid + post, if c.title.Title? then 2 else 1;
    assert now[|pre| + first..|pre| + |mid|] == mid[first..];
    assert now[|pre|] == mid[0];
    assert c.title.Title? ==> now[|pre| + 1] == mid[1];
    assert now[|pre| + |mid|..] == post;
  }

  /** The lines of responses around response `n`. */
  lemma Around(bs: seq<Block>, n: nat, b: Block)
    requires n <= |bs|
    ensures var pre, post := FileOf(bs[..n]), FileOf(if n < |bs| then bs[n + 1..] else []);
            var gone := if n < |bs| then 1 + |bs[n].vals| else 0;
            && FileOf(Replaced(bs, n, b)) == pre + FileOf([b]) + post
            && |pre| + gone <= |FileOf(bs)| && FileOf(bs)[..|pre|] == pre && FileOf(bs)[|pre| + gone..] == post
  {
    hide FileOf;
    var rest := if n < |bs| then bs[n + 1..] else [];
    Patched(bs, n, b);
    FileOfConcat(bs[..n] + [b], rest);
    FileOfConcat(bs[..n], [b]);
    if n < |bs| {
      assert bs == bs[..n] + [bs[n]] + rest;
      FileOfConcat(bs[..n] + [bs[n]], rest);
      FileOfConcat(bs[..n], [bs[n]]);
      BlockSize(bs[n]);
    } else {
      assert bs[..n] == bs;
      NothingToRead();
    }
  }

  // ------------------------------------------------ the partfiles of one response

  predicate MultipleOf(m: int, limit: int)
    requires limit > 0
    decreases m
  {
    m == 0 || (m >= limit && MultipleOf(m - limit, limit))
  }

  lemma {:induction false} ChunkKeys(resp: int, lnum: int, vs: seq<Text>, limit: int, m: int)
    requires limit > 0
    ensures Key(resp, m) in MoreDisk(resp, lnum, Chunks(vs, limit))
            <==> lnum <= m < lnum + |vs| && MultipleOf(m - lnum, limit)
    decreases |vs|
  {
    hide Indent;
    if vs != [] {
      var size := if |vs| <= limit then |vs| else limit;
      ChunksStep(vs, size, limit);
      MoreStep(resp, lnum, vs[..size], Chunks(vs[size..], limit));
      ChunkKeys(resp, lnum + size, vs[size..], limit, m);
    }
  }

  /** A response put behind nothing begins a partfile, and goes on in others after every
      `limit` lines. */
  lemma OwnKeys(first: int, b: Block, need: nat, limit: int, m: int)
    requires limit > 1 && Sized(b, need)
    ensures Key(first, m) in Placed(first, [], b, need, limit) <==> 0 <= m < 1 + |b.vals| && MultipleOf(m, limit)
  {
    hide FileOf, MoreDisk, Chunks;
    NothingToRead();
    var n := Held(0, b, need, limit);
    ChunkKeys(first, 1 + n, b.vals[n..], limit, m);
  }

  lemma WrittenKeys(first: int, bs: seq<Block>, r: nat, b: Block, need: nat, most: int, m: int)
    requires r <= |bs| && |FileOf(bs)| <= most - 5 && Sized(b, need) && most > 6
    requires !Misfit(bs, r, b, need, most) && Key(first + r, 0) in Writes(first, bs, r, b, need, most)
    ensures Key(first + r, m) in Writes(first, bs, r, b, need, most)
            <==> 0 <= m < 1 + |b.vals| && MultipleOf(m, most - 5)
  {
    hide FileOf, Placed, TailDisk;
    TailKeys(first, bs, r);
    OwnKeys(first + r, b, need, most - 5, m);
    if StaysInside(bs, r, need, most) {
      SplitSize(bs, r);
    } else if Moves(bs, r, need, most) {
    } else if r == 0 {
      assert bs[..r] == [];
    } else {
      PlacedWhole(first, bs[..r], b, need, most - 5);
      WholePage(first, bs[..r] + [b]);
    }
  }

  /** After an update that is not misjudged, a response that begins a partfile has exactly the
      partfiles 0, `most - 5`, 2 * (`most - 5`) and so on below its number of lines: a continuation
      is named by the number of lines before it, and begins only when a partfile is full. */
  lemma PartsAreFull(base: int, pages: seq<Page>, n: int, b: Block, need: nat, most: int, m: int)
    requires PagesOk(pages, most - 5) && 0 <= n <= Count(pages) && Sized(b, need) && most > 6
    requires 0 <= Within(pages, n) <= |RespsAt(pages, Where(pages, n))| && !Misplaced(pages, n, b, need, most)
    requires Key(base + n, 0) in DiskAfter(base, pages, n, b, need, most)
    ensures Key(base + n, m) in DiskAfter(base, pages, n, b, need, most)
            <==> 0 <= m < 1 + |b.vals| && MultipleOf(m, most - 5)
  {
    hide FileOf, LayoutDisk, Writes, Where, Count, PagesOk, Misfit, MultipleOf;
    var j, r := Where(pages, n), Within(pages, n);
    var first, bs := NumberAt(base, pages, j), RespsAt(pages, j);
    WhereIs(pages, n, most - 5);
    PagesOkParts(pages, j, most - 5);
    LayoutKeys(base, pages[..j], most - 5);
    LayoutKeys(first + |bs|, After(pages, j), most - 5);
    EmptyLayout(first + |bs|, After(pages, j));
    WrittenKeys(first, bs, r, b, need, most, m);
  }
}
