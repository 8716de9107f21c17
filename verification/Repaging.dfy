/** Where an updated response goes.

    `b` is the response as it is to be stored, `need` the number of lines of its text: `b`
    has those lines, a header, and perhaps a title.  `most` is half the lines that the text
    buffer holds, and no partfile is to have more than `most - 5`. */
module Repaging {
  import opened Text
  import opened Blocks
  import opened Partfiles

  function Replaced(bs: seq<Block>, r: nat, b: Block): seq<Block>
    requires r <= |bs|
  {
    if r < |bs| then bs[r := b] else bs + [b]
  }

  predicate Sized(b: Block, need: nat) {
    IsHeader(b.name) && (|b.vals| == need || |b.vals| == need + 1)
  }

  // ------------------------------------------------ the tests that updatepart makes

  function Start(bs: seq<Block>, r: nat): nat
    requires r <= |bs|
  {
    |FileOf(bs[..r])|
  }

  function Space(bs: seq<Block>, r: nat): nat {
    if r < |bs| then 1 + |bs[r].vals| else 0
  }

  predicate Fits(need: nat, used: int, space: int, most: int) {
    need < most - used + space - 10
  }

  /** The response is not the last of its partfile, and it fits beside the others. */
  predicate StaysInside(bs: seq<Block>, r: nat, need: nat, most: int) {
    r + 1 < |bs| && Fits(need, |FileOf(bs)|, Space(bs, r), most)
  }

  /** The responses before it are written out, and it starts a partfile. */
  predicate Moves(bs: seq<Block>, r: nat, need: nat, most: int)
    requires r <= |bs|
  {
    r > 0 && !Fits(need, Start(bs, r), Space(bs, r), most)
  }

  /** The lines that the response gives up are counted as free twice, and because of that
      it is taken to fit behind other responses where it does not. */
  predicate Misfit(bs: seq<Block>, r: nat, b: Block, need: nat, most: int)
    requires r <= |bs|
  {
    && r > 0 && !StaysInside(bs, r, need, most) && !Moves(bs, r, need, most)
    && Start(bs, r) + 1 + |b.vals| > most - 5
  }

  // ------------------------------------------------ what is written

  /** Pieces of `limit` lines, and a last one of what is left. */
  function Chunks(vs: seq<Text>, limit: int): seq<seq<Text>>
    requires limit > 0
    decreases |vs|
  {
    if vs == [] then []
    else if |vs| <= limit then [vs]
    else [vs[..limit]] + Chunks(vs[limit..], limit)
  }

  /** How many lines after the header stay in the partfile where the response begins: the
      title always does, the lines of the text as long as there is room. */
  function Held(start: int, b: Block, need: nat, limit: int): (n: nat)
    requires need <= |b.vals|
    ensures n <= |b.vals|
  {
    var room := limit - start - 1;
    if room >= |b.vals| then |b.vals|
    else if room >= |b.vals| - need then room
    else |b.vals| - need
  }

  /** Partfiles written to put `b` behind `pre` in the partfile of response `first`. */
  function Placed(first: int, pre: seq<Block>, b: Block, need: nat, limit: int): Disk
    requires need <= |b.vals| && limit > 0
  {
    var n := Held(|FileOf(pre)|, b, need, limit);
    map[Key(first, 0) := FileOf(pre + [Block(b.name, b.vals[..n])])]
    + MoreDisk(first + |pre|, 1 + n, Chunks(b.vals[n..], limit))
  }

  /** The responses after it, when they get a partfile of their own. */
  function TailDisk(first: int, bs: seq<Block>, r: nat): Disk {
    if r + 1 < |bs| then map[Key(first + r + 1, 0) := FileOf(bs[r + 1..])] else map[]
  }

  function Writes(first: int, bs: seq<Block>, r: nat, b: Block, need: nat, most: int): Disk
    requires r <= |bs| && need <= |b.vals| && most > 5
  {
    if StaysInside(bs, r, need, most) then map[Key(first, 0) := FileOf(Replaced(bs, r, b))]
    else if Moves(bs, r, need, most) then
      TailDisk(first, bs, r)
      + (map[Key(first, 0) := FileOf(bs[..r])] + Placed(first + r, [], b, need, most - 5))
    else TailDisk(first, bs, r) + Placed(first, bs[..r], b, need, most - 5)
  }

  // ------------------------------------------------ as pages

  /** A response that begins its own partfile, cut into as many as it needs. */
  function Own(b: Block, limit: int): Page
    requires limit > 0
  {
    var n := if |b.vals| < limit then |b.vals| else limit - 1;
    Page([Block(b.name, b.vals[..n])], Chunks(b.vals[n..], limit))
  }

  function TailPages(bs: seq<Block>, r: nat): seq<Page> {
    if r + 1 < |bs| then [Page(bs[r + 1..], [])] else []
  }

  /** The pages that take the place of the page with responses `bs`. */
  function Repaged(bs: seq<Block>, r: nat, b: Block, need: nat, most: int): seq<Page>
    requires r <= |bs| && most > 5
  {
    if StaysInside(bs, r, need, most) then [Page(Replaced(bs, r, b), [])]
    else if Moves(bs, r, need, most) then [Page(bs[..r], []), Own(b, most - 5)] + TailPages(bs, r)
    else if r == 0 then [Own(b, most - 5)] + TailPages(bs, r)
    else [Page(bs[..r] + [b], [])] + TailPages(bs, r)
  }

  // ------------------------------------------------ pieces

  lemma {:induction false} ChunksOk(vs: seq<Text>, limit: int)
    requires limit > 0
    ensures Flat(Chunks(vs, limit)) == vs && PiecesOk(Chunks(vs, limit), limit)
    decreases |vs|
  {
    if vs == [] {
    } else if |vs| <= limit {
      assert [vs][1..] == [];
    } else {
      ChunksOk(vs[limit..], limit);
      assert vs == vs[..limit] + vs[limit..];
    }
  }

  /** How the lines of a partfile divide at response `r`. */
  lemma SplitSize(bs: seq<Block>, r: nat)
    requires r <= |bs|
    ensures |FileOf(bs)| == Start(bs, r) + |FileOf(bs[r..])|
    ensures r < |bs| ==> |FileOf(bs)| == Start(bs, r) + Space(bs, r) + |FileOf(bs[r + 1..])|
    ensures r == |bs| ==> |FileOf(bs)| == Start(bs, r)
  {
    assert bs == bs[..r] + bs[r..];
    FileOfConcat(bs[..r], bs[r..]);
    if r < |bs| {
      assert bs[r..] == [bs[r]] + bs[r + 1..];
      FileOfConcat([bs[r]], bs[r + 1..]);
      BlockSize(bs[r]);
    } else {
      assert bs[..r] == bs;
    }
  }

  /** A page of a single response: what is there is the response, every part within bounds. */
  lemma OwnOk(b: Block, limit: int)
    requires limit > 0 && IsHeader(b.name)
    ensures PageOk(Own(b, limit), limit) && PageContent(Own(b, limit)) == [b]
    ensures |Own(b, limit).resps| == 1
    ensures Own(b, limit).more != [] <==> 1 + |b.vals| > limit
  {
    hide FileOf;
    var n := if |b.vals| < limit then |b.vals| else limit - 1;
    var head := Block(b.name, b.vals[..n]);
    BlockSize(head);
    ChunksOk(b.vals[n..], limit);
    assert b.vals == b.vals[..n] + b.vals[n..];
    assert Block(b.name, b.vals) == b;
    assert Chunks(b.vals[n..], limit) == [] ==> b.vals[..n] == b.vals;
  }

  /** A page without continuations. */
  lemma WholePage(first: int, bs: seq<Block>)
    ensures PageDisk(first, Page(bs, [])) == map[Key(first, 0) := FileOf(bs)]
  {
  }

  /** Put behind nothing, a response is a page of its own. */
  lemma PlacedOwn(first: int, b: Block, need: nat, limit: int)
    requires limit > 1 && Sized(b, need)
    ensures Placed(first, [], b, need, limit) == PageDisk(first, Own(b, limit))
  {
    hide MoreDisk, Chunks;
    var n := Held(0, b, need, limit);
    var head := Block(b.name, b.vals[..n]);
    assert [] + [head] == [head];
    BlockSize(head);
    assert n == (if |b.vals| < limit then |b.vals| else limit - 1);
    assert FileOf([]) == [];
  }

  /** Put behind others with room for all of it, it shares their page. */
  lemma PlacedWhole(first: int, pre: seq<Block>, b: Block, need: nat, limit: int)
    requires limit > 0 && need <= |b.vals| && |FileOf(pre)| + 1 + |b.vals| <= limit
    ensures Placed(first, pre, b, need, limit) == PageDisk(first, Page(pre + [b], []))
  {
    hide FileOf;
    var n := Held(|FileOf(pre)|, b, need, limit);
    assert n == |b.vals| && b.vals[..n] == b.vals && b.vals[n..] == [];
    assert Block(b.name, b.vals) == b;
  }

  // ------------------------------------------------ one page

  lemma TailIsPages(first: int, bs: seq<Block>, r: nat)
    ensures TailDisk(first, bs, r) == LayoutDisk(first + r + 1, TailPages(bs, r))
  {
    hide FileOf;
    if r + 1 < |bs| {
      WholePage(first + r + 1, bs[r + 1..]);
      assert [Page(bs[r + 1..], [])][1..] == [];
    }
  }

  lemma TailKeys(first: int, bs: seq<Block>, r: nat)
    ensures forall k :: k in TailDisk(first, bs, r) ==> k == Key(first + r + 1, 0)
  {
  }

  lemma Disjoint(a: Disk, b: Disk)
    requires forall k :: k in a ==> k !in b
    ensures a + b == b + a
  {
  }

  /** The page of a response, written after the partfile of the responses behind it. */
  lemma OnePage(first: int, p: Page, bs: seq<Block>, r: nat)
    requires |p.resps| == r + 1
    ensures TailDisk(first, bs, r) + PageDisk(first, p) == LayoutDisk(first, [p] + TailPages(bs, r))
  {
    hide FileOf, PageDisk, TailDisk, TailPages;
    PageKeys(first, p);
    TailKeys(first, bs, r);
    TailIsPages(first, bs, r);
    Disjoint(PageDisk(first, p), TailDisk(first, bs, r));
    assert ([p] + TailPages(bs, r))[1..] == TailPages(bs, r);
  }

  lemma TwoPages(first: int, p: Page, q: Page, bs: seq<Block>, r: nat)
    requires |p.resps| == r >= 1 && |q.resps| == 1
    ensures TailDisk(first, bs, r) + (PageDisk(first, p) + PageDisk(first + r, q))
         == LayoutDisk(first, [p, q] + TailPages(bs, r))
  {
    hide FileOf, PageDisk, TailDisk, TailPages, LayoutDisk, Count;
    var both := PageDisk(first, p) + PageDisk(first + r, q);
    PageKeys(first, p);
    PageKeys(first + r, q);
    TailKeys(first, bs, r);
    TailIsPages(first, bs, r);
    Disjoint(both, TailDisk(first, bs, r));
    LayoutConcat(first, [p, q], TailPages(bs, r));
    PagePair(first, p, q);
  }

  lemma PagePair(first: int, p: Page, q: Page)
    ensures LayoutDisk(first, [p, q]) == PageDisk(first, p) + PageDisk(first + |p.resps|, q)
    ensures Count([p, q]) == |p.resps| + |q.resps|
  {
    hide PageDisk;
    assert [p, q][1..] == [q];
    SinglePage(first + |p.resps|, q);
  }

  /** What is written is the new pages, unless the response was taken to fit and does not. */
  lemma WritesArePages(first: int, bs: seq<Block>, r: nat, b: Block, need: nat, most: int)
    requires r <= |bs| && Sized(b, need) && most > 6
    requires !Misfit(bs, r, b, need, most)
    ensures Writes(first, bs, r, b, need, most) == LayoutDisk(first, Repaged(bs, r, b, need, most))
  {
    hide FileOf, PageDisk, Placed, TailDisk, TailPages, Own, StaysInside, Moves;
    var limit := most - 5;
    if StaysInside(bs, r, need, most) {
      WholePage(first, Replaced(bs, r, b));
      SinglePage(first, Page(Replaced(bs, r, b), []));
    } else if Moves(bs, r, need, most) {
      WholePage(first, bs[..r]);
      PlacedOwn(first + r, b, need, limit);
      OwnOk(b, limit);
      MovesBehind(bs, r, need, most);
      TwoPages(first, Page(bs[..r], []), Own(b, limit), bs, r);
    } else if r == 0 {
      assert bs[..r] == [];
      PlacedOwn(first, b, need, limit);
      OwnOk(b, limit);
      OnePage(first, Own(b, limit), bs, r);
    } else {
      PlacedWhole(first, bs[..r], b, need, limit);
      OnePage(first, Page(bs[..r] + [b], []), bs, r);
    }
  }

  lemma SinglePage(first: int, p: Page)
    ensures LayoutDisk(first, [p]) == PageDisk(first, p)
    ensures Count([p]) == |p.resps| && Content([p]) == PageContent(p)
  {
    hide PageDisk;
    assert [p][1..] == [];
  }

  lemma MovesBehind(bs: seq<Block>, r: nat, need: nat, most: int)
    requires r <= |bs| && Moves(bs, r, need, most)
    ensures r > 0
  {
  }

  lemma {:induction false} HeadedParts(bs: seq<Block>, r: nat, limit: int)
    requires Headed(bs) && |FileOf(bs)| <= limit && r <= |bs|
    ensures r > 0 ==> PageOk(Page(bs[..r], []), limit)
    ensures PagesOk(TailPages(bs, r), limit)
    ensures Content(TailPages(bs, r)) == if r < |bs| then bs[r + 1..] else []
  {
    SplitSize(bs, r);
    if r + 1 < |bs| { SinglePage(0, Page(bs[r + 1..], [])); }
  }

  lemma ReplacedSize(bs: seq<Block>, r: nat, b: Block)
    requires r < |bs|
    ensures |FileOf(bs[r := b])| == |FileOf(bs)| - Space(bs, r) + 1 + |b.vals|
  {
    hide FileOf;
    SplitSize(bs, r);
    SplitSize(bs[r := b], r);
    assert bs[r := b][..r] == bs[..r] && bs[r := b][r + 1..] == bs[r + 1..];
  }

  /** The new pages hold the responses of the old one with `b` in its place, and no partfile
      is larger than allowed. */
  lemma RepagedOk(bs: seq<Block>, r: nat, b: Block, need: nat, most: int)
    requires Headed(bs) && |FileOf(bs)| <= most - 5 && r <= |bs| && Sized(b, need) && most > 6
    requires !Misfit(bs, r, b, need, most)
    ensures PagesOk(Repaged(bs, r, b, need, most), most - 5)
    ensures Content(Repaged(bs, r, b, need, most)) == Replaced(bs, r, b)
  {
    hide FileOf, TailPages, Own, Content;
    var limit, tail := most - 5, TailPages(bs, r);
    HeadedParts(bs, r, limit);
    OwnOk(b, limit);
    if StaysInside(bs, r, need, most) {
      ReplacedSize(bs, r, b);
      SinglePage(0, Page(Replaced(bs, r, b), []));
    } else if Moves(bs, r, need, most) {
      ContentConcat([Page(bs[..r], []), Own(b, limit)], tail);
      ContentConcat([Page(bs[..r], [])], [Own(b, limit)]);
      SinglePage(0, Page(bs[..r], []));
      SinglePage(0, Own(b, limit));
      assert [Page(bs[..r], []), Own(b, limit)] == [Page(bs[..r], [])] + [Own(b, limit)];
      Patched(bs, r, b);
    } else if r == 0 {
      ContentConcat([Own(b, limit)], tail);
      SinglePage(0, Own(b, limit));
      Patched(bs, r, b);
    } else {
      var p := Page(bs[..r] + [b], []);
      ContentConcat([p], tail);
      SinglePage(0, p);
      FileSize(bs[..r], b);
      Patched(bs, r, b);
    }
  }

  lemma Patched(bs: seq<Block>, r: nat, b: Block)
    requires r <= |bs|
    ensures Replaced(bs, r, b) == bs[..r] + [b] + (if r < |bs| then bs[r + 1..] else [])
    ensures Replaced(bs, r, b) == bs[..r] + ([b] + (if r < |bs| then bs[r + 1..] else []))
  {
  }

  /** Only a response that is neither new nor first in its partfile can be misjudged, and
      then it has text. */
  lemma MisfitNeeds(bs: seq<Block>, r: nat, b: Block, need: nat, most: int)
    requires |FileOf(bs)| <= most - 5 && r <= |bs| && Sized(b, need)
    requires Misfit(bs, r, b, need, most)
    ensures 0 < r < |bs| && need > 0
  {
    hide FileOf;
    SplitSize(bs, r);
  }

  // ------------------------------------------------ which case it is

  /** A response that is not the last of its partfile stays where it is exactly when its text and
      the other responses together have fewer than `most - 10` lines. */
  lemma StaysIff(bs: seq<Block>, r: nat, need: nat, most: int)
    requires r + 1 < |bs|
    ensures StaysInside(bs, r, need, most) <==> need + |FileOf(bs[..r] + bs[r + 1..])| < most - 10
  {
    hide FileOf;
    SplitSize(bs, r);
    FileOfConcat(bs[..r], bs[r + 1..]);
  }

  /** A new response joins the last partfile exactly when its text and the responses there
      together have fewer than `most - 10` lines; otherwise it begins its own. */
  lemma JoinsIff(bs: seq<Block>, b: Block, need: nat, most: int)
    requires bs != [] && most > 5
    ensures Repaged(bs, |bs|, b, need, most) ==
            if need + |FileOf(bs)| < most - 10 then [Page(bs + [b], [])] else [Page(bs, []), Own(b, most - 5)]
  {
    hide FileOf, Own;
    assert bs[..|bs|] == bs;
  }
}
