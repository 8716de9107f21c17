/** Reading an item after an update whose response was misjudged: nothing is lost yet. */
module Reading {
  import opened Text
  import opened Blocks
  import opened Partfiles
  import opened Repaging
  import opened ItemUpdates
  import opened Opening

  /** A response cut behind others still reads as a whole. */
  lemma PlacedReads(first: int, pre: seq<Block>, b: Block, need: nat, limit: int) returns (dir: seq<Key>)
    requires need <= |b.vals| && limit > 0
    ensures Lists(dir, Placed(first, pre, b, need, limit))
    ensures ReadAll(Placed(first, pre, b, need, limit), dir) == FileOf(pre + [b])
  {
    hide FileOf, MoreDisk, MoreDir, Lists, ReadAll, Held, Chunks;
    var n, resp := Held(|FileOf(pre)|, b, need, limit), first + |pre|;
    var more := Chunks(b.vals[n..], limit);
    ChunksOk(b.vals[n..], limit);
    MoreReads(resp, 1 + n, more, limit);
    MoreKeys(resp, 1 + n, more);
    var file := FileOf(pre + [Block(b.name, b.vals[..n])]);
    ReadFirst(Key(first, 0), file, MoreDisk(resp, 1 + n, more), MoreDir(resp, 1 + n, more));
    dir := [Key(first, 0)] + MoreDir(resp, 1 + n, more);
    CutRejoined(pre, b, n);
  }

  lemma CutRejoined(pre: seq<Block>, b: Block, n: nat)
    requires n <= |b.vals|
    ensures FileOf(pre + [Block(b.name, b.vals[..n])]) + Indent(b.vals[n..]) == FileOf(pre + [b])
  {
    hide FileOf;
    var head := Block(b.name, b.vals[..n]);
    FileOfConcat(pre, [head]);
    FileOfConcat(pre, [b]);
    FileOfOne(head);
    FileOfOne(b);
    IndentConcat(b.vals[..n], b.vals[n..]);
    assert b.vals == b.vals[..n] + b.vals[n..];
  }

  lemma TailReads(first: int, bs: seq<Block>, r: nat) returns (dir: seq<Key>)
    requires r < |bs|
    ensures Lists(dir, TailDisk(first, bs, r))
    ensures ReadAll(TailDisk(first, bs, r), dir) == FileOf(bs[r + 1..])
  {
    hide FileOf;
    NothingToRead();
    if r + 1 < |bs| {
      var key := Key(first + r + 1, 0);
      ReadFirst(key, FileOf(bs[r + 1..]), map[], []);
      assert map[key := FileOf(bs[r + 1..])] + map[] == TailDisk(first, bs, r);
      dir := [key] + [];
    } else {
      assert bs[r + 1..] == [];
      dir := [];
    }
  }

  lemma TornPageReads(first: int, bs: seq<Block>, r: nat, b: Block, need: nat, most: int) returns (dir: seq<Key>)
    requires r < |bs| && need <= |b.vals| && most > 5 && Misfit(bs, r, b, need, most)
    ensures Lists(dir, Writes(first, bs, r, b, need, most))
    ensures ReadAll(Writes(first, bs, r, b, need, most), dir) == FileOf(Replaced(bs, r, b))
    ensures forall k :: k in Writes(first, bs, r, b, need, most) ==> first <= k.resp < first + |bs|
  {
    hide FileOf, Placed, TailDisk, Lists, ReadAll, StaysInside, Moves;
    var placed, tail := Placed(first, bs[..r], b, need, most - 5), TailDisk(first, bs, r);
    var dp := PlacedReads(first, bs[..r], b, need, most - 5);
    var dt := TailReads(first, bs, r);
    PlacedKeys(first, bs[..r], b, need, most - 5);
    TailKeys(first, bs, r);
    TailDiskKeys(first, bs, r);
    ReadsJoin(placed, dp, tail, dt);
    Disjoint(placed, tail);
    dir := dp + dt;
    Patched(bs, r, b);
    FileOfConcat(bs[..r] + [b], bs[r + 1..]);
  }

  /** Even a misjudged update leaves partfiles that read, in order, as the responses with this
      one in place. */
  lemma TornReads(base: int, pages: seq<Page>, n: int, b: Block, need: nat, most: int, dir: seq<Key>)
    requires PagesOk(pages, most - 5) && 0 <= n <= Count(pages) && Sized(b, need) && most > 6
    requires 0 <= Within(pages, n) <= |RespsAt(pages, Where(pages, n))|
    requires Misplaced(pages, n, b, need, most)
    requires Lists(dir, DiskAfter(base, pages, n, b, need, most))
    ensures |Content(pages)| == Count(pages)
    ensures ReadAll(DiskAfter(base, pages, n, b, need, most), dir) == FileOf(Replaced(Content(pages), n, b))
  {
    hide FileOf, Writes, LayoutDisk, Lists, ReadAll, Count, Where, Content, PagesOk, Misfit, Replaced, After;
    var limit, j, r := most - 5, Where(pages, n), Within(pages, n);
    var first, bs, after := NumberAt(base, pages, j), RespsAt(pages, j), After(pages, j);
    var a, w, c := LayoutDisk(base, pages[..j]), Writes(first, bs, r, b, need, most), LayoutDisk(first + |bs|, after);
    ContentSize(pages, limit);
    PagesOkParts(pages, j, limit);
    MisfitNeeds(bs, r, b, need, most);
    var da := LayoutReads(base, pages[..j], limit);
    var dw := TornPageReads(first, bs, r, b, need, most);
    var dc := LayoutReads(first + |bs|, after, limit);
    LayoutKeys(base, pages[..j], limit);
    LayoutKeys(first + |bs|, after, limit);
    ReadsJoin(w, dw, c, dc);
    ReadsJoin(a, da, w + c, dw + dc);
    SameListing(dir, da + (dw + dc), a + (w + c));
    TornContent(pages, n, b, limit);
    FileOfConcat(Replaced(bs, r, b), Content(after));
    FileOfConcat(Content(pages[..j]), Replaced(bs, r, b) + Content(after));
  }

  lemma SameListing(a: seq<Key>, b: seq<Key>, disk: Disk)
    requires Lists(a, disk) && Lists(b, disk)
    ensures a == b
  {
    ListingUnique(a, b);
  }

  lemma TornContent(pages: seq<Page>, n: int, b: Block, limit: int)
    requires PagesOk(pages, limit) && 0 <= n <= Count(pages) == |Content(pages)|
    requires 0 < Within(pages, n) < |RespsAt(pages, Where(pages, n))|
    ensures var j, r := Where(pages, n), Within(pages, n);
            Replaced(Content(pages), n, b) ==
            Content(pages[..j]) + (Replaced(RespsAt(pages, j), r, b) + Content(After(pages, j)))
  {
    hide FileOf, Count, Where, Content, PagesOk, Replaced, After, PageContent;
    var j, r := Where(pages, n), Within(pages, n);
    ContentAround(pages, n, limit);
    ReplacedHere(pages, n, b, limit);
    ReplacedInside(Content(pages[..j]), PageContent(pages[j]), Content(After(pages, j)), r, b);
  }
}
