/** The partfile that an update opens, in an item that is laid out in pages. */
module Opening {
  import opened Text
  import opened Blocks
  import opened Partfiles
  import opened Repaging
  import opened ItemUpdates
  import opened Directories

  /** The partfiles of the pages before, of page `j`, and of the pages after. */
  lemma LayoutAround(base: int, pages: seq<Page>, j: nat)
    requires j < |pages|
    ensures var first := NumberAt(base, pages, j);
            LayoutDisk(base, pages) ==
            LayoutDisk(base, pages[..j])
            + (PageDisk(first, pages[j]) + LayoutDisk(first + |pages[j].resps|, After(pages, j)))
  {
    hide PageDisk, LayoutDisk;
    var first := NumberAt(base, pages, j);
    Cut(pages, j);
    LayoutConcat(base, pages[..j], [pages[j]] + After(pages, j));
    LayoutConcat(first, [pages[j]], After(pages, j));
    SinglePage(first, pages[j]);
  }

  /** Names of partfiles, seen from page `j`. */
  lemma KeysAround(base: int, pages: seq<Page>, j: nat, limit: int, x: Key)
    requires j < |pages| && PagesOk(pages, limit) && x in LayoutDisk(base, pages)
    ensures var first := NumberAt(base, pages, j);
            || x.resp < first
            || x == Key(first, 0)
            || (x.resp == first && x.lnum > 0 && pages[j].more != [])
            || (x.resp >= first + |pages[j].resps| && j + 1 < |pages|)
    ensures Key(NumberAt(base, pages, j), 0) in LayoutDisk(base, pages)
  {
    hide LayoutDisk, FileOf;
    var p, first := pages[j], NumberAt(base, pages, j);
    LayoutAround(base, pages, j);
    PagesOkParts(pages, j, limit);
    LayoutKeys(base, pages[..j], limit);
    LayoutKeys(first + |p.resps|, After(pages, j), limit);
    MoreKeys(first, |FileOf(p.resps)|, p.more);
    FileNotEmpty(p.resps);
    EmptyLayout(first + |p.resps|, After(pages, j));
  }

  lemma EmptyLayout(first: int, pages: seq<Page>)
    ensures pages == [] ==> LayoutDisk(first, pages) == map[]
  {
  }

  lemma StartPresent(base: int, pages: seq<Page>, j: nat, limit: int)
    requires j < |pages| && PagesOk(pages, limit)
    ensures Key(NumberAt(base, pages, j), 0) in LayoutDisk(base, pages)
  {
    hide LayoutDisk, FileOf;
    var p, first := pages[j], NumberAt(base, pages, j);
    LayoutAround(base, pages, j);
  }

  /** A response on a page is opened where the page begins. */
  lemma OpensPage(base: int, pages: seq<Page>, n: int, limit: int, k: Key)
    requires PagesOk(pages, limit) && 0 <= n <= Count(pages) && Where(pages, n) < |pages|
    requires Holder(LayoutDisk(base, pages), Key(base + n, 0), k)
    ensures k == Key(NumberAt(base, pages, Where(pages, n)), 0)
  {
    hide LayoutDisk, Count, Where, PagesOk;
    var j := Where(pages, n);
    WhereIs(pages, n, limit);
    StartPresent(base, pages, j, limit);
    KeysAround(base, pages, j, limit, k);
    PageIsOk(pages, j, limit);
  }

  lemma PageIsOk(pages: seq<Page>, j: nat, limit: int)
    requires PagesOk(pages, limit) && j < |pages|
    ensures PageOk(pages[j], limit)
  {
  }

  /** Behind a response of several partfiles it is the last continuation that is found. */
  lemma OpensBehind(base: int, pages: seq<Page>, n: int, limit: int, k: Key)
    requires PagesOk(pages, limit) && 0 <= n <= Count(pages) && Where(pages, n) == |pages| > 0
    requires Holder(LayoutDisk(base, pages), Key(base + n, 0), k)
    ensures Last(LayoutDisk(base, pages), k) && k.lnum > 0
  {
    hide LayoutDisk, Count, Where, PagesOk, FileOf;
    var disk, j := LayoutDisk(base, pages), |pages| - 1;
    WhereIs(pages, n, limit);
    LayoutKeys(base, pages, limit);
    var m := ContinuationPresent(base, pages, limit);
    KeysAround(base, pages, j, limit, k);
    assert forall x :: x in disk ==> !Less(Key(base + n, 0), x);
    StartPresent(base, pages, j, limit);
  }

  lemma ContinuationPresent(base: int, pages: seq<Page>, limit: int) returns (m: int)
    requires PagesOk(pages, limit) && pages != [] && pages[|pages| - 1].more != []
    ensures m > 0 && Key(NumberAt(base, pages, |pages| - 1), m) in LayoutDisk(base, pages)
  {
    hide LayoutDisk, FileOf;
    var j := |pages| - 1;
    var p, first := pages[j], NumberAt(base, pages, j);
    LayoutAround(base, pages, j);
    FileNotEmpty(p.resps);
    EmptyLayout(first + |p.resps|, After(pages, j));
    m := |FileOf(p.resps)|;
    assert Key(first, m) in PageDisk(first, p);
  }

  /** The partfile that an update of response `n` opens. */
  lemma OpensLayout(base: int, pages: seq<Page>, n: int, limit: int, key: Key)
    requires PagesOk(pages, limit) && 0 <= n <= Count(pages)
    requires OpensAt(LayoutDisk(base, pages), base + n, key)
    ensures key == Key(NumberAt(base, pages, Where(pages, n)), 0)
    ensures key in LayoutDisk(base, pages) <==> Where(pages, n) < |pages|
  {
    hide LayoutDisk, Where, PagesOk, Holder, Last, Count;
    var disk, j := LayoutDisk(base, pages), Where(pages, n);
    WhereIs(pages, n, limit);
    if pages == [] {
      EmptyLayout(base, pages);
      CountNone();
    } else {
      StartPresent(base, pages, 0, limit);
      var k :| Holder(disk, Key(base + n, 0), k)
               && key == if Last(disk, k) && k.lnum > 0 then Key(base + n, 0) else k;
      if j < |pages| {
        OpensPage(base, pages, n, limit, k);
        StartPresent(base, pages, j, limit);
      } else {
        OpensBehind(base, pages, n, limit, k);
        assert pages[..j] == pages;
        LayoutKeys(base, pages, limit);
      }
    }
  }

  lemma CountNone()
    ensures Count([]) == 0
  {
  }

  // ------------------------------------------------ what is left, and what is written over it

  /** The page of response `n` without its continuations. */
  function Opened(base: int, pages: seq<Page>, j: nat): Disk
    requires j <= |pages|
  {
    var first := NumberAt(base, pages, j);
    LayoutDisk(base, pages[..j])
    + ((if j < |pages| then map[Key(first, 0) := FileOf(pages[j].resps)] else map[])
       + LayoutDisk(first + |RespsAt(pages, j)|, After(pages, j)))
  }

  lemma TrimmedLayout(base: int, pages: seq<Page>, j: nat, limit: int)
    requires PagesOk(pages, limit) && j <= |pages|
    ensures var first, disk := NumberAt(base, pages, j), LayoutDisk(base, pages);
            && (j < |pages| ==> Trimmed(disk, Key(first, 0)) == Opened(base, pages, j))
            && (j == |pages| ==> disk == Opened(base, pages, j))
  {
    hide LayoutDisk, FileOf, Count, Trimmed, PageDisk;
    var first := NumberAt(base, pages, j);
    PagesOkParts(pages, j, limit);
    EmptyLayout(first + |RespsAt(pages, j)|, After(pages, j));
    if j < |pages| {
      var p := pages[j];
      LayoutAround(base, pages, j);
      LayoutKeys(base, pages[..j], limit);
      LayoutKeys(first + |p.resps|, After(pages, j), limit);
      TrimmedParts(LayoutDisk(base, pages[..j]), first, p, LayoutDisk(first + |p.resps|, After(pages, j)));
    } else {
      assert pages[..j] == pages;
    }
  }

  lemma TrimmedParts(a: Disk, first: int, p: Page, c: Disk)
    requires p.resps != []
    requires (forall k :: k in a ==> k.resp < first) && (forall k :: k in c ==> k.resp > first)
    ensures Trimmed(a + (PageDisk(first, p) + c), Key(first, 0))
         == a + (map[Key(first, 0) := FileOf(p.resps)] + c)
  {
    hide FileOf;
    var size := |FileOf(p.resps)|;
    FileNotEmpty(p.resps);
    MoreKeys(first, size, p.more);
    var more := MoreDisk(first, size, p.more);
    assert PageDisk(first, p) == map[Key(first, 0) := FileOf(p.resps)] + more;
  }

  lemma PlacedKeys(first: int, pre: seq<Block>, b: Block, need: nat, limit: int)
    requires need <= |b.vals| && limit > 0
    ensures Key(first, 0) in Placed(first, pre, b, need, limit)
    ensures forall k :: k in Placed(first, pre, b, need, limit) ==>
                          (k.resp == first || k.resp == first + |pre|) && k.lnum >= 0
  {
    hide FileOf, Held, Chunks;
    var n := Held(|FileOf(pre)|, b, need, limit);
    MoreKeys(first + |pre|, 1 + n, Chunks(b.vals[n..], limit));
  }

  lemma WritesKeys(first: int, bs: seq<Block>, r: nat, b: Block, need: nat, most: int)
    requires r <= |bs| && need <= |b.vals| && most > 5
    ensures Key(first, 0) in Writes(first, bs, r, b, need, most)
    ensures forall k :: k in Writes(first, bs, r, b, need, most) ==>
                          (k.resp < first + |bs| || r == |bs|) && k.lnum >= 0
  {
    hide FileOf, Placed, TailDisk, Fits;
    PlacedKeys(first, bs[..r], b, need, most - 5);
    PlacedKeys(first + r, [], b, need, most - 5);
    TailDiskKeys(first, bs, r);
  }

  lemma TailDiskKeys(first: int, bs: seq<Block>, r: nat)
    ensures forall k :: k in TailDisk(first, bs, r) ==> k.resp < first + |bs| && k.lnum == 0
  {
  }

  lemma OverWritten(a: Disk, m: Disk, c: Disk, w: Disk)
    requires forall k :: k in m ==> k in w
    requires forall k :: k in w ==> k !in c
    ensures (a + (m + c)) + w == a + (w + c)
  {
  }

  /** The writes of an update, on what was opened, leave the partfiles of `DiskAfter`. */
  lemma WrittenOver(base: int, pages: seq<Page>, n: int, b: Block, need: nat, most: int)
    requires PagesOk(pages, most - 5) && 0 <= n <= Count(pages) && need <= |b.vals| && most > 6
    requires 0 <= Within(pages, n) <= |RespsAt(pages, Where(pages, n))|
    ensures var j := Where(pages, n);
            Opened(base, pages, j)
            + Writes(NumberAt(base, pages, j), RespsAt(pages, j), Within(pages, n), b, need, most) ==
            DiskAfter(base, pages, n, b, need, most)
  {
    hide LayoutDisk, FileOf, Count, Where, Writes, PagesOk;
    var j, r := Where(pages, n), Within(pages, n);
    var first, bs := NumberAt(base, pages, j), RespsAt(pages, j);
    var w := Writes(first, bs, r, b, need, most);
    var m := if j < |pages| then map[Key(first, 0) := FileOf(pages[j].resps)] else map[];
    WhereIs(pages, n, most - 5);
    WritesKeys(first, bs, r, b, need, most);
    PagesOkParts(pages, j, most - 5);
    LayoutKeys(first + |bs|, After(pages, j), most - 5);
    EmptyLayout(first + |bs|, After(pages, j));
    OverWritten(LayoutDisk(base, pages[..j]), m, LayoutDisk(first + |bs|, After(pages, j)), w);
  }

  /** After a misjudged update, the next update of the same response opens the partfile that
      its header is in, and does not remove the old continuation. */
  lemma ContinuationGoesStale(base: int, pages: seq<Page>, n: int, b: Block, need: nat, most: int, key: Key)
    requires PagesOk(pages, most - 5) && 0 <= n <= Count(pages) && Sized(b, need) && most > 6
    requires 0 <= Within(pages, n) <= |RespsAt(pages, Where(pages, n))|
    requires Misplaced(pages, n, b, need, most)
    requires OpensAt(DiskAfter(base, pages, n, b, need, most), base + n, key)
    ensures var j := Where(pages, n);
            var lnum := TornAt(RespsAt(pages, j), Within(pages, n), b, need, most);
            var disk := DiskAfter(base, pages, n, b, need, most);
            && key in disk && key.resp < base + n && Key(base + n, lnum) in Trimmed(disk, key)
  {
    hide DiskAfter, Where, Count, PagesOk, Misplaced, TornAt, OpensAt, Trimmed;
    var j, r := Where(pages, n), Within(pages, n);
    var disk := DiskAfter(base, pages, n, b, need, most);
    TornDisk(base, pages, n, b, need, most);
    LinesCounted(base, pages, n, b, need, most);
    FoundBefore(disk, base + n, NumberAt(base, pages, j), TornAt(RespsAt(pages, j), r, b, need, most), key);
  }

  lemma LinesCounted(base: int, pages: seq<Page>, n: int, b: Block, need: nat, most: int)
    requires PagesOk(pages, most - 5) && 0 <= n <= Count(pages) && need <= |b.vals| && most > 6
    requires 0 <= Within(pages, n) <= |RespsAt(pages, Where(pages, n))|
    ensures forall k :: k in DiskAfter(base, pages, n, b, need, most) ==> k.lnum >= 0
  {
    hide LayoutDisk, FileOf, Count, Where, Writes, PagesOk;
    var j, r := Where(pages, n), Within(pages, n);
    var first, bs := NumberAt(base, pages, j), RespsAt(pages, j);
    PagesOkParts(pages, j, most - 5);
    LayoutKeys(base, pages[..j], most - 5);
    LayoutKeys(first + |bs|, After(pages, j), most - 5);
    WritesKeys(first, bs, r, b, need, most);
  }

  lemma FoundBefore(disk: Disk, resp: int, first: int, lnum: int, key: Key)
    requires Key(first, 0) in disk && first < resp && Key(resp, lnum) in disk && lnum > 0
    requires forall k :: k in disk ==> k.lnum >= 0
    requires Key(resp, 0) !in disk && OpensAt(disk, resp, key)
    ensures key in disk && key.resp < resp && Key(resp, lnum) in Trimmed(disk, key)
  {
    var at := Key(resp, 0);
    var k :| Holder(disk, at, k) && key == if Last(disk, k) && k.lnum > 0 then at else k;
    assert Less(Key(first, 0), at) && Less(at, Key(resp, lnum));
    assert !Less(at, k) by { if Less(at, k) { assert Less(Key(first, 0), k); } }
    assert Less(k, at);
  }
}
