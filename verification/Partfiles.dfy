/** How the responses of an item are laid out in partfiles.

    A partfile is named by a response number and a line number.  A page is one partfile
    that begins at the header of a response and holds whole responses, or one response
    that goes on in further partfiles, each named by the number of lines of the response
    that come before it. */
module Partfiles {
  import opened Text
  import opened Blocks

  datatype Key = Key(resp: int, lnum: int)

  predicate Less(a: Key, b: Key) {
    a.resp < b.resp || (a.resp == b.resp && a.lnum < b.lnum)
  }

  /** The partfiles of one item, each as its lines. */
  type Disk = map<Key, seq<Text>>

  /** Responses are blocks: a header line, then the lines of the text. */
  datatype Page = Page(resps: seq<Block>, more: seq<seq<Text>>)

  predicate IsHeader(l: Text) {
    l != [] && l[0] == HASH
  }

  ghost predicate Headed(bs: seq<Block>) {
    forall k :: 0 <= k < |bs| ==> IsHeader(bs[k].name)
  }

  ghost predicate PiecesOk(more: seq<seq<Text>>, limit: int) {
    forall k :: 0 <= k < |more| ==> 1 <= |more[k]| <= limit
  }

  ghost predicate PageOk(p: Page, limit: int) {
    && p.resps != [] && Headed(p.resps)
    && |FileOf(p.resps)| <= limit
    && PiecesOk(p.more, limit)
    && (p.more != [] ==> |p.resps| == 1)
  }

  ghost predicate PagesOk(pages: seq<Page>, limit: int) {
    forall k :: 0 <= k < |pages| ==> PageOk(pages[k], limit)
  }

  function MoreDisk(resp: int, lnum: int, more: seq<seq<Text>>): Disk
    decreases |more|
  {
    if more == [] then map[]
    else map[Key(resp, lnum) := Indent(more[0])] + MoreDisk(resp, lnum + |more[0]|, more[1..])
  }

  function PageDisk(first: int, p: Page): Disk {
    map[Key(first, 0) := FileOf(p.resps)] + MoreDisk(first, |FileOf(p.resps)|, p.more)
  }

  /** The partfiles of pages whose first response has number `first`. */
  function LayoutDisk(first: int, pages: seq<Page>): Disk
    decreases |pages|
  {
    if pages == [] then map[]
    else PageDisk(first, pages[0]) + LayoutDisk(first + |pages[0].resps|, pages[1..])
  }

  function Flat(more: seq<seq<Text>>): seq<Text> {
    if more == [] then [] else more[0] + Flat(more[1..])
  }

  function PageContent(p: Page): seq<Block> {
    if p.more == [] || p.resps == [] then p.resps
    else [Block(p.resps[0].name, p.resps[0].vals + Flat(p.more))]
  }

  /** The responses that the pages hold. */
  function Content(pages: seq<Page>): seq<Block> {
    if pages == [] then [] else PageContent(pages[0]) + Content(pages[1..])
  }

  function Count(pages: seq<Page>): nat {
    if pages == [] then 0 else |pages[0].resps| + Count(pages[1..])
  }

  // ------------------------------------------------ pages one after another

  lemma {:induction false} CountConcat(a: seq<Page>, b: seq<Page>)
    ensures Count(a + b) == Count(a) + Count(b)
  {
    if a == [] {
      assert a + b == b;
    } else {
      assert (a + b)[1..] == a[1..] + b;
      CountConcat(a[1..], b);
    }
  }

  lemma {:induction false} ContentConcat(a: seq<Page>, b: seq<Page>)
    ensures Content(a + b) == Content(a) + Content(b)
  {
    if a == [] {
      assert a + b == b;
    } else {
      assert (a + b)[1..] == a[1..] + b;
      ContentConcat(a[1..], b);
    }
  }

  lemma {:induction false} LayoutConcat(first: int, a: seq<Page>, b: seq<Page>)
    ensures LayoutDisk(first, a + b) == LayoutDisk(first, a) + LayoutDisk(first + Count(a), b)
    decreases |a|
  {
    hide PageDisk;
    if a == [] {
      assert a + b == b;
    } else {
      assert (a + b)[1..] == a[1..] + b;
      var next := first + |a[0].resps|;
      LayoutConcat(next, a[1..], b);
      MergeAssociates(PageDisk(first, a[0]), LayoutDisk(next, a[1..]), LayoutDisk(first + Count(a), b));
    }
  }

  lemma MergeAssociates(a: Disk, b: Disk, c: Disk)
    ensures a + (b + c) == (a + b) + c
  {
  }

  lemma {:induction false} ContentSize(pages: seq<Page>, limit: int)
    requires PagesOk(pages, limit)
    ensures |Content(pages)| == Count(pages)
  {
    if pages != [] { ContentSize(pages[1..], limit); }
  }

  lemma {:induction false} FlatConcat(a: seq<seq<Text>>, b: seq<seq<Text>>)
    ensures Flat(a + b) == Flat(a) + Flat(b)
  {
    if a == [] {
      assert a + b == b;
    } else {
      assert (a + b)[1..] == a[1..] + b;
      FlatConcat(a[1..], b);
    }
  }

  // ------------------------------------------------ the names of the partfiles

  lemma {:induction false} MoreKeys(resp: int, lnum: int, more: seq<seq<Text>>)
    ensures forall k :: k in MoreDisk(resp, lnum, more) ==> k.resp == resp && k.lnum >= lnum
    decreases |more|
  {
    if more != [] { MoreKeys(resp, lnum + |more[0]|, more[1..]); }
  }

  lemma PageKeys(first: int, p: Page)
    ensures forall k :: k in PageDisk(first, p) ==> k.resp == first && k.lnum >= 0
    ensures Key(first, 0) in PageDisk(first, p)
  {
    hide FileOf, MoreDisk;
    MoreKeys(first, |FileOf(p.resps)|, p.more);
  }

  lemma LayoutStep(first: int, pages: seq<Page>)
    ensures LayoutDisk(first, pages) ==
            if pages == [] then map[]
            else PageDisk(first, pages[0]) + LayoutDisk(first + |pages[0].resps|, pages[1..])
  {
  }

  lemma {:induction false} LayoutKeys(first: int, pages: seq<Page>, limit: int)
    requires PagesOk(pages, limit)
    ensures forall k :: k in LayoutDisk(first, pages) ==>
                          first <= k.resp < first + Count(pages) && k.lnum >= 0
    decreases |pages|
  {
    hide LayoutDisk, PageDisk, FileOf;
    LayoutStep(first, pages);
    if pages != [] {
      PageKeys(first, pages[0]);
      LayoutKeys(first + |pages[0].resps|, pages[1..], limit);
    }
  }

  /** In a layout every continuation has the partfile where its response begins. */
  lemma {:induction false} ContinuationHasStart(first: int, pages: seq<Page>, limit: int, k: Key)
    requires PagesOk(pages, limit) && k in LayoutDisk(first, pages)
    ensures Key(k.resp, 0) in LayoutDisk(first, pages)
    decreases |pages|
  {
    hide LayoutDisk, PageDisk, FileOf;
    LayoutStep(first, pages);
    PageKeys(first, pages[0]);
    if k !in PageDisk(first, pages[0]) {
      ContinuationHasStart(first + |pages[0].resps|, pages[1..], limit, k);
    }
  }

  // ------------------------------------------------ reading an item

  ghost predicate Sorted(dir: seq<Key>) {
    forall i, j :: 0 <= i < j < |dir| ==> Less(dir[i], dir[j])
  }

  /** `dir` lists the partfiles of `disk` in order. */
  ghost predicate Lists(dir: seq<Key>, disk: Disk) {
    Sorted(dir) && (forall k :: k in dir <==> k in disk)
  }

  /** The lines of the partfiles, one partfile after another. */
  function ReadAll(disk: Disk, dir: seq<Key>): seq<Text>
    requires forall k :: k in dir ==> k in disk
  {
    if dir == [] then [] else disk[dir[0]] + ReadAll(disk, dir[1..])
  }

  lemma {:induction false} ReadAllIn(a: Disk, b: Disk, dir: seq<Key>)
    requires forall k :: k in dir ==> k in a && k in b && a[k] == b[k]
    ensures ReadAll(a, dir) == ReadAll(b, dir)
    decreases |dir|
  {
    if dir != [] {
      assert dir[0] in dir;
      ReadAllIn(a, b, dir[1..]);
    }
  }

  /** There is one way to list a directory in order. */
  lemma {:induction false} ListingUnique(a: seq<Key>, b: seq<Key>)
    requires Sorted(a) && Sorted(b) && (forall k :: k in a <==> k in b)
    ensures a == b
    decreases |a|
  {
    assert (a != [] ==> a[0] in a) && (b != [] ==> b[0] in b);
    if a != [] {
      FirstIsLeast(a, b[0]);
      FirstIsLeast(b, a[0]);
      forall k ensures k in a[1..] <==> k in b[1..] {
        InTail(a, k);
        InTail(b, k);
      }
      ListingUnique(a[1..], b[1..]);
    }
  }

  lemma FirstIsLeast(a: seq<Key>, k: Key)
    requires Sorted(a) && k in a
    ensures a[0] == k || Less(a[0], k)
  {
    var i :| 0 <= i < |a| && a[i] == k;
  }

  lemma InTail(a: seq<Key>, k: Key)
    requires a != [] && Sorted(a)
    ensures k in a[1..] <==> k in a && k != a[0]
  {
    if k in a[1..] {
      var i :| 0 <= i < |a[1..]| && a[1..][i] == k;
      assert Less(a[0], a[i + 1]);
    }
    assert a == [a[0]] + a[1..];
  }

  function MoreDir(resp: int, lnum: int, more: seq<seq<Text>>): seq<Key>
    decreases |more|
  {
    if more == [] then [] else [Key(resp, lnum)] + MoreDir(resp, lnum + |more[0]|, more[1..])
  }

  function PageDir(first: int, p: Page): seq<Key> {
    [Key(first, 0)] + MoreDir(first, |FileOf(p.resps)|, p.more)
  }

  lemma SortedConcat(a: seq<Key>, b: seq<Key>)
    requires Sorted(a) && Sorted(b)
    requires forall x, y :: x in a && y in b ==> Less(x, y)
    ensures Sorted(a + b)
  {
    forall i, j | 0 <= i < j < |a + b| ensures Less((a + b)[i], (a + b)[j]) {
      if i < |a| <= j { assert a[i] in a && b[j - |a|] in b; }
    }
  }

  lemma {:induction false} ReadAllConcat(disk: Disk, a: seq<Key>, b: seq<Key>)
    requires forall k :: k in a + b ==> k in disk
    requires (forall k :: k in a ==> k in disk) && (forall k :: k in b ==> k in disk)
    ensures ReadAll(disk, a + b) == ReadAll(disk, a) + ReadAll(disk, b)
    decreases |a|
  {
    if a == [] {
      assert a + b == b;
    } else {
      assert (a + b)[1..] == a[1..] + b;
      ReadAllConcat(disk, a[1..], b);
    }
  }

  /** A partfile before all the others. */
  lemma ReadFirst(key: Key, text: seq<Text>, disk: Disk, dir: seq<Key>)
    requires Lists(dir, disk) && (forall k :: k in disk ==> Less(key, k))
    ensures Lists([key] + dir, map[key := text] + disk)
    ensures ReadAll(map[key := text] + disk, [key] + dir) == text + ReadAll(disk, dir)
  {
    SortedConcat([key], dir);
    var all := map[key := text] + disk;
    assert key !in disk && all[key] == text;
    assert forall k :: k in [key] + dir <==> k == key || k in dir;
    ReadAllIn(all, disk, dir);
    assert ([key] + dir)[1..] == dir;
  }

  /** Two sets of partfiles, the names of one before those of the other. */
  lemma ReadsJoin(a: Disk, da: seq<Key>, b: Disk, db: seq<Key>)
    requires Lists(da, a) && Lists(db, b) && (forall x, y :: x in a && y in b ==> Less(x, y))
    ensures Lists(da + db, a + b)
    ensures ReadAll(a + b, da + db) == ReadAll(a, da) + ReadAll(b, db)
  {
    forall x | x in a ensures x !in b {
      assert !Less(x, x);
    }
    SortedConcat(da, db);
    assert forall k :: k in da + db <==> k in da || k in db;
    ReadAllConcat(a + b, da, db);
    ReadAllIn(a + b, a, da);
    ReadAllIn(a + b, b, db);
  }

  lemma {:induction false} MoreReads(resp: int, lnum: int, more: seq<seq<Text>>, limit: int)
    requires PiecesOk(more, limit)
    ensures Lists(MoreDir(resp, lnum, more), MoreDisk(resp, lnum, more))
    ensures ReadAll(MoreDisk(resp, lnum, more), MoreDir(resp, lnum, more)) == Indent(Flat(more))
    decreases |more|
  {
    hide Indent, FileOf, Lists;
    if more == [] {
      NothingToRead();
    } else {
      var rest := lnum + |more[0]|;
      MoreReads(resp, rest, more[1..], limit);
      MoreKeys(resp, rest, more[1..]);
      ReadFirst(Key(resp, lnum), Indent(more[0]), MoreDisk(resp, rest, more[1..]), MoreDir(resp, rest, more[1..]));
      IndentConcat(more[0], Flat(more[1..]));
    }
  }

  lemma PageReads(first: int, p: Page, limit: int)
    requires PageOk(p, limit)
    ensures Lists(PageDir(first, p), PageDisk(first, p))
    ensures ReadAll(PageDisk(first, p), PageDir(first, p)) == FileOf(PageContent(p))
  {
    hide FileOf, Indent, MoreDisk, MoreDir, PageContent;
    var size := |FileOf(p.resps)|;
    FileNotEmpty(p.resps);
    MoreReads(first, size, p.more, limit);
    MoreKeys(first, size, p.more);
    ReadFirst(Key(first, 0), FileOf(p.resps), MoreDisk(first, size, p.more), MoreDir(first, size, p.more));
    PageIsBlocks(p, limit);
  }

  lemma PageIsBlocks(p: Page, limit: int)
    requires PageOk(p, limit)
    ensures FileOf(p.resps) + Indent(Flat(p.more)) == FileOf(PageContent(p))
  {
    hide FileOf;
    if p.more != [] {
      var b := p.resps[0];
      assert p.resps == [b];
      FileOfOne(b);
      FileOfOne(Block(b.name, b.vals + Flat(p.more)));
      IndentConcat(b.vals, Flat(p.more));
    }
  }

  lemma FileNotEmpty(bs: seq<Block>)
    requires bs != []
    ensures |FileOf(bs)| >= 1
  {
  }

  lemma {:induction false} LayoutReads(first: int, pages: seq<Page>, limit: int) returns (dir: seq<Key>)
    requires PagesOk(pages, limit)
    ensures Lists(dir, LayoutDisk(first, pages))
    ensures ReadAll(LayoutDisk(first, pages), dir) == FileOf(Content(pages))
    decreases |pages|
  {
    hide FileOf, PageDisk, PageContent, PageDir, ReadAll, Less, Lists;
    if pages == [] {
      dir := [];
      NothingToRead();
    } else {
      var p, next := pages[0], first + |pages[0].resps|;
      var rest := LayoutReads(next, pages[1..], limit);
      PageReads(first, p, limit);
      dir := PageDir(first, p) + rest;
      PageBefore(first, p, pages[1..], limit);
      ReadsJoin(PageDisk(first, p), PageDir(first, p), LayoutDisk(next, pages[1..]), rest);
      FileOfConcat(PageContent(p), Content(pages[1..]));
    }
  }

  lemma NothingToRead()
    ensures Lists([], map[]) && ReadAll(map[], []) == [] == FileOf([]) == Indent([])
  {
  }

  lemma PageBefore(first: int, p: Page, pages: seq<Page>, limit: int)
    requires PageOk(p, limit) && PagesOk(pages, limit)
    ensures forall x, y :: x in PageDisk(first, p) && y in LayoutDisk(first + |p.resps|, pages) ==> Less(x, y)
  {
    MoreKeys(first, |FileOf(p.resps)|, p.more);
    LayoutKeys(first + |p.resps|, pages, limit);
  }

  /** Reading the partfiles in the order of their names gives every response in turn: its
      header as it is, every other line behind one blank. */
  lemma ReadsBack(first: int, pages: seq<Page>, limit: int, dir: seq<Key>)
    requires PagesOk(pages, limit) && Lists(dir, LayoutDisk(first, pages))
    ensures ReadAll(LayoutDisk(first, pages), dir) == FileOf(Content(pages))
  {
    var known := LayoutReads(first, pages, limit);
    ListingUnique(dir, known);
  }

  lemma {:induction false} ContentHeaded(pages: seq<Page>, limit: int)
    requires PagesOk(pages, limit)
    ensures Headed(Content(pages))
  {
    if pages != [] { ContentHeaded(pages[1..], limit); }
  }

  /** So the partfiles determine the responses. */
  lemma ContentUnique(f: int, a: seq<Page>, g: int, b: seq<Page>, limit: int)
    requires PagesOk(a, limit) && PagesOk(b, limit) && LayoutDisk(f, a) == LayoutDisk(g, b)
    ensures Content(a) == Content(b)
  {
    hide LayoutDisk, Content, ReadAll;
    var dir := LayoutReads(f, a, limit);
    ReadsBack(g, b, limit, dir);
    ContentHeaded(a, limit);
    ContentHeaded(b, limit);
    FileOfInjective(Content(a), Content(b));
  }
}
