/** Updating one response of an item: the whole set of partfiles before and after.

    Responses are counted from the first one of the item; `base` is the number of that
    response (0 for the responses of an item, where 0 is the item text itself). */
module ItemUpdates {
  import opened Text
  import opened Blocks
  import opened Partfiles
  import opened Repaging

  /** The page that response `n` is in or joins; |pages| when it begins a page. */
  function Where(pages: seq<Page>, n: int): (j: nat)
    ensures j <= |pages|
  {
    if pages == [] then 0
    else if n < |pages[0].resps| || (|pages| == 1 && pages[0].more == []) then 0
    else 1 + Where(pages[1..], n - |pages[0].resps|)
  }

  function RespsAt(pages: seq<Page>, j: nat): seq<Block> {
    if j < |pages| then pages[j].resps else []
  }

  function After(pages: seq<Page>, j: nat): seq<Page> {
    if j < |pages| then pages[j + 1..] else []
  }

  /** The place of response `n` on its page. */
  function Within(pages: seq<Page>, n: int): int {
    n - Count(pages[..Where(pages, n)])
  }

  lemma {:induction false} WhereIs(pages: seq<Page>, n: int, limit: int)
    requires PagesOk(pages, limit) && 0 <= n <= Count(pages)
    ensures var j, r := Where(pages, n), Within(pages, n);
            && 0 <= r <= |RespsAt(pages, j)|
            && (j < |pages| && r == |RespsAt(pages, j)| ==> j == |pages| - 1 && pages[j].more == [])
            && (j == |pages| > 0 ==> pages[j - 1].more != [])
            && (j == |pages| ==> n == Count(pages))
    decreases |pages|
  {
    var j := Where(pages, n);
    if j > 0 {
      WhereIs(pages[1..], n - |pages[0].resps|, limit);
      assert pages[..j][1..] == pages[1..][..j - 1];
      assert pages[..j][0] == pages[0];
    }
  }

  /** The pages cut at the one where response `n` is or goes. */
  lemma Cut(pages: seq<Page>, j: nat)
    requires j <= |pages|
    ensures j < |pages| ==> pages == pages[..j] + ([pages[j]] + After(pages, j))
    ensures j == |pages| ==> pages == pages[..j]
  {
  }

  predicate Misplaced(pages: seq<Page>, n: int, b: Block, need: nat, most: int)
    requires 0 <= Within(pages, n) <= |RespsAt(pages, Where(pages, n))|
  {
    Misfit(RespsAt(pages, Where(pages, n)), Within(pages, n), b, need, most)
  }

  function Updated(pages: seq<Page>, n: int, b: Block, need: nat, most: int): seq<Page>
    requires 0 <= Within(pages, n) <= |RespsAt(pages, Where(pages, n))| && most > 5
  {
    var j := Where(pages, n);
    pages[..j] + (Repaged(RespsAt(pages, j), Within(pages, n), b, need, most) + After(pages, j))
  }

  function NumberAt(base: int, pages: seq<Page>, j: nat): int
    requires j <= |pages|
  {
    base + Count(pages[..j])
  }

  /** The partfiles after the update: those of the pages before and after are untouched. */
  function DiskAfter(base: int, pages: seq<Page>, n: int, b: Block, need: nat, most: int): Disk
    requires 0 <= Within(pages, n) <= |RespsAt(pages, Where(pages, n))| && most > 5 && need <= |b.vals|
  {
    var j := Where(pages, n);
    var bs := RespsAt(pages, j);
    LayoutDisk(base, pages[..j])
    + (Writes(NumberAt(base, pages, j), bs, Within(pages, n), b, need, most)
       + LayoutDisk(NumberAt(base, pages, j) + |bs|, After(pages, j)))
  }

  // ------------------------------------------------ the update does what it is for

  lemma {:induction false} PagesOkParts(pages: seq<Page>, j: nat, limit: int)
    requires PagesOk(pages, limit) && j <= |pages|
    ensures PagesOk(pages[..j], limit) && PagesOk(After(pages, j), limit)
    ensures Headed(RespsAt(pages, j)) && (limit >= 0 ==> |FileOf(RespsAt(pages, j))| <= limit)
    ensures j < |pages| ==> RespsAt(pages, j) != []
  {
  }

  lemma {:induction false} PagesOkConcat(a: seq<Page>, b: seq<Page>, limit: int)
    requires PagesOk(a, limit) && PagesOk(b, limit)
    ensures PagesOk(a + b, limit)
  {
  }

  /** The page of a response holds its text: it and the pages around it. */
  lemma ContentAround(pages: seq<Page>, n: int, limit: int)
    requires PagesOk(pages, limit) && 0 <= n <= Count(pages)
    ensures var j := Where(pages, n);
            var here := if j < |pages| then PageContent(pages[j]) else [];
            && Content(pages) == Content(pages[..j]) + (here + Content(After(pages, j)))
            && |here| == |RespsAt(pages, j)| && |Content(pages[..j])| == Count(pages[..j])
  {
    hide PageContent;
    var j := Where(pages, n);
    PagesOkParts(pages, j, limit);
    ContentSize(pages[..j], limit);
    Cut(pages, j);
    if j < |pages| {
      ContentConcat(pages[..j], [pages[j]] + After(pages, j));
      ContentConcat([pages[j]], After(pages, j));
      SinglePage(0, pages[j]);
      PageContentSize(pages[j], limit);
    }
  }

  lemma PageContentSize(p: Page, limit: int)
    requires PageOk(p, limit)
    ensures |PageContent(p)| == |p.resps|
    ensures p.more == [] ==> PageContent(p) == p.resps
  {
  }

  lemma ReplacedInside(a: seq<Block>, m: seq<Block>, c: seq<Block>, r: nat, b: Block)
    requires r <= |m| && (r == |m| ==> c == [])
    ensures Replaced(a + (m + c), |a| + r, b) == a + (Replaced(m, r, b) + c)
  {
  }

  /** The item after the update holds the same responses with `b` put in place `n`, or added
      at the end; every partfile is within bounds. */
  lemma UpdatedContent(pages: seq<Page>, n: int, b: Block, need: nat, most: int)
    requires PagesOk(pages, most - 5) && 0 <= n <= Count(pages) && Sized(b, need) && most > 6
    requires 0 <= Within(pages, n) <= |RespsAt(pages, Where(pages, n))|
    requires !Misplaced(pages, n, b, need, most)
    ensures PagesOk(Updated(pages, n, b, need, most), most - 5)
    ensures |Content(pages)| == Count(pages)
    ensures Content(Updated(pages, n, b, need, most)) == Replaced(Content(pages), n, b)
  {
    hide Repaged, Misfit, Content, FileOf, Where, Count, PageContent, Replaced, PagesOk, After;
    var j, r := Where(pages, n), Within(pages, n);
    var bs := RespsAt(pages, j);
    var mid := Repaged(bs, r, b, need, most);
    WhereIs(pages, n, most - 5);
    ContentSize(pages, most - 5);
    PagesOkParts(pages, j, most - 5);
    RepagedOk(bs, r, b, need, most);
    PagesOkConcat(mid, After(pages, j), most - 5);
    PagesOkConcat(pages[..j], mid + After(pages, j), most - 5);
    ContentConcat(mid, After(pages, j));
    ContentConcat(pages[..j], mid + After(pages, j));
    ContentAround(pages, n, most - 5);
    var here := if j < |pages| then PageContent(pages[j]) else [];
    ReplacedHere(pages, n, b, most - 5);
    LastHasNothingAfter(pages, j);
    ReplacedInside(Content(pages[..j]), here, Content(After(pages, j)), r, b);
  }

  lemma LastHasNothingAfter(pages: seq<Page>, j: nat)
    requires j <= |pages|
    ensures j >= |pages| - 1 ==> Content(After(pages, j)) == []
  {
  }

  lemma ReplacedHere(pages: seq<Page>, n: int, b: Block, limit: int)
    requires PagesOk(pages, limit) && 0 <= n <= Count(pages)
    ensures var j, r := Where(pages, n), Within(pages, n);
            var here := if j < |pages| then PageContent(pages[j]) else [];
            && 0 <= r <= |here| == |RespsAt(pages, j)|
            && Replaced(here, r, b) == Replaced(RespsAt(pages, j), r, b)
  {
    hide Where, Count, PageContent, FileOf;
    WhereIs(pages, n, limit);
    var j := Where(pages, n);
    if j < |pages| { PageContentSize(pages[j], limit); }
  }

  /** The partfiles after the update are those of the updated pages. */
  lemma UpdatedDisk(base: int, pages: seq<Page>, n: int, b: Block, need: nat, most: int)
    requires PagesOk(pages, most - 5) && 0 <= n <= Count(pages) && Sized(b, need) && most > 6
    requires 0 <= Within(pages, n) <= |RespsAt(pages, Where(pages, n))|
    requires !Misplaced(pages, n, b, need, most)
    ensures DiskAfter(base, pages, n, b, need, most) == LayoutDisk(base, Updated(pages, n, b, need, most))
  {
    hide Repaged, Misfit, FileOf, Where, Count, Writes, LayoutDisk, PagesOk, After;
    var j, r := Where(pages, n), Within(pages, n);
    var bs := RespsAt(pages, j);
    var mid := Repaged(bs, r, b, need, most);
    WritesArePages(NumberAt(base, pages, j), bs, r, b, need, most);
    LayoutConcat(base, pages[..j], mid + After(pages, j));
    LayoutConcat(NumberAt(base, pages, j), mid, After(pages, j));
    RepagedCount(pages, n, b, need, most);
    if After(pages, j) == [] { NoPages(); }
  }

  lemma NoPages()
    ensures forall f :: LayoutDisk(f, []) == map[]
  {
  }

  /** The responses on the pages behind keep their numbers. */
  lemma RepagedCount(pages: seq<Page>, n: int, b: Block, need: nat, most: int)
    requires PagesOk(pages, most - 5) && 0 <= n <= Count(pages) && Sized(b, need) && most > 6
    requires 0 <= Within(pages, n) <= |RespsAt(pages, Where(pages, n))|
    requires !Misplaced(pages, n, b, need, most)
    ensures var j := Where(pages, n);
            var bs := RespsAt(pages, j);
            Count(Repaged(bs, Within(pages, n), b, need, most)) == |bs| || After(pages, j) == []
  {
    hide Repaged, Misfit, FileOf, Where, Count, PagesOk;
    var j, r := Where(pages, n), Within(pages, n);
    var bs := RespsAt(pages, j);
    WhereIs(pages, n, most - 5);
    PagesOkParts(pages, j, most - 5);
    RepagedOk(bs, r, b, need, most);
    ContentSize(Repaged(bs, r, b, need, most), most - 5);
  }

  // ------------------------------------------------ exactly when it does

  ghost predicate IsLayout(disk: Disk, limit: int) {
    exists first, pages :: PagesOk(pages, limit) && disk == LayoutDisk(first, pages)
  }

  /** Lines of a misjudged response that go to a continuation, while its header is inside
      the partfile of an earlier response. */
  function TornAt(bs: seq<Block>, r: nat, b: Block, need: nat, most: int): int
    requires r <= |bs| && need <= |b.vals|
  {
    1 + Held(Start(bs, r), b, need, most - 5)
  }

  lemma TornWrites(first: int, bs: seq<Block>, r: nat, b: Block, need: nat, most: int)
    requires |FileOf(bs)| <= most - 5 && r <= |bs| && Sized(b, need) && most > 6
    requires Misfit(bs, r, b, need, most)
    ensures Key(first + r, TornAt(bs, r, b, need, most)) in Writes(first, bs, r, b, need, most)
    ensures Key(first + r, 0) !in Writes(first, bs, r, b, need, most)
    ensures Key(first, 0) in Writes(first, bs, r, b, need, most)
  {
    hide FileOf;
    MisfitNeeds(bs, r, b, need, most);
    var at := TornAt(bs, r, b, need, most) - 1;
    assert b.vals[at..] != [];
    MoreKeys(first + r, 1 + at, Chunks(b.vals[at..], most - 5));
    TailKeys(first, bs, r);
  }

  lemma TornDisk(base: int, pages: seq<Page>, n: int, b: Block, need: nat, most: int)
    requires PagesOk(pages, most - 5) && 0 <= n <= Count(pages) && Sized(b, need) && most > 6
    requires 0 <= Within(pages, n) <= |RespsAt(pages, Where(pages, n))|
    requires Misplaced(pages, n, b, need, most)
    ensures var lnum := TornAt(RespsAt(pages, Where(pages, n)), Within(pages, n), b, need, most);
            && lnum > 0
            && Key(base + n, lnum) in DiskAfter(base, pages, n, b, need, most)
            && Key(base + n, 0) !in DiskAfter(base, pages, n, b, need, most)
            && NumberAt(base, pages, Where(pages, n)) < base + n
            && Key(NumberAt(base, pages, Where(pages, n)), 0) in DiskAfter(base, pages, n, b, need, most)
  {
    hide FileOf, Misfit, Where, Count, Writes, LayoutDisk, PagesOk, Held;
    var j, r := Where(pages, n), Within(pages, n);
    var bs := RespsAt(pages, j);
    PagesOkParts(pages, j, most - 5);
    MisfitNeeds(bs, r, b, need, most);
    TornWrites(NumberAt(base, pages, j), bs, r, b, need, most);
    LayoutKeys(base, pages[..j], most - 5);
    LayoutKeys(NumberAt(base, pages, j) + |bs|, After(pages, j), most - 5);
  }

  /** The partfiles make up a layout again if and only if the response was not misjudged. */
  lemma LayoutIff(base: int, pages: seq<Page>, n: int, b: Block, need: nat, most: int)
    requires PagesOk(pages, most - 5) && 0 <= n <= Count(pages) && Sized(b, need) && most > 6
    requires 0 <= Within(pages, n) <= |RespsAt(pages, Where(pages, n))|
    ensures IsLayout(DiskAfter(base, pages, n, b, need, most), most - 5) <==> !Misplaced(pages, n, b, need, most)
  {
    hide Misplaced, LayoutDisk, DiskAfter, Where, Count, PagesOk, Updated;
    var disk := DiskAfter(base, pages, n, b, need, most);
    if Misplaced(pages, n, b, need, most) {
      TornDisk(base, pages, n, b, need, most);
      forall first, ps | PagesOk(ps, most - 5) ensures disk != LayoutDisk(first, ps) {
        StartsPresent(first, ps, most - 5);
      }
    } else {
      UpdatedDisk(base, pages, n, b, need, most);
      UpdatedContent(pages, n, b, need, most);
    }
  }

  lemma StartsPresent(first: int, pages: seq<Page>, limit: int)
    requires PagesOk(pages, limit)
    ensures forall k :: k in LayoutDisk(first, pages) ==> Key(k.resp, 0) in LayoutDisk(first, pages)
  {
    forall k | k in LayoutDisk(first, pages) ensures Key(k.resp, 0) in LayoutDisk(first, pages) {
      ContinuationHasStart(first, pages, limit, k);
    }
  }

  /** A new response, and one that is first in its partfile, is never misjudged. */
  lemma NewOrFirstIsPlaced(pages: seq<Page>, n: int, b: Block, need: nat, most: int)
    requires PagesOk(pages, most - 5) && 0 <= n <= Count(pages) && Sized(b, need) && most > 6
    requires n == Count(pages) || Within(pages, n) == 0
    ensures 0 <= Within(pages, n) <= |RespsAt(pages, Where(pages, n))|
    ensures !Misplaced(pages, n, b, need, most)
  {
    hide FileOf, Misfit, Where, Count, PagesOk;
    var j, r := Where(pages, n), Within(pages, n);
    WhereIs(pages, n, most - 5);
    PagesOkParts(pages, j, most - 5);
    if Misplaced(pages, n, b, need, most) {
      MisfitNeeds(RespsAt(pages, j), r, b, need, most);
      CountTo(pages, j);
      assert false;
    }
  }

  lemma CountTo(pages: seq<Page>, j: nat)
    requires j < |pages|
    ensures Count(pages) >= Count(pages[..j]) + |pages[j].resps|
  {
    Cut(pages, j);
    CountConcat(pages[..j], [pages[j]] + After(pages, j));
    CountConcat([pages[j]], After(pages, j));
    SinglePage(0, pages[j]);
  }

  /** With the buffer that the programs use: a response of 101 lines, behind one of one
      line, is changed to have 301.  It is put behind the other one and cut. */
  lemma MisjudgedExample()
    ensures var was := Block([HASH], seq(100, _ => []));
            var b := Block([HASH], seq(300, _ => []));
            var pages := [Page([Block([HASH], []), was], [])];
            && PagesOk(pages, 245)
            && Count(pages) == 2 && Within(pages, 1) == 1 && Where(pages, 1) == 0
            && !IsLayout(DiskAfter(0, pages, 1, b, 300, 250), 245)
  {
    hide DiskAfter, LayoutDisk, FileOf;
    var a := Block([HASH], []);
    var was := Block([HASH], seq(100, _ => []));
    var b := Block([HASH], seq(300, _ => []));
    var p := Page([a, was], []);
    FileSize([a], was);
    BlockSize(a);
    assert [a] + [was] == [a, was] && [a, was][..1] == [a];
    SinglePage(0, p);
    assert [p][..0] == [] && Count([]) == 0;
    LayoutIff(0, [p], 1, b, 300, 250);
  }

  // ------------------------------------------------ whole runs of updates

  datatype Step = Step(n: int, b: Block, need: nat)

  ghost predicate StepOk(pages: seq<Page>, s: Step, most: int) {
    && 0 <= s.n <= Count(pages) && Sized(s.b, s.need)
    && 0 <= Within(pages, s.n) <= |RespsAt(pages, Where(pages, s.n))|
    && !Misplaced(pages, s.n, s.b, s.need, most)
  }

  ghost predicate RunOk(pages: seq<Page>, steps: seq<Step>, most: int)
    requires most > 6
    decreases |steps|
  {
    steps != [] ==>
      && StepOk(pages, steps[0], most)
      && RunOk(Updated(pages, steps[0].n, steps[0].b, steps[0].need, most), steps[1..], most)
  }

  ghost function RunPages(pages: seq<Page>, steps: seq<Step>, most: int): seq<Page>
    requires most > 6 && RunOk(pages, steps, most)
    decreases |steps|
  {
    if steps == [] then pages
    else RunPages(Updated(pages, steps[0].n, steps[0].b, steps[0].need, most), steps[1..], most)
  }

  /** The same steps on the bare list of responses. */
  function Applied(bs: seq<Block>, steps: seq<Step>): seq<Block>
    decreases |steps|
  {
    if steps == [] then bs
    else if 0 <= steps[0].n <= |bs| then Applied(Replaced(bs, steps[0].n, steps[0].b), steps[1..])
    else Applied(bs, steps[1..])
  }

  /** However many updates are made, the pages hold exactly the responses that the same updates
      give on a plain list, in partfiles within bounds.  This is about the layout alone; what
      the text buffer and the listing must have room for is a matter of its own. */
  lemma {:induction false} RunKeeps(pages: seq<Page>, steps: seq<Step>, most: int)
    requires most > 6 && PagesOk(pages, most - 5) && RunOk(pages, steps, most)
    ensures PagesOk(RunPages(pages, steps, most), most - 5)
    ensures Content(RunPages(pages, steps, most)) == Applied(Content(pages), steps)
    decreases |steps|
  {
    hide PagesOk, Content, Updated, DiskAfter, LayoutDisk, Count, Where, Within, Misplaced;
    if steps != [] {
      var s := steps[0];
      UpdatedContent(pages, s.n, s.b, s.need, most);
      RunKeeps(Updated(pages, s.n, s.b, s.need, most), steps[1..], most);
    }
  }

  ghost predicate AddsOnly(count: nat, steps: seq<Step>) {
    forall i :: 0 <= i < |steps| ==> steps[i].n == count + i && Sized(steps[i].b, steps[i].need)
  }

  /** Responses that are only ever added are all placed well in the layout. */
  lemma {:induction false} AddsRun(pages: seq<Page>, steps: seq<Step>, most: int)
    requires most > 6 && PagesOk(pages, most - 5) && AddsOnly(Count(pages), steps)
    ensures RunOk(pages, steps, most)
    decreases |steps|
  {
    hide PagesOk, Content, Updated, Count, Where, Within, Misplaced;
    if steps != [] {
      var s := steps[0];
      NewOrFirstIsPlaced(pages, s.n, s.b, s.need, most);
      UpdatedContent(pages, s.n, s.b, s.need, most);
      var next := Updated(pages, s.n, s.b, s.need, most);
      ContentSize(next, most - 5);
      AddsRun(next, steps[1..], most);
    }
  }
}
