/** Any number of updates, one after another, on the buffer and the partfiles. */
module PartRuns {
  import opened Text
  import opened Lines
  import opened Blocks
  import opened Partfiles
  import opened Repaging
  import opened ItemUpdates
  import opened TextBuffers
  import opened Directories
  import opened Responses
  import opened Capacity
  import opened PartUpdate

  datatype Edit = Edit(resp: int, c: Change)

  function StepOf(base: int, e: Edit): Step {
    Step(e.resp - base, NewBlock(e.c), Need(e.c))
  }

  function StepsOf(base: int, edits: seq<Edit>): seq<Step> {
    if edits == [] then [] else [StepOf(base, edits[0])] + StepsOf(base, edits[1..])
  }

  /** At every update a listing shows all partfiles. */
  ghost predicate RunListed(base: int, pages: seq<Page>, steps: seq<Step>, most: int)
    requires most > 6 && RunOk(pages, steps, most)
    decreases |steps|
  {
    steps != [] ==>
      && |LayoutDisk(base, pages)| <= LISTED
      && RunListed(base, Updated(pages, steps[0].n, steps[0].b, steps[0].need, most), steps[1..], most)
  }

  /** A run in which no update misjudges a response or meets the limits of the buffer or of the
      listing leaves exactly the partfiles of `RunPages`. */
  method UpdateAll(store: PartStore, t: Textbuf, edits: seq<Edit>, ghost base: int, ghost pages: seq<Page>)
    requires t.Valid() && store.disk == LayoutDisk(base, pages) && PagesOk(pages, t.lMax / 2 - 5)
    requires forall k :: 0 <= k < |edits| ==> IsHeader(edits[k].c.header)
    requires RunOk(pages, StepsOf(base, edits), t.lMax / 2)
    requires RunFits(pages, StepsOf(base, edits), t.lMax / 2, t.rStart.Length)
    requires RunListed(base, pages, StepsOf(base, edits), t.lMax / 2)
    modifies store, t, t.line, t.rStart, t.rStop
    ensures t.Valid()
    ensures store.disk == LayoutDisk(base, RunPages(pages, StepsOf(base, edits), t.lMax / 2))
    decreases |edits|
  {
    hide Changed, Updated, LayoutDisk, PagesOk, Count, Where, Within, Misplaced, NewBlock, Need, DiskAfter;
    if edits == [] { return; }
    ghost var most, steps := t.lMax / 2, StepsOf(base, edits);
    ghost var s := steps[0];
    assert steps[1..] == StepsOf(base, edits[1..]);
    var freeze := UpdatePart(store, t, edits[0].resp, edits[0].c, base, pages);
    ChangedIs(base, pages, s.n, edits[0].c, most);
    UpdatedDisk(base, pages, s.n, s.b, s.need, most);
    UpdatedContent(pages, s.n, s.b, s.need, most);
    UpdateAll(store, t, edits[1..], base, Updated(pages, s.n, s.b, s.need, most));
  }

  lemma ChangedIs(base: int, pages: seq<Page>, n: int, c: Change, most: int)
    requires PagesOk(pages, most - 5) && 0 <= n <= Count(pages) && IsHeader(c.header) && most > 6
    ensures 0 <= Within(pages, n) <= |RespsAt(pages, Where(pages, n))| && Need(c) <= |NewBlock(c).vals|
    ensures Changed(base, pages, n, c, most) == DiskAfter(base, pages, n, NewBlock(c), Need(c), most)
  {
    WhereIs(pages, n, most - 5);
    NewBlockSized(c);
  }
}
