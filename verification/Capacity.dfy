/** Two limits that `updatepart` does not check: the response slots of the text buffer, and the
    number of partfiles that a listing shows. */
module Capacity {
  import opened Text
  import opened Blocks
  import opened Partfiles
  import opened Repaging
  import opened ItemUpdates
  import opened Directories
  import opened Opening

  // ------------------------------------------------ response slots

  /** An update touches only slots that the buffer has. */
  ghost predicate StepFits(pages: seq<Page>, n: int, slots: int) {
    Within(pages, n) < slots && |RespsAt(pages, Where(pages, n))| <= slots
  }

  ghost predicate RunFits(pages: seq<Page>, steps: seq<Step>, most: int, slots: int)
    requires most > 6 && RunOk(pages, steps, most)
    decreases |steps|
  {
    steps != [] ==>
      && StepFits(pages, steps[0].n, slots)
      && RunFits(Updated(pages, steps[0].n, steps[0].b, steps[0].need, most), steps[1..], most, slots)
  }

  ghost predicate PagesSmall(pages: seq<Page>, size: int) {
    forall k :: 0 <= k < |pages| ==> |pages[k].resps| <= size
  }

  /** Every response has a header line. */
  lemma {:induction false} CountLines(bs: seq<Block>)
    ensures |bs| <= |FileOf(bs)|
  {
    if bs != [] { CountLines(bs[1..]); }
  }

  /** A page never gets more than `most - 10` responses: one more is only added when the lines
      there, at least one for each response, leave room. */
  lemma RepagedSmall(bs: seq<Block>, r: nat, b: Block, need: nat, most: int)
    requires r <= |bs| <= most - 10 && most > 11
    ensures PagesSmall(Repaged(bs, r, b, need, most), most - 10)
  {
    hide FileOf, Own;
    CountLines(bs);
    SplitSize(bs, r);
    OwnIsOne(b, most - 5);
  }

  lemma OwnIsOne(b: Block, limit: int)
    requires limit > 0
    ensures |Own(b, limit).resps| == 1
  {
  }

  lemma UpdatedSmall(pages: seq<Page>, s: Step, most: int)
    requires most > 11 && StepOk(pages, s, most) && PagesSmall(pages, most - 10)
    ensures PagesSmall(Updated(pages, s.n, s.b, s.need, most), most - 10)
  {
    hide Repaged, Where, Count, Misplaced;
    var j := Where(pages, s.n);
    RepagedSmall(RespsAt(pages, j), Within(pages, s.n), s.b, s.need, most);
  }

  lemma {:induction false} RunFitsIn(pages: seq<Page>, steps: seq<Step>, most: int, slots: int)
    requires most > 11 && RunOk(pages, steps, most) && PagesSmall(pages, most - 10) && slots >= most - 9
    ensures RunFits(pages, steps, most, slots)
    decreases |steps|
  {
    hide Updated, Where, Count, Misplaced;
    if steps != [] {
      UpdatedSmall(pages, steps[0], most);
      RunFitsIn(Updated(pages, steps[0].n, steps[0].b, steps[0].need, most), steps[1..], most, slots);
    }
  }

  /** A response of a header only, as deletion leaves it, and a page of such. */
  const EMPTY := Block([HASH], [])

  function Empties(k: nat): (bs: seq<Block>)
    ensures |bs| == k
  {
    if k == 0 then [] else Empties(k - 1) + [EMPTY]
  }

  lemma {:induction false} EmptiesSize(k: nat)
    ensures |FileOf(Empties(k))| == k
  {
    if k > 0 {
      FileSize(Empties(k - 1), EMPTY);
      EmptiesSize(k - 1);
    }
  }

  function AddEmpties(n: nat, m: nat): (steps: seq<Step>)
    ensures |steps| == m && forall i :: 0 <= i < m ==> steps[i] == Step(n + i, EMPTY, 0)
    decreases m
  {
    if m == 0 then [] else [Step(n, EMPTY, 0)] + AddEmpties(n + 1, m - 1)
  }

  lemma OneMoreEmpty(k: nat, most: int)
    requires 1 <= k < most - 10
    ensures var pages := [Page(Empties(k), [])];
            && Where(pages, k) == 0 && Within(pages, k) == k
            && Updated(pages, k, EMPTY, 0, most) == [Page(Empties(k + 1), [])]
  {
    hide FileOf;
    var pages := [Page(Empties(k), [])];
    EmptiesSize(k);
    assert pages[..0] == [] && Count([]) == 0;
    assert Empties(k)[..k] == Empties(k) && Empties(k) + [EMPTY] == Empties(k + 1);
    assert After(pages, 0) == [] && TailPages(Empties(k), k) == [];
  }

  /** Adding `m` empty responses to a page of `k` needs `k + m` slots. */
  lemma {:induction false} EmptiesNeed(k: nat, m: nat, most: int, slots: int)
    requires most > 11 && 1 <= k && k + m <= most - 9 && m >= 1
    requires RunOk([Page(Empties(k), [])], AddEmpties(k, m), most)
    requires RunFits([Page(Empties(k), [])], AddEmpties(k, m), most, slots)
    ensures slots >= k + m
    decreases m
  {
    hide FileOf, Updated, Where, Within, Misplaced, Count;
    var pages, steps := [Page(Empties(k), [])], AddEmpties(k, m);
    WhereEmpties(k);
    if m > 1 {
      OneMoreEmpty(k, most);
      assert steps[1..] == AddEmpties(k + 1, m - 1);
      EmptiesNeed(k + 1, m - 1, most, slots);
    }
  }

  lemma WhereEmpties(k: nat)
    requires k >= 1
    ensures Within([Page(Empties(k), [])], k) == k
  {
    var pages := [Page(Empties(k), [])];
    assert pages[..0] == [] && Count([]) == 0;
  }

  lemma FirstEmpty(most: int)
    requires most > 11
    ensures Updated([], 0, EMPTY, 0, most) == [Page(Empties(1), [])]
  {
    hide FileOf;
    var none: seq<Page> := [];
    assert Where(none, 0) == 0 && none[..0] == none && Count(none) == 0;
    assert EMPTY.vals[..0] == [] && EMPTY.vals[0..] == [];
    assert Own(EMPTY, most - 5) == Page([EMPTY], []);
    assert Empties(1) == [EMPTY];
  }

  /** Every run of updates of a new item stays within the slots of the buffer if and only if
      there are at least `most - 9` of them. */
  lemma SlotsIff(most: int, slots: int)
    requires most > 11
    ensures (forall steps :: RunOk([], steps, most) ==> RunFits([], steps, most, slots)) <==> slots >= most - 9
  {
    hide RunOk, RunFits;
    if slots >= most - 9 {
      forall steps | RunOk([], steps, most) ensures RunFits([], steps, most, slots) {
        RunFitsIn([], steps, most, slots);
      }
    } else {
      var steps := TooMany(most, slots);
    }
  }

  /** Adding responses of a header only until they do not fit. */
  lemma TooMany(most: int, slots: int) returns (steps: seq<Step>)
    requires most > 11 && slots < most - 9
    ensures AddsOnly(0, steps) && |steps| == most - 9
    ensures RunOk([], steps, most) && !RunFits([], steps, most, slots)
  {
    hide Updated, Where, Misplaced, Count, StepOk, StepFits;
    steps := AddEmpties(0, most - 9);
    assert Sized(EMPTY, 0);
    CountNone();
    AddsRun([], steps, most);
    FirstEmpty(most);
    assert steps[1..] == AddEmpties(1, most - 10);
    if RunFits([], steps, most, slots) {
      EmptiesNeed(1, most - 10, most, slots);
    }
  }

  /** The buffers of the programs have 500 lines and 200 responses, which is 201 slots: a run of
      nothing but additions leaves them. */
  lemma SlotsOverflow() returns (steps: seq<Step>)
    ensures AddsOnly(0, steps) && RunOk([], steps, 500 / 2) && !RunFits([], steps, 500 / 2, 200 + 1)
  {
    steps := TooMany(250, 201);
  }

  // ------------------------------------------------ listed partfiles

  /** A page of one response that leaves no room for another like it. */
  const BIG := Block([HASH], Empty200())

  function Empty200(): seq<Text> {
    seq(200, _ => [])
  }

  function Crowd(n: nat): seq<Page> {
    if n == 0 then [] else [Page([BIG], [])] + Crowd(n - 1)
  }

  lemma {:induction false} CrowdKeys(first: int, n: nat)
    ensures |LayoutDisk(first, Crowd(n))| == n
    ensures forall k :: k in LayoutDisk(first, Crowd(n)) <==> first <= k.resp < first + n && k.lnum == 0
    decreases n
  {
    hide FileOf, LayoutDisk, Crowd;
    CrowdStep(n);
    if n == 0 {
      EmptyLayout(first, []);
    } else {
      CrowdKeys(first + 1, n - 1);
      var rest, text := LayoutDisk(first + 1, Crowd(n - 1)), FileOf([BIG]);
      OneFirst(first, Crowd(n - 1));
      OneMoreKey(Key(first, 0), text, rest);
    }
  }

  lemma CrowdStep(n: nat)
    ensures Crowd(n) == if n == 0 then [] else [Page([BIG], [])] + Crowd(n - 1)
  {
  }

  lemma OneFirst(first: int, pages: seq<Page>)
    ensures LayoutDisk(first, [Page([BIG], [])] + pages) ==
            map[Key(first, 0) := FileOf([BIG])] + LayoutDisk(first + 1, pages)
  {
    hide FileOf, PageDisk;
    WholePage(first, [BIG]);
    assert ([Page([BIG], [])] + pages)[1..] == pages;
  }

  lemma OneMoreKey(key: Key, text: seq<Text>, rest: Disk)
    requires key !in rest
    ensures |map[key := text] + rest| == 1 + |rest|
    ensures forall k :: k in map[key := text] + rest <==> k == key || k in rest
  {
    var disk := map[key := text] + rest;
    assert disk.Keys == {key} + rest.Keys;
    assert |disk.Keys| == |disk| && |rest.Keys| == |rest|;
  }

  lemma {:induction false} CrowdSnoc(n: nat)
    ensures Crowd(n + 1) == Crowd(n) + [Page([BIG], [])] && |Crowd(n)| == n && Count(Crowd(n)) == n
  {
    if n > 0 { CrowdSnoc(n - 1); }
  }

  lemma {:induction false} WhereLast(n: nat)
    requires n > 0
    ensures Where(Crowd(n), n) == n - 1
  {
    CrowdSnoc(n);
    if n > 1 {
      WhereLast(n - 1);
      assert Crowd(n)[1..] == Crowd(n - 1);
    }
  }

  /** Such a crowd grows by additions, with the buffer that the programs use. */
  lemma CrowdGrows(n: nat)
    requires n > 0
    ensures Where(Crowd(n), n) == n - 1 && Within(Crowd(n), n) == 1
    ensures RespsAt(Crowd(n), n - 1) == [BIG]
    ensures Updated(Crowd(n), n, BIG, 200, 250) == Crowd(n + 1)
  {
    hide FileOf, Where, Crowd;
    var pages, p := Crowd(n), Page([BIG], []);
    WhereLast(n);
    CrowdSnoc(n);
    CrowdSnoc(n - 1);
    assert pages[..n - 1] == Crowd(n - 1) && pages[n - 1] == p;
    assert [BIG][..1] == [BIG];
    BlockSize(BIG);
    assert |Empty200()| == 200;
    BigIsOwn();
    assert Repaged([BIG], 1, BIG, 200, 250) == [p, p];
    assert After(pages, n - 1) == [];
    assert Crowd(n - 1) + ([p, p] + []) == Crowd(n - 1) + [p] + [p];
  }

  lemma BigIsOwn()
    ensures Own(BIG, 245) == Page([BIG], [])
  {
    assert BIG.vals[..200] == BIG.vals && BIG.vals[200..] == [];
  }

  /** Of one partfile more than a listing shows, it can miss the very one that a response begins;
      the update then opens the one before. */
  lemma ListingMisses() returns (seen: Disk)
    ensures var disk := LayoutDisk(0, Crowd(LISTED + 1));
            && |disk| == LISTED + 1 && Listing(disk, seen) && Key(1, 0) in disk
            && forall key :: OpensAt(seen, 1, key) ==> key == Key(0, 0)
  {
    hide LayoutDisk, Crowd;
    var disk := LayoutDisk(0, Crowd(LISTED + 1));
    CrowdKeys(0, LISTED + 1);
    seen := disk - {Key(1, 0)};
    assert seen.Keys == disk.Keys - {Key(1, 0)} && |seen.Keys| == |seen| && |disk.Keys| == |disk|;
    assert Key(0, 0) in seen;
    forall key | OpensAt(seen, 1, key) ensures key == Key(0, 0) {
      var k :| Holder(seen, Key(1, 0), k) && key == if Last(seen, k) && k.lnum > 0 then Key(1, 0) else k;
      assert Less(Key(0, 0), Key(1, 0));
      assert k.lnum == 0 && k.resp != 1;
    }
  }
}
