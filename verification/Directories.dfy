/** The directory of an item's partfiles, and the partfile that an update works on. */
module Directories {
  import opened Partfiles

  /** Room for the names of partfiles. */
  const PDIRMAX := 4000

  /** How many of them a listing gives at most. */
  const LISTED := PDIRMAX - 3

  /** `seen` is what a listing of `disk` may show: all of it, or as much as there is room for. */
  ghost predicate Listing(disk: Disk, seen: Disk) {
    && (forall k :: k in seen ==> k in disk && seen[k] == disk[k])
    && |seen| == if |disk| <= LISTED then |disk| else LISTED
  }

  /** The partfiles of `disk` that `dir` names. */
  ghost function Shown(disk: Disk, dir: seq<Key>): Disk {
    map k | k in disk && k in dir :: disk[k]
  }

  /** List the partfiles in order; the system names them in any order. */
  method SysPdir(disk: Disk) returns (dir: seq<Key>)
    ensures Lists(dir, Shown(disk, dir)) && Listing(disk, Shown(disk, dir))
    ensures |dir| == if |disk| <= LISTED then |disk| else LISTED
  {
    hide Sorted, Less;
    dir := [];
    EmptySorted();
    var rest := disk.Keys;
    while rest != {} && |dir| < LISTED
      invariant rest <= disk.Keys && Sorted(dir)
      invariant forall k :: k in dir <==> k in disk && k !in rest
      invariant |dir| + |rest| == |disk| && |dir| <= LISTED
      decreases |rest|
    {
      var k :| k in rest;
      rest := rest - {k};
      dir := SlipIn(dir, k);
    }
    ShownSize(disk, dir, rest);
  }

  lemma ShownSize(disk: Disk, dir: seq<Key>, rest: set<Key>)
    requires rest <= disk.Keys && |dir| + |rest| == |disk| && forall k :: k in dir <==> k in disk && k !in rest
    ensures |Shown(disk, dir)| == |dir|
  {
    var seen := Shown(disk, dir);
    assert seen.Keys == disk.Keys - rest;
    assert |disk.Keys - rest| == |disk.Keys| - |rest|;
    assert |seen.Keys| == |seen| && |disk.Keys| == |disk|;
  }

  /** Every possible listing is complete if and only if there are no more partfiles than it has
      room for. */
  lemma ListingCompleteIff(disk: Disk)
    ensures (forall seen :: Listing(disk, seen) ==> seen == disk) <==> |disk| <= LISTED
  {
    if |disk| <= LISTED {
      forall seen | Listing(disk, seen) ensures seen == disk { ListingComplete(disk, seen); }
    } else {
      var seen := SomeListing(disk, LISTED);
      assert Listing(disk, seen) && |seen| != |disk|;
    }
  }

  lemma ListingComplete(disk: Disk, seen: Disk)
    requires Listing(disk, seen) && |disk| <= LISTED
    ensures seen == disk
  {
    assert seen.Keys <= disk.Keys && |seen.Keys| == |disk.Keys|;
    SameSize(seen.Keys, disk.Keys);
  }

  lemma SameSize(a: set<Key>, b: set<Key>)
    requires a <= b && |a| == |b|
    ensures a == b
  {
    assert |b - a| == |b| - |a|;
    assert b - a == {};
  }

  lemma SomeListing(disk: Disk, n: nat) returns (seen: Disk)
    requires n <= |disk|
    ensures |seen| == n && forall k :: k in seen ==> k in disk && seen[k] == disk[k]
    decreases |disk| - n
  {
    if n == |disk| {
      seen := disk;
    } else {
      var more := SomeListing(disk, n + 1);
      var k :| k in more;
      seen := more - {k};
      assert seen.Keys == more.Keys - {k} && |seen.Keys| == |more.Keys| - 1;
    }
  }

  lemma EmptySorted()
    ensures Sorted([])
  {
  }

  /** Slip a name into its place, looking from the end. */
  method SlipIn(dir: seq<Key>, k: Key) returns (more: seq<Key>)
    requires Sorted(dir) && k !in dir
    ensures Sorted(more) && |more| == |dir| + 1 && (forall x :: x in more <==> x in dir || x == k)
  {
    var i := |dir| - 1;
    while i >= 0 && Less(k, dir[i])
      invariant -1 <= i < |dir|
      invariant forall j :: i < j < |dir| ==> Less(k, dir[j])
    {
      i := i - 1;
    }
    more := dir[..i + 1] + [k] + dir[i + 1..];
    assert i >= 0 ==> dir[i] in dir && Less(dir[i], k);
    assert dir == dir[..i + 1] + dir[i + 1..];
    SlippedSorted(dir, i + 1, k);
  }

  lemma SlippedSorted(dir: seq<Key>, i: nat, k: Key)
    requires Sorted(dir) && i <= |dir|
    requires i > 0 ==> Less(dir[i - 1], k)
    requires forall j :: i <= j < |dir| ==> Less(k, dir[j])
    ensures Sorted(dir[..i] + [k] + dir[i..])
  {
    var more := dir[..i] + [k] + dir[i..];
    assert forall j :: 0 <= j < i ==> Less(dir[j], k);
    forall a, b | 0 <= a < b < |more| ensures Less(more[a], more[b]) {
    }
  }

  /** The index of the partfile that has line `at.lnum` of response `at.resp`: the last one
      whose name is not after `at`.  An item without partfiles gets one. */
  method PartNum(dir0: seq<Key>, at: Key) returns (dir: seq<Key>, p: nat)
    ensures dir == if dir0 == [] then [at] else dir0
    ensures p < |dir|
    ensures forall i :: 1 <= i <= p ==> !Less(at, dir[i])
    ensures p + 1 < |dir| ==> Less(at, dir[p + 1])
  {
    dir := if dir0 == [] then [at] else dir0;
    p := 1;
    while p < |dir| && !(at.resp < dir[p].resp || (at.resp == dir[p].resp && at.lnum < dir[p].lnum))
      invariant 1 <= p <= |dir|
      invariant forall i :: 1 <= i < p ==> !Less(at, dir[i])
    {
      p := p + 1;
    }
    p := p - 1;
  }

  // ------------------------------------------------ in terms of the partfiles

  /** `k` is the last partfile whose name is not after `at`, or the first one of all. */
  ghost predicate Holder(disk: Disk, at: Key, k: Key) {
    && k in disk
    && (forall x :: x in disk && Less(k, x) ==> Less(at, x))
    && (Less(at, k) ==> forall x :: x in disk ==> !Less(x, k))
  }

  ghost predicate Last(disk: Disk, k: Key) {
    k in disk && forall x :: x in disk ==> !Less(k, x)
  }

  /** `key` is the partfile that an update of `resp` loads.  Behind a response of several
      partfiles, at the end of the item, it is a new one. */
  ghost predicate OpensAt(disk: Disk, resp: int, key: Key) {
    if disk == map[] then key == Key(resp, 0)
    else exists k :: Holder(disk, Key(resp, 0), k)
                     && key == if Last(disk, k) && k.lnum > 0 then Key(resp, 0) else k
  }

  /** Without the continuations of the response that `key` begins with. */
  ghost function Trimmed(disk: Disk, key: Key): Disk {
    map x | x in disk && !(x.resp == key.resp && x.lnum > key.lnum) :: disk[x]
  }

  lemma Ordered(dir: seq<Key>, i: nat, j: nat)
    requires Sorted(dir) && i < |dir| && j < |dir|
    ensures i < j ==> Less(dir[i], dir[j])
    ensures j < i ==> Less(dir[j], dir[i])
  {
  }

  lemma InSlice(dir: seq<Key>, a: nat, b: nat, i: nat)
    requires Sorted(dir) && a <= b <= |dir| && i < |dir|
    ensures dir[i] in dir[a..b] <==> a <= i < b
  {
    if a <= i < b { assert dir[a..b][i - a] == dir[i]; }
    forall j | 0 <= j < b - a ensures dir[a..b][j] == dir[i] ==> a + j == i {
      Ordered(dir, a + j, i);
    }
  }

  lemma HolderIs(disk: Disk, dir: seq<Key>, at: Key, p: nat)
    requires Lists(dir, disk) && p < |dir|
    requires forall i :: 1 <= i <= p ==> !Less(at, dir[i])
    requires p + 1 < |dir| ==> Less(at, dir[p + 1])
    ensures Holder(disk, at, dir[p])
    ensures Last(disk, dir[p]) <==> p == |dir| - 1
  {
    forall x | x in disk
      ensures exists i :: 0 <= i < |dir| && dir[i] == x
    {
      assert x in dir;
    }
    assert dir[p] in dir;
    assert p + 1 < |dir| ==> dir[p + 1] in dir && Less(dir[p], dir[p + 1]);
    forall x | x in disk && Less(dir[p], x) ensures Less(at, x) {
      var i :| 0 <= i < |dir| && dir[i] == x;
      Ordered(dir, i, p);
    }
    if Less(at, dir[p]) {
      assert p == 0;
      forall x | x in disk ensures !Less(x, dir[p]) {
        FirstIsLeast(dir, x);
      }
    }
    if p == |dir| - 1 {
      forall x | x in disk ensures !Less(dir[p], x) {
        var i :| 0 <= i < |dir| && dir[i] == x;
        Ordered(dir, i, p);
      }
    }
  }

  lemma OpensWith(disk: Disk, resp: int, listed: seq<Key>, dir: seq<Key>, p: nat)
    requires Lists(listed, disk) && dir == (if listed == [] then [Key(resp, 0)] else listed) && p < |dir|
    requires forall i :: 1 <= i <= p ==> !Less(Key(resp, 0), dir[i])
    requires p + 1 < |dir| ==> Less(Key(resp, 0), dir[p + 1])
    ensures p == |dir| - 1 && dir[p].lnum > 0 ==> OpensAt(disk, resp, Key(resp, 0)) && Key(resp, 0) !in disk
    ensures !(p == |dir| - 1 && dir[p].lnum > 0) ==> OpensAt(disk, resp, dir[p])
    ensures dir[p] in disk <==> listed != []
  {
    hide Lists;
    if listed == [] {
      NoneListed(disk, listed);
    } else {
      HolderIs(disk, dir, Key(resp, 0), p);
    }
  }

  lemma NoneListed(disk: Disk, dir: seq<Key>)
    requires Lists(dir, disk) && dir == []
    ensures disk == map[]
  {
    assert forall k :: k in disk ==> k in dir;
  }

  ghost function Without(disk: Disk, gone: seq<Key>): Disk {
    map x | x in disk && x !in gone :: disk[x]
  }

  lemma WithoutNone(disk: Disk, gone: seq<Key>)
    ensures gone == [] ==> Without(disk, gone) == disk
    ensures disk == map[] ==> Without(disk, gone) == disk
  {
  }

  lemma RemovedAre(disk: Disk, dir: seq<Key>, p: nat, q: nat)
    requires Lists(dir, disk) && p < q <= |dir|
    requires forall i :: p < i < q ==> dir[i].resp == dir[p].resp
    requires q < |dir| ==> dir[q].resp != dir[p].resp
    ensures Without(disk, dir[p + 1..q]) == Trimmed(disk, dir[p])
  {
    forall x | x in disk
      ensures x in dir[p + 1..q] <==> x.resp == dir[p].resp && x.lnum > dir[p].lnum
    {
      assert x in dir;
      var i :| 0 <= i < |dir| && dir[i] == x;
      Ordered(dir, i, p);
      if q < |dir| { Ordered(dir, p, q); Ordered(dir, q, i); }
      InSlice(dir, p + 1, q, i);
    }
  }

  class PartStore {
    var disk: Disk

    constructor ()
      ensures disk == map[]
    {
      disk := map[];
    }

    /** Remove the partfiles after the one at `p` that belong to the same response. */
    method KillParts(dir: seq<Key>, p: nat) returns (q: nat)
      requires p < |dir|
      modifies this
      ensures p < q <= |dir| && disk == Without(old(disk), dir[p + 1..q])
      ensures forall i :: p < i < q ==> dir[i].resp == dir[p].resp
      ensures q < |dir| ==> dir[q].resp != dir[p].resp
    {
      q := p + 1;
      WithoutNone(disk, dir[p + 1..q]);
      while q < |dir| && dir[q].resp == dir[p].resp
        invariant p < q <= |dir|
        invariant forall i :: p < i < q ==> dir[i].resp == dir[p].resp
        invariant disk == Without(old(disk), dir[p + 1..q])
      {
        disk := disk - {dir[q]};
        assert dir[p + 1..q + 1] == dir[p + 1..q] + [dir[q]];
        q := q + 1;
      }
    }

    /** Find the partfile of response `resp` among those listed, and remove the continuations
        of the response that begins there.  The number of parts never reaches PDIRMAX. */
    method OpenPart(resp: int) returns (key: Key, parts: int, ghost seen: Disk)
      modifies this
      ensures Listing(old(disk), seen) && OpensAt(seen, resp, key)
      ensures disk == if key in seen then old(disk) - (seen.Keys - Trimmed(seen, key).Keys) else old(disk)
      ensures 0 < parts < PDIRMAX
    {
      hide Holder, Last, OpensAt, Trimmed, Without, Lists, Less;
      var listed := SysPdir(disk);
      seen := Shown(disk, listed);
      var dir, p := PartNum(listed, Key(resp, 0));
      OpensWith(seen, resp, listed, dir, p);
      if p == |dir| - 1 && dir[p].lnum > 0 {
        p := p + 1;
        dir := dir[..p] + [Key(resp, 0)];
      }
      parts := |dir|;
      key := dir[p];
      ghost var q := KillParts(dir, p);
      WithoutNone(old(disk), dir[p + 1..q]);
      if key in seen {
        RemovedAre(seen, dir, p, q);
        WithoutSome(old(disk), listed, dir[p + 1..q]);
      }
    }
  }

  lemma WithoutSome(disk: Disk, dir: seq<Key>, gone: seq<Key>)
    requires forall k :: k in gone ==> k in dir
    ensures var seen := Shown(disk, dir); Without(disk, gone) == disk - (seen.Keys - Without(seen, gone).Keys)
  {
    var seen := Shown(disk, dir);
    var a, b := Without(disk, gone), disk - (seen.Keys - Without(seen, gone).Keys);
    forall k ensures k in a <==> k in b {
      assert k in seen ==> k in disk;
    }
    assert a.Keys == b.Keys;
    assert forall k :: k in a ==> a[k] == disk[k] == b[k];
  }

  lemma TrimmedAll(disk: Disk, key: Key)
    ensures disk - (disk.Keys - Trimmed(disk, key).Keys) == Trimmed(disk, key)
  {
  }
}
