/** The text buffer: the lines of a partfile, and where each response starts and stops. */
module TextBuffers {
  import opened Text
  import opened Blocks
  import opened Partfiles

  /** Lines that start with '+' carry data about a response and are not text. */
  function Plain(file: seq<Text>): seq<Text> {
    if file == [] then []
    else if file[0] != [] && file[0][0] == PLUS then Plain(file[1..])
    else [file[0]] + Plain(file[1..])
  }

  /** The contents of a buffer. */
  datatype View = View(lines: seq<Text>, starts: seq<int>, stops: seq<int>, used: int)

  ghost predicate EntryAt(v: View, i: int, b: Block) {
    && 0 <= i < |v.starts| == |v.stops| && 0 <= v.starts[i]
    && v.stops[i] == v.starts[i] + |b.vals| < v.used <= |v.lines|
    && v.lines[v.starts[i]] == b.name && v.lines[v.starts[i] + 1..v.stops[i] + 1] == b.vals
  }

  /** The buffer holds `bs` without gaps and in order. */
  ghost predicate PackedIn(v: View, bs: seq<Block>) {
    && |v.starts| == |v.stops| && v.used <= |v.lines| && v.used == |FileOf(bs)| && |bs| <= |v.starts|
    && forall i :: 0 <= i < |bs| ==> EntryAt(v, i, bs[i]) && v.starts[i] == |FileOf(bs[..i])|
  }

  lemma LastEnds(v: View, bs: seq<Block>)
    requires PackedIn(v, bs) && bs != []
    ensures v.stops[|bs| - 1] == v.used - 1
  {
    hide FileOf;
    StartsGrow(bs, |bs| - 1);
    assert bs[..|bs|] == bs;
  }

  lemma HeaderJoins(was: View, v: View, bs: seq<Block>, str: Text)
    requires PackedIn(was, bs) && |bs| < |was.starts| && was.used < |was.lines|
    requires v == View(was.lines[was.used := str], was.starts[|bs| := was.used], was.stops[|bs| := was.used], was.used + 1)
    ensures PackedIn(v, bs + [Block(str, [])])
  {
    hide FileOf;
    var more := bs + [Block(str, [])];
    FileOfSnoc(bs, str);
    assert bs[..|bs|] == bs;
    forall i | 0 <= i < |more| ensures EntryAt(v, i, more[i]) && v.starts[i] == |FileOf(more[..i])| {
      assert more[..i] == bs[..i];
      if i < |bs| { EntryKept(was, v, i, bs[i]); }
    }
  }

  lemma EntryKept(was: View, v: View, i: int, b: Block)
    requires EntryAt(was, i, b) && v.used >= was.used && |v.lines| == |was.lines| >= v.used
    requires |v.starts| == |was.starts| == |v.stops| == |was.stops|
    requires v.starts[i] == was.starts[i] && v.stops[i] == was.stops[i]
    requires forall m :: 0 <= m < was.used ==> v.lines[m] == was.lines[m]
    ensures EntryAt(v, i, b)
  {
    SameSlice(v.lines, was.lines, was.starts[i], was.stops[i] + 1);
    EntryFrom(was, v, i, b);
  }

  lemma ValueJoins(was: View, v: View, bs: seq<Block>, str: Text)
    requires PackedIn(was, bs) && bs != [] && was.used < |was.lines| && StartsBlank(str)
    requires v == View(was.lines[was.used := str[1..]], was.starts, was.stops[|bs| - 1 := was.used], was.used + 1)
    ensures PackedIn(v, MoreValue(bs, str[1..]))
  {
    hide FileOf;
    var t, more := |bs| - 1, MoreValue(bs, str[1..]);
    FileOfMore(bs, str);
    LastEnds(was, bs);
    forall i | 0 <= i < |more| ensures EntryAt(v, i, more[i]) && v.starts[i] == |FileOf(more[..i])| {
      assert more[..i] == bs[..i];
      assert EntryAt(was, i, bs[i]);
      if i < t {
        StartsGrow(bs, i);
        EntryKept(was, v, i, bs[i]);
      } else {
        LastLonger(was, v, t, bs[t], str[1..]);
      }
    }
  }

  lemma LastLonger(was: View, v: View, t: nat, b: Block, str: Text)
    requires EntryAt(was, t, b) && was.stops[t] == was.used - 1 && was.used < |was.lines|
    requires v == View(was.lines[was.used := str], was.starts, was.stops[t := was.used], was.used + 1)
    ensures EntryAt(v, t, Block(b.name, b.vals + [str]))
  {
    var from := was.starts[t] + 1;
    assert v.lines[from..was.used + 1] == was.lines[from..was.used] + [str];
  }

  /** Entries other than `r`: those before `i` end below `l`, the others are where they were
      loaded. */
  ghost predicate Compacting(v: View, bs: seq<Block>, r: int, i: int, l: int) {
    && (forall k :: 0 <= k < i <= |bs| && k != r ==> EntryAt(v, k, bs[k]) && v.stops[k] < l)
    && (forall k :: 0 <= i <= k < |bs| ==> EntryAt(v, k, bs[k]) && v.starts[k] == |FileOf(bs[..k])|)
  }

  class Textbuf {
    const lMax: int
    const line: array<Text>
    const rStart: array<int>
    const rStop: array<int>
    var lUsed: int
    var rUsed: int
    var rFirst: int
    var rLast: int

    ghost predicate Valid() reads this`lUsed {
      && rStart != rStop && rStart.Length == rStop.Length > 20
      && 100 <= lMax < line.Length && 0 <= lUsed <= line.Length
    }

    /** A buffer for `resps` responses and `lines` lines, and one more of each, but never a very
        small one. */
    constructor (resps: int, lines: int)
      ensures Valid() && fresh(line) && fresh(rStart) && fresh(rStop)
      ensures lMax == (if lines < 100 then 100 else lines) && line.Length == lMax + 1 && lUsed == 0
      ensures rStart.Length == (if resps < 20 then 20 else resps) + 1 && rUsed == 0
    {
      var r, l := resps, lines;
      if r < 20 { r := 20; }
      if l < 100 { l := 100; }
      lMax := l;
      line := new Text[l + 1](_ => []);
      rStart := new int[r + 1](_ => 0);
      rStop := new int[r + 1](_ => -1);
      lUsed, rUsed, rFirst, rLast := 0, 0, 0, -1;
    }

    /** Entry `i` of the buffer is the response `b`. */
    ghost predicate Has(i: int, b: Block)
      reads this`lUsed, line, rStart, rStop
      requires Valid()
    {
      && 0 <= i < rStart.Length && 0 <= rStart[i]
      && rStop[i] == rStart[i] + |b.vals| < lUsed
      && line[rStart[i]] == b.name && line[rStart[i] + 1..rStop[i] + 1] == b.vals
    }

    /** The buffer holds `bs` without gaps and in order. */
    ghost predicate Packed(bs: seq<Block>)
      reads this`lUsed, line, rStart, rStop
      requires Valid()
    {
      && lUsed == |FileOf(bs)| && |bs| <= rStart.Length
      && forall i :: 0 <= i < |bs| ==> Has(i, bs[i]) && rStart[i] == |FileOf(bs[..i])|
    }

    /** The text of a '#' line opens an entry. */
    method LoadHeader(str: Text, ghost bs: seq<Block>)
      requires Valid() && Packed(bs) && rUsed == |bs| < rStart.Length && lUsed < line.Length
      modifies this, line, rStart, rStop
      ensures Valid() && Packed(bs + [Block(str, [])])
      ensures rUsed == old(rUsed) + 1 && rLast == old(rLast) + 1 && rFirst == old(rFirst)
    {
      hide Packed, PackedIn, FileOf;
      PackedNow(bs);
      ghost var was := Now();
      var b := rUsed;
      rUsed := rUsed + 1;
      rStart[b] := lUsed;
      rStop[b] := lUsed - 1;
      rLast := rLast + 1;
      line[lUsed] := str;
      lUsed := lUsed + 1;
      rStop[b] := rStop[b] + 1;
      HeaderJoins(was, Now(), bs, str);
      PackedNow(bs + [Block(str, [])]);
    }

    /** Any other line joins the entry opened last. */
    method LoadValue(str: Text, ghost bs: seq<Block>)
      requires Valid() && Packed(bs) && rUsed == |bs| > 0 && lUsed < line.Length && StartsBlank(str)
      modifies this, line, rStop
      ensures Valid() && Packed(MoreValue(bs, str[1..]))
      ensures rUsed == old(rUsed) && rLast == old(rLast) && rFirst == old(rFirst)
    {
      hide Packed, PackedIn, FileOf;
      PackedNow(bs);
      ghost var was := Now();
      var b := rUsed - 1;
      LastEnds(was, bs);
      line[lUsed] := str[1..];
      lUsed := lUsed + 1;
      rStop[b] := rStop[b] + 1;
      ValueJoins(was, Now(), bs, str);
      PackedNow(MoreValue(bs, str[1..]));
    }

    lemma PackedNone()
      requires Valid() && lUsed == 0
      ensures Packed([])
    {
    }

    lemma PackedUses(bs: seq<Block>)
      requires Valid() && Packed(bs)
      ensures lUsed == |FileOf(bs)|
    {
    }

    lemma PackedNow(bs: seq<Block>)
      requires Valid()
      ensures Packed(bs) <==> PackedIn(Now(), bs)
      ensures Packed(bs) ==> |bs| <= rStart.Length
    {
      hide FileOf;
      assert forall i :: 0 <= i < |bs| ==> (Has(i, bs[i]) <==> EntryAt(Now(), i, bs[i]));
    }

    /** Read the partfile `key` into the buffer; `bs` are the responses written there. */
    method LoadText(disk: Disk, key: Key, ghost bs: seq<Block>)
      requires Valid()
      requires key in disk ==> Plain(disk[key]) == FileOf(bs) && Headed(bs)
      requires key !in disk ==> bs == []
      requires |FileOf(bs)| <= line.Length && |bs| <= rStart.Length
      modifies this, line, rStart, rStop
      ensures Valid() && Packed(bs) && rUsed == |bs|
      ensures rFirst == key.resp
      ensures rLast == if key in disk && bs == [] then rFirst else rFirst + |bs| - 1
    {
      hide FileOf, Plain, Loading, Packed;
      rUsed, lUsed, rFirst, rLast := 0, 0, key.resp, key.resp - 1;
      rStart[0], rStop[0] := 0, -1;
      PackedNone();
      if key !in disk { return; }
      var file := disk[key];
      ghost var got, rem: seq<Text>, rest := [], [], bs;
      NothingBefore(rest);
      LoadingStarts(bs);
      var i := 0;
      while i < |file|
        invariant 0 <= i <= |file|
        invariant Valid() && Packed(got) && rUsed == |got|
        invariant rFirst == key.resp && rLast == rFirst + |got| - 1
        invariant Plain(file[i..]) == Indent(rem) + FileOf(rest)
        invariant Loading(bs, got, rem, rest)
      {
        var str := file[i];
        var c0 := if str == [] then 0 else str[0];
        PlainStep(file, i);
        if c0 == HASH {
          LoadingHeader(bs, got, rem, rest, str, Plain(file[i + 1..]), line.Length);
          PackedUses(got);
          LoadHeader(str, got);
          got, rem, rest := got + [Block(str, [])], rest[0].vals, rest[1..];
        } else if c0 != PLUS {
          LoadingValue(bs, got, rem, rest, str, Plain(file[i + 1..]), line.Length);
          PackedUses(got);
          LoadValue(str, got);
          got, rem := MoreValue(got, str[1..]), rem[1..];
        }
        i := i + 1;
      }
      LoadingEnds(bs, got, rem, rest, file);
      if rLast < rFirst { rLast := rFirst; }
    }

    /** The partfile made of entries `r0` to `r1`: each header as it is, each other line behind
        one blank. */
    method StoreText(r0: int, r1: int, ghost bs: seq<Block>) returns (file: seq<Text>)
      requires Valid() && 0 <= r0 <= r1 + 1 <= |bs|
      requires forall i :: r0 <= i <= r1 ==> Has(i, bs[i])
      ensures file == FileOf(bs[r0..r1 + 1])
    {
      hide FileOf, Indent;
      file := [];
      var r := r0;
      EmptyFile();
      assert bs[r0..r0] == [];
      while r <= r1
        invariant r0 <= r <= r1 + 1
        invariant file == FileOf(bs[r0..r])
      {
        assert Has(r, bs[r]);
        file := file + [line[rStart[r]]];
        var m := rStart[r] + 1;
        NoIndent(bs[r].vals);
        while m <= rStop[r]
          invariant rStart[r] + 1 <= m <= rStop[r] + 1
          invariant file == FileOf(bs[r0..r]) + [bs[r].name] + Indent(bs[r].vals[..m - rStart[r] - 1])
        {
          var k := m - rStart[r] - 1;
          assert bs[r].vals[k] == line[m];
          IndentGrows(bs[r].vals, k);
          file := file + [[SPACE] + line[m]];
          m := m + 1;
        }
        BlockDone(bs, r0, r);
        r := r + 1;
      }
    }

    /** Add a line at the end of the buffer, to entry `r`. */
    method AddLine(r: int, str: Text)
      requires Valid() && 0 <= r < rStop.Length && lUsed < line.Length
      modifies this`lUsed, line, rStop
      ensures Valid() && lUsed == old(lUsed) + 1
      ensures rStop[..] == old(rStop[..])[r := old(lUsed)]
      ensures line[..] == old(line[..])[old(lUsed) := str]
    {
      rStop[r] := lUsed;
      line[lUsed] := str;
      lUsed := lUsed + 1;
    }

    /** Move the lines of entry `r` down to `at`, clearing the ones they leave. */
    method ShiftResponse(r: int, at: int) returns (l: int)
      requires Valid() && 0 <= r < rStart.Length
      requires 0 <= at < rStart[r] <= rStop[r] + 1 <= line.Length
      modifies line, rStart, rStop
      ensures l == at + old(rStop[r] - rStart[r]) + 1
      ensures rStart[..] == old(rStart[..])[r := at] && rStop[..] == old(rStop[..])[r := l - 1]
      ensures forall k :: 0 <= k < at ==> line[k] == old(line[k])
      ensures forall k :: at <= k < l ==> line[k] == old(line[k + rStart[r] - at])
      ensures forall k :: old(rStop[r]) < k < line.Length ==> line[k] == old(line[k])
    {
      l := at;
      var q := rStart[r];
      ghost var space := rStart[r] - at;
      while q <= rStop[r]
        modifies line
        invariant l == q - space && rStart[r] <= q <= rStop[r] + 1
        invariant forall k :: 0 <= k < at ==> line[k] == old(line[k])
        invariant forall k :: at <= k < l ==> line[k] == old(line[k + space])
        invariant forall k :: q <= k < line.Length ==> line[k] == old(line[k])
      {
        line[l], line[q] := line[q], line[l];
        line[q] := [];
        l := l + 1;
        q := q + 1;
      }
      rStart[r] := at;
      rStop[r] := l - 1;
    }

    ghost function Now(): View
      reads this`lUsed, line, rStart, rStop
    {
      View(line[..], rStart[..], rStop[..], lUsed)
    }

    lemma HasNow(i: int, b: Block)
      requires Valid()
      ensures Has(i, b) <==> EntryAt(Now(), i, b)
    {
    }

    method ShiftEntry(r: int, at: int) returns (l: int)
      requires Valid() && 0 <= r < rStart.Length
      requires 0 <= at < rStart[r] <= rStop[r] + 1 <= line.Length
      modifies line, rStart, rStop
      ensures Shifted(old(Now()), Now(), r, at, l)
    {
      l := ShiftResponse(r, at);
    }

    /** One round of the compaction. */
    method ShiftNext(ghost bs: seq<Block>, ghost r: int, i: int, at: int) returns (l: int)
      requires Valid() && 0 <= r < i < |bs|
      requires 0 <= at == |FileOf(bs[..i])| - 1 - |bs[r].vals| && Compacting(Now(), bs, r, i, at)
      modifies line, rStart, rStop
      ensures l == |FileOf(bs[..i + 1])| - 1 - |bs[r].vals| && Compacting(Now(), bs, r, i + 1, l)
    {
      hide FileOf, Compacting, Shifted;
      ghost var was := Now();
      CompactingNext(was, bs, r, i, at);
      StartsGrow(bs, i);
      l := ShiftEntry(i, at);
      ShiftedOk(was, Now(), bs, r, i, at, l);
    }

    lemma PackedBelow(bs: seq<Block>, r: int)
      requires Valid() && Packed(bs) && 0 <= r < |bs|
      ensures Compacting(Now(), bs, r, r + 1, rStart[r])
    {
      hide Packed, PackedIn, Compacting;
      PackedNow(bs);
      CompactStart(Now(), bs, r);
    }

    /** Shift the text after response `r` up into the space of `r`. */
    method Compact(r: int, ghost bs: seq<Block>)
      requires Valid() && Packed(bs) && rUsed == |bs| && rLast == rFirst + |bs| - 1 && 0 <= r < |bs|
      modifies this`lUsed, line, rStart, rStop
      ensures Valid() && lUsed == old(lUsed) - 1 - |bs[r].vals|
      ensures forall k :: 0 <= k < |bs| && k != r ==> Has(k, bs[k])
    {
      hide FileOf, Has, Compacting;
      var l := rStart[r];
      var i := r + 1;
      PackedBelow(bs, r);
      StartsGrow(bs, r);
      while i <= rLast - rFirst
        invariant r < i <= |bs| && Valid() && lUsed == |FileOf(bs)|
        invariant 0 <= l == |FileOf(bs[..i])| - 1 - |bs[r].vals|
        invariant Compacting(Now(), bs, r, i, l)
      {
        StartsGrow(bs, i);
        l := ShiftNext(bs, r, i, l);
        i := i + 1;
      }
      assert bs[..i] == bs;
      ghost var was := Now();
      lUsed := l;
      forall k | 0 <= k < |bs| && k != r ensures Has(k, bs[k]) {
        CompactedAt(was, bs, r, l, k);
        HasNow(k, bs[k]);
      }
    }
  }

  lemma CompactStart(v: View, bs: seq<Block>, r: int)
    requires PackedIn(v, bs) && 0 <= r < |bs|
    ensures Compacting(v, bs, r, r + 1, v.starts[r])
  {
    hide FileOf, EntryAt;
    forall k | 0 <= k < r ensures v.stops[k] < v.starts[r] {
      StartsGrow(bs, k);
      assert EntryAt(v, k, bs[k]);
      EntryEnds(v, k, bs[k]);
    }
  }

  lemma EntryEnds(v: View, k: int, b: Block)
    requires EntryAt(v, k, b)
    ensures v.stops[k] == v.starts[k] + |b.vals|
  {
  }

  lemma CompactingNext(v: View, bs: seq<Block>, r: int, i: int, l: int)
    requires Compacting(v, bs, r, i, l) && 0 <= i < |bs|
    ensures EntryAt(v, i, bs[i]) && v.starts[i] == |FileOf(bs[..i])|
  {
  }

  /** A response is there when its lines came from where it was. */
  lemma EntryFrom(was: View, v: View, k: int, b: Block)
    requires EntryAt(was, k, b)
    requires k < |v.starts| == |v.stops| && 0 <= v.starts[k]
    requires v.stops[k] == v.starts[k] + |b.vals| < v.used <= |v.lines|
    requires v.lines[v.starts[k]..v.stops[k] + 1] == was.lines[was.starts[k]..was.stops[k] + 1]
    ensures EntryAt(v, k, b)
  {
    var at, start := v.starts[k], was.starts[k];
    assert v.lines[at..v.stops[k] + 1][0] == v.lines[at];
    assert was.lines[start..was.stops[k] + 1][0] == was.lines[start];
    assert v.lines[at..v.stops[k] + 1][1..] == v.lines[at + 1..v.stops[k] + 1];
    assert was.lines[start..was.stops[k] + 1][1..] == was.lines[start + 1..was.stops[k] + 1];
  }

  ghost predicate Shifted(was: View, v: View, i: int, at: int, l: int) {
    && 0 <= i < |was.starts| == |was.stops| && 0 <= at <= was.starts[i] <= was.stops[i] + 1
    && l == at + was.stops[i] - was.starts[i] + 1 && l <= was.stops[i] + 1 <= |was.lines| == |v.lines|
    && v.used == was.used && v.starts == was.starts[i := at] && v.stops == was.stops[i := l - 1]
    && (forall k :: 0 <= k < at ==> v.lines[k] == was.lines[k])
    && (forall k :: at <= k < l ==> v.lines[k] == was.lines[k + was.starts[i] - at])
    && (forall k :: was.stops[i] < k < |v.lines| ==> v.lines[k] == was.lines[k])
  }

  lemma SameSlice(a: seq<Text>, b: seq<Text>, i: nat, j: nat)
    requires i <= j <= |a| == |b| && (forall m :: i <= m < j ==> a[m] == b[m])
    ensures a[i..j] == b[i..j]
  {
  }

  lemma ShiftedEntry(was: View, v: View, i: int, at: int, l: int, k: int, b: Block)
    requires Shifted(was, v, i, at, l) && EntryAt(was, k, b)
    requires k == i || was.stops[k] < at || was.starts[k] > was.stops[i]
    ensures EntryAt(v, k, b)
  {
    var start := was.starts[k];
    if k == i {
      assert v.lines[at..l] == was.lines[start..was.stops[k] + 1];
    } else {
      SameSlice(v.lines, was.lines, start, was.stops[k] + 1);
    }
    EntryFrom(was, v, k, b);
  }

  lemma ShiftedOk(was: View, v: View, bs: seq<Block>, r: int, i: int, at: int, l: int)
    requires 0 <= r < i < |bs| && Compacting(was, bs, r, i, at) && Shifted(was, v, i, at, l)
    ensures Compacting(v, bs, r, i + 1, l)
  {
    hide FileOf, Shifted;
    CompactingNext(was, bs, r, i, at);
    StartsGrow(bs, i);
    ShiftedEntry(was, v, i, at, l, i, bs[i]);
    ShiftedPlaces(was, v, i, at, l);
    forall k | 0 <= k < i && k != r ensures EntryAt(v, k, bs[k]) && v.stops[k] < l {
      ShiftedEntry(was, v, i, at, l, k, bs[k]);
    }
    forall k | i < k < |bs| ensures EntryAt(v, k, bs[k]) && v.starts[k] == |FileOf(bs[..k])| {
      ShiftedEntry(was, v, i, at, l, k, bs[k]);
    }
  }

  lemma ShiftedPlaces(was: View, v: View, i: int, at: int, l: int)
    requires Shifted(was, v, i, at, l)
    ensures |v.starts| == |was.starts| && |v.stops| == |was.stops| && v.stops[i] == l - 1
    ensures forall k :: 0 <= k < |v.starts| && k != i ==> v.starts[k] == was.starts[k] && v.stops[k] == was.stops[k]
    ensures l == at + was.stops[i] - was.starts[i] + 1
  {
  }

  lemma CompactedAt(v: View, bs: seq<Block>, r: int, l: int, k: int)
    requires Compacting(v, bs, r, |bs|, l) && 0 <= k < |bs| && k != r && l <= v.used
    ensures EntryAt(v.(used := l), k, bs[k])
  {
  }

  /** Where the responses of a partfile start. */
  lemma StartsGrow(bs: seq<Block>, i: nat)
    requires i < |bs|
    ensures |FileOf(bs[..i + 1])| == |FileOf(bs[..i])| + 1 + |bs[i].vals|
    ensures forall k :: i < k <= |bs| ==> |FileOf(bs[..k])| >= |FileOf(bs[..i + 1])|
  {
    hide FileOf;
    assert bs[..i + 1] == bs[..i] + [bs[i]];
    FileSize(bs[..i], bs[i]);
    forall k | i < k <= |bs| ensures |FileOf(bs[..k])| >= |FileOf(bs[..i + 1])| {
      assert bs[..k] == bs[..i + 1] + bs[i + 1..k];
      FileOfConcat(bs[..i + 1], bs[i + 1..k]);
    }
  }

  lemma NoIndent(vs: seq<Text>)
    ensures Indent(vs[..0]) == []
  {
  }

  lemma IndentGrows(vs: seq<Text>, k: nat)
    requires k < |vs|
    ensures Indent(vs[..k + 1]) == Indent(vs[..k]) + [[SPACE] + vs[k]]
  {
    assert vs[..k + 1] == vs[..k] + [vs[k]];
    IndentConcat(vs[..k], [vs[k]]);
  }

  lemma BlockDone(bs: seq<Block>, r0: nat, r: nat)
    requires r0 <= r < |bs|
    ensures FileOf(bs[r0..r + 1])
         == FileOf(bs[r0..r]) + [bs[r].name] + Indent(bs[r].vals[..|bs[r].vals|])
  {
    hide FileOf;
    assert bs[r0..r + 1] == bs[r0..r] + [bs[r]];
    FileOfConcat(bs[r0..r], [bs[r]]);
    FileOfOne(bs[r]);
    assert bs[r].vals[..|bs[r].vals|] == bs[r].vals;
  }

  lemma EmptyFile()
    ensures FileOf([]) == []
  {
  }

  lemma NothingBefore(bs: seq<Block>)
    ensures Indent([]) + FileOf(bs) == FileOf(bs)
  {
  }

  lemma PlainStep(file: seq<Text>, i: nat)
    requires i < |file|
    ensures var str := file[i];
            Plain(file[i..]) == (if str != [] && str[0] == PLUS then [] else [str]) + Plain(file[i + 1..])
  {
    assert file[i..][1..] == file[i + 1..];
  }

  /** `got` has been read of `bs`; `rem` of the last response and `rest` are still to come. */
  ghost predicate Loading(bs: seq<Block>, got: seq<Block>, rem: seq<Text>, rest: seq<Block>) {
    && Headed(bs)
    && if got == [] then rem == [] && rest == bs
       else var t := |got| - 1;
            bs == got[..t] + [Block(got[t].name, got[t].vals + rem)] + rest
  }

  lemma LoadingStarts(bs: seq<Block>)
    requires Headed(bs)
    ensures Loading(bs, [], [], bs)
  {
  }

  /** What is read so far takes the lines that it takes in the file. */
  lemma LoadingSize(bs: seq<Block>, got: seq<Block>, rem: seq<Text>, rest: seq<Block>)
    requires Loading(bs, got, rem, rest)
    ensures |FileOf(got)| + |rem| + |FileOf(rest)| == |FileOf(bs)|
  {
    hide FileOf;
    EmptyFile();
    if got != [] {
      var t := |got| - 1;
      var whole := Block(got[t].name, got[t].vals + rem);
      assert got == got[..t] + [got[t]];
      FileSize(got[..t], got[t]);
      FileSize(got[..t], whole);
      FileOfConcat(got[..t] + [whole], rest);
    }
  }

  lemma NextLine(rem: seq<Text>, rest: seq<Block>, str: Text, tail: seq<Text>)
    requires [str] + tail == Indent(rem) + FileOf(rest)
    ensures rem != [] ==> str == [SPACE] + rem[0] && tail == Indent(rem[1..]) + FileOf(rest)
    ensures rem == [] ==> rest != [] && str == rest[0].name && tail == Indent(rest[0].vals) + FileOf(rest[1..])
  {
    var all := [str] + tail;
    assert all[0] == str && all[1..] == tail;
    if rem != [] {
      IndentThen(rem, FileOf(rest));
    } else {
      assert all == FileOf(rest);
    }
  }

  lemma LoadingHeader(bs: seq<Block>, got: seq<Block>, rem: seq<Text>, rest: seq<Block>, str: Text,
                      tail: seq<Text>, capacity: nat)
    requires Loading(bs, got, rem, rest) && [str] + tail == Indent(rem) + FileOf(rest)
    requires IsHeader(str) && |FileOf(bs)| <= capacity
    ensures rest != [] && tail == Indent(rest[0].vals) + FileOf(rest[1..])
    ensures |got| < |bs| && |FileOf(got)| < capacity
    ensures Loading(bs, got + [Block(str, [])], rest[0].vals, rest[1..])
  {
    hide FileOf, Loading;
    NextLine(rem, rest, str, tail);
    assert rem == [];
    LoadingSize(bs, got, rem, rest);
    FileNotEmpty(rest);
    LoadingNext(bs, got, rest);
  }

  lemma LoadingNext(bs: seq<Block>, got: seq<Block>, rest: seq<Block>)
    requires Loading(bs, got, [], rest) && rest != []
    ensures |got| < |bs|
    ensures Loading(bs, got + [Block(rest[0].name, [])], rest[0].vals, rest[1..])
  {
    var more := got + [Block(rest[0].name, [])];
    var t := |got| - 1;
    assert more[..|got|] == got && rest == [rest[0]] + rest[1..];
    assert got != [] ==> got == got[..t] + [got[t]] && got[t].vals + [] == got[t].vals;
    assert [] + rest[0].vals == rest[0].vals;
    assert bs == got + rest;
  }

  lemma LoadingHeaded(bs: seq<Block>, got: seq<Block>, rem: seq<Text>, rest: seq<Block>)
    requires Loading(bs, got, rem, rest)
    ensures Headed(rest)
  {
    forall k | 0 <= k < |rest| ensures IsHeader(rest[k].name) {
      assert rest[k] == bs[|got| + k];
    }
  }

  lemma LoadingValue(bs: seq<Block>, got: seq<Block>, rem: seq<Text>, rest: seq<Block>, str: Text,
                     tail: seq<Text>, capacity: nat)
    requires Loading(bs, got, rem, rest) && [str] + tail == Indent(rem) + FileOf(rest)
    requires !IsHeader(str) && |FileOf(bs)| <= capacity
    ensures got != [] && rem != [] && StartsBlank(str) && tail == Indent(rem[1..]) + FileOf(rest)
    ensures |FileOf(got)| < capacity
    ensures Loading(bs, MoreValue(got, str[1..]), rem[1..], rest)
  {
    hide FileOf;
    NextLine(rem, rest, str, tail);
    LoadingSize(bs, got, rem, rest);
    LoadingHeaded(bs, got, rem, rest);
    var t := |got| - 1;
    assert str[1..] == rem[0] && got[t].vals + [rem[0]] + rem[1..] == got[t].vals + rem;
  }

  lemma LoadingEnds(bs: seq<Block>, got: seq<Block>, rem: seq<Text>, rest: seq<Block>, file: seq<Text>)
    requires Loading(bs, got, rem, rest)
    requires Plain(file[|file|..]) == Indent(rem) + FileOf(rest)
    ensures got == bs
  {
    hide FileOf;
    assert Plain(file[|file|..]) == [];
    IndentSize(rem);
    assert rest == [] by { if rest != [] { FileNotEmpty(rest); } }
    var t := |got| - 1;
    assert got != [] ==> got == got[..t] + [got[t]] && got[t].vals + rem == got[t].vals;
  }

  /** Loading skips exactly the lines that start with '+'. */
  lemma {:induction false} PlainKeeps(a: seq<Text>, l: Text, b: seq<Text>)
    ensures Plain(a + [l] + b) == Plain(a) + (if l != [] && l[0] == PLUS then [] else [l]) + Plain(b)
    decreases |a|
  {
    var all := a + [l] + b;
    if a == [] {
      assert all[0] == l && all[1..] == b;
    } else {
      assert all[1..] == a[1..] + [l] + b;
      PlainKeeps(a[1..], l, b);
    }
  }
}
