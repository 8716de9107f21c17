/** Replace or add one response of an item. */
module PartUpdate {
  import opened Text
  import opened Lines
  import opened Blocks
  import opened Partfiles
  import opened Repaging
  import opened ItemUpdates
  import opened TextBuffers
  import opened Directories
  import opened Opening
  import opened Responses
  import opened Reading

  /** The buffer holds the responses `bs`, and entry `r` is the last in memory. */
  ghost predicate Holding(t: Textbuf, bs: seq<Block>, r: int)
    reads t, t.line, t.rStart, t.rStop
  {
    && t.Valid() && 0 <= r < |bs| <= t.rStart.Length
    && (forall i :: 0 <= i < |bs| ==> t.Has(i, bs[i]))
    && t.rStop[r] == t.lUsed - 1
  }

  function WithLine(bs: seq<Block>, r: nat, v: Text): seq<Block>
    requires r < |bs|
  {
    bs[r := Block(bs[r].name, bs[r].vals + [v])]
  }

  /** Put a header at the end of the buffer as the first line of entry `r`. */
  method OpenEntry(t: Textbuf, r: int, header: Text, ghost bs: seq<Block>)
    requires t.Valid() && 0 <= r <= |bs| <= t.rStart.Length && r < t.rStart.Length && t.lUsed < t.line.Length
    requires forall i :: 0 <= i < |bs| && i != r ==> t.Has(i, bs[i])
    modifies t`lUsed, t.line, t.rStart, t.rStop
    ensures Holding(t, Replaced(bs, r, Block(header, [])), r) && t.lUsed == old(t.lUsed) + 1
    ensures t.rStart[r] == old(t.lUsed)
  {
    t.rStart[r] := t.lUsed;
    t.AddLine(r, header);
    assert forall i :: 0 <= i < |bs| && i != r ==> t.Has(i, bs[i]);
    assert t.Has(r, Block(header, []));
  }

  /** Add a line to entry `r`, the last in memory. */
  method AddValue(t: Textbuf, r: int, v: Text, ghost bs: seq<Block>)
    requires Holding(t, bs, r) && t.lUsed < t.line.Length
    modifies t`lUsed, t.line, t.rStop
    ensures Holding(t, WithLine(bs, r, v), r) && t.lUsed == old(t.lUsed) + 1
  {
    assert t.Has(r, bs[r]);
    t.AddLine(r, v);
    assert forall i :: 0 <= i < |bs| && i != r ==> t.Has(i, bs[i]);
    ghost var b := bs[r];
    assert t.line[t.rStart[r] + 1..t.rStop[r] + 1] == b.vals + [v];
    assert t.Has(r, Block(b.name, b.vals + [v]));
  }

  /** Header and title. */
  method OpenResponse(t: Textbuf, r: int, c: Change, ghost bs: seq<Block>) returns (lnum: int)
    requires t.Valid() && 0 <= r <= |bs| <= t.rStart.Length && r < t.rStart.Length && t.lUsed + 2 <= t.line.Length
    requires forall i :: 0 <= i < |bs| && i != r ==> t.Has(i, bs[i])
    modifies t`lUsed, t.line, t.rStart, t.rStop
    ensures Holding(t, Replaced(bs, r, Block(c.header, TitleLines(c.title))), r)
    ensures lnum == 1 + |TitleLines(c.title)| && t.lUsed == old(t.lUsed) + lnum
  {
    hide Holding;
    OpenEntry(t, r, c.header, bs);
    lnum := 1;
    if c.title.Title? {
      ghost var begun := Replaced(bs, r, Block(c.header, []));
      AddValue(t, r, c.title.text, begun);
      lnum := lnum + 1;
      assert [] + [c.title.text] == [c.title.text];
      assert WithLine(begun, r, c.title.text) == Replaced(bs, r, Block(c.header, [c.title.text]));
    }
  }

  /** The lines of the text still to come, when the next one is `line`. */
  lemma TextStep(text: Text, pos: nat, next: nat, line: Text)
    requires pos <= next <= |text| && LinesFrom(text, pos) == [line] + LinesFrom(text, next)
    ensures TrimAll(LinesFrom(text, pos)) == [Trim(line)] + TrimAll(LinesFrom(text, next))
  {
    hide LinesFrom;
    assert ([line] + LinesFrom(text, next))[1..] == LinesFrom(text, next);
  }

  /** Add the lines of `text`, trimmed, to entry `r`. */
  method AddText(t: Textbuf, r: int, text: Text, ghost bs: seq<Block>)
    requires Holding(t, bs, r) && t.lUsed + |LinesOf(text)| <= t.line.Length
    modifies t`lUsed, t.line, t.rStop
    ensures Holding(t, bs[r := Block(bs[r].name, bs[r].vals + TrimAll(LinesOf(text)))], r)
    ensures t.lUsed == old(t.lUsed) + |LinesOf(text)|
  {
    hide Holding, LinesFrom, TrimAll;
    HoldingIndex(t, bs, r);
    var pos := 0;
    ghost var done := [];
    ghost var cur := bs;
    assert bs[r].vals + [] == bs[r].vals;
    while true
      invariant 0 <= pos <= |text|
      invariant cur == bs[r := Block(bs[r].name, bs[r].vals + done)] && Holding(t, cur, r)
      invariant done + TrimAll(LinesFrom(text, pos)) == TrimAll(LinesOf(text))
      invariant t.lUsed + |LinesFrom(text, pos)| == old(t.lUsed) + |LinesOf(text)|
      decreases |text| - pos
    {
      var code, templine, next := ChxNextLine(text, pos);
      if code == 0 { break; }
      TextStep(text, pos, next, templine);
      templine := ChxTrim(templine);
      AddValue(t, r, templine, cur);
      assert bs[r].vals + done + [templine] == bs[r].vals + (done + [templine]);
      cur, done := WithLine(cur, r, templine), done + [templine];
      pos := next;
    }
    TrimNone();
    assert done + [] == done;
  }

  lemma HoldingIndex(t: Textbuf, bs: seq<Block>, r: int)
    requires Holding(t, bs, r)
    ensures 0 <= r < |bs|
  {
  }

  lemma TrimNone()
    ensures TrimAll([]) == []
  {
  }

  /** The response stays between the others of its partfile: take it out, move the text after
      it up, and put the new text behind. */
  method UpdateInside(t: Textbuf, r: int, c: Change, space: int, ghost bs: seq<Block>) returns (file: seq<Text>)
    requires t.Valid() && t.Packed(bs) && t.rUsed == |bs| && t.rLast == t.rFirst + |bs| - 1
    requires IsHeader(c.header) && 0 <= r < |bs| && space == Space(bs, r)
    requires StaysInside(bs, r, Need(c), t.lMax / 2)
    modifies t, t.line, t.rStart, t.rStop
    ensures t.Valid() && file == FileOf(Replaced(bs, r, NewBlock(c)))
    ensures t.lUsed < t.lMax / 2
  {
    hide FileOf, LinesOf, TrimAll, TitleLines, Textbuf.Has, StaysInside;
    InsideRoom(bs, r, c, t.lMax);
    if space > 0 { t.Compact(r, bs); }
    file := PutBehind(t, r, c, bs);
  }

  /** Put the new text of entry `r` behind the text of the other entries, and write them all. */
  method PutBehind(t: Textbuf, r: int, c: Change, ghost bs: seq<Block>) returns (file: seq<Text>)
    requires t.Valid() && 0 <= r < |bs| == t.rUsed <= t.rStart.Length
    requires forall i :: 0 <= i < |bs| && i != r ==> t.Has(i, bs[i])
    requires t.lUsed + 1 + |NewBlock(c).vals| <= t.line.Length && t.lUsed + 2 <= t.line.Length
    modifies t`lUsed, t.line, t.rStart, t.rStop
    ensures t.Valid() && file == FileOf(Replaced(bs, r, NewBlock(c)))
    ensures t.lUsed == old(t.lUsed) + 1 + |NewBlock(c).vals|
  {
    hide FileOf, Holding, LinesOf, TrimAll, TitleLines, Textbuf.Has;
    ghost var begun := bs[r := Block(c.header, TitleLines(c.title))];
    var lnum := OpenResponse(t, r, c, bs);
    AddText(t, r, c.text, begun);
    ghost var full := bs[r := NewBlock(c)];
    assert begun[r := NewBlock(c)] == full;
    HoldingAll(t, full, r);
    file := t.StoreText(0, t.rUsed - 1, full);
    assert full[0..t.rUsed] == full;
  }

  lemma InsideRoom(bs: seq<Block>, r: int, c: Change, capacity: nat)
    requires IsHeader(c.header) && 0 <= r < |bs| && StaysInside(bs, r, Need(c), capacity / 2)
    ensures |FileOf(bs)| - 1 - |bs[r].vals| + 1 + |NewBlock(c).vals| < capacity / 2
    ensures |FileOf(bs)| - 1 - |bs[r].vals| + 2 <= capacity
  {
    hide FileOf;
    NewBlockSized(c);
  }

  lemma HoldingAll(t: Textbuf, bs: seq<Block>, r: int)
    requires Holding(t, bs, r)
    ensures t.Valid() && forall i :: 0 <= i < |bs| ==> t.Has(i, bs[i])
  {
  }

  // ------------------------------------------------ a response at the end of the buffer

  /** The partfiles, when the lines `vs` still have to be added to the last of the responses
      `bs` in the buffer, which go to partfile `key`. */
  ghost function Flowed(disk: Disk, key: Key, bs: seq<Block>, resp: int, lnum: int, vs: seq<Text>, limit: int): Disk
    requires bs != []
    decreases |vs|
  {
    if vs == [] then disk[key := FileOf(bs)]
    else if |FileOf(bs)| + 1 > limit then
      Flowed(disk[key := FileOf(bs)], Key(resp, lnum), [Block([SPACE] + vs[0], [])], resp, lnum + 1, vs[1..], limit)
    else Flowed(disk, key, MoreValue(bs, vs[0]), resp, lnum + 1, vs[1..], limit)
  }

  lemma FlowedStep(disk: Disk, key: Key, bs: seq<Block>, resp: int, lnum: int, vs: seq<Text>, v: Text,
                   rest: seq<Text>, limit: int)
    requires bs != [] && vs == [v] + rest
    ensures Flowed(disk, key, bs, resp, lnum, vs, limit) ==
            if |FileOf(bs)| + 1 > limit
            then Flowed(disk[key := FileOf(bs)], Key(resp, lnum), [Block([SPACE] + v, [])], resp, lnum + 1, rest, limit)
            else Flowed(disk, key, MoreValue(bs, v), resp, lnum + 1, rest, limit)
  {
    hide FileOf;
    assert vs[1..] == rest;
  }

  /** How many of the lines find room. */
  function Fill(size: int, count: nat, limit: int): nat {
    if limit - size >= count then count else if limit >= size then limit - size else 0
  }

  function WithLines(bs: seq<Block>, us: seq<Text>): seq<Block>
    requires bs != []
  {
    bs[|bs| - 1 := Block(bs[|bs| - 1].name, bs[|bs| - 1].vals + us)]
  }

  lemma FileOfLines(bs: seq<Block>, us: seq<Text>)
    requires bs != []
    ensures |FileOf(WithLines(bs, us))| == |FileOf(bs)| + |us|
  {
    hide FileOf;
    var t := |bs| - 1;
    assert bs == bs[..t] + [bs[t]];
    assert WithLines(bs, us) == bs[..t] + [Block(bs[t].name, bs[t].vals + us)];
    FileSize(bs[..t], bs[t]);
    FileSize(bs[..t], Block(bs[t].name, bs[t].vals + us));
  }

  /** The lines dealt out: first to the responses in the buffer as long as there is room,
      then in pieces to partfiles named by the number of lines before them. */
  ghost function Dealt(disk: Disk, key: Key, bs: seq<Block>, resp: int, lnum: int, vs: seq<Text>, limit: int): Disk
    requires bs != [] && limit > 0
  {
    var m := Fill(|FileOf(bs)|, |vs|, limit);
    (disk + map[key := FileOf(WithLines(bs, vs[..m]))]) + MoreDisk(resp, lnum + m, Chunks(vs[m..], limit))
  }

  lemma {:induction false} FlowedIs(disk: Disk, key: Key, bs: seq<Block>, resp: int, lnum: int, vs: seq<Text>, limit: int)
    requires bs != [] && limit > 0
    ensures Flowed(disk, key, bs, resp, lnum, vs, limit) == Dealt(disk, key, bs, resp, lnum, vs, limit)
    decreases |vs|
  {
    hide FileOf, Dealt;
    if vs == [] {
      DealtNone(disk, key, bs, resp, lnum, limit);
    } else if |FileOf(bs)| + 1 > limit {
      FlowedIs(disk[key := FileOf(bs)], Key(resp, lnum), [Block([SPACE] + vs[0], [])], resp, lnum + 1, vs[1..], limit);
      DealtFull(disk, key, bs, resp, lnum, vs, limit);
    } else {
      FlowedIs(disk, key, MoreValue(bs, vs[0]), resp, lnum + 1, vs[1..], limit);
      DealtRoom(disk, key, bs, resp, lnum, vs, limit);
    }
  }

  lemma WithNone(bs: seq<Block>)
    requires bs != []
    ensures WithLines(bs, []) == bs
  {
    var t := |bs| - 1;
    assert bs[t].vals + [] == bs[t].vals;
  }

  lemma DealtNone(disk: Disk, key: Key, bs: seq<Block>, resp: int, lnum: int, limit: int)
    requires bs != [] && limit > 0
    ensures Dealt(disk, key, bs, resp, lnum, [], limit) == disk[key := FileOf(bs)]
  {
    hide FileOf, WithLines;
    WithNone(bs);
    var none: seq<Text> := [];
    var m := Fill(|FileOf(bs)|, 0, limit);
    assert m == 0 && none[..m] == [] && none[m..] == [];
  }

  lemma DealtFull(disk: Disk, key: Key, bs: seq<Block>, resp: int, lnum: int, vs: seq<Text>, limit: int)
    requires bs != [] && limit > 0 && vs != [] && |FileOf(bs)| + 1 > limit
    ensures Dealt(disk[key := FileOf(bs)], Key(resp, lnum), [Block([SPACE] + vs[0], [])], resp, lnum + 1, vs[1..], limit)
         == Dealt(disk, key, bs, resp, lnum, vs, limit)
  {
    hide FileOf, WithLines, MoreDisk, Chunks;
    var next := [Block([SPACE] + vs[0], [])];
    BlockSize(next[0]);
    var m := Fill(1, |vs| - 1, limit);
    WithNone(bs);
    assert Fill(|FileOf(bs)|, |vs|, limit) == 0 && vs[..0] == [] && vs[0..] == vs;
    PieceIs(resp, lnum, vs, m, limit);
    assert disk[key := FileOf(bs)] == disk + map[key := FileOf(bs)];
    MergeAssociates(disk + map[key := FileOf(bs)], map[Key(resp, lnum) := FileOf(WithLines(next, vs[1..][..m]))],
                    MoreDisk(resp, lnum + 1 + m, Chunks(vs[1..][m..], limit)));
  }

  lemma DealtRoom(disk: Disk, key: Key, bs: seq<Block>, resp: int, lnum: int, vs: seq<Text>, limit: int)
    requires bs != [] && limit > 0 && vs != [] && |FileOf(bs)| + 1 <= limit
    ensures Dealt(disk, key, MoreValue(bs, vs[0]), resp, lnum + 1, vs[1..], limit)
         == Dealt(disk, key, bs, resp, lnum, vs, limit)
  {
    hide FileOf, MoreDisk, Chunks, WithLines, MoreValue;
    var m := Fill(|FileOf(bs)|, |vs|, limit);
    MoreIsLonger(bs, vs, m);
    assert vs[1..][m - 1..] == vs[m..];
  }

  lemma MoreIsLonger(bs: seq<Block>, vs: seq<Text>, m: nat)
    requires bs != [] && 0 < m <= |vs|
    ensures |FileOf(MoreValue(bs, vs[0]))| == |FileOf(bs)| + 1
    ensures WithLines(MoreValue(bs, vs[0]), vs[1..][..m - 1]) == WithLines(bs, vs[..m])
  {
    hide FileOf;
    var t, more := |bs| - 1, MoreValue(bs, vs[0]);
    assert more == WithLines(bs, [vs[0]]);
    FileOfLines(bs, [vs[0]]);
    assert vs[1..][..m - 1] == vs[1..m];
    assert bs[t].vals + [vs[0]] + vs[1..m] == bs[t].vals + vs[..m];
    assert more[t].vals + vs[1..m] == bs[t].vals + vs[..m];
  }

  /** A continuation: its first line gets its blank before it is stored, the others when. */
  lemma PieceIs(resp: int, lnum: int, vs: seq<Text>, m: nat, limit: int)
    requires vs != [] && limit > 0 && m == Fill(1, |vs| - 1, limit)
    ensures map[Key(resp, lnum) := FileOf(WithLines([Block([SPACE] + vs[0], [])], vs[1..][..m]))]
            + MoreDisk(resp, lnum + 1 + m, Chunks(vs[1..][m..], limit)) ==
            MoreDisk(resp, lnum, Chunks(vs, limit))
  {
    hide FileOf, Indent, WithLines, MoreDisk, Chunks;
    PieceText(vs, m);
    assert vs[1..][m..] == vs[m + 1..];
    ChunksStep(vs, m + 1, limit);
    MoreStep(resp, lnum, vs[..m + 1], Chunks(vs[m + 1..], limit));
    assert lnum + |vs[..m + 1]| == lnum + 1 + m;
  }

  lemma PieceText(vs: seq<Text>, m: nat)
    requires m < |vs|
    ensures FileOf(WithLines([Block([SPACE] + vs[0], [])], vs[1..][..m])) == Indent(vs[..m + 1])
  {
    hide FileOf, Indent;
    var us := vs[1..][..m];
    assert [] + us == us;
    assert WithLines([Block([SPACE] + vs[0], [])], us) == [Block([SPACE] + vs[0], us)];
    FileOfOne(Block([SPACE] + vs[0], us));
    IndentCons(vs[0], us);
    assert [vs[0]] + us == vs[..m + 1];
  }

  lemma ChunksStep(vs: seq<Text>, n: nat, limit: int)
    requires vs != [] && limit > 0 && n == if |vs| <= limit then |vs| else limit
    ensures Chunks(vs, limit) == [vs[..n]] + Chunks(vs[n..], limit)
  {
    if |vs| <= limit { assert vs[..n] == vs && vs[n..] == []; }
  }

  lemma MoreStep(resp: int, lnum: int, piece: seq<Text>, more: seq<seq<Text>>)
    ensures MoreDisk(resp, lnum, [piece] + more)
         == map[Key(resp, lnum) := Indent(piece)] + MoreDisk(resp, lnum + |piece|, more)
  {
    hide Indent;
    assert ([piece] + more)[1..] == more;
  }

  /** The buffer holds `bs`, all of it in use. */
  ghost predicate Full(t: Textbuf, bs: seq<Block>, r: int)
    reads t, t.line, t.rStart, t.rStop
  {
    Holding(t, bs, r) && r == |bs| - 1 && t.lUsed == |FileOf(bs)|
  }

  /** Add a line to the response being written, in a new partfile if this one is full. */
  method PutLine(t: Textbuf, disk0: Disk, key0: Key, r0: int, resp: int, lnum: int, v: Text, limit: int,
                 ghost bs: seq<Block>)
    returns (disk: Disk, key: Key, r: int, ghost cur: seq<Block>)
    requires Full(t, bs, r0) && 0 < limit < t.line.Length
    modifies t`lUsed, t.line, t.rStart, t.rStop
    ensures Full(t, cur, r)
    ensures |FileOf(bs)| + 1 > limit ==>
              disk == disk0[key0 := FileOf(bs)] && key == Key(resp, lnum) && cur == [Block([SPACE] + v, [])]
    ensures |FileOf(bs)| + 1 <= limit ==> disk == disk0 && key == key0 && cur == MoreValue(bs, v)
  {
    hide FileOf, Holding;
    disk, key, r := disk0, key0, r0;
    HoldingAll(t, bs, r);
    HoldingIndex(t, bs, r);
    if t.lUsed + 1 > limit {
      var file := t.StoreText(0, r, bs);
      assert bs[0..r + 1] == bs;
      disk := disk[key := file];
      key := Key(resp, lnum);
      t.lUsed := 0;
      r := 0;
      cur := [Block([SPACE] + v, [])];
      OpenEntry(t, r, [SPACE] + v, []);
      assert Replaced([], 0, cur[0]) == cur;
      BlockSize(cur[0]);
    } else {
      AddValue(t, r, v, bs);
      cur := MoreValue(bs, v);
      MoreIsLonger(bs, [v], 1);
    }
  }

  /** Add the lines of the text to the last response in the buffer, and write the buffer to
      partfile `key0`, and to as many more as it takes. */
  method PutText(t: Textbuf, disk0: Disk, key0: Key, r0: int, resp: int, lnum0: int, text: Text, limit: int,
                 ghost bs: seq<Block>)
    returns (disk: Disk)
    requires Full(t, bs, r0) && 0 < limit < t.line.Length
    modifies t`lUsed, t.line, t.rStart, t.rStop
    ensures t.Valid() && bs != []
    ensures disk == Dealt(disk0, key0, bs, resp, lnum0, TrimAll(LinesOf(text)), limit)
  {
    hide FileOf, Full, LinesFrom, TrimAll, Flowed, Dealt;
    FullIndex(t, bs, r0);
    disk := disk0;
    var key, r, lnum, pos := key0, r0, lnum0, 0;
    ghost var cur := bs;
    while true
      invariant 0 <= pos <= |text| && cur != [] && Full(t, cur, r)
      invariant Flowed(disk, key, cur, resp, lnum, TrimAll(LinesFrom(text, pos)), limit)
             == Flowed(disk0, key0, bs, resp, lnum0, TrimAll(LinesOf(text)), limit)
      decreases |text| - pos
    {
      var code, templine, next := ChxNextLine(text, pos);
      if code == 0 { break; }
      TextStep(text, pos, next, templine);
      templine := ChxTrim(templine);
      FlowedStep(disk, key, cur, resp, lnum, TrimAll(LinesFrom(text, pos)), templine, TrimAll(LinesFrom(text, next)), limit);
      disk, key, r, cur := PutLine(t, disk, key, r, resp, lnum, templine, limit, cur);
      lnum := lnum + 1;
      pos := next;
    }
    TrimNone();
    FlowedNone(disk, key, cur, resp, lnum, limit);
    FlowedIs(disk0, key0, bs, resp, lnum0, TrimAll(LinesOf(text)), limit);
    FullIndex(t, cur, r);
    var file := t.StoreText(0, r, cur);
    disk := disk[key := file];
  }

  lemma FlowedNone(disk: Disk, key: Key, bs: seq<Block>, resp: int, lnum: int, limit: int)
    requires bs != []
    ensures Flowed(disk, key, bs, resp, lnum, [], limit) == disk[key := FileOf(bs)]
  {
  }

  lemma FullIndex(t: Textbuf, bs: seq<Block>, r: int)
    requires Full(t, bs, r)
    ensures t.Valid() && r == |bs| - 1 && bs != [] && bs[0..r + 1] == bs
    ensures forall i :: 0 <= i <= r ==> t.Has(i, bs[i])
  {
  }

  /** Add the response behind the responses `pre` that the buffer holds, or let it begin the
      partfile when there are none; then write everything out. */
  method AddLast(t: Textbuf, disk0: Disk, first: int, r: int, c: Change, ghost pre: seq<Block>)
    returns (disk: Disk)
    requires t.Valid() && IsHeader(c.header)
    requires r == |pre| < t.rStart.Length && t.lUsed == |FileOf(pre)| && t.lUsed + 2 <= t.line.Length
    requires forall i :: 0 <= i < |pre| ==> t.Has(i, pre[i])
    modifies t`lUsed, t.line, t.rStart, t.rStop
    ensures t.Valid() && Need(c) <= |NewBlock(c).vals|
    ensures disk == disk0 + Placed(first, pre, NewBlock(c), Need(c), t.lMax / 2 - 5)
  {
    hide FileOf, LinesOf, TrimAll, TitleLines, Dealt, Placed;
    var limit := t.lMax / 2 - 5;
    NewBlockSized(c);
    var lnum := OpenResponse(t, r, c, pre);
    ghost var b := Block(c.header, TitleLines(c.title));
    ghost var bs := pre + [b];
    assert Replaced(pre, r, b) == bs;
    FileSize(pre, b);
    disk := PutText(t, disk0, Key(first, 0), r, first + r, lnum, c.text, limit, bs);
    DealtIsPlaced(disk0, first, pre, c, limit);
  }

  lemma DealtIsPlaced(disk: Disk, first: int, pre: seq<Block>, c: Change, limit: int)
    requires limit > 0 && IsHeader(c.header) && Need(c) <= |NewBlock(c).vals|
    ensures Dealt(disk, Key(first, 0), pre + [Block(c.header, TitleLines(c.title))], first + |pre|,
                  1 + |TitleLines(c.title)|, TrimAll(LinesOf(c.text)), limit)
         == disk + Placed(first, pre, NewBlock(c), Need(c), limit)
  {
    hide FileOf, LinesOf, TrimAll, Chunks, MoreDisk;
    var b, us, vs := NewBlock(c), TitleLines(c.title), TrimAll(LinesOf(c.text));
    var bs := pre + [Block(c.header, us)];
    NewBlockSized(c);
    FileSize(pre, Block(c.header, us));
    var m := Fill(|FileOf(bs)|, |vs|, limit);
    var n := Held(|FileOf(pre)|, b, Need(c), limit);
    assert n == |us| + m;
    assert b.vals[..n] == us + vs[..m] && b.vals[n..] == vs[m..];
    assert WithLines(bs, vs[..m]) == pre + [Block(b.name, b.vals[..n])];
    MergeAssociates(disk, map[Key(first, 0) := FileOf(WithLines(bs, vs[..m]))],
                    MoreDisk(first + |pre|, 1 + n, Chunks(b.vals[n..], limit)));
  }

  // ------------------------------------------------ the four cases

  /** The partfile of response `first` is in the buffer, and the response to update is, or
      becomes, its entry `r`. */
  ghost predicate Loaded(t: Textbuf, first: int, r: int, bs: seq<Block>)
    reads t, t.line, t.rStart, t.rStop
  {
    && t.Valid() && t.Packed(bs) && t.rUsed == |bs| && t.rFirst == first
    && t.rLast == first + |bs| - 1 && 0 <= r <= |bs| && r < t.rStart.Length
    && |FileOf(bs)| <= t.lMax / 2 - 5
  }

  /** Responses after it go to a partfile of their own. */
  method SplitOff(t: Textbuf, disk0: Disk, first: int, r: int, ghost bs: seq<Block>) returns (disk: Disk)
    requires Loaded(t, first, r, bs)
    modifies t`rLast
    ensures disk == disk0 + TailDisk(first, bs, r)
    ensures r < |bs| ==> t.rLast == first + r
    ensures r == |bs| ==> t.rLast == first + r - 1
  {
    hide FileOf, Textbuf.Has;
    disk := disk0;
    if first + r < t.rLast {
      var file := t.StoreText(r + 1, t.rUsed - 1, bs);
      assert bs[r + 1..t.rUsed] == bs[r + 1..];
      disk := disk[Key(t.rFirst + r + 1, 0) := file];
      t.rLast := t.rFirst + r;
    }
  }

  lemma SpaceIs(t: Textbuf, first: int, r: int, bs: seq<Block>)
    requires Loaded(t, first, r, bs)
    ensures r < |bs| ==> t.rStart[r] == Start(bs, r) && t.rStop[r] - t.rStart[r] + 1 == Space(bs, r)
    ensures r == |bs| ==> t.lUsed == Start(bs, r) && Space(bs, r) == 0
    ensures Start(bs, r) + 2 <= t.line.Length && Start(bs, r) <= t.lUsed
    ensures forall i :: 0 <= i < r ==> t.Has(i, bs[i]) && t.rStop[i] < Start(bs, r)
  {
    hide FileOf;
    SplitSize(bs, r);
    assert r < |bs| ==> t.Has(r, bs[r]);
    forall i | 0 <= i < r ensures t.Has(i, bs[i]) && t.rStop[i] < Start(bs, r) {
      StartsGrow(bs, i);
    }
  }

  /** Drop entry `r` and everything behind it from the buffer, adding the entry if it is new. */
  method CutBack(t: Textbuf, first: int, r: int, ghost bs: seq<Block>) returns (space: int)
    requires t.Valid() && 0 <= r <= |bs| && r < t.rStart.Length && t.rFirst == first
    requires r < |bs| ==> t.rLast == first + r
    requires r == |bs| ==> t.rLast == first + r - 1 && t.lUsed == Start(bs, r)
    requires r < |bs| ==> t.rStart[r] == Start(bs, r) <= t.lUsed && t.rStop[r] - t.rStart[r] + 1 == Space(bs, r)
    requires forall i :: 0 <= i < r ==> t.Has(i, bs[i]) && t.rStop[i] < Start(bs, r)
    modifies t`lUsed, t`rLast, t.rStart, t.rStop
    ensures t.Valid() && t.lUsed == Start(bs, r) && space == Space(bs, r)
    ensures forall i :: 0 <= i < r ==> t.Has(i, bs[i])
  {
    hide FileOf;
    if first + r > t.rLast {
      t.rLast := first + r;
      t.rStart[r] := t.lUsed;
      t.rStop[r] := t.lUsed - 1;
    }
    t.lUsed := t.rStart[r];
    space := t.rStop[r] - t.rStart[r] + 1;
  }

  /** The response is the last in the buffer: put it behind the others, or write those out and
      let it begin a partfile. */
  method UpdateLast(t: Textbuf, disk0: Disk, first: int, r: int, c: Change, needslines: nat, space: int,
                    ghost bs: seq<Block>)
    returns (disk: Disk)
    requires t.Valid() && IsHeader(c.header) && 0 <= r <= |bs| && r < t.rStart.Length
    requires needslines == Need(c) && space == Space(bs, r)
    requires t.lUsed == Start(bs, r) && t.lUsed + 2 <= t.line.Length
    requires forall i :: 0 <= i < r ==> t.Has(i, bs[i])
    modifies t`lUsed, t.line, t.rStart, t.rStop
    ensures t.Valid() && Need(c) <= |NewBlock(c).vals|
    ensures var most := t.lMax / 2;
            var b := NewBlock(c);
            disk == disk0 + if Moves(bs, r, Need(c), most)
                            then map[Key(first, 0) := FileOf(bs[..r])] + Placed(first + r, [], b, Need(c), most - 5)
                            else Placed(first, bs[..r], b, Need(c), most - 5)
  {
    hide FileOf, Textbuf.Has, Placed, Need, NewBlock;
    disk := disk0;
    var most := t.lMax / 2;
    var fits := needslines < most - t.lUsed + space - 10;
    if !fits && r > 0 {
      var file := t.StoreText(0, r - 1, bs);
      assert bs[0..r] == bs[..r];
      disk := disk[Key(first, 0) := file];
      t.lUsed := 0;
      EmptyFile();
      disk := AddLast(t, disk, first + r, 0, c, []);
      MergeAssociates(disk0, map[Key(first, 0) := file], Placed(first + r, [], NewBlock(c), Need(c), most - 5));
    } else {
      disk := AddLast(t, disk, first, r, c, bs[..r]);
    }
  }

  method UpdateLoaded(t: Textbuf, disk0: Disk, first: int, r: int, c: Change, ghost bs: seq<Block>)
    returns (disk: Disk)
    requires Loaded(t, first, r, bs) && IsHeader(c.header)
    modifies t, t.line, t.rStart, t.rStop
    ensures t.Valid() && Need(c) <= |NewBlock(c).vals|
    ensures disk == disk0 + Writes(first, bs, r, NewBlock(c), Need(c), t.lMax / 2)
  {
    hide FileOf, Textbuf.Has, Placed, NewBlock, TailDisk, Moves;
    var needslines := CountLines(c.text);
    var most := t.lMax / 2;
    NewBlockSized(c);
    SpaceIs(t, first, r, bs);
    if first + r < t.rLast {
      var space := t.rStop[r] - t.rStart[r] + 1;
      var fits := needslines < most - t.lUsed + space - 10;
      if fits {
        var file := UpdateInside(t, r, c, space, bs);
        disk := disk0[Key(first, 0) := file];
        return;
      }
    }
    disk := UpdateOutside(t, disk0, first, r, c, needslines, bs);
  }

  /** The response becomes the last one in the buffer. */
  method UpdateOutside(t: Textbuf, disk0: Disk, first: int, r: int, c: Change, needslines: nat, ghost bs: seq<Block>)
    returns (disk: Disk)
    requires Loaded(t, first, r, bs) && IsHeader(c.header) && needslines == Need(c)
    requires !StaysInside(bs, r, Need(c), t.lMax / 2)
    modifies t, t.line, t.rStart, t.rStop
    ensures t.Valid() && Need(c) <= |NewBlock(c).vals|
    ensures disk == disk0 + Writes(first, bs, r, NewBlock(c), Need(c), t.lMax / 2)
  {
    hide FileOf, Textbuf.Has, Placed, NewBlock, TailDisk, Moves, Writes, StaysInside, Need;
    SpaceIs(t, first, r, bs);
    disk := SplitOff(t, disk0, first, r, bs);
    var space := CutBack(t, first, r, bs);
    disk := UpdateLast(t, disk, first, r, c, needslines, space, bs);
    UpdatedOver(disk0, first, bs, r, c, t.lMax / 2);
  }

  lemma UpdatedOver(disk: Disk, first: int, bs: seq<Block>, r: int, c: Change, most: int)
    requires 0 <= r <= |bs| && Need(c) <= |NewBlock(c).vals| && most > 5 && !StaysInside(bs, r, Need(c), most)
    ensures (disk + TailDisk(first, bs, r))
            + (if Moves(bs, r, Need(c), most)
               then map[Key(first, 0) := FileOf(bs[..r])] + Placed(first + r, [], NewBlock(c), Need(c), most - 5)
               else Placed(first, bs[..r], NewBlock(c), Need(c), most - 5))
         == disk + Writes(first, bs, r, NewBlock(c), Need(c), most)
  {
    hide FileOf, Placed, NewBlock, TailDisk, Moves;
    var w := if Moves(bs, r, Need(c), most)
             then map[Key(first, 0) := FileOf(bs[..r])] + Placed(first + r, [], NewBlock(c), Need(c), most - 5)
             else Placed(first, bs[..r], NewBlock(c), Need(c), most - 5);
    MergeAssociates(disk, TailDisk(first, bs, r), w);
  }

  /** The partfiles after response `n` is changed. */
  ghost function Changed(base: int, pages: seq<Page>, n: int, c: Change, most: int): Disk
    requires PagesOk(pages, most - 5) && 0 <= n <= Count(pages) && IsHeader(c.header) && most > 6
  {
    WhereIs(pages, n, most - 5);
    NewBlockSized(c);
    DiskAfter(base, pages, n, NewBlock(c), Need(c), most)
  }

  /** Replace response `resp` of an item by header, title and text, or add it at the end.  The
      test whether the item is to be frozen, for having too many partfiles, never succeeds. */
  method UpdatePart(store: PartStore, t: Textbuf, resp: int, c: Change, ghost base: int, ghost pages: seq<Page>)
    returns (freeze: bool)
    requires t.Valid() && IsHeader(c.header)
    requires store.disk == LayoutDisk(base, pages) && PagesOk(pages, t.lMax / 2 - 5)
    requires |store.disk| <= LISTED
    requires 0 <= resp - base <= Count(pages)
    requires Within(pages, resp - base) < t.rStart.Length
    requires |RespsAt(pages, Where(pages, resp - base))| <= t.rStart.Length
    modifies store, t, t.line, t.rStart, t.rStop
    ensures t.Valid() && !freeze
    ensures store.disk == Changed(base, pages, resp - base, c, t.lMax / 2)
  {
    hide FileOf, NewBlock, Need, DiskAfter, Writes, LayoutDisk, Count, Where, Opened, PagesOk, Loaded;
    ghost var n := resp - base;
    ghost var most, j := t.lMax / 2, Where(pages, n);
    WhereIs(pages, n, most - 5);
    var parts := LoadPart(store, t, resp, base, pages);
    LoadedAt(t, NumberAt(base, pages, j), Within(pages, n), RespsAt(pages, j));
    var after := UpdateLoaded(t, store.disk, t.rFirst, resp - t.rFirst, c, RespsAt(pages, j));
    WrittenOver(base, pages, n, NewBlock(c), Need(c), most);
    store.disk := after;
    freeze := parts >= PDIRMAX;
  }

  lemma LoadedAt(t: Textbuf, first: int, r: int, bs: seq<Block>)
    requires Loaded(t, first, r, bs)
    ensures t.rFirst == first
  {
  }

  /** Find and load the partfile for response `resp`, and remove what it makes obsolete. */
  method LoadPart(store: PartStore, t: Textbuf, resp: int, ghost base: int, ghost pages: seq<Page>)
    returns (parts: int)
    requires t.Valid()
    requires store.disk == LayoutDisk(base, pages) && PagesOk(pages, t.lMax / 2 - 5)
    requires |store.disk| <= LISTED
    requires 0 <= resp - base <= Count(pages)
    requires Within(pages, resp - base) < t.rStart.Length
    requires |RespsAt(pages, Where(pages, resp - base))| <= t.rStart.Length
    modifies store, t, t.line, t.rStart, t.rStop
    ensures parts < PDIRMAX
    ensures var j := Where(pages, resp - base);
            && store.disk == Opened(base, pages, j)
            && Loaded(t, NumberAt(base, pages, j), Within(pages, resp - base), RespsAt(pages, j))
  {
    hide FileOf, LayoutDisk, Count, Where, Opened, OpensAt, Trimmed, PagesOk;
    ghost var n, limit := resp - base, t.lMax / 2 - 5;
    ghost var j := Where(pages, n);
    WhereIs(pages, n, limit);
    PagesOkParts(pages, j, limit);
    var key;
    ghost var seen;
    key, parts, seen := store.OpenPart(resp);
    ListingComplete(old(store.disk), seen);
    TrimmedAll(seen, key);
    OpensLayout(base, pages, n, limit, key);
    TrimmedLayout(base, pages, j, limit);
    OpenedText(base, pages, j, limit);
    t.LoadText(store.disk, key, RespsAt(pages, j));
  }

  /** What the buffer is loaded from. */
  lemma OpenedText(base: int, pages: seq<Page>, j: nat, limit: int)
    requires PagesOk(pages, limit) && j <= |pages|
    ensures var key := Key(NumberAt(base, pages, j), 0);
            var disk := Opened(base, pages, j);
            && (key in disk <==> j < |pages|)
            && (j < |pages| ==> disk[key] == FileOf(pages[j].resps) == Plain(disk[key]))
  {
    hide FileOf, LayoutDisk, Plain;
    var first := NumberAt(base, pages, j);
    PagesOkParts(pages, j, limit);
    LayoutKeys(base, pages[..j], limit);
    LayoutKeys(first + |RespsAt(pages, j)|, After(pages, j), limit);
    EmptyLayout(first + |RespsAt(pages, j)|, After(pages, j));
    if j < |pages| {
      assert PageOk(pages[j], limit);
      AlreadyPlain(pages[j].resps);
    }
  }

  lemma {:induction false} AlreadyPlain(bs: seq<Block>)
    requires Headed(bs)
    ensures Plain(FileOf(bs)) == FileOf(bs)
  {
    if bs != [] {
      AlreadyPlain(bs[1..]);
      PlainIndent(bs[0].vals, FileOf(bs[1..]));
      assert FileOf(bs)[1..] == Indent(bs[0].vals) + FileOf(bs[1..]);
    }
  }

  lemma {:induction false} PlainIndent(vs: seq<Text>, rest: seq<Text>)
    requires Plain(rest) == rest
    ensures Plain(Indent(vs) + rest) == Indent(vs) + rest
    decreases |vs|
  {
    if vs == [] {
      assert Indent(vs) + rest == rest;
    } else {
      PlainIndent(vs[1..], rest);
      IndentThen(vs, rest);
      var all := Indent(vs) + rest;
      assert all[0] == [SPACE] + vs[0] && all[1..] == Indent(vs[1..]) + rest;
    }
  }

  // ------------------------------------------------ what it comes to

  /** Reading the partfiles in order afterwards gives the old responses with this one replaced
      by header, title and trimmed lines, or added: always, even if it was misjudged. */
  lemma ChangedReads(base: int, pages: seq<Page>, n: int, c: Change, most: int, dir: seq<Key>)
    requires PagesOk(pages, most - 5) && 0 <= n <= Count(pages) && IsHeader(c.header) && most > 6
    requires Lists(dir, Changed(base, pages, n, c, most))
    ensures |Content(pages)| == Count(pages)
    ensures ReadAll(Changed(base, pages, n, c, most), dir) == FileOf(Replaced(Content(pages), n, NewBlock(c)))
  {
    hide FileOf, NewBlock, Need, DiskAfter, LayoutDisk, Count, Where, Within, PagesOk, Updated, Misplaced, Content,
         Lists, ReadAll;
    NewBlockSized(c);
    WhereIs(pages, n, most - 5);
    if Misplaced(pages, n, NewBlock(c), Need(c), most) {
      TornReads(base, pages, n, NewBlock(c), Need(c), most, dir);
    } else {
      UpdatedDisk(base, pages, n, NewBlock(c), Need(c), most);
      UpdatedContent(pages, n, NewBlock(c), Need(c), most);
      ReadsBack(base, Updated(pages, n, NewBlock(c), Need(c), most), most - 5, dir);
    }
  }

  /** For a response that is new, or first in its partfile, the partfiles are a layout again. */
  lemma NewOrFirstIsLayout(base: int, pages: seq<Page>, n: int, c: Change, most: int)
    requires PagesOk(pages, most - 5) && 0 <= n <= Count(pages) && IsHeader(c.header) && most > 6
    requires n == Count(pages) || Within(pages, n) == 0
    ensures IsLayout(Changed(base, pages, n, c, most), most - 5)
  {
    hide FileOf, NewBlock, Need, DiskAfter, LayoutDisk, Count, Where, Within, PagesOk, Misplaced, IsLayout;
    NewBlockSized(c);
    NewOrFirstIsPlaced(pages, n, NewBlock(c), Need(c), most);
    LayoutIff(base, pages, n, NewBlock(c), Need(c), most);
  }
}
