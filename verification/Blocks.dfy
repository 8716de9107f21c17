/** Files made of blocks: a line that does not start with a blank, then lines that do. */
module Blocks {
  import opened Text

  predicate StartsBlank(l: Text) {
    l != [] && l[0] == SPACE
  }

  function Indent(ls: seq<Text>): seq<Text> {
    if ls == [] then [] else [[SPACE] + ls[0]] + Indent(ls[1..])
  }

  lemma IndentCons(l: Text, ls: seq<Text>)
    ensures Indent([l] + ls) == [[SPACE] + l] + Indent(ls)
  {
    assert ([l] + ls)[1..] == ls;
  }

  datatype Block = Block(name: Text, vals: seq<Text>)

  /** The lines of a block, and whatever follows it. */
  function BlockThen(b: Block, rest: seq<Text>): seq<Text> {
    [b.name] + (Indent(b.vals) + rest)
  }

  function FileOf(bs: seq<Block>): seq<Text> {
    if bs == [] then [] else BlockThen(bs[0], FileOf(bs[1..]))
  }

  lemma IndentThen(vs: seq<Text>, rest: seq<Text>)
    requires vs != []
    ensures Indent(vs) + rest == [[SPACE] + vs[0]] + (Indent(vs[1..]) + rest)
  {
  }

  /** The run of value lines at the start, without their blanks. */
  function ValueLines(lines: seq<Text>): seq<Text> {
    if lines == [] || !StartsBlank(lines[0]) then [] else [lines[0][1..]] + ValueLines(lines[1..])
  }

  lemma {:induction false} ValueOfBlock(vs: seq<Text>, rest: seq<Text>)
    requires rest == [] || !StartsBlank(rest[0])
    ensures ValueLines(Indent(vs) + rest) == vs
    decreases |vs|
  {
    if vs == [] {
      assert Indent(vs) + rest == rest;
    } else {
      ValueOfBlock(vs[1..], rest);
      var tail := Indent(vs[1..]) + rest;
      IndentThen(vs, rest);
      var lines := Indent(vs) + rest;
      assert lines[0] == [SPACE] + vs[0] && lines[0][1..] == vs[0] && lines[1..] == tail;
      assert vs == [vs[0]] + vs[1..];
    }
  }

  ghost predicate NamesPlain(bs: seq<Block>) {
    forall k :: 0 <= k < |bs| ==> !StartsBlank(bs[k].name)
  }

  /** The last block with one more value line. */
  function MoreValue(bs: seq<Block>, v: Text): seq<Block>
    requires bs != []
  {
    bs[|bs| - 1 := Block(bs[|bs| - 1].name, bs[|bs| - 1].vals + [v])]
  }

  lemma {:induction false} IndentConcat(a: seq<Text>, b: seq<Text>)
    ensures Indent(a + b) == Indent(a) + Indent(b)
  {
    if a == [] {
      assert a + b == b;
    } else {
      assert (a + b)[1..] == a[1..] + b;
      IndentConcat(a[1..], b);
    }
  }

  lemma {:induction false} FileOfConcat(a: seq<Block>, b: seq<Block>)
    ensures FileOf(a + b) == FileOf(a) + FileOf(b)
  {
    if a == [] {
      assert a + b == b;
    } else {
      assert (a + b)[1..] == a[1..] + b;
      FileOfConcat(a[1..], b);
    }
  }

  lemma FileOfOne(b: Block)
    ensures FileOf([b]) == [b.name] + Indent(b.vals)
  {
    assert [b][1..] == [];
    assert Indent(b.vals) + [] == Indent(b.vals);
  }

  lemma IndentSize(vs: seq<Text>)
    ensures |Indent(vs)| == |vs|
  {
  }

  lemma BlockSize(b: Block)
    ensures |FileOf([b])| == 1 + |b.vals|
  {
    FileOfOne(b);
    IndentSize(b.vals);
  }

  lemma FileSize(pre: seq<Block>, b: Block)
    ensures |FileOf(pre + [b])| == |FileOf(pre)| + 1 + |b.vals|
  {
    FileOfConcat(pre, [b]);
    BlockSize(b);
  }

  lemma FileOfSnoc(bs: seq<Block>, line: Text)
    ensures FileOf(bs + [Block(line, [])]) == FileOf(bs) + [line]
  {
    FileOfConcat(bs, [Block(line, [])]);
    FileOfOne(Block(line, []));
  }

  lemma FileOfMore(bs: seq<Block>, line: Text)
    requires bs != [] && StartsBlank(line)
    ensures FileOf(MoreValue(bs, line[1..])) == FileOf(bs) + [line]
  {
    var t := |bs| - 1;
    var b := Block(bs[t].name, bs[t].vals + [line[1..]]);
    assert bs == bs[..t] + [bs[t]] && MoreValue(bs, line[1..]) == bs[..t] + [b];
    FileOfConcat(bs[..t], [bs[t]]);
    FileOfConcat(bs[..t], [b]);
    FileOfOne(bs[t]);
    FileOfOne(b);
    IndentConcat(bs[t].vals, [line[1..]]);
    assert Indent([line[1..]]) == [line] by {
      assert [SPACE] + line[1..] == line;
    }
  }

  /** A file is made of blocks in one way only. */
  lemma {:induction false} FileOfInjective(a: seq<Block>, b: seq<Block>)
    requires NamesPlain(a) && NamesPlain(b) && FileOf(a) == FileOf(b)
    ensures a == b
    decreases |a|
  {
    if a != [] && b != [] {
      var ra, rb := FileOf(a[1..]), FileOf(b[1..]);
      assert ra == [] || ra[0] == a[1].name;
      assert rb == [] || rb[0] == b[1].name;
      ValueOfBlock(a[0].vals, ra);
      ValueOfBlock(b[0].vals, rb);
      assert FileOf(a)[0] == a[0].name && FileOf(b)[0] == b[0].name;
      assert FileOf(a)[1..] == Indent(a[0].vals) + ra && FileOf(b)[1..] == Indent(b[0].vals) + rb;
      assert a[0] == b[0];
      SameSuffix(Indent(a[0].vals), ra, rb);
      FileOfInjective(a[1..], b[1..]);
      assert a == [a[0]] + a[1..] && b == [b[0]] + b[1..];
    }
  }

  lemma SameSuffix(p: seq<Text>, a: seq<Text>, b: seq<Text>)
    requires p + a == p + b
    ensures a == b
  {
    assert (p + a)[|p|..] == a && (p + b)[|p|..] == b;
  }
}
