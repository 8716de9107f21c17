/** Variable files: a line with the name, then the lines of the value, each after a blank. */
module VarFiles {
  import opened Text
  import opened Lines
  import opened Blocks

  datatype Status = Ok | BadArg | NoFile

  predicate NameOk(n: Text) {
    n != [] && n[0] != SPACE && NoNewline(n)
  }

  // ------------------------------------------------------------- a_chg_var

  /** What is left of the lines when the definition of `name` is taken out; `skip` says
      whether the line before was taken out. */
  function Kept(lines: seq<Text>, name: Text, skip: bool): seq<Text> {
    if lines == [] then []
    else
      var skip' := Skips(lines[0], name, skip);
      (if skip' then [] else [lines[0]]) + Kept(lines[1..], name, skip')
  }

  function Skips(line: Text, name: Text, skip: bool): bool {
    if line == name then true else if !StartsBlank(line) then false else skip
  }

  lemma KeptCons(l: Text, rest: seq<Text>, name: Text, skip: bool)
    ensures Kept([l] + rest, name, skip)
            == (if Skips(l, name, skip) then [] else [l]) + Kept(rest, name, Skips(l, name, skip))
  {
    assert ([l] + rest)[1..] == rest;
  }

  /** The file after a change: the new definition, unless empty, before what is kept. */
  function Changed(lines: seq<Text>, name: Text, value: Text, junk: bool): seq<Text> {
    (if value == [] then [] else [name] + Indent(LinesOf(value))) + Kept(lines, name, junk)
  }

  /** The lines of a value, each after a blank. */
  method WriteValue(value: Text) returns (out: seq<Text>)
    ensures out == Indent(LinesOf(value))
  {
    hide LinesFrom;
    out := [];
    var pos := 0;
    ghost var all := Indent(LinesOf(value));
    while true
      invariant 0 <= pos <= |value|
      invariant all == out + Indent(LinesFrom(value, pos))
      decreases |value| - pos
    {
      var code, line, newpos := ChxNextLine(value, pos);
      if code == 0 { break; }
      IndentCons(line, LinesFrom(value, newpos));
      out := out + [[SPACE] + line];
      pos := newpos;
    }
  }

  /** The old lines, without the definition of `vname`, after `out`. */
  method CopyOthers(lines: seq<Text>, vname: Text, junk: bool, top: seq<Text>) returns (out: seq<Text>)
    ensures out == top + Kept(lines, vname, junk)
  {
    out := top;
    var skip := junk;
    var i := 0;
    while i < |lines|
      invariant 0 <= i <= |lines|
      invariant top + Kept(lines, vname, junk) == out + Kept(lines[i..], vname, skip)
    {
      var line := lines[i];
      KeptCons(line, lines[i + 1..], vname, skip);
      assert lines[i..] == [line] + lines[i + 1..];
      i := i + 1;
      if line == vname { skip := true; } else if !StartsBlank(line) { skip := false; }
      if skip { continue; }
      out := out + [line];
    }
  }

  /** One variable file; it need not exist. */
  class VarFile {
    var exists_: bool
    var lines: seq<Text>

    constructor ()
      ensures !exists_ && lines == []
    {
      exists_, lines := false, [];
    }

    /** `a_chg_var`.  `junk` is the value the flag `skip` happens to have at the start. */
    method ChgVar(vname: Text, value: Text, junk: bool) returns (status: Status)
      modifies this
      ensures vname == [] ==> status == BadArg && lines == old(lines) && exists_ == old(exists_)
      ensures vname != [] ==> status == Ok && exists_
                              && lines == Changed(if old(exists_) then old(lines) else [], vname, value, junk)
    {
      if vname == [] { return BadArg; }
      var out: seq<Text> := [];
      if value != [] {
        var vs := WriteValue(value);
        out := [vname] + vs;
      }
      if exists_ {
        out := CopyOthers(lines, vname, junk, out);
      }
      lines := out;
      exists_ := true;
      status := Ok;
    }

    /** `a_get_var`: the value, empty if the variable is not there. */
    method GetVar(vname: Text) returns (status: Status, value: Text)
      ensures vname == [] ==> status == BadArg && value == []
      ensures vname != [] ==> status == (if exists_ then Ok else NoFile)
      ensures vname != [] && exists_ ==> value == Found(lines, vname)
      ensures !exists_ ==> value == []
    {
      if vname == [] { return BadArg, []; }
      if !exists_ { return NoFile, []; }
      value := ReadValue(lines, vname);
      status := Ok;
    }
  }

  /** The value that follows the first line that is `name`. */
  function Found(lines: seq<Text>, name: Text): Text {
    if lines == [] then []
    else if lines[0] == name then Join(ValueLines(lines[1..]))
    else Found(lines[1..], name)
  }

  /** The read loop of `a_get_var`: `found` is 1 after the name, 2 after a value line. */
  method ReadValue(lines: seq<Text>, vname: Text) returns (value: Text)
    ensures value == Found(lines, vname)
  {
    value := [];
    var found, i := 0, 0;
    ghost var got: seq<Text> := [];
    assert lines[0..] == lines;
    while i < |lines|
      invariant 0 <= i <= |lines| && 0 <= found <= 2
      invariant found == 0 ==> Found(lines[i..], vname) == Found(lines, vname)
      invariant found > 0 ==> Found(lines, vname) == Join(got + ValueLines(lines[i..]))
      invariant found == 2 <==> got != []
      invariant value == Join(got)
    {
      var line := lines[i];
      assert lines[i..][1..] == lines[i + 1..];
      if found == 0 {
        if line == vname {
          found := 1;
          assert [] + ValueLines(lines[i + 1..]) == ValueLines(lines[i + 1..]);
        }
      } else {
        if !StartsBlank(line) { break; }
        if found == 2 { value := value + [NEWLINE]; }
        if got != [] { JoinSnoc(got, line[1..]); }
        assert got + ([line[1..]] + ValueLines(lines[i + 1..])) == got + [line[1..]] + ValueLines(lines[i + 1..]);
        value := value + line[1..];
        got := got + [line[1..]];
        found := 2;
      }
      i := i + 1;
    }
    assert found > 0 ==> ValueLines(lines[i..]) == [];
    assert got + [] == got;
  }

  // ------------------------------------------------------------- the file as a map

  ghost predicate BlocksOk(bs: seq<Block>) {
    && (forall k :: 0 <= k < |bs| ==> NameOk(bs[k].name) && bs[k].vals != [])
    && (forall j, k :: 0 <= j < k < |bs| ==> bs[j].name != bs[k].name)
  }

  function MapOf(bs: seq<Block>): map<Text, Text> {
    if bs == [] then map[] else MapOf(bs[1..])[bs[0].name := Join(bs[0].vals)]
  }

  function Without(bs: seq<Block>, name: Text): seq<Block> {
    if bs == [] then []
    else if bs[0].name == name then Without(bs[1..], name)
    else [bs[0]] + Without(bs[1..], name)
  }

  /** Value lines go the way of the line before. */
  lemma {:induction false} KeptValue(vs: seq<Text>, rest: seq<Text>, name: Text, skip: bool)
    requires NameOk(name)
    ensures Kept(Indent(vs) + rest, name, skip) == (if skip then [] else Indent(vs)) + Kept(rest, name, skip)
    decreases |vs|
  {
    if vs == [] {
      assert Indent(vs) + rest == rest;
    } else {
      hide Kept;
      IndentThen(vs, rest);
      KeptValue(vs[1..], rest, name, skip);
      KeptCons([SPACE] + vs[0], Indent(vs[1..]) + rest, name, skip);
    }
  }

  lemma KeptBlock(b: Block, rest: seq<Text>, name: Text, skip: bool)
    requires NameOk(name) && NameOk(b.name)
    ensures Kept(BlockThen(b, rest), name, skip)
            == if b.name == name then Kept(rest, name, true) else BlockThen(b, Kept(rest, name, false))
  {
    hide Kept, Indent;
    KeptCons(b.name, Indent(b.vals) + rest, name, skip);
    KeptValue(b.vals, rest, name, b.name == name);
  }

  /** Taking a definition out of a file of blocks takes its block out, whatever the flag was. */
  lemma {:induction false} KeptBlocks(bs: seq<Block>, name: Text, skip: bool)
    requires NameOk(name) && forall k :: 0 <= k < |bs| ==> NameOk(bs[k].name)
    ensures Kept(FileOf(bs), name, skip) == FileOf(Without(bs, name))
    decreases |bs|
  {
    if bs != [] {
      hide Kept, BlockThen;
      KeptBlock(bs[0], FileOf(bs[1..]), name, skip);
      KeptBlocks(bs[1..], name, bs[0].name == name);
      if bs[0].name != name {
        assert ([bs[0]] + Without(bs[1..], name))[1..] == Without(bs[1..], name);
      }
    }
  }

  lemma {:induction false} WithoutKeeps(bs: seq<Block>, name: Text, b: Block)
    ensures b in Without(bs, name) <==> b in bs && b.name != name
  {
    if bs != [] {
      WithoutKeeps(bs[1..], name, b);
      assert b in bs <==> b == bs[0] || b in bs[1..];
    }
  }

  lemma {:induction false} WithoutOk(bs: seq<Block>, name: Text)
    requires BlocksOk(bs)
    ensures BlocksOk(Without(bs, name))
    ensures forall k :: 0 <= k < |Without(bs, name)| ==> Without(bs, name)[k].name != name
  {
    if bs != [] {
      assert BlocksOk(bs[1..]);
      WithoutOk(bs[1..], name);
      var w := Without(bs[1..], name);
      if bs[0].name != name {
        forall k | 0 <= k < |w|
          ensures w[k].name != bs[0].name
        {
          WithoutKeeps(bs[1..], name, w[k]);
          var j :| 0 <= j < |bs[1..]| && bs[1..][j] == w[k];
          assert bs[j + 1] == w[k];
        }
      }
    }
  }

  lemma {:induction false} WithoutMap(bs: seq<Block>, name: Text)
    ensures MapOf(Without(bs, name)) == MapOf(bs) - {name}
  {
    if bs != [] {
      WithoutMap(bs[1..], name);
      var w := Without(bs[1..], name);
      if bs[0].name != name {
        assert ([bs[0]] + w)[1..] == w;
      }
    }
  }

  /** Value lines are not names. */
  lemma {:induction false} FoundPastValue(vs: seq<Text>, rest: seq<Text>, name: Text)
    requires NameOk(name)
    ensures Found(Indent(vs) + rest, name) == Found(rest, name)
    decreases |vs|
  {
    if vs == [] {
      assert Indent(vs) + rest == rest;
    } else {
      FoundPastValue(vs[1..], rest, name);
      IndentThen(vs, rest);
      var lines := Indent(vs) + rest;
      assert lines[0] == [SPACE] + vs[0] && lines[1..] == Indent(vs[1..]) + rest;
    }
  }

  lemma FoundInBlock(b: Block, rest: seq<Text>, name: Text)
    requires NameOk(name) && (rest == [] || !StartsBlank(rest[0]))
    ensures Found(BlockThen(b, rest), name) == if b.name == name then Join(b.vals) else Found(rest, name)
  {
    hide Join;
    var lines := BlockThen(b, rest);
    assert lines[0] == b.name && lines[1..] == Indent(b.vals) + rest;
    ValueOfBlock(b.vals, rest);
    FoundPastValue(b.vals, rest, name);
  }

  /** Looking a name up in the file of blocks is looking it up in the map. */
  lemma {:induction false} FoundInBlocks(bs: seq<Block>, name: Text)
    requires NameOk(name) && forall k :: 0 <= k < |bs| ==> NameOk(bs[k].name)
    ensures Found(FileOf(bs), name) == if name in MapOf(bs) then MapOf(bs)[name] else []
    decreases |bs|
  {
    if bs != [] {
      var rest := FileOf(bs[1..]);
      FoundInBlocks(bs[1..], name);
      assert rest == [] || rest[0] == bs[1].name;
      hide BlockThen, Found;
      FoundInBlock(bs[0], rest, name);
    }
  }

  // ------------------------------------------------------------- any sequence of changes

  datatype Op = Op(name: Text, value: Text)

  /** The file after the first `k` changes; it starts out without lines.  `junk[k]` is what the
      flag `skip` happens to be at the start of change `k`. */
  function FileAfter(ops: seq<Op>, k: nat, junk: seq<bool>): seq<Text>
    requires k <= |ops| == |junk|
  {
    if k == 0 then [] else Changed(FileAfter(ops, k - 1, junk), ops[k - 1].name, ops[k - 1].value, junk[k - 1])
  }

  /** The map that the changes describe: an empty value removes, another one replaces. */
  function MapAfter(ops: seq<Op>, k: nat): map<Text, Text>
    requires k <= |ops|
  {
    if k == 0 then map[]
    else
      var m := MapAfter(ops, k - 1);
      if ops[k - 1].value == [] then m - {ops[k - 1].name}
      else m[ops[k - 1].name := Chomp(ops[k - 1].value)]
  }

  /** One change of a file of blocks. */
  lemma ChangedBlocks(bs: seq<Block>, name: Text, value: Text, junk: bool) returns (bs': seq<Block>)
    requires BlocksOk(bs) && NameOk(name)
    ensures BlocksOk(bs') && Changed(FileOf(bs), name, value, junk) == FileOf(bs')
    ensures MapOf(bs') == if value == [] then MapOf(bs) - {name} else MapOf(bs)[name := Chomp(value)]
  {
    hide Kept, LinesFrom, Join, Indent, Without;
    var w := Without(bs, name);
    KeptBlocks(bs, name, junk);
    LinesStep(value, 0);
    WithoutOk(bs, name);
    WithoutMap(bs, name);
    if value == [] {
      bs' := w;
    } else {
      var b := Block(name, LinesOf(value));
      bs' := [b] + w;
      assert bs'[1..] == w;
      assert FileOf(bs') == [name] + (Indent(b.vals) + FileOf(w));
      JoinLines(value, 0);
      assert value[0..] == value;
    }
  }

  lemma NoVariables()
    ensures BlocksOk([]) && FileOf([]) == [] && MapOf([]) == map[]
  {
  }

  lemma {:induction false} FileIsBlocks(ops: seq<Op>, k: nat, junk: seq<bool>) returns (bs: seq<Block>)
    requires k <= |ops| == |junk| && forall i :: 0 <= i < |ops| ==> NameOk(ops[i].name)
    ensures BlocksOk(bs) && FileAfter(ops, k, junk) == FileOf(bs) && MapOf(bs) == MapAfter(ops, k)
  {
    hide BlocksOk, FileOf, MapOf, Changed;
    NoVariables();
    if k == 0 {
      bs := [];
    } else {
      var before := FileIsBlocks(ops, k - 1, junk);
      bs := ChangedBlocks(before, ops[k - 1].name, ops[k - 1].value, junk[k - 1]);
    }
  }

  /** After any sequence of changes `a_get_var` finds, for every name, what the map has: the
      last value set, nothing if none was set or an empty one was set last.  Only a final
      newline of a value is lost. */
  lemma GetAfterChanges(ops: seq<Op>, k: nat, junk: seq<bool>, name: Text)
    requires k <= |ops| == |junk| && NameOk(name) && forall i :: 0 <= i < |ops| ==> NameOk(ops[i].name)
    ensures Found(FileAfter(ops, k, junk), name)
            == if name in MapAfter(ops, k) then MapAfter(ops, k)[name] else []
  {
    var bs := FileIsBlocks(ops, k, junk);
    FoundInBlocks(bs, name);
  }
}
