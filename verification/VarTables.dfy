/** Variable tables: a variable file loaded into slots that grow by doubling. */
module VarTables {
  import opened Text
  import opened Lines
  import opened Blocks
  import opened VarFiles

  const INITIAL_SIZE := 100

  /** Slots `0 .. used` are in use; an empty name marks a free slot among them. */
  class Vartab {
    var used: nat
    var max: nat
    var name: array<Text>
    var value: array<Text>

    ghost predicate Valid()
      reads this
    {
      name.Length == value.Length == max && name != value && used + 4 <= max
    }

    constructor ()
      ensures Valid() && used == 0 && fresh(name) && fresh(value)
    {
      used, max := 0, INITIAL_SIZE;
      name := new Text[INITIAL_SIZE](_ => []);
      value := new Text[INITIAL_SIZE](_ => []);
    }

    /** `vartab_exp`: twice the room, the slots in use as they were. */
    method Expand()
      requires name.Length == value.Length == max && name != value && used <= max
      modifies this`max, this`name, this`value
      ensures name.Length == value.Length == max && name != value && max == 2 * old(max)
      ensures fresh(name) && fresh(value)
      ensures name[..used] == old(name[..used]) && value[..used] == old(value[..used])
    {
      var exname := new Text[max * 2](_ => []);
      var exvalue := new Text[max * 2](_ => []);
      var num := 0;
      while num < used
        modifies exname, exvalue
        invariant 0 <= num <= used
        invariant forall k :: 0 <= k < num ==> exname[k] == name[k] && exvalue[k] == value[k]
      {
        exname[num] := name[num];
        exvalue[num] := value[num];
        num := num + 1;
      }
      max := max * 2;
      name, value := exname, exvalue;
    }

    /** `vartab_new`: slot `at` for a new variable, or the next slot if `at` is not in use. */
    method New(vname: Text, at: int) returns (slot: nat)
      requires Valid()
      modifies this, name, value
      ensures Valid() && (name == old(name) || fresh(name)) && (value == old(value) || fresh(value))
      ensures if 0 <= at < old(used) then slot == at && used == old(used) else slot == old(used) && used == slot + 1
      ensures name[..used] == (if slot < old(used) then old(name[..used])[slot := vname] else old(name[..used]) + [vname])
      ensures value[..used] == (if slot < old(used) then old(value[..used])[slot := []] else old(value[..used]) + [[]])
    {
      if at < 0 || at >= used {
        slot := used;
        used := used + 1;
      } else {
        slot := at;
      }
      if slot > max - 5 { Expand(); }
      name[slot] := vname;
      value[slot] := [];
    }

    /** `vartab_find`: the slot of a variable, which gets one if it has none. */
    method Find(vname: Text) returns (slot: nat)
      requires Valid()
      modifies this, name, value
      ensures Valid() && slot < used && name[slot] == vname && old(used) <= used <= old(used) + 1
      ensures vname in old(name[..used]) ==> name[..used] == old(name[..used]) && value[..used] == old(value[..used])
      ensures vname !in old(name[..used]) ==>
                && value[slot] == [] && (slot < old(used) ==> old(name[..used])[slot] == [])
                && forall k :: 0 <= k < used && k != slot ==>
                     k < old(used) && name[k] == old(name[..used])[k] && value[k] == old(value[..used])[k]
    {
      var free, num := -1, 0;
      while num < used
        modifies {}
        invariant 0 <= num <= used
        invariant forall k :: 0 <= k < num ==> name[k] != vname
        invariant free == -1 || (0 <= free < num && name[free] == [])
      {
        if name[num] == vname { return num; }
        if name[num] == [] { free := num; }
        num := num + 1;
      }
      ghost var names, values := name[..used], value[..used];
      assert vname !in names;
      slot := New(vname, free);
      assert forall k :: 0 <= k < used && k != slot ==>
               name[k] == name[..used][k] == names[k] && value[k] == value[..used][k] == values[k];
    }

    /** The clearing of the names before a load. */
    method ClearNames()
      requires Valid()
      modifies name
      ensures Valid() && forall k :: 0 <= k < used ==> name[k] == []
    {
      var slot := 0;
      while slot < used
        invariant 0 <= slot <= used
        invariant forall k :: 0 <= k < slot ==> name[k] == []
      {
        name[slot] := [];
        slot := slot + 1;
      }
    }

    /** The first slots hold the blocks `bs`, the others in use are free. */
    ghost predicate Shows(bs: seq<Block>)
      reads this, name, value
    {
      && Valid() && |bs| <= used
      && (forall k :: 0 <= k < |bs| ==> name[k] == bs[k].name && value[k] == Join(bs[k].vals))
      && (forall k :: |bs| <= k < used ==> name[k] == [])
    }

    /** A line with a name: the next slot. */
    method NameLine(line: Text, slot: nat, ghost bs: seq<Block>) returns (this_: nat)
      requires Shows(bs) && slot == |bs|
      modifies this, name, value
      ensures (name == old(name) || fresh(name)) && (value == old(value) || fresh(value))
      ensures Shows(bs + [Block(line, [])]) && this_ == slot
    {
      ghost var names, values := name[..used], value[..used];
      this_ := New(line, slot);
      ghost var names', values' := name[..used], value[..used];
      forall k | 0 <= k < used
        ensures name[k] == if k == slot then line else names[k]
        ensures value[k] == if k == slot then [] else values[k]
      {
        assert name[k] == names'[k] && value[k] == values'[k];
      }
    }

    /** A line of a value: more of the slot of the last name. */
    method ValueLine(line: Text, this_: nat, start: bool, ghost bs: seq<Block>)
      requires Shows(bs) && this_ == |bs| - 1 && (start <==> bs[this_].vals == []) && StartsBlank(line)
      modifies value
      ensures Shows(MoreValue(bs, line[1..]))
    {
      if !start { value[this_] := value[this_] + [NEWLINE]; }
      value[this_] := value[this_] + line[1..];
      if !start { JoinSnoc(bs[this_].vals, line[1..]); }
    }

    /** One line of the file.  `this_` is the slot of the last name, `start` whether that has
        no value line yet. */
    method LoadLine(line: Text, slot: nat, this_: nat, start: bool, ghost bs: seq<Block>)
      returns (slot': nat, this': nat, start': bool, ghost bs': seq<Block>)
      requires Shows(bs) && slot == |bs| && NamesPlain(bs)
      requires StartsBlank(line) ==> bs != [] && this_ == |bs| - 1 && (start <==> bs[this_].vals == [])
      modifies this, name, value
      ensures (name == old(name) || fresh(name)) && (value == old(value) || fresh(value))
      ensures Shows(bs') && slot' == |bs'| && NamesPlain(bs') && FileOf(bs') == FileOf(bs) + [line]
      ensures bs' != [] && this' == |bs'| - 1 && (start' <==> bs'[this'].vals == [])
    {
      hide FileOf, Shows, Join;
      if !StartsBlank(line) {
        FileOfSnoc(bs, line);
        this' := NameLine(line, slot, bs);
        bs' := bs + [Block(line, [])];
        slot', start' := slot + 1, true;
      } else {
        FileOfMore(bs, line);
        ValueLine(line, this_, start, bs);
        bs' := MoreValue(bs, line[1..]);
        slot', this', start' := slot, this_, false;
      }
    }

    /** `a_get_vartab`: loads a file that exists, through any number of doublings.  The file
        has to begin with a name. */
    method Load(lines: seq<Text>) returns (ghost bs: seq<Block>)
      requires Valid() && (lines == [] || !StartsBlank(lines[0]))
      modifies this, name, value
      ensures Shows(bs) && FileOf(bs) == lines && NamesPlain(bs)
    {
      ClearNames();
      bs := [];
      assert Shows(bs) && FileOf(bs) == [];
      hide FileOf, Shows, NamesPlain;
      var slot: nat, this_: nat, start := 0, 0, true;
      var i := 0;
      while i < |lines|
        invariant 0 <= i <= |lines|
        invariant (name == old(name) || fresh(name)) && (value == old(value) || fresh(value))
        invariant Shows(bs) && slot == |bs| && FileOf(bs) == lines[..i] && NamesPlain(bs)
        invariant i > 0 ==> bs != [] && this_ == |bs| - 1 && (start <==> bs[this_].vals == [])
      {
        assert lines[..i + 1] == lines[..i] + [lines[i]];
        slot, this_, start, bs := LoadLine(lines[i], slot, this_, start, bs);
        i := i + 1;
      }
      assert lines[..i] == lines;
    }

    /** `a_chg_vartab`: the lines it writes, one block for each variable with a value. */
    method Save() returns (lines: seq<Text>)
      requires Valid()
      ensures lines == FileOf(BlocksFrom(name[..used], value[..used]))
    {
      hide Indent, FileOf, BlocksFrom, LinesFrom;
      lines := [];
      NoBlocks();
      ghost var names, values := name[..used], value[..used];
      ghost var all := FileOf(BlocksFrom(names, values));
      var slot := 0;
      assert names[0..] == names && values[0..] == values;
      while slot < used
        invariant 0 <= slot <= used
        invariant all == lines + FileOf(BlocksFrom(names[slot..], values[slot..]))
      {
        var n, v := name[slot], value[slot];
        BlocksStep(n, v, names[slot + 1..], values[slot + 1..]);
        assert names[slot..] == [n] + names[slot + 1..] && values[slot..] == [v] + values[slot + 1..];
        slot := slot + 1;
        if n == [] || v == [] { continue; }
        var vs := WriteValue(v);
        lines := lines + ([n] + vs);
      }
    }
  }

  // ------------------------------------------------------------- tables as maps

  /** The variables that a table writes: those with a name and a value. */
  function BlocksFrom(names: seq<Text>, values: seq<Text>): seq<Block>
    requires |names| == |values|
  {
    if names == [] then []
    else (if names[0] == [] || values[0] == [] then [] else [Block(names[0], LinesOf(values[0]))])
         + BlocksFrom(names[1..], values[1..])
  }

  lemma NoBlocks()
    ensures FileOf(BlocksFrom([], [])) == []
  {
  }

  lemma BlocksStep(n: Text, v: Text, names: seq<Text>, values: seq<Text>)
    requires |names| == |values|
    ensures FileOf(BlocksFrom([n] + names, [v] + values))
            == (if n == [] || v == [] then [] else [n] + Indent(LinesOf(v))) + FileOf(BlocksFrom(names, values))
  {
    assert ([n] + names)[1..] == names && ([v] + values)[1..] == values;
    var rest := BlocksFrom(names, values);
    if n != [] && v != [] {
      FileOfConcat([Block(n, LinesOf(v))], rest);
      FileOfOne(Block(n, LinesOf(v)));
    } else {
      assert [] + rest == rest;
    }
  }

  /** The map a table stands for. */
  function TableMap(names: seq<Text>, values: seq<Text>): map<Text, Text>
    requires |names| == |values|
  {
    if names == [] then map[]
    else
      var m := TableMap(names[1..], values[1..]);
      if names[0] == [] then m else m[names[0] := values[0]]
  }

  /** A loaded table stands for the map of the file it was loaded from. */
  lemma {:induction false} TableIsMap(names: seq<Text>, values: seq<Text>, bs: seq<Block>)
    requires |bs| <= |names| == |values|
    requires forall k :: 0 <= k < |bs| ==> bs[k].name != [] && names[k] == bs[k].name && values[k] == Join(bs[k].vals)
    requires forall k :: |bs| <= k < |names| ==> names[k] == []
    ensures TableMap(names, values) == MapOf(bs)
    decreases |names|
  {
    if names != [] {
      if bs == [] {
        TableIsMap(names[1..], values[1..], bs);
      } else {
        assert forall k :: 0 <= k < |bs[1..]| ==> bs[1..][k] == bs[k + 1];
        TableIsMap(names[1..], values[1..], bs[1..]);
      }
    }
  }

  /** A file that changes have made begins with a name, as loading demands. */
  lemma FileBeginsWithName(ops: seq<Op>, k: nat, junk: seq<bool>)
    requires k <= |ops| == |junk| && forall i :: 0 <= i < |ops| ==> NameOk(ops[i].name)
    ensures var lines := FileAfter(ops, k, junk); lines == [] || !StartsBlank(lines[0])
  {
    hide FileAfter;
    var bs := FileIsBlocks(ops, k, junk);
    assert bs != [] ==> FileOf(bs)[0] == bs[0].name && NameOk(bs[0].name);
  }

  /** After any sequence of `a_chg_var` calls, a table loaded from the file stands for exactly
      the map of those changes, however full it was and however often it had to grow. */
  lemma LoadAfterChanges(ops: seq<Op>, k: nat, junk: seq<bool>, names: seq<Text>, values: seq<Text>, bs: seq<Block>)
    requires k <= |ops| == |junk| && forall i :: 0 <= i < |ops| ==> NameOk(ops[i].name)
    requires FileOf(bs) == FileAfter(ops, k, junk) && NamesPlain(bs)
    requires |bs| <= |names| == |values|
    requires forall i :: 0 <= i < |bs| ==> names[i] == bs[i].name && values[i] == Join(bs[i].vals)
    requires forall i :: |bs| <= i < |names| ==> names[i] == []
    ensures TableMap(names, values) == MapAfter(ops, k)
  {
    var cs := FileIsBlocks(ops, k, junk);
    FileOfInjective(bs, cs);
    TableIsMap(names, values, bs);
  }

  lemma {:induction false} TableNames(names: seq<Text>, values: seq<Text>)
    requires |names| == |values|
    ensures forall n :: n in TableMap(names, values) ==> n in names && n != []
  {
    if names != [] {
      TableNames(names[1..], values[1..]);
    }
  }

  /** A map without empty values, and without the final newlines of the others. */
  function Solid(m: map<Text, Text>): map<Text, Text> {
    map n | n in m && m[n] != [] :: Chomp(m[n])
  }

  lemma SolidUpdate(m: map<Text, Text>, n: Text, v: Text)
    requires n !in m
    ensures Solid(m[n := v]) == if v == [] then Solid(m) else Solid(m)[n := Chomp(v)]
  {
    hide Chomp;
  }

  /** What `a_chg_vartab` writes, read back, is the table without empty values, and without
      the final newlines of the others. */
  lemma {:induction false} SavedMap(names: seq<Text>, values: seq<Text>)
    requires |names| == |values|
    requires forall j, k :: 0 <= j < k < |names| && names[j] != [] ==> names[j] != names[k]
    ensures MapOf(BlocksFrom(names, values)) == Solid(TableMap(names, values))
  {
    if names != [] {
      var ns, vs := names[1..], values[1..];
      forall j, k | 0 <= j < k < |ns| && ns[j] != []
        ensures ns[j] != ns[k]
      {
        assert names[j + 1] != names[k + 1];
      }
      SavedMap(ns, vs);
      TableNames(ns, vs);
      hide Solid, LinesFrom, Join, Chomp;
      var rest := BlocksFrom(ns, vs);
      assert names[0] != [] ==> names[0] !in ns;
      if names[0] != [] {
        SolidUpdate(TableMap(ns, vs), names[0], values[0]);
      }
      if names[0] == [] || values[0] == [] {
        assert [] + rest == rest;
      } else {
        var b := Block(names[0], LinesOf(values[0]));
        assert ([b] + rest)[1..] == rest;
        JoinLines(values[0], 0);
        assert values[0][0..] == values[0];
      }
    }
  }
}
