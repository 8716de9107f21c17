/** The translation between local item numbers and the identity (original host,
    original number) that an item keeps on every host. */
module Identity {
  import opened Text

  const MAXITEMS := 9950

  const NOERR := 0
  const DCFULL := 12
  const DINOITEM := 21

  datatype Id = Id(host: Text, num: int)

  /** What the master file records for one item. */
  datatype Entry = Entry(responses: int, orighost: nat, origitem: int)

  /** One host's master record of a conference.  Item `i` is `items[i - 1]`; host name
      slot `j` is `hostnames[j - 1]`, and slot 0 means this host. */
  datatype Table = Table(items: seq<Entry>, hostnames: seq<Text>)

  ghost predicate Linked(tab: Table) {
    forall i :: 0 <= i < |tab.items| ==> tab.items[i].orighost <= |tab.hostnames|
  }

  /** `getoitem`: the identity of local item `i`. */
  function OrigIdentity(me: Text, tab: Table, i: int): Id
    requires Linked(tab) && 1 <= i <= |tab.items|
  {
    var e := tab.items[i - 1];
    if e.orighost > 0 then Id(tab.hostnames[e.orighost - 1], e.origitem) else Id(me, i)
  }

  /** `send_item`: the identity item `i` is shipped under.  It tests the number where
      `getoitem` tests the host; slot 0 holds no name. */
  function SentIdentity(me: Text, tab: Table, i: int): Id
    requires Linked(tab) && 1 <= i <= |tab.items|
  {
    var e := tab.items[i - 1];
    if e.origitem > 0
    then Id(if e.orighost > 0 then tab.hostnames[e.orighost - 1] else [], e.origitem)
    else Id(me, i)
  }

  /** Item `i` was imported under identity `id`. */
  predicate ImportedAs(tab: Table, i: int, id: Id)
    requires 1 <= i <= |tab.items|
  {
    var e := tab.items[i - 1];
    0 < e.orighost <= |tab.hostnames| && tab.hostnames[e.orighost - 1] == id.host && e.origitem == id.num
  }

  /** The first item from `i` on that was imported under `id`, or |items| + 1. */
  function FirstImport(tab: Table, i: int, id: Id): (r: int)
    requires 1 <= i <= |tab.items| + 1
    ensures i <= r <= |tab.items| + 1
    ensures r <= |tab.items| ==> ImportedAs(tab, r, id)
    ensures forall k :: i <= k < r ==> !ImportedAs(tab, k, id)
    decreases |tab.items| - i
  {
    if i > |tab.items| || ImportedAs(tab, i, id) then i else FirstImport(tab, i + 1, id)
  }

  /** `iorig_to_local`: whether the item exists, and its local number (0 if unknown). */
  function ToLocal(me: Text, tab: Table, id: Id): (bool, int) {
    if id.host == [] || id.host == me then (true, id.num)
    else
      var i := FirstImport(tab, 1, id);
      if i > |tab.items| then (false, 0) else (tab.items[i - 1].responses >= 0, i)
  }

  /** The host name table and the slot in it after `host` has been looked up or added. */
  function Intern(hostnames: seq<Text>, host: Text): (r: (seq<Text>, nat))
    ensures hostnames <= r.0
    ensures host == [] ==> r == (hostnames, 0)
    ensures host != [] ==> 0 < r.1 <= |r.0| && r.0[r.1 - 1] == host
    ensures host in hostnames ==> r.0 == hostnames
    ensures host != [] && host !in hostnames ==> r.0 == hostnames + [host]
  {
    if host == [] then (hostnames, 0)
    else if hostnames != [] && hostnames[0] == host then (hostnames, 1)
    else if hostnames == [] then ([host], 1)
    else
      var r := Intern(hostnames[1..], host);
      ([hostnames[0]] + r.0, r.1 + 1)
  }

  /** `createitem`: one more item, without responses, from `host` (empty: this host). */
  function Created(tab: Table, host: Text, item: int): Table {
    var (names, slot) := Intern(tab.hostnames, host);
    Table(tab.items + [Entry(0, slot, item)], names)
  }

  /** `chg_ditem` with XT_NEW: new table, local number, error code. */
  function NewItem(me: Text, tab: Table, id: Id): (Table, int, int) {
    var known := if id.host == [] then 0 else ToLocal(me, tab, id).1;
    if known > 0 then (tab, known, NOERR)
    else if |tab.items| >= MAXITEMS - 1 then (tab, known, DCFULL)
    else (Created(tab, id.host, id.num), |tab.items| + 1, NOERR)
  }

  /** `chg_ditem` with XT_DELETE.  `readable` is whether the item's text can be read. */
  function DeleteItem(tab: Table, i: int, readable: bool): (Table, int)
    requires 1 <= i
  {
    if i > |tab.items| then (tab, DINOITEM)
    else if tab.items[i - 1].responses < 0 then (tab, NOERR)
    else if !readable then (tab, DINOITEM)
    else (tab.(items := tab.items[i - 1 := tab.items[i - 1].(responses := -1)]), NOERR)
  }

  /** `chg_dresp` with XT_NEW: one more response to item `i`, unless it is deleted.  New table,
      number of the response (0 when there is none), error code. */
  function AddResponse(tab: Table, i: int): (Table, int, int)
    requires 1 <= i
  {
    if i > |tab.items| then (tab, 0, DINOITEM)
    else if tab.items[i - 1].responses < 0 then (tab, 0, NOERR)
    else
      var rnum := tab.items[i - 1].responses + 1;
      (tab.(items := tab.items[i - 1 := tab.items[i - 1].(responses := rnum)]), rnum, NOERR)
  }

  // ------------------------------------------------------ the in-memory master record

  /** The global `master` structure with its `hostnames` table, for one conference. */
  class Master {
    const me: Text
    var items: nat
    var responses: seq<int>   // MAXITEMS slots each; slot 0 is not used
    var orighost: seq<int>
    var origitem: seq<int>
    var hostnames: seq<Text>  // slot 0 is not used
    var numhosts: nat

    ghost predicate Valid()
      reads this
    {
      && |responses| == |orighost| == |origitem| == MAXITEMS
      && items < MAXITEMS
      && |hostnames| == numhosts + 1
      && forall i :: 1 <= i <= items ==> 0 <= orighost[i] <= numhosts
    }

    ghost function Model(): (tab: Table)
      reads this
      requires Valid()
      ensures |tab.items| == items && Linked(tab)
    {
      Table(seq(items, i requires 0 <= i < items && Valid() reads this =>
                Entry(responses[i + 1], orighost[i + 1], origitem[i + 1])), hostnames[1..])
    }

    constructor (name: Text)
      ensures Valid() && me == name && Model() == Table([], [])
    {
      me := name;
      items, numhosts := 0, 0;
      responses := seq(MAXITEMS, _ => 0);
      orighost := seq(MAXITEMS, _ => 0);
      origitem := seq(MAXITEMS, _ => 0);
      hostnames := [[]];
    }

    method GetOItem(item: int) returns (id: Id)
      requires Valid() && 1 <= item <= items
      ensures id == OrigIdentity(me, Model(), item)
    {
      if orighost[item] > 0 {
        id := Id(hostnames[orighost[item]], origitem[item]);
      } else {
        id := Id(me, item);
      }
    }

    method SendItemIdentity(item: int) returns (id: Id)
      requires Valid() && 1 <= item <= items
      ensures id == SentIdentity(me, Model(), item)
    {
      if origitem[item] > 0 {
        id := Id(if orighost[item] == 0 then [] else hostnames[orighost[item]], origitem[item]);
      } else {
        id := Id(me, item);
      }
    }

    method IorigToLocal(id: Id) returns (ok: bool, local: int)
      requires Valid()
      ensures (ok, local) == ToLocal(me, Model(), id)
    {
      if id.host == [] || id.host == me { return true, id.num; }
      var i := 1;
      while i <= items
        invariant 1 <= i <= items + 1
        invariant FirstImport(Model(), i, id) == FirstImport(Model(), 1, id)
      {
        if orighost[i] > 0 && hostnames[orighost[i]] == id.host && origitem[i] == id.num { break; }
        i := i + 1;
      }
      if i > items { return false, 0; }
      return responses[i] >= 0, i;
    }

    /** The slot of `host` in `hostnames`, which gets it at the end if it is new. */
    method InternHost(host: Text) returns (slot: nat)
      requires Valid() && host != []
      modifies this`hostnames, this`numhosts
      ensures Valid() && 0 < slot <= numhosts
      ensures (hostnames[1..], slot) == Intern(old(hostnames[1..]), host)
    {
      var found, j := false, 1;
      while j <= numhosts
        invariant 1 <= j <= numhosts + 1
        invariant !found
        invariant forall k :: 1 <= k < j ==> hostnames[k] != host
      {
        if hostnames[j] == host { found := true; break; }
        j := j + 1;
      }
      InternAt(hostnames[1..], host, j - 1);
      if found { return j; }
      numhosts := numhosts + 1;
      hostnames := hostnames + [host];
      assert hostnames[1..] == old(hostnames)[1..] + [host];
      slot := numhosts;
    }

    method CreateItem(host: Text, item: int) returns (local: int)
      requires Valid() && items < MAXITEMS - 1
      modifies this
      ensures Valid()
      ensures Model() == Created(old(Model()), host, item)
      ensures local == items == old(items) + 1
    {
      hide Intern;
      ghost var before := Model();
      items := items + 1;
      responses := responses[items := 0];
      orighost := orighost[items := 0];
      if host != [] {
        var slot := InternHost(host);
        orighost := orighost[items := slot];
      }
      origitem := origitem[items := item];
      local := items;
      assert Model().items == before.items + [Entry(0, orighost[items], item)];
    }

    /** XT_NEW of `chg_ditem`: an import that is already here is left alone. */
    method ChgDitemNew(id: Id) returns (local: int, error: int)
      requires Valid()
      modifies this
      ensures Valid()
      ensures (Model(), local, error) == NewItem(me, old(Model()), id)
    {
      local := 0;
      if id.host != [] {
        var _, known := IorigToLocal(id);
        local := known;
        if local > 0 { return local, NOERR; }
      }
      if items >= MAXITEMS - 1 { return local, DCFULL; }
      local := CreateItem(id.host, id.num);
      error := NOERR;
    }

    /** XT_DELETE of `chg_ditem`. */
    method ChgDitemDelete(local: int, readable: bool) returns (error: int)
      requires Valid() && 1 <= local
      modifies this
      ensures Valid()
      ensures (Model(), error) == DeleteItem(old(Model()), local, readable)
    {
      if local > items { return DINOITEM; }
      if responses[local] < 0 { return NOERR; }
      if !readable { return DINOITEM; }
      responses := responses[local := -1];
      error := NOERR;
      assert Model().items == old(Model()).items[local - 1 := Model().items[local - 1]];
    }

    method ChgDrespNew(local: int) returns (rnum: int, error: int)
      requires Valid() && 1 <= local
      modifies this
      ensures Valid()
      ensures (Model(), rnum, error) == AddResponse(old(Model()), local)
    {
      if local > items { return 0, DINOITEM; }
      if responses[local] < 0 { return 0, NOERR; }
      rnum, error := responses[local] + 1, NOERR;
      responses := responses[local := rnum];
      assert Model().items == old(Model()).items[local - 1 := Model().items[local - 1]];
    }
  }

  /** Interning finds the first slot that holds the name. */
  lemma {:induction false} InternAt(hostnames: seq<Text>, host: Text, j: nat)
    requires host != [] && j <= |hostnames| && forall k :: 0 <= k < j ==> hostnames[k] != host
    requires j < |hostnames| ==> hostnames[j] == host
    ensures Intern(hostnames, host)
            == (if j < |hostnames| then hostnames else hostnames + [host], j + 1)
  {
    if j > 0 {
      var rest := hostnames[1..];
      InternAt(rest, host, j - 1);
      assert hostnames == [hostnames[0]] + rest;
    }
  }
}
