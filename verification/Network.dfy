/** Hosts that exchange items.  Every host changes its own table as `Identity` says;
    anything ever sent may be delivered at any host, any number of times, in any order. */
module Network {
  import opened Text
  import opened Identity

  datatype Net = Net(tables: map<Text, Table>, sent: set<Id>)

  datatype Step =
    | Create(h: Text)
    | Send(h: Text, i: int)
    | Deliver(h: Text, id: Id)
    | Delete(h: Text, i: int, readable: bool)
    | Respond(h: Text, i: int)

  ghost predicate Init(s: Net) {
    && s.sent == {}
    && forall h :: h in s.tables ==> h != [] && s.tables[h] == Table([], [])
  }

  ghost predicate Next(s: Net, a: Step, s': Net) {
    && a.h in s.tables
    && var tab := s.tables[a.h];
       match a
       case Create(h) => s' == s.(tables := s.tables[h := NewItem(h, tab, Id([], 0)).0])
       case Send(h, i) =>
         Linked(tab) && 1 <= i <= |tab.items| && s' == s.(sent := s.sent + {SentIdentity(h, tab, i)})
       case Deliver(h, id) => id in s.sent && s' == s.(tables := s.tables[h := NewItem(h, tab, id).0])
       case Delete(h, i, readable) => 1 <= i && s' == s.(tables := s.tables[h := DeleteItem(tab, i, readable).0])
       case Respond(h, i) => 1 <= i && s' == s.(tables := s.tables[h := AddResponse(tab, i).0])
  }

  ghost predicate Reaches(s: Net, s': Net) {
    exists a :: Next(s, a, s')
  }

  /** A run: states from an initial one on, each reached from the one before by a step. */
  ghost predicate Run(ss: seq<Net>) {
    && |ss| > 0
    && Init(ss[0])
    && forall k :: 0 <= k < |ss| - 1 ==> Reaches(ss[k], ss[k + 1])
  }

  // ------------------------------------------------------------- what every host keeps

  /** An item is either local, without a number of its own, or has a host and a number. */
  predicate EntryOk(e: Entry, hosts: nat) {
    e.orighost <= hosts && (e.orighost > 0 <==> e.origitem > 0)
  }

  ghost predicate Distinct(me: Text, tab: Table)
    requires Linked(tab)
  {
    forall i, j :: 1 <= i < j <= |tab.items| ==> OrigIdentity(me, tab, i) != OrigIdentity(me, tab, j)
  }

  ghost predicate HostInv(me: Text, tab: Table) {
    && me != []
    && (forall i :: 0 <= i < |tab.items| ==> EntryOk(tab.items[i], |tab.hostnames|))
    && (forall j :: 0 <= j < |tab.hostnames| ==> tab.hostnames[j] != [] && tab.hostnames[j] != me)
    && Linked(tab)
    && Distinct(me, tab)
  }

  /** `id` names an item that was created on its own host. */
  ghost predicate Authentic(s: Net, id: Id) {
    && id.host in s.tables
    && 1 <= id.num <= |s.tables[id.host].items|
    && s.tables[id.host].items[id.num - 1].orighost == 0
  }

  ghost predicate NetInv(s: Net) {
    && (forall h :: h in s.tables ==> HostInv(h, s.tables[h]))
    && (forall h, i :: h in s.tables && 1 <= i <= |s.tables[h].items| ==>
          Authentic(s, OrigIdentity(h, s.tables[h], i)))
    && (forall id :: id in s.sent ==> Authentic(s, id))
  }

  /** Nothing is lost from one table to a later one: items stay, keep their identity, and
      stay deleted once they are. */
  ghost predicate TableGrows(me: Text, t: Table, t': Table)
    requires Linked(t) && Linked(t')
  {
    && |t.items| <= |t'.items|
    && (forall i :: 1 <= i <= |t.items| ==>
          && OrigIdentity(me, t', i) == OrigIdentity(me, t, i)
          && (t'.items[i - 1].orighost == 0 <==> t.items[i - 1].orighost == 0)
          && (t.items[i - 1].responses < 0 ==> t'.items[i - 1].responses < 0))
  }

  ghost predicate Grows(s: Net, s': Net)
    requires NetInv(s) && NetInv(s')
  {
    && s'.tables.Keys == s.tables.Keys
    && s.sent <= s'.sent
    && forall h :: h in s.tables ==> TableGrows(h, s.tables[h], s'.tables[h])
  }

  // ------------------------------------------------------------- one table

  /** The old items are untouched by a new one. */
  lemma CreatedExtends(me: Text, tab: Table, host: Text, item: int)
    requires Linked(tab)
    ensures var t' := Created(tab, host, item);
            && Linked(t') && TableGrows(me, tab, t')
            && |t'.items| == |tab.items| + 1
            && (forall i :: 0 <= i < |tab.items| ==> t'.items[i] == tab.items[i])
            && OrigIdentity(me, t', |t'.items|) == (if host == [] then Id(me, |t'.items|) else Id(host, item))
            && (t'.items[|tab.items|].orighost == 0 <==> host == [])
            && t'.items[|tab.items|].origitem == item && t'.items[|tab.items|].responses == 0
  {
    var t' := Created(tab, host, item);
    assert forall j :: 0 <= j < |tab.hostnames| ==> t'.hostnames[j] == tab.hostnames[j];
    assert forall i :: 0 <= i < |tab.items| ==> t'.items[i] == tab.items[i];
    assert forall i :: 1 <= i <= |tab.items| ==> OrigIdentity(me, t', i) == OrigIdentity(me, tab, i);
  }

  lemma CreatedKeepsTable(me: Text, tab: Table, host: Text, item: int)
    requires HostInv(me, tab) && host != me
    requires if host == [] then item <= 0
             else item > 0 && forall i :: 1 <= i <= |tab.items| ==> OrigIdentity(me, tab, i) != Id(host, item)
    ensures var t' := Created(tab, host, item);
            && HostInv(me, t') && TableGrows(me, tab, t')
            && |t'.items| == |tab.items| + 1
            && OrigIdentity(me, t', |t'.items|) == (if host == [] then Id(me, |t'.items|) else Id(host, item))
            && (t'.items[|tab.items|].orighost == 0 <==> host == [])
  {
    hide Created, OrigIdentity;
    var t' := Created(tab, host, item);
    CreatedExtends(me, tab, host, item);
    CreatedNames(tab, host, item);
    forall i | 1 <= i <= |tab.items|
      ensures OrigIdentity(me, t', i) != OrigIdentity(me, t', |t'.items|)
    {
      IdentityKnown(me, tab, i);
    }
    DistinctGrows(me, tab, t');
  }

  /** The names in the table are the old ones and the new one. */
  lemma CreatedNames(tab: Table, host: Text, item: int)
    ensures var t' := Created(tab, host, item);
            && |tab.hostnames| <= |t'.hostnames|
            && forall j :: 0 <= j < |t'.hostnames| ==>
                             t'.hostnames[j] in tab.hostnames || (host != [] && t'.hostnames[j] == host)
  {
  }

  /** An item has a foreign host, or this host and its own number. */
  lemma IdentityKnown(me: Text, tab: Table, i: int)
    requires HostInv(me, tab) && 1 <= i <= |tab.items|
    ensures OrigIdentity(me, tab, i).host != me || OrigIdentity(me, tab, i) == Id(me, i)
  {
  }

  lemma DistinctGrows(me: Text, tab: Table, t': Table)
    requires HostInv(me, tab) && Linked(t') && TableGrows(me, tab, t') && |t'.items| == |tab.items| + 1
    requires forall i :: 1 <= i <= |tab.items| ==> OrigIdentity(me, t', i) != OrigIdentity(me, t', |t'.items|)
    ensures Distinct(me, t')
  {
    hide OrigIdentity;
    forall i, j | 1 <= i < j <= |t'.items|
      ensures OrigIdentity(me, t', i) != OrigIdentity(me, t', j)
    {
      if j <= |tab.items| {
        assert OrigIdentity(me, tab, i) != OrigIdentity(me, tab, j);
      }
    }
  }

  /** An identity is found among the imports exactly when some item has it. */
  lemma ImportedIsIdentity(me: Text, tab: Table, i: int, id: Id)
    requires HostInv(me, tab) && 1 <= i <= |tab.items| && id.host != me
    ensures ImportedAs(tab, i, id) <==> OrigIdentity(me, tab, i) == id
  {
  }

  /** XT_NEW of an import: afterwards exactly one item has the identity, whatever was there. */
  lemma NewItemKeepsTable(me: Text, tab: Table, id: Id)
    requires HostInv(me, tab) && (if id.host == [] then id.num <= 0 else id.num > 0)
    ensures var (t', local, error) := NewItem(me, tab, id);
            && HostInv(me, t') && TableGrows(me, tab, t')
            && |t'.items| <= |tab.items| + 1
            && (|t'.items| > |tab.items| ==>
                  && id.host != me
                  && OrigIdentity(me, t', |t'.items|) == (if id.host == [] then Id(me, |t'.items|) else id)
                  && (t'.items[|tab.items|].orighost == 0 <==> id.host == []))
            && (error == NOERR && id.host != [] && id.host != me ==>
                  1 <= local <= |t'.items| && OrigIdentity(me, t', local) == id)
  {
    if id.host != [] && id.host != me {
      forall i | 1 <= i <= |tab.items|
        ensures ImportedAs(tab, i, id) <==> OrigIdentity(me, tab, i) == id
      {
        ImportedIsIdentity(me, tab, i, id);
      }
    }
    if id.host != me && (id.host == [] || ToLocal(me, tab, id).1 <= 0) {
      CreatedKeepsTable(me, tab, id.host, id.num);
    }
  }

  lemma SameOrigins(me: Text, t: Table, t': Table)
    requires HostInv(me, t) && t'.hostnames == t.hostnames && |t'.items| == |t.items|
    requires forall i :: 0 <= i < |t.items| ==>
               && t'.items[i].orighost == t.items[i].orighost && t'.items[i].origitem == t.items[i].origitem
               && (t.items[i].responses < 0 ==> t'.items[i].responses < 0)
    ensures HostInv(me, t') && TableGrows(me, t, t')
  {
    assert forall i :: 0 <= i < |t'.items| ==> EntryOk(t.items[i], |t.hostnames|);
    assert forall i :: 0 <= i < |t'.items| ==> EntryOk(t'.items[i], |t'.hostnames|);
    assert forall i :: 1 <= i <= |t.items| ==> OrigIdentity(me, t', i) == OrigIdentity(me, t, i);
  }

  // ------------------------------------------------------------- the whole network

  /** Changing one table for a grown one that holds only authentic items is safe. */
  lemma TableStep(s: Net, h: Text, t': Table, s': Net)
    requires NetInv(s) && h in s.tables && s' == s.(tables := s.tables[h := t'])
    requires HostInv(h, t') && TableGrows(h, s.tables[h], t')
    requires forall i :: |s.tables[h].items| < i <= |t'.items| ==>
               Authentic(s', OrigIdentity(h, t', i))
    ensures NetInv(s') && Grows(s, s')
  {
    forall id | Authentic(s, id)
      ensures Authentic(s', id)
    {
      if id.host == h {
        assert OrigIdentity(h, t', id.num) == OrigIdentity(h, s.tables[h], id.num);
      }
    }
    forall g, i | g in s'.tables && 1 <= i <= |s'.tables[g].items|
      ensures Authentic(s', OrigIdentity(g, s'.tables[g], i))
    {
      if g != h || i <= |s.tables[h].items| {
        assert Authentic(s, OrigIdentity(g, s.tables[g], i));
      }
    }
    forall g | g in s.tables
      ensures TableGrows(g, s.tables[g], s'.tables[g])
    {
    }
  }

  lemma DeliverSafe(s: Net, h: Text, id: Id, s': Net)
    requires NetInv(s) && Next(s, Deliver(h, id), s')
    ensures NetInv(s') && Grows(s, s')
  {
    var t' := NewItem(h, s.tables[h], id).0;
    assert Authentic(s, id);
    assert HostInv(id.host, s.tables[id.host]) && HostInv(h, s.tables[h]);
    NewItemKeepsTable(h, s.tables[h], id);
    TableStep(s, h, t', s');
  }

  lemma CreateSafe(s: Net, h: Text, s': Net)
    requires NetInv(s) && Next(s, Create(h), s')
    ensures NetInv(s') && Grows(s, s')
  {
    assert HostInv(h, s.tables[h]);
    NewItemKeepsTable(h, s.tables[h], Id([], 0));
    TableStep(s, h, NewItem(h, s.tables[h], Id([], 0)).0, s');
  }

  lemma SendSafe(s: Net, h: Text, i: int, s': Net)
    requires NetInv(s) && Next(s, Send(h, i), s')
    ensures NetInv(s') && Grows(s, s')
  {
    assert HostInv(h, s.tables[h]);
    ShippedAsKnown(h, s.tables[h], i);
    assert forall id :: Authentic(s, id) ==> Authentic(s', id);
    assert forall g :: g in s.tables ==> TableGrows(g, s.tables[g], s'.tables[g]);
  }

  /** Every step keeps the invariant, loses nothing, and changes no identity. */
  lemma NextSafe(s: Net, a: Step, s': Net)
    requires NetInv(s) && Next(s, a, s')
    ensures NetInv(s') && Grows(s, s')
  {
    hide NetInv, Grows, HostInv;
    var tab := s.tables[a.h];
    match a
    case Create(h) => CreateSafe(s, h, s');
    case Send(h, i) => SendSafe(s, h, i, s');
    case Deliver(h, id) => DeliverSafe(s, h, id, s');
    case Delete(h, i, readable) =>
      ChangeSafe(s, h, DeleteItem(tab, i, readable).0, s');
    case Respond(h, i) =>
      ChangeSafe(s, h, AddResponse(tab, i).0, s');
  }

  /** A step that changes response counts only, and none of a deleted item. */
  lemma ChangeSafe(s: Net, h: Text, t': Table, s': Net)
    requires NetInv(s) && h in s.tables && s' == s.(tables := s.tables[h := t'])
    requires t'.hostnames == s.tables[h].hostnames && |t'.items| == |s.tables[h].items|
    requires forall i :: 0 <= i < |t'.items| ==>
               var e, e' := s.tables[h].items[i], t'.items[i];
               && e'.orighost == e.orighost && e'.origitem == e.origitem
               && (e.responses < 0 ==> e'.responses < 0)
    ensures NetInv(s') && Grows(s, s')
  {
    assert HostInv(h, s.tables[h]);
    SameOrigins(h, s.tables[h], t');
    TableStep(s, h, t', s');
  }

  lemma ReachesSafe(s: Net, s': Net)
    requires NetInv(s) && Reaches(s, s')
    ensures NetInv(s') && Grows(s, s')
  {
    var a :| Next(s, a, s');
    NextSafe(s, a, s');
  }

  /** Safety of whole runs. */
  lemma {:induction false} RunSafe(ss: seq<Net>, k: nat)
    requires Run(ss) && k < |ss|
    ensures NetInv(ss[k])
  {
    if k > 0 {
      RunSafe(ss, k - 1);
      assert Reaches(ss[k - 1], ss[k - 1 + 1]);
      ReachesSafe(ss[k - 1], ss[k]);
    }
  }

  lemma TableGrowsTransitive(me: Text, t: Table, t': Table, t'': Table)
    requires Linked(t) && Linked(t') && Linked(t'') && TableGrows(me, t, t') && TableGrows(me, t', t'')
    ensures TableGrows(me, t, t'')
  {
    forall i | 1 <= i <= |t.items|
      ensures OrigIdentity(me, t'', i) == OrigIdentity(me, t, i)
      ensures t''.items[i - 1].orighost == 0 <==> t.items[i - 1].orighost == 0
      ensures t.items[i - 1].responses < 0 ==> t''.items[i - 1].responses < 0
    {
      assert OrigIdentity(me, t'', i) == OrigIdentity(me, t', i);
    }
  }

  lemma GrowsTransitive(s: Net, s': Net, s'': Net)
    requires NetInv(s) && NetInv(s') && NetInv(s'') && Grows(s, s') && Grows(s', s'')
    ensures Grows(s, s'')
  {
    forall h | h in s.tables
      ensures TableGrows(h, s.tables[h], s''.tables[h])
    {
      TableGrowsTransitive(h, s.tables[h], s'.tables[h], s''.tables[h]);
    }
  }

  lemma GrowsStep(s: Net, s': Net, s'': Net)
    requires NetInv(s) && NetInv(s') && Grows(s, s') && Reaches(s', s'')
    ensures NetInv(s'') && Grows(s, s'')
  {
    ReachesSafe(s', s'');
    GrowsTransitive(s, s', s'');
  }

  lemma GrowsRefl(s: Net)
    requires NetInv(s)
    ensures Grows(s, s)
  {
    assert forall h :: h in s.tables ==> TableGrows(h, s.tables[h], s.tables[h]);
  }

  lemma RunStep(ss: seq<Net>, k: nat)
    requires Run(ss) && k + 1 < |ss|
    ensures Reaches(ss[k], ss[k + 1])
  {
  }

  /** Between any two states of a run nothing is lost and no identity changes. */
  lemma {:induction false} RunGrows(ss: seq<Net>, j: nat, k: nat)
    requires Run(ss) && j <= k < |ss|
    ensures NetInv(ss[j]) && NetInv(ss[k]) && Grows(ss[j], ss[k])
    decreases k - j
  {
    hide NetInv, Grows, Reaches;
    if j == k {
      RunSafe(ss, j);
      GrowsRefl(ss[j]);
    } else {
      RunGrows(ss, j, k - 1);
      RunStep(ss, k - 1);
      GrowsStep(ss[j], ss[k - 1], ss[k]);
    }
  }

  // ------------------------------------------------------------- the promises

  lemma DistinctItems(me: Text, tab: Table, i: int, j: int)
    requires HostInv(me, tab) && 1 <= i <= |tab.items| && 1 <= j <= |tab.items|
    requires OrigIdentity(me, tab, i) == OrigIdentity(me, tab, j)
    ensures i == j
  {
  }

  /** In every run, no host ever holds two items with the same identity. */
  lemma OneItemPerIdentity(ss: seq<Net>, k: nat, h: Text, i: int, j: int)
    requires Run(ss) && k < |ss| && h in ss[k].tables
    requires 1 <= i <= |ss[k].tables[h].items| && 1 <= j <= |ss[k].tables[h].items|
    ensures Linked(ss[k].tables[h])
    ensures OrigIdentity(h, ss[k].tables[h], i) == OrigIdentity(h, ss[k].tables[h], j) ==> i == j
  {
    RunSafe(ss, k);
    var tab := ss[k].tables[h];
    assert HostInv(h, tab);
    if OrigIdentity(h, tab, i) == OrigIdentity(h, tab, j) {
      DistinctItems(h, tab, i, j);
    }
  }

  /** `iorig_to_local` inverts `getoitem` at every host of every reachable state, and
      reports exactly whether the item is still there. */
  lemma ToLocalOfIdentity(s: Net, h: Text, i: int)
    requires NetInv(s) && h in s.tables && 1 <= i <= |s.tables[h].items|
    ensures var tab := s.tables[h];
            var (ok, local) := ToLocal(h, tab, OrigIdentity(h, tab, i));
            local == i && (ok <==> tab.items[i - 1].orighost == 0 || tab.items[i - 1].responses >= 0)
  {
    var tab := s.tables[h];
    var id := OrigIdentity(h, tab, i);
    assert HostInv(h, tab);
    if id.host != h {
      var j := FirstImport(tab, 1, id);
      ImportedIsIdentity(h, tab, i, id);
      assert j <= i;
      ImportedIsIdentity(h, tab, j, id);
      DistinctItems(h, tab, i, j);
    }
  }

  /** And `getoitem` inverts `iorig_to_local` on every identity in circulation: a positive
      answer is an item of that very identity, and 0 means that no item has it. */
  lemma IdentityOfToLocal(s: Net, h: Text, id: Id)
    requires NetInv(s) && h in s.tables && Authentic(s, id)
    ensures var tab := s.tables[h];
            var local := ToLocal(h, tab, id).1;
            && 0 <= local <= |tab.items|
            && (local > 0 ==> OrigIdentity(h, tab, local) == id)
            && (local == 0 ==> forall i :: 1 <= i <= |tab.items| ==> OrigIdentity(h, tab, i) != id)
  {
    var tab := s.tables[h];
    assert HostInv(h, tab);
    assert HostInv(id.host, s.tables[id.host]);
    if id.host != h {
      forall i | 1 <= i <= |tab.items|
        ensures ImportedAs(tab, i, id) <==> OrigIdentity(h, tab, i) == id
      {
        ImportedIsIdentity(h, tab, i, id);
      }
    }
  }

  /** `send_item` ships every item under the identity `getoitem` reports. */
  lemma ShippedAsKnown(me: Text, tab: Table, i: int)
    requires HostInv(me, tab) && 1 <= i <= |tab.items|
    ensures SentIdentity(me, tab, i) == OrigIdentity(me, tab, i)
  {
    assert EntryOk(tab.items[i - 1], |tab.hostnames|);
  }

  /** Apart from that invariant the two tests agree on an item exactly when it has a host
      if and only if it has a number. */
  lemma ShippedAsKnownIff(me: Text, tab: Table, i: int)
    requires Linked(tab) && 1 <= i <= |tab.items| && me != []
    requires forall j :: 0 <= j < |tab.hostnames| ==> tab.hostnames[j] != me
    ensures SentIdentity(me, tab, i) == OrigIdentity(me, tab, i)
            <==> (tab.items[i - 1].orighost > 0 <==> tab.items[i - 1].origitem > 0)
  {
    var e := tab.items[i - 1];
    assert e.orighost > 0 ==> tab.hostnames[e.orighost - 1] != me;
  }

  /** Some item of the table has the identity. */
  ghost predicate Knows(me: Text, tab: Table, id: Id)
    requires Linked(tab)
  {
    exists i :: 1 <= i <= |tab.items| && OrigIdentity(me, tab, i) == id
  }

  /** Exactly what adding an item does, on any table that a host can have: an import that is
      there is left alone, anything else is refused if and only if the table is full, and
      otherwise it becomes the next item, without responses, under the identity delivered; a
      local item gets this host and its own number. */
  lemma NewItemExactly(me: Text, tab: Table, id: Id)
    requires HostInv(me, tab) && id.host != me
    ensures var (t', local, error) := NewItem(me, tab, id);
            var here := id.host != [] && Knows(me, tab, id);
            var full := |tab.items| >= MAXITEMS - 1;
            && Linked(t')
            && error == (if !here && full then DCFULL else NOERR)
            && (here || full ==> t' == tab)
            && (here ==> 1 <= local <= |tab.items| && OrigIdentity(me, tab, local) == id)
            && (!here && !full ==>
                  && local == |t'.items| == |tab.items| + 1 && t'.items[..|tab.items|] == tab.items
                  && TableGrows(me, tab, t') && t'.items[local - 1].responses == 0
                  && OrigIdentity(me, t', local) == if id.host == [] then Id(me, local) else id)
  {
    hide Created, OrigIdentity;
    if id.host != [] {
      forall i | 1 <= i <= |tab.items|
        ensures ImportedAs(tab, i, id) <==> OrigIdentity(me, tab, i) == id
      {
        ImportedIsIdentity(me, tab, i, id);
      }
    }
    CreatedExtends(me, tab, id.host, id.num);
  }

  /** What comes back to the host it was sent from is left alone there. */
  lemma EchoIgnored(s: Net, h: Text, num: int)
    requires NetInv(s) && h in s.tables && Authentic(s, Id(h, num))
    ensures NewItem(h, s.tables[h], Id(h, num)) == (s.tables[h], num, NOERR)
    ensures Linked(s.tables[h]) && 1 <= num <= |s.tables[h].items| && OrigIdentity(h, s.tables[h], num) == Id(h, num)
  {
    assert HostInv(h, s.tables[h]);
  }

  /** An item keeps its identity over any number of hops: what a host receives, unless its table
      is full, it holds, and ships on at any later time, under the identity it was sent with. */
  lemma HopsKeepIdentity(ss: seq<Net>, j: nat, k: nat, h: Text, id: Id)
    requires Run(ss) && j < k < |ss| && Next(ss[j], Deliver(h, id), ss[j + 1])
    requires Linked(ss[j].tables[h]) && (Knows(h, ss[j].tables[h], id) || |ss[j].tables[h].items| < MAXITEMS - 1)
    ensures h in ss[k].tables && Linked(ss[k].tables[h])
    ensures var local := NewItem(h, ss[j].tables[h], id).1;
            && 1 <= local <= |ss[k].tables[h].items|
            && OrigIdentity(h, ss[k].tables[h], local) == id
            && SentIdentity(h, ss[k].tables[h], local) == id
  {
    RunSafe(ss, j);
    RunGrows(ss, j + 1, k);
    assert Authentic(ss[j], id);
    assert HostInv(id.host, ss[j].tables[id.host]) && HostInv(h, ss[j].tables[h]);
    var local := NewItem(h, ss[j].tables[h], id).1;
    if h == id.host {
      EchoIgnored(ss[j], h, id.num);
    } else {
      NewItemExactly(h, ss[j].tables[h], id);
    }
    assert OrigIdentity(h, ss[j + 1].tables[h], local) == id;
    LaterIdentity(h, ss[j + 1].tables[h], ss[k].tables[h], local);
    assert HostInv(h, ss[k].tables[h]);
    ShippedAsKnown(h, ss[k].tables[h], local);
  }

  lemma LaterIdentity(me: Text, t: Table, t': Table, i: int)
    requires Linked(t) && Linked(t') && TableGrows(me, t, t') && 1 <= i <= |t.items|
    ensures i <= |t'.items| && OrigIdentity(me, t', i) == OrigIdentity(me, t, i)
  {
  }

  /** Deleting an item: it is marked, if it is there and readable, and every other entry stays;
      the error says that there was nothing to delete. */
  lemma DeleteExactly(tab: Table, i: int, readable: bool)
    requires 1 <= i
    ensures var (t', error) := DeleteItem(tab, i, readable);
            var there := i <= |tab.items| && tab.items[i - 1].responses >= 0;
            && t'.hostnames == tab.hostnames && |t'.items| == |tab.items|
            && (forall k :: 0 <= k < |tab.items| && k != i - 1 ==> t'.items[k] == tab.items[k])
            && (there && readable ==> t'.items[i - 1] == tab.items[i - 1].(responses := -1))
            && (!(there && readable) ==> t' == tab)
            && (i <= |tab.items| && (readable || !there) ==> t'.items[i - 1].responses < 0)
            && (error == NOERR <==> i <= |tab.items| && t'.items[i - 1].responses < 0)
            && (error != NOERR ==> error == DINOITEM)
  {
  }

  /** Adding a response: the item, if it is there, counts one more, and that is the number of the
      response; every other entry stays. */
  lemma ResponseExactly(tab: Table, i: int)
    requires 1 <= i
    ensures var (t', rnum, error) := AddResponse(tab, i);
            var there := i <= |tab.items| && tab.items[i - 1].responses >= 0;
            && t'.hostnames == tab.hostnames && |t'.items| == |tab.items|
            && (forall k :: 0 <= k < |tab.items| && k != i - 1 ==> t'.items[k] == tab.items[k])
            && (there ==> rnum == tab.items[i - 1].responses + 1 && t'.items[i - 1] == tab.items[i - 1].(responses := rnum))
            && (!there ==> rnum == 0 && t' == tab)
            && (error == NOERR <==> i <= |tab.items|) && (error != NOERR ==> error == DINOITEM)
  {
  }

  /** An item deleted on a host never comes back there: at every later time each item with
      its identity is that same item, still deleted, whatever was delivered meanwhile. */
  lemma NeverResurrected(ss: seq<Net>, j: nat, k: nat, h: Text, i: int, n: int)
    requires Run(ss) && j <= k < |ss| && h in ss[j].tables
    requires 1 <= i <= |ss[j].tables[h].items| && ss[j].tables[h].items[i - 1].responses < 0
    requires h in ss[k].tables && 1 <= n <= |ss[k].tables[h].items|
    ensures Linked(ss[j].tables[h]) && Linked(ss[k].tables[h])
    ensures OrigIdentity(h, ss[k].tables[h], n) == OrigIdentity(h, ss[j].tables[h], i) ==>
              n == i && ss[k].tables[h].items[n - 1].responses < 0
  {
    RunGrows(ss, j, k);
    var t, t' := ss[j].tables[h], ss[k].tables[h];
    assert TableGrows(h, t, t');
    assert HostInv(h, t) && HostInv(h, t');
    if OrigIdentity(h, t', n) == OrigIdentity(h, t, i) {
      DistinctItems(h, t', n, i);
    }
  }

  /** Delivering the same thing twice is delivering it once exactly when the sender's host
      has a name; with the empty name every delivery makes another item. */
  lemma DuplicateIgnoredIff(me: Text, tab: Table, id: Id)
    requires Linked(tab) && id.num > 0 && |tab.items| < MAXITEMS - 2
    ensures var once := NewItem(me, tab, id).0;
            NewItem(me, once, id).0 == once <==> id.host != []
  {
    var once := NewItem(me, tab, id).0;
    if id.host == [] {
      assert |NewItem(me, once, id).0.items| == |once.items| + 1;
    } else if id.host != me {
      CreatedExtends(me, tab, id.host, id.num);
      var n := |tab.items| + 1;
      if ToLocal(me, tab, id).1 == 0 {
        assert OrigIdentity(me, once, n) == id && ImportedAs(once, n, id);
        assert FirstImport(once, 1, id) <= n;
      }
    }
  }
}
