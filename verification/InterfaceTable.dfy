/** The interface table and its five indices
    (network-daemon/src/interface/table.rs). */
module InterfaceTable {
  import opened Prelude
  import opened Buckets

  datatype ConnectionState = Up | Connected | Disconnected | NoCarrier | Disabled | NotApplicable | Unmanaged

  /** The types that the daemon tells apart; all others behave alike. */
  datatype InterfaceType = Bridge | Vlan | Loopback | Wlan | Ethernet | Lagg | Other

  datatype Prefixed = Prefixed(addr: nat, prefixLen: nat)

  datatype InterfaceInfo = InterfaceInfo(
    id: nat,
    name: string,
    state: ConnectionState,
    interfaceType: InterfaceType,
    ipv4Addrs: seq<Prefixed>,
    ipv6Addrs: seq<Prefixed>,
    gatewayIpv4: Option<Prefixed>,
    gatewayIpv6: Option<Prefixed>,
    dhcpv4Enabled: bool,
    slaacEnabled: bool,
    parent: Option<string>)

  datatype Tables = Tables(
    interfaces: map<string, InterfaceInfo>,
    indexToName: map<nat, string>,
    nameToIndex: map<string, nat>,
    byType: map<InterfaceType, set<string>>,
    byParent: map<string, set<string>>,
    byState: map<ConnectionState, set<string>>)

  const NO_TABLES := Tables(map[], map[], map[], map[], map[], map[])

  // -------------------------------------------------------------- the operations

  function Inserted(t: Tables, info: InterfaceInfo): Tables {
    var (name, index) := (info.name, info.id);
    var nameToIndex :=
      if index in t.indexToName && t.indexToName[index] != name
      then t.nameToIndex - {t.indexToName[index]} else t.nameToIndex;
    var indexToName :=
      if name in nameToIndex && nameToIndex[name] != index
      then t.indexToName - {nameToIndex[name]} else t.indexToName;
    Tables(
      t.interfaces[name := info],
      indexToName[index := name],
      nameToIndex[name := index],
      Enlisted(t.byType, info.interfaceType, name),
      if info.parent.Some? then Enlisted(t.byParent, info.parent.value, name) else t.byParent,
      Enlisted(t.byState, info.state, name))
  }

  function Removed(t: Tables, name: string): Tables {
    if name !in t.interfaces then t
    else
      var info := t.interfaces[name];
      Tables(
        t.interfaces - {name},
        t.indexToName - {info.id},
        t.nameToIndex - {name},
        Struck(t.byType, info.interfaceType, name),
        if info.parent.Some? then Struck(t.byParent, info.parent.value, name) else t.byParent,
        Struck(t.byState, info.state, name))
  }

  function Updated(t: Tables, info: InterfaceInfo): Tables {
    Inserted(Removed(t, info.name), info)
  }

  // ---------------------------------------------------- what the indices stand for

  predicate Named(t: Tables) {
    forall n :: n in t.interfaces ==> t.interfaces[n].name == n
  }

  /** Every stored interface is listed under its own type, parent and state. */
  predicate Covered(t: Tables) {
    && Named(t)
    && forall n :: n in t.interfaces ==>
         var info := t.interfaces[n];
         && n in Bucket(t.byType, info.interfaceType)
         && n in Bucket(t.byState, info.state)
         && (info.parent.Some? ==> n in Bucket(t.byParent, info.parent.value))
  }

  /** Index and name determine one another. */
  predicate IndexExact(t: Tables) {
    && (forall i :: i in t.indexToName ==>
          t.indexToName[i] in t.interfaces && t.interfaces[t.indexToName[i]].id == i)
    && (forall n :: n in t.interfaces ==>
          t.interfaces[n].id in t.indexToName && t.indexToName[t.interfaces[n].id] == n)
    && t.nameToIndex.Keys == t.interfaces.Keys
    && (forall n :: n in t.nameToIndex ==> n in t.interfaces && t.nameToIndex[n] == t.interfaces[n].id)
  }

  /** The index groups the members by their key, and holds nothing else. */
  ghost predicate Groups<K(!new)>(index: map<K, set<string>>, members: map<string, K>) {
    forall k, n :: n in Bucket(index, k) <==> n in members && members[n] == k
  }

  function Types(interfaces: map<string, InterfaceInfo>): map<string, InterfaceType> {
    map n | n in interfaces :: interfaces[n].interfaceType
  }

  function States(interfaces: map<string, InterfaceInfo>): map<string, ConnectionState> {
    map n | n in interfaces :: interfaces[n].state
  }

  function Parents(interfaces: map<string, InterfaceInfo>): map<string, string> {
    map n | n in interfaces && interfaces[n].parent.Some? :: interfaces[n].parent.value
  }

  /** Each secondary index is the grouping of all entries. */
  ghost predicate ListsExact(t: Tables) {
    && Groups(t.byType, Types(t.interfaces))
    && Groups(t.byState, States(t.interfaces))
    && Groups(t.byParent, Parents(t.interfaces))
  }

  ghost predicate Exact(t: Tables) {
    Named(t) && IndexExact(t) && ListsExact(t)
  }

  predicate IndexFree(t: Tables, info: InterfaceInfo) {
    forall n :: n in t.interfaces && n != info.name ==> t.interfaces[n].id != info.id
  }

  /** What a plain insertion must respect. */
  predicate KeepsLists(t: Tables, info: InterfaceInfo) {
    info.name in t.interfaces ==>
      var stored := t.interfaces[info.name];
      && stored.interfaceType == info.interfaceType && stored.state == info.state
      && (stored.parent.Some? ==> stored.parent == info.parent)
  }

  predicate Fits(t: Tables, info: InterfaceInfo) {
    IndexFree(t, info) && KeepsLists(t, info)
  }

  // ------------------------------------------------------------ without hypotheses

  lemma InsertCovers(t: Tables, info: InterfaceInfo)
    requires Covered(t)
    ensures Covered(Inserted(t, info))
  {
  }

  lemma RemoveCovers(t: Tables, name: string)
    requires Covered(t)
    ensures Covered(Removed(t, name))
  {
  }

  // ----------------------------------------------------------------------- exactness

  lemma GroupsAfterEnlist<K(!new)>(index: map<K, set<string>>, members: map<string, K>, key: K, name: string)
    requires Groups(index, members)
    ensures Groups(Enlisted(index, key, name), members[name := key]) <==> (name in members ==> members[name] == key)
  {
    var (i, m) := (Enlisted(index, key, name), members[name := key]);
    forall k, n
      ensures n in Bucket(i, k) <==> (n in members && members[n] == k) || (k == key && n == name)
    {
      assert Bucket(i, k) == if k == key then Bucket(index, key) + {name} else Bucket(index, k);
    }
    if name in members && members[name] != key {
      var was := members[name];
      assert name in Bucket(i, was) && m[name] != was;
      assert !Groups(i, m);
    } else {
      forall k, n ensures n in Bucket(i, k) <==> n in m && m[n] == k {
        assert n in m <==> n in members || n == name;
      }
    }
  }

  lemma GroupsAfterStrike<K(!new)>(index: map<K, set<string>>, members: map<string, K>, name: string)
    requires Groups(index, members) && name in members
    ensures Groups(Struck(index, members[name], name), members - {name})
  {
    var i := Struck(index, members[name], name);
    forall k, n ensures n in Bucket(i, k) <==> n in members - {name} && (members - {name})[n] == k {
      assert n in Bucket(i, k) <==> n in Bucket(index, k) && !(k == members[name] && n == name);
    }
  }

  lemma GroupsWithout<K(!new)>(index: map<K, set<string>>, members: map<string, K>, name: string)
    requires Groups(index, members)
    ensures Groups(index, members - {name}) <==> name !in members
  {
    if name in members {
      assert name in Bucket(index, members[name]);
    } else {
      assert members - {name} == members;
    }
  }

  lemma RemoveListsExact(t: Tables, name: string)
    requires Named(t) && ListsExact(t)
    ensures ListsExact(Removed(t, name))
  {
    if name in t.interfaces {
      var rest := t.interfaces - {name};
      GroupsAfterStrike(t.byType, Types(t.interfaces), name);
      assert Types(rest) == Types(t.interfaces) - {name};
      GroupsAfterStrike(t.byState, States(t.interfaces), name);
      assert States(rest) == States(t.interfaces) - {name};
      assert Parents(rest) == Parents(t.interfaces) - {name};
      if t.interfaces[name].parent.Some? {
        GroupsAfterStrike(t.byParent, Parents(t.interfaces), name);
      } else {
        GroupsWithout(t.byParent, Parents(t.interfaces), name);
      }
    }
  }

  lemma RemoveIndexExact(t: Tables, name: string)
    requires Named(t) && IndexExact(t)
    ensures IndexExact(Removed(t, name))
  {
  }

  lemma RemoveExact(t: Tables, name: string)
    requires Exact(t)
    ensures Exact(Removed(t, name))
  {
    RemoveListsExact(t, name);
    RemoveIndexExact(t, name);
  }

  lemma InsertIndexExact(t: Tables, info: InterfaceInfo)
    requires Named(t) && IndexExact(t) && IndexFree(t, info)
    ensures IndexExact(Inserted(t, info))
  {
    var after := Inserted(t, info);
    if info.id in t.indexToName {
      assert t.indexToName[info.id] == info.name;
    }
    assert after.nameToIndex.Keys == after.interfaces.Keys;
    forall n | n in after.interfaces
      ensures after.interfaces[n].id in after.indexToName && after.indexToName[after.interfaces[n].id] == n
    {
      assert n != info.name ==> after.interfaces[n].id != info.id;
    }
  }

  lemma InsertIndexExactIff(t: Tables, info: InterfaceInfo)
    requires Named(t) && IndexExact(t)
    ensures IndexExact(Inserted(t, info)) <==> IndexFree(t, info)
  {
    if IndexFree(t, info) {
      InsertIndexExact(t, info);
    } else {
      var n :| n in t.interfaces && n != info.name && t.interfaces[n].id == info.id;
      var after := Inserted(t, info);
      assert n in after.interfaces && after.interfaces[n].id == info.id;
      assert after.indexToName[info.id] == info.name;
    }
  }

  lemma InsertTypesIff(t: Tables, info: InterfaceInfo)
    requires Groups(t.byType, Types(t.interfaces))
    ensures Groups(Enlisted(t.byType, info.interfaceType, info.name), Types(t.interfaces[info.name := info])) <==>
            (info.name in t.interfaces ==> t.interfaces[info.name].interfaceType == info.interfaceType)
  {
    GroupsAfterEnlist(t.byType, Types(t.interfaces), info.interfaceType, info.name);
    assert Types(t.interfaces[info.name := info]) == Types(t.interfaces)[info.name := info.interfaceType];
  }

  lemma InsertStatesIff(t: Tables, info: InterfaceInfo)
    requires Groups(t.byState, States(t.interfaces))
    ensures Groups(Enlisted(t.byState, info.state, info.name), States(t.interfaces[info.name := info])) <==>
            (info.name in t.interfaces ==> t.interfaces[info.name].state == info.state)
  {
    GroupsAfterEnlist(t.byState, States(t.interfaces), info.state, info.name);
    assert States(t.interfaces[info.name := info]) == States(t.interfaces)[info.name := info.state];
  }

  lemma InsertParentsIff(t: Tables, info: InterfaceInfo)
    requires Groups(t.byParent, Parents(t.interfaces))
    ensures Groups(if info.parent.Some? then Enlisted(t.byParent, info.parent.value, info.name) else t.byParent,
                   Parents(t.interfaces[info.name := info])) <==>
            (info.name in t.interfaces && t.interfaces[info.name].parent.Some? ==>
               t.interfaces[info.name].parent == info.parent)
  {
    var (name, all) := (info.name, t.interfaces[info.name := info]);
    if info.parent.Some? {
      GroupsAfterEnlist(t.byParent, Parents(t.interfaces), info.parent.value, name);
      assert Parents(all) == Parents(t.interfaces)[name := info.parent.value];
    } else {
      GroupsWithout(t.byParent, Parents(t.interfaces), name);
      assert Parents(all) == Parents(t.interfaces) - {name};
    }
  }

  lemma InsertListsExactIff(t: Tables, info: InterfaceInfo)
    requires Named(t) && ListsExact(t)
    ensures ListsExact(Inserted(t, info)) <==> KeepsLists(t, info)
  {
    InsertTypesIff(t, info);
    InsertStatesIff(t, info);
    InsertParentsIff(t, info);
  }

  /** A plain insertion keeps all indices exact precisely when no other
      interface holds the index and the name is new or keeps its type, state
      and any parent it had. */
  lemma InsertExactIff(t: Tables, info: InterfaceInfo)
    requires Exact(t)
    ensures Exact(Inserted(t, info)) <==> Fits(t, info)
  {
    InsertIndexExactIff(t, info);
    InsertListsExactIff(t, info);
  }

  /** Removing first leaves only the index to go wrong. */
  lemma UpdateExactIff(t: Tables, info: InterfaceInfo)
    requires Exact(t)
    ensures Exact(Updated(t, info)) <==> IndexFree(t, info)
  {
    RemoveExact(t, info.name);
    InsertExactIff(Removed(t, info.name), info);
  }

  /** Reinserting an entry into an exact table changes nothing. */
  lemma InsertSame(t: Tables, name: string)
    requires Exact(t) && name in t.interfaces
    ensures Inserted(t, t.interfaces[name]) == t
  {
    var info := t.interfaces[name];
    assert t.indexToName[info.id] == name && t.nameToIndex[name] == info.id;
    assert name in Bucket(t.byType, info.interfaceType) by {
      assert Types(t.interfaces)[name] == info.interfaceType;
    }
    assert name in Bucket(t.byState, info.state) by {
      assert States(t.interfaces)[name] == info.state;
    }
    if info.parent.Some? {
      assert name in Bucket(t.byParent, info.parent.value) by {
        assert Parents(t.interfaces)[name] == info.parent.value;
      }
      AlreadyListed(t.byParent, info.parent.value, name);
    }
    AlreadyListed(t.byType, info.interfaceType, name);
    AlreadyListed(t.byState, info.state, name);
  }

  lemma AlreadyListed<K>(index: map<K, set<string>>, key: K, name: string)
    requires name in Bucket(index, key)
    ensures Enlisted(index, key, name) == index
  {
    assert index[key] + {name} == index[key];
  }

  // ------------------------------------------------------------------- the class

  /** What a list request returns for the names in a bucket: the entries that
      are stored under them, each once, in any order. */
  ghost predicate ListsEntries(infos: seq<InterfaceInfo>, names: set<string>, interfaces: map<string, InterfaceInfo>) {
    && (forall i :: 0 <= i < |infos| ==>
          infos[i].name in names && infos[i].name in interfaces && infos[i] == interfaces[infos[i].name])
    && (forall i, j :: 0 <= i < j < |infos| ==> infos[i].name != infos[j].name)
    && (forall n :: n in names && n in interfaces ==> interfaces[n] in infos)
  }

  lemma ListedIff(infos: seq<InterfaceInfo>, names: set<string>, interfaces: map<string, InterfaceInfo>)
    requires ListsEntries(infos, names, interfaces)
    requires forall n :: n in interfaces ==> interfaces[n].name == n
    ensures forall info :: info in infos <==>
              info.name in names && info.name in interfaces && interfaces[info.name] == info
  {
  }

  lemma GroupIs<K(!new)>(index: map<K, set<string>>, members: map<string, K>, k: K)
    requires Groups(index, members)
    ensures Bucket(index, k) == set n | n in members && members[n] == k
  {
  }

  class Table {
    var interfaces: map<string, InterfaceInfo>
    var indexToName: map<nat, string>
    var nameToIndex: map<string, nat>
    var byType: map<InterfaceType, set<string>>
    var byParent: map<string, set<string>>
    var byState: map<ConnectionState, set<string>>

    ghost function View(): Tables
      reads this
    {
      Tables(interfaces, indexToName, nameToIndex, byType, byParent, byState)
    }

    constructor ()
      ensures View() == NO_TABLES
    {
      interfaces, indexToName, nameToIndex, byType, byParent, byState := map[], map[], map[], map[], map[], map[];
    }

    method Insert(info: InterfaceInfo)
      modifies this
      ensures View() == Inserted(old(View()), info)
      ensures old(Exact(View())) ==> (Exact(View()) <==> old(Fits(View(), info)))
    {
      if Exact(View()) {
        InsertExactIff(View(), info);
      }
      Store(info);
    }

    method Store(info: InterfaceInfo)
      modifies this
      ensures View() == Inserted(old(View()), info)
    {
      var (name, index) := (info.name, info.id);
      interfaces := interfaces[name := info];
      if index in indexToName && indexToName[index] != name {
        nameToIndex := nameToIndex - {indexToName[index]};
      }
      if name in nameToIndex && nameToIndex[name] != index {
        indexToName := indexToName - {nameToIndex[name]};
      }
      indexToName := indexToName[index := name];
      nameToIndex := nameToIndex[name := index];
      byType := Enlisted(byType, info.interfaceType, name);
      if info.parent.Some? {
        byParent := Enlisted(byParent, info.parent.value, name);
      }
      byState := Enlisted(byState, info.state, name);
    }

    method Remove(name: string) returns (removed: Option<InterfaceInfo>)
      modifies this
      ensures View() == Removed(old(View()), name)
      ensures removed == if name in old(interfaces) then Some(old(interfaces)[name]) else None
      ensures old(Exact(View())) ==> Exact(View()) && name !in interfaces
    {
      if Exact(View()) {
        RemoveExact(View(), name);
      }
      if name !in interfaces {
        return None;
      }
      var info := interfaces[name];
      interfaces := interfaces - {name};
      indexToName := indexToName - {info.id};
      nameToIndex := nameToIndex - {name};
      byType := Struck(byType, info.interfaceType, name);
      if info.parent.Some? {
        byParent := Struck(byParent, info.parent.value, name);
      }
      byState := Struck(byState, info.state, name);
      removed := Some(info);
    }

    method Update(info: InterfaceInfo) returns (replaced: Option<InterfaceInfo>)
      modifies this
      ensures View() == Updated(old(View()), info)
      ensures replaced == if info.name in old(interfaces) then Some(old(interfaces)[info.name]) else None
      ensures old(Exact(View())) ==> (Exact(View()) <==> old(IndexFree(View(), info)))
    {
      if Exact(View()) {
        UpdateExactIff(View(), info);
      }
      replaced := Remove(info.name);
      Insert(info);
    }

    method Clear()
      modifies this
      ensures View() == NO_TABLES
    {
      interfaces, indexToName, nameToIndex, byType, byParent, byState := map[], map[], map[], map[], map[], map[];
    }

    function Get(name: string): (r: Option<InterfaceInfo>)
      reads this
    {
      if name in interfaces then Some(interfaces[name]) else None
    }

    /** An exact table finds an entry by index just when one has that index. */
    function GetByIndex(index: nat): (r: Option<InterfaceInfo>)
      reads this
      ensures Exact(View()) && r.Some? ==> r.value.id == index && Get(r.value.name) == r
      ensures Exact(View()) && r.None? ==> forall n :: n in interfaces ==> interfaces[n].id != index
    {
      if index in indexToName then Get(indexToName[index]) else None
    }

    method Entries(names: set<string>) returns (infos: seq<InterfaceInfo>)
      requires Named(View())
      ensures ListsEntries(infos, names, interfaces)
    {
      infos := [];
      var left := names;
      while left != {}
        invariant left <= names
        invariant forall i :: 0 <= i < |infos| ==>
          infos[i].name in names - left && infos[i].name in interfaces && infos[i] == interfaces[infos[i].name]
        invariant forall i, j :: 0 <= i < j < |infos| ==> infos[i].name != infos[j].name
        invariant forall n :: n in names - left && n in interfaces ==> interfaces[n] in infos
        decreases |left|
      {
        var n :| n in left;
        if n in interfaces {
          infos := infos + [interfaces[n]];
        }
        left := left - {n};
      }
    }

    method ListByType(interfaceType: InterfaceType) returns (infos: seq<InterfaceInfo>)
      requires Named(View())
      ensures ListsEntries(infos, Bucket(byType, interfaceType), interfaces)
      ensures ListsExact(View()) ==>
                forall info :: info in infos <==>
                  info.name in interfaces && interfaces[info.name] == info && info.interfaceType == interfaceType
    {
      infos := Entries(Bucket(byType, interfaceType));
      ListedIff(infos, Bucket(byType, interfaceType), interfaces);
      if ListsExact(View()) {
        GroupIs(byType, Types(interfaces), interfaceType);
      }
    }

    method ListByParent(parent: string) returns (infos: seq<InterfaceInfo>)
      requires Named(View())
      ensures ListsEntries(infos, Bucket(byParent, parent), interfaces)
      ensures ListsExact(View()) ==>
                forall info :: info in infos <==>
                  info.name in interfaces && interfaces[info.name] == info && info.parent == Some(parent)
    {
      infos := Entries(Bucket(byParent, parent));
      ListedIff(infos, Bucket(byParent, parent), interfaces);
      if ListsExact(View()) {
        GroupIs(byParent, Parents(interfaces), parent);
      }
    }

    method ListByState(state: ConnectionState) returns (infos: seq<InterfaceInfo>)
      requires Named(View())
      ensures ListsEntries(infos, Bucket(byState, state), interfaces)
      ensures ListsExact(View()) ==>
                forall info :: info in infos <==>
                  info.name in interfaces && interfaces[info.name] == info && info.state == state
    {
      infos := Entries(Bucket(byState, state));
      ListedIff(infos, Bucket(byState, state), interfaces);
      if ListsExact(View()) {
        GroupIs(byState, States(interfaces), state);
      }
    }
  }
}
