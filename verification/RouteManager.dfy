/** The route manager: interface events against the backup tables, route
    changes against the route table, and the requests that follow
    (network-daemon/src/route/mod.rs). */
module RouteManager {
  import opened Prelude
  import opened InterfaceTable
  import opened InterfaceEvents
  import opened BackupRoutes
  import opened RouteTable
  import Cidr
  import Buckets

  datatype Request = AddRoute(route: Route) | DeleteRoute(route: Route)

  // -------------------------------------------------------- what an event records

  function Width(v6: bool): nat {
    if v6 then Cidr.V6_WIDTH else Cidr.V4_WIDTH
  }

  /** Addresses of their width with a prefix of at most that. */
  predicate WithinWidth(p: Prefixed, v6: bool) {
    p.prefixLen <= Width(v6)
  }

  predicate Addressed(info: InterfaceInfo) {
    && (forall i :: 0 <= i < |info.ipv4Addrs| ==> WithinWidth(info.ipv4Addrs[i], false))
    && (forall i :: 0 <= i < |info.ipv6Addrs| ==> WithinWidth(info.ipv6Addrs[i], true))
  }

  function AddrsIn(info: InterfaceInfo, v6: bool): (addrs: seq<Prefixed>)
    requires Addressed(info)
    ensures forall i :: 0 <= i < |addrs| ==> WithinWidth(addrs[i], v6)
  {
    if v6 then info.ipv6Addrs else info.ipv4Addrs
  }

  function GatewayIn(info: InterfaceInfo, v6: bool): Option<Prefixed> {
    if v6 then info.gatewayIpv6 else info.gatewayIpv4
  }

  function NetsIn(info: InterfaceInfo, v6: bool): seq<Prefixed>
    requires Addressed(info)
  {
    var addrs := AddrsIn(info, v6);
    seq(|addrs|, i requires 0 <= i < |addrs| =>
      Prefixed(Cidr.NetId(Width(v6), addrs[i].addr, addrs[i].prefixLen), addrs[i].prefixLen))
  }

  /** One family's backup after an event. */
  function BackupAfter(b: Backup<Prefixed>, e: Notice, v6: bool): Backup<Prefixed>
    requires Addressed(e.info)
  {
    var (id, gateway, nets) := (e.info.id, GatewayIn(e.info, v6), NetsIn(e.info, v6));
    match e
    case InterfaceAdded(_) => if gateway.Some? then BackupRoutes.Inserted(b, id, gateway.value, nets) else b
    case InterfaceRemoved(_) => BackupRoutes.Removed(b, id)
    case InterfaceChanged(_) =>
      var noted :=
        if gateway.Some? then BackupRoutes.Inserted(b, id, gateway.value, nets) else BackupRoutes.Removed(b, id);
      if e.info.state != Connected then BackupRoutes.Removed(noted, id) else noted
  }

  predicate AllAddressed(events: seq<Notice>) {
    forall i :: 0 <= i < |events| ==> Addressed(events[i].info)
  }

  function BackupRun(events: seq<Notice>, v6: bool): Backup<Prefixed>
    requires AllAddressed(events)
  {
    if events == [] then Backup(map[], map[])
    else BackupAfter(BackupRun(events[..|events| - 1], v6), events[|events| - 1], v6)
  }

  // -------------------------------------------- the fold of an interface's own events

  /** What an interface should have on record. */
  datatype Record = Record(gateway: Option<Prefixed>, nets: set<Prefixed>)

  const NO_RECORD := Record(None, {})

  /** An event means one of three things for its interface: a gateway with
      more networks, an end of both, or nothing. */
  predicate Records(e: Notice, v6: bool) {
    GatewayIn(e.info, v6).Some? && (e.InterfaceAdded? || (e.InterfaceChanged? && e.info.state == Connected))
  }

  predicate Clears(e: Notice, v6: bool) {
    e.InterfaceRemoved? || (e.InterfaceChanged? && (GatewayIn(e.info, v6).None? || e.info.state != Connected))
  }

  function Own(events: seq<Notice>, id: nat): seq<Notice> {
    if events == [] then []
    else
      var rest := Own(events[..|events| - 1], id);
      if events[|events| - 1].info.id == id then rest + [events[|events| - 1]] else rest
  }

  function Folded(own: seq<Notice>, v6: bool): Record
    requires AllAddressed(own)
  {
    if own == [] then NO_RECORD
    else
      var (r, e) := (Folded(own[..|own| - 1], v6), own[|own| - 1]);
      if Records(e, v6) then Record(GatewayIn(e.info, v6), r.nets + BackupRoutes.Elements(NetsIn(e.info, v6)))
      else if Clears(e, v6) then NO_RECORD
      else r
  }

  lemma {:induction false} OwnAddressed(events: seq<Notice>, id: nat)
    requires AllAddressed(events)
    ensures AllAddressed(Own(events, id))
  {
    if events != [] {
      OwnAddressed(events[..|events| - 1], id);
    }
  }

  function RecordOf(b: Backup<Prefixed>, id: nat): Record {
    Record(if id in b.gateways then Some(b.gateways[id]) else None, Buckets.Bucket(b.nets, id))
  }

  lemma OneEvent(b: Backup<Prefixed>, e: Notice, v6: bool, id: nat)
    requires Addressed(e.info)
    ensures var (before, after) := (RecordOf(b, id), RecordOf(BackupAfter(b, e, v6), id));
            after == if e.info.id != id then before
                     else if Records(e, v6) then
                       Record(GatewayIn(e.info, v6), before.nets + BackupRoutes.Elements(NetsIn(e.info, v6)))
                     else if Clears(e, v6) then NO_RECORD
                     else before
  {
  }

  /** Whatever other interfaces do, an interface's record is the fold of its
      own events. */
  lemma {:induction false} RecordIsFold(events: seq<Notice>, v6: bool, id: nat)
    requires AllAddressed(events)
    ensures AllAddressed(Own(events, id))
    ensures RecordOf(BackupRun(events, v6), id) == Folded(Own(events, id), v6)
  {
    OwnAddressed(events, id);
    if events == [] {
      assert Buckets.Bucket<nat, Prefixed>(map[], id) == {};
    } else {
      var (init, e) := (events[..|events| - 1], events[|events| - 1]);
      RecordIsFold(init, v6, id);
      OneEvent(BackupRun(init, v6), e, v6, id);
      if e.info.id == id {
        assert Own(events, id)[..|Own(events, id)| - 1] == Own(init, id);
      }
    }
  }

  /** An addition that names no gateway of the family. */
  predicate SaysNothing(e: Notice, v6: bool) {
    e.InterfaceAdded? && if v6 then e.info.gatewayIpv6.None? else e.info.gatewayIpv4.None?
  }

  /** The last event that says something decides about the gateway: none is left
      by an end and by an interface that is not connected, and the one it names
      by any other. */
  lemma {:induction false} LastWordDecides(own: seq<Notice>, v6: bool, k: nat)
    requires AllAddressed(own) && k < |own| && !SaysNothing(own[k], v6)
    requires forall j :: k < j < |own| ==> SaysNothing(own[j], v6)
    ensures Folded(own, v6).gateway ==
              if own[k].InterfaceRemoved? || (own[k].InterfaceChanged? && own[k].info.state != Connected) then None
              else if v6 then own[k].info.gatewayIpv6 else own[k].info.gatewayIpv4
  {
    if k < |own| - 1 {
      LastWordDecides(own[..|own| - 1], v6, k);
    }
  }

  // --------------------------------------------------------------- dead routes

  /** The key under which a route's network is looked up. */
  function NetKey(net: Net): Prefixed {
    Prefixed(net.addr, net.prefixLen)
  }

  /** The requests for routes that died with an interface: each is deleted, and
      added back over another interface where one is picked. */
  function Requests(routes: seq<Route>, picks: seq<Option<nat>>): seq<Request>
    requires |routes| == |picks|
  {
    if routes == [] then []
    else
      var n := |routes| - 1;
      Requests(routes[..n], picks[..n]) + RequestsFor(routes[n], picks[n])
  }

  /** Every one of the routes is deleted and no other; what is added is each
      route's network, over the interface picked for it. */
  lemma {:induction false} RequestsAre(routes: seq<Route>, picks: seq<Option<nat>>, x: Route)
    requires |routes| == |picks|
    ensures DeleteRoute(x) in Requests(routes, picks) <==> x in routes
    ensures AddRoute(x) in Requests(routes, picks) <==>
              exists i :: 0 <= i < |picks| && picks[i].Some? && x == Route(routes[i].net, None, picks[i])
  {
    if routes != [] {
      var n := |routes| - 1;
      RequestsAre(routes[..n], picks[..n], x);
      assert routes == routes[..n] + [routes[n]];
    }
  }

  function OthersFor(v4: Backup<Prefixed>, v6: Backup<Prefixed>, net: Net, id: nat): set<nat> {
    Outputs(if net.v6 then v6 else v4, NetKey(net)) - {id}
  }

  /** An interface is picked whenever another one is on record for the very
      network, and it is one of those. */
  ghost predicate PickedFor(v4: Backup<Prefixed>, v6: Backup<Prefixed>, id: nat, net: Net, pick: Option<nat>) {
    var others := OthersFor(v4, v6, net, id);
    (pick.None? <==> others == {}) && (pick.Some? ==> pick.value in others)
  }

  ghost predicate Picked(v4: Backup<Prefixed>, v6: Backup<Prefixed>, id: nat, routes: seq<Route>,
                         picks: seq<Option<nat>>)
  {
    |routes| == |picks| && forall i :: 0 <= i < |picks| ==> PickedFor(v4, v6, id, routes[i].net, picks[i])
  }

  function RequestsFor(r: Route, pick: Option<nat>): seq<Request> {
    [DeleteRoute(r)] + if pick.Some? then [AddRoute(Route(r.net, None, Some(pick.value)))] else []
  }

  /** After any run of route changes, a clean-up deletes a route that the
      kernel has over the interface exactly when the events put it in place and
      only additions of its prefix have followed; all others over that interface
      are missed. */
  lemma CleanUpDeletesIff(changes: seq<RouteChange>, id: nat, dead: seq<Route>, x: Route)
    requires AllNamed(changes) && AllOn(RouteTable.Run(NO_ROUTES, changes), id, dead) && x.ifIndex == Some(id)
    ensures x in dead <==> InPlace(None, changes, x.net, x)
  {
    CleanUpDeletesKnown(changes, id, dead, x);
    KnownIff(None, changes, x.net, x);
  }

  lemma CleanUpDeletesKnown(changes: seq<RouteChange>, id: nat, dead: seq<Route>, x: Route)
    requires AllNamed(changes) && AllOn(RouteTable.Run(NO_ROUTES, changes), id, dead) && x.ifIndex == Some(id)
    ensures x in dead <==> Known(None, changes, x.net) == Some(x)
  {
    var t := RouteTable.Run(NO_ROUTES, changes);
    RunStores(NO_ROUTES, changes, x.net);
    assert Stored(t, x.net).Some? ==> RoutesTo(t, x.net) == [Stored(t, x.net).value];
  }

  /** Two interfaces have a route to 10.0.0.0/8: cleaning up after the second
      deletes nothing. */
  lemma MissedRouteExample(a: Route, b: Route, dead: seq<Route>)
    requires a == Route(TEN, None, Some(1)) && b == Route(TEN, None, Some(2))
    requires AllOn(RouteTable.Run(NO_ROUTES, [Add(a), Add(b)]), 2, dead)
    ensures dead == []
  {
    var changes := [Add(a), Add(b)];
    assert changes[..1] == [Add(a)] && changes[..1][..0] == [];
    assert Known(None, changes[..1], TEN) == Some(a);
    forall x ensures x !in dead {
      if x in dead {
        CleanUpDeletesKnown(changes, 2, dead, x);
        OnlyTen(changes, x.net);
      }
    }
    if dead != [] {
      HasMember(dead);
    }
  }

  lemma HasMember(routes: seq<Route>)
    requires routes != []
    ensures exists r :: r in routes
  {
    assert routes[0] in routes;
  }

  lemma OnlyTen(changes: seq<RouteChange>, net: Net)
    requires forall i :: 0 <= i < |changes| ==> changes[i].route.net == TEN
    ensures net != TEN ==> Known(None, changes, net) == None
  {
  }

  /** Every route added back goes over an interface that survives and whose own
      events recorded the network. */
  lemma AddedBackOverSurvivor(events: seq<Notice>, v6: bool, net: Net, id: nat, pick: nat)
    requires AllAddressed(events) && net.v6 == v6
    requires pick in OthersFor(BackupRun(events, false), BackupRun(events, true), net, id)
    ensures AllAddressed(Own(events, pick))
    ensures pick != id && NetKey(net) in Folded(Own(events, pick), v6).nets
  {
    RecordIsFold(events, v6, pick);
  }

  /** Networks on record stay until an event clears them. */
  lemma {:induction false} RecordedNets(own: seq<Notice>, v6: bool, k: nat)
    requires AllAddressed(own) && k < |own| && Records(own[k], v6)
    requires forall j :: k < j < |own| ==> !Clears(own[j], v6)
    ensures BackupRoutes.Elements(NetsIn(own[k].info, v6)) <= Folded(own, v6).nets
  {
    if k < |own| - 1 {
      RecordedNets(own[..|own| - 1], v6, k);
    }
  }

  /** A surviving interface whose own address, reported with a gateway and not
      cleared since, shares the leading bits of `q` is on record for its
      network. */
  lemma SharedNetworkRecorded(events: seq<Notice>, v6: bool, id: nat, other: nat, k: nat, i: nat, q: nat)
    requires AllAddressed(events) && AllAddressed(Own(events, other)) && other != id
    requires k < |Own(events, other)| && Records(Own(events, other)[k], v6)
    requires forall j :: k < j < |Own(events, other)| ==> !Clears(Own(events, other)[j], v6)
    requires i < |AddrsIn(Own(events, other)[k].info, v6)|
    requires var (p, w) := (AddrsIn(Own(events, other)[k].info, v6)[i], Width(v6));
             && p.addr < Pow2(w) && q < Pow2(w)
             && forall b: nat :: b < p.prefixLen ==> Cidr.TopBit(w, p.addr, b) == Cidr.TopBit(w, q, b)
    ensures var (p, w) := (AddrsIn(Own(events, other)[k].info, v6)[i], Width(v6));
            other in OthersFor(BackupRun(events, false), BackupRun(events, true),
                               Net(v6, Cidr.NetId(w, q, p.prefixLen), p.prefixLen), id)
  {
    var (info, w) := (Own(events, other)[k].info, Width(v6));
    var p := AddrsIn(info, v6)[i];
    RecordIsFold(events, v6, other);
    RecordedNets(Own(events, other), v6, k);
    Cidr.SameNetworkIff(w, p.addr, q, p.prefixLen);
    assert NetsIn(info, v6)[i] in BackupRoutes.Elements(NetsIn(info, v6));
  }

  /** So when a clean-up after `id` finds a dead route to that network, the log
      holds its deletion and its addition over an interface that survives. */
  lemma SharedNetworkComesBack(events: seq<Notice>, v6: bool, id: nat, other: nat, k: nat, i: nat, q: nat,
                               dead: seq<Route>, picks: seq<Option<nat>>, r: Route)
    requires AllAddressed(events) && AllAddressed(Own(events, other)) && other != id
    requires k < |Own(events, other)| && Records(Own(events, other)[k], v6)
    requires forall j :: k < j < |Own(events, other)| ==> !Clears(Own(events, other)[j], v6)
    requires i < |AddrsIn(Own(events, other)[k].info, v6)|
    requires var (p, w) := (AddrsIn(Own(events, other)[k].info, v6)[i], Width(v6));
             && p.addr < Pow2(w) && q < Pow2(w)
             && (forall b: nat :: b < p.prefixLen ==> Cidr.TopBit(w, p.addr, b) == Cidr.TopBit(w, q, b))
             && r.net == Net(v6, Cidr.NetId(w, q, p.prefixLen), p.prefixLen)
    requires Picked(BackupRun(events, false), BackupRun(events, true), id, dead, picks) && r in dead
    ensures DeleteRoute(r) in Requests(dead, picks)
    ensures exists pick: nat :: pick != id && AddRoute(Route(r.net, None, Some(pick))) in Requests(dead, picks)
  {
    SharedNetworkRecorded(events, v6, id, other, k, i, q);
    PickedComesBack(BackupRun(events, false), BackupRun(events, true), id, other, dead, picks, r);
  }

  lemma PickedComesBack(v4: Backup<Prefixed>, v6: Backup<Prefixed>, id: nat, other: nat,
                        dead: seq<Route>, picks: seq<Option<nat>>, r: Route)
    requires Picked(v4, v6, id, dead, picks) && r in dead && other in OthersFor(v4, v6, r.net, id)
    ensures DeleteRoute(r) in Requests(dead, picks)
    ensures exists pick: nat :: pick != id && AddRoute(Route(r.net, None, Some(pick))) in Requests(dead, picks)
  {
    var j :| 0 <= j < |dead| && dead[j] == r;
    assert PickedFor(v4, v6, id, dead[j].net, picks[j]);
    var back := Route(r.net, None, picks[j]);
    RequestsAre(dead, picks, r);
    RequestsAre(dead, picks, back);
    assert AddRoute(Route(r.net, None, Some(picks[j].value))) in Requests(dead, picks);
  }

  // ------------------------------------------------------------- default routes

  function DefaultVia(v6: bool, gateway: Prefixed, oif: nat): Request {
    AddRoute(Route(DefaultNet(v6), Some(gateway.addr), Some(oif)))
  }

  /** What is asked for a family: a default route when the table has none and a
      gateway is on record, over such a gateway. */
  ghost predicate DefaultAsked(t: Routes, b: Backup<Prefixed>, v6: bool, asked: seq<Request>) {
    if Stored(t, DefaultNet(v6)).Some? || b.gateways == map[] then asked == []
    else exists oif :: oif in b.gateways && asked == [DefaultVia(v6, b.gateways[oif], oif)]
  }

  /** So a default route is only ever asked for over the gateway that the
      interface's own events last gave it. */
  lemma DefaultIsLive(events: seq<Notice>, t: Routes, v6: bool, asked: seq<Request>)
    requires AllAddressed(events) && DefaultAsked(t, BackupRun(events, v6), v6, asked)
    ensures |asked| <= 1
    ensures asked != [] ==>
              && Stored(t, DefaultNet(v6)).None?
              && exists oif: nat, gateway: Prefixed ::
                   && asked[0] == AddRoute(Route(Net(v6, 0, 0), Some(gateway.addr), Some(oif)))
                   && AllAddressed(Own(events, oif)) && Folded(Own(events, oif), v6).gateway == Some(gateway)
    ensures asked == [] && Stored(t, DefaultNet(v6)).None? ==>
              forall oif: nat :: AllAddressed(Own(events, oif)) && Folded(Own(events, oif), v6).gateway == None
  {
    var b := BackupRun(events, v6);
    if asked != [] {
      var oif :| oif in b.gateways && asked == [DefaultVia(v6, b.gateways[oif], oif)];
      RecordIsFold(events, v6, oif);
      var gateway := b.gateways[oif];
      assert asked[0] == AddRoute(Route(Net(v6, 0, 0), Some(gateway.addr), Some(oif)));
    } else if Stored(t, DefaultNet(v6)).None? {
      forall oif: nat ensures AllAddressed(Own(events, oif)) && Folded(Own(events, oif), v6).gateway == None {
        RecordIsFold(events, v6, oif);
      }
    }
  }

  // ----------------------------------------------------------------------- the actor

  function AddEach(listed: seq<Route>): seq<RouteChange> {
    seq(|listed|, i requires 0 <= i < |listed| => Add(listed[i]))
  }

  method TableOf(listed: seq<Route>) returns (table: RouteTable.Table)
    requires forall i :: 0 <= i < |listed| ==> listed[i].ifIndex.Some?
    ensures fresh(table) && table.View() == RouteTable.Run(NO_ROUTES, AddEach(listed))
  {
    table := new RouteTable.Table();
    for i := 0 to |listed|
      invariant fresh(table) && table.View() == RouteTable.Run(NO_ROUTES, AddEach(listed[..i]))
    {
      assert AddEach(listed[..i + 1])[..i] == AddEach(listed[..i]);
      table.Follow(Add(listed[i]));
    }
    assert listed[..|listed|] == listed;
  }

  class Manager {
    const v4Backup: BackupRoutes.Table<Prefixed>
    const v6Backup: BackupRoutes.Table<Prefixed>
    const routes: RouteTable.Table
    var log: seq<Request>

    ghost predicate Valid()
      reads this, v4Backup, v6Backup, routes
    {
      v4Backup != v6Backup && v4Backup.Valid() && v6Backup.Valid() && RouteTable.Valid(routes.View())
    }

    /** The table starts with the routes that the kernel lists, in its order. */
    constructor (listed: seq<Route>)
      requires forall i :: 0 <= i < |listed| ==> listed[i].ifIndex.Some?
      ensures Valid() && log == []
      ensures v4Backup.View() == BackupRun([], false) && v6Backup.View() == BackupRun([], true)
      ensures routes.View() == RouteTable.Run(NO_ROUTES, AddEach(listed))
      ensures fresh(v4Backup) && fresh(v6Backup) && fresh(routes)
    {
      var table := TableOf(listed);
      v4Backup := new BackupRoutes.Table();
      v6Backup := new BackupRoutes.Table();
      routes := table;
      log := [];
    }

    /** IPv4 first, then IPv6. */
    method AddDefaultIfNeeded() returns (ghost asked4: seq<Request>, ghost asked6: seq<Request>)
      requires Valid()
      modifies this`log
      ensures log == old(log) + asked4 + asked6
      ensures DefaultAsked(routes.View(), v4Backup.View(), false, asked4)
      ensures DefaultAsked(routes.View(), v6Backup.View(), true, asked6)
    {
      asked4, asked6 := [], [];
      var known := routes.FindDefault(false);
      if known.None? {
        var first := v4Backup.FirstGateway();
        if first.Some? {
          log := log + [DefaultVia(false, first.value.0, first.value.1)];
          asked4 := [DefaultVia(false, first.value.0, first.value.1)];
        }
      }
      known := routes.FindDefault(true);
      if known.None? {
        var first := v6Backup.FirstGateway();
        if first.Some? {
          log := log + [DefaultVia(true, first.value.0, first.value.1)];
          asked6 := [DefaultVia(true, first.value.0, first.value.1)];
        }
      }
    }

    /** Another interface on record for the network, if there is one. */
    method FindOther(net: Net, id: nat) returns (pick: Option<nat>)
      requires Valid()
      ensures PickedFor(v4Backup.View(), v6Backup.View(), id, net, pick)
    {
      var outputs := if net.v6 then v6Backup.NetOutputs(NetKey(net)) else v4Backup.NetOutputs(NetKey(net));
      if outputs.None? || outputs.value - {id} == {} {
        return None;
      }
      var output :| output in outputs.value - {id};
      pick := Some(output);
    }

    method DeadRouteCleanup(id: nat) returns (ghost dead: seq<Route>, ghost picks: seq<Option<nat>>)
      requires Valid()
      modifies this`log
      ensures Picked(v4Backup.View(), v6Backup.View(), id, dead, picks)
      ensures log == old(log) + Requests(dead, picks)
      ensures AllOn(routes.View(), id, dead)
    {
      dead, picks := [], [];
      var found, _ := routes.FindByOif(id);
      if found.Some? {
        dead := found.value;
        picks := CleanUp(found.value, id);
      }
    }

    method CleanUp(list: seq<Route>, id: nat) returns (ghost picks: seq<Option<nat>>)
      requires Valid()
      modifies this`log
      ensures Picked(v4Backup.View(), v6Backup.View(), id, list, picks)
      ensures log == old(log) + Requests(list, picks)
    {
      picks := [];
      for i := 0 to |list|
        invariant Picked(v4Backup.View(), v6Backup.View(), id, list[..i], picks)
        invariant log == old(log) + Requests(list[..i], picks)
      {
        var pick := CleanUpOne(list[i], id);
        assert list[..i + 1][..i] == list[..i];
        assert (picks + [pick])[..i] == picks;
        picks := picks + [pick];
      }
      assert list[..|list|] == list;
    }

    method CleanUpOne(r: Route, id: nat) returns (pick: Option<nat>)
      requires Valid()
      modifies this`log
      ensures PickedFor(v4Backup.View(), v6Backup.View(), id, r.net, pick)
      ensures log == old(log) + RequestsFor(r, pick)
    {
      log := log + [DeleteRoute(r)];
      pick := FindOther(r.net, id);
      if pick.Some? {
        log := log + [AddRoute(Route(r.net, None, Some(pick.value)))];
      }
    }

    method Note(b: BackupRoutes.Table<Prefixed>, info: InterfaceInfo, v6: bool)
      requires b.Valid() && Addressed(info) && GatewayIn(info, v6).Some?
      modifies b
      ensures b.Valid()
      ensures b.View() == BackupRoutes.Inserted(old(b.View()), info.id, GatewayIn(info, v6).value, NetsIn(info, v6))
    {
      b.Insert(info.id, GatewayIn(info, v6).value, NetsIn(info, v6));
    }

    method OnAdded(info: InterfaceInfo) returns (ghost asked4: seq<Request>, ghost asked6: seq<Request>)
      requires Valid() && Addressed(info)
      modifies this`log, v4Backup, v6Backup
      ensures Valid()
      ensures v4Backup.View() == BackupAfter(old(v4Backup.View()), InterfaceAdded(info), false)
      ensures v6Backup.View() == BackupAfter(old(v6Backup.View()), InterfaceAdded(info), true)
      ensures log == old(log) + asked4 + asked6
      ensures DefaultAsked(routes.View(), v4Backup.View(), false, asked4)
      ensures DefaultAsked(routes.View(), v6Backup.View(), true, asked6)
    {
      if info.gatewayIpv4.Some? {
        Note(v4Backup, info, false);
      }
      if info.gatewayIpv6.Some? {
        Note(v6Backup, info, true);
      }
      asked4, asked6 := AddDefaultIfNeeded();
    }

    method OnRemoved(info: InterfaceInfo) returns (ghost dead: seq<Route>, ghost picks: seq<Option<nat>>)
      requires Valid() && Addressed(info)
      modifies this`log, v4Backup, v6Backup
      ensures Valid()
      ensures v4Backup.View() == BackupAfter(old(v4Backup.View()), InterfaceRemoved(info), false)
      ensures v6Backup.View() == BackupAfter(old(v6Backup.View()), InterfaceRemoved(info), true)
      ensures Picked(v4Backup.View(), v6Backup.View(), info.id, dead, picks)
      ensures log == old(log) + Requests(dead, picks)
      ensures AllOn(routes.View(), info.id, dead)
    {
      v4Backup.Remove(info.id);
      v6Backup.Remove(info.id);
      dead, picks := DeadRouteCleanup(info.id);
    }

    method UpdateBackups(info: InterfaceInfo)
      requires Valid() && Addressed(info)
      modifies v4Backup, v6Backup
      ensures Valid()
      ensures v4Backup.View() == BackupAfter(old(v4Backup.View()), InterfaceChanged(info), false)
      ensures v6Backup.View() == BackupAfter(old(v6Backup.View()), InterfaceChanged(info), true)
    {
      if info.gatewayIpv4.Some? {
        Note(v4Backup, info, false);
      } else {
        v4Backup.Remove(info.id);
      }
      if info.gatewayIpv6.Some? {
        Note(v6Backup, info, true);
      } else {
        v6Backup.Remove(info.id);
      }
      if info.state != Connected {
        v4Backup.Remove(info.id);
        v6Backup.Remove(info.id);
      }
    }

    method OnChanged(info: InterfaceInfo)
      returns (ghost dead: seq<Route>, ghost picks: seq<Option<nat>>,
               ghost asked4: seq<Request>, ghost asked6: seq<Request>)
      requires Valid() && Addressed(info)
      modifies this`log, v4Backup, v6Backup
      ensures Valid()
      ensures v4Backup.View() == BackupAfter(old(v4Backup.View()), InterfaceChanged(info), false)
      ensures v6Backup.View() == BackupAfter(old(v6Backup.View()), InterfaceChanged(info), true)
      ensures Picked(v4Backup.View(), v6Backup.View(), info.id, dead, picks)
      ensures log == old(log) + Requests(dead, picks) + asked4 + asked6
      ensures if info.state != Connected then AllOn(routes.View(), info.id, dead) else dead == []
      ensures DefaultAsked(routes.View(), v4Backup.View(), false, asked4)
      ensures DefaultAsked(routes.View(), v6Backup.View(), true, asked6)
    {
      dead, picks := [], [];
      UpdateBackups(info);
      if info.state != Connected {
        dead, picks := DeadRouteCleanup(info.id);
      }
      asked4, asked6 := AddDefaultIfNeeded();
    }

    method OnRouteChange(c: RouteChange) returns (ghost asked4: seq<Request>, ghost asked6: seq<Request>)
      requires Valid() && c.route.ifIndex.Some?
      modifies this`log, routes
      ensures Valid()
      ensures routes.View() == RouteTable.Changed(old(routes.View()), c)
      ensures log == old(log) + asked4 + asked6
      ensures DefaultAsked(routes.View(), v4Backup.View(), false, asked4)
      ensures DefaultAsked(routes.View(), v6Backup.View(), true, asked6)
    {
      routes.Follow(c);
      asked4, asked6 := AddDefaultIfNeeded();
    }
  }
}
