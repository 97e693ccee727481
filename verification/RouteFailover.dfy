/** What the route manager's requests make of the kernel's routes when they are
    carried out in turn (network-daemon/src/route/mod.rs). */
module RouteFailover {
  import opened Prelude
  import opened InterfaceTable
  import opened InterfaceEvents
  import opened BackupRoutes
  import opened RouteTable
  import opened RouteManager
  import opened RouteRuns

  // ------------------------------------------------------- a kernel that obeys in turn

  /** A kernel with one route a prefix refuses a second one. */
  function Obeyed(k: KernelRoutes, q: Request): KernelRoutes {
    match q
    case DeleteRoute(r) => KernelAfter(k, Delete(r))
    case AddRoute(r) => if r.net in k then k else KernelAfter(k, Add(r))
  }

  function Replayed(k: KernelRoutes, requests: seq<Request>): KernelRoutes {
    if requests == [] then k
    else Obeyed(Replayed(k, requests[..|requests| - 1]), requests[|requests| - 1])
  }

  lemma {:induction false} ReplayedConcat(k: KernelRoutes, xs: seq<Request>, ys: seq<Request>)
    ensures Replayed(k, xs + ys) == Replayed(Replayed(k, xs), ys)
  {
    if ys == [] {
      assert xs + ys == xs;
    } else {
      assert (xs + ys)[..|xs + ys| - 1] == xs + ys[..|ys| - 1];
      ReplayedConcat(k, xs, ys[..|ys| - 1]);
    }
  }

  lemma ReplayedPair(k: KernelRoutes, r: Route, pick: Option<nat>, net: Net)
    ensures KnownIn(Replayed(k, RequestsFor(r, pick)), net)
            == if net != r.net then KnownIn(k, net)
               else if pick.Some? then Some(Route(net, None, pick)) else None
  {
    var q := RequestsFor(r, pick);
    ReplayedOne(k, DeleteRoute(r));
    if pick.Some? {
      assert q[..1] == [DeleteRoute(r)];
    } else {
      assert q == [DeleteRoute(r)];
    }
  }

  lemma ReplayedOne(k: KernelRoutes, q: Request)
    ensures Replayed(k, [q]) == Obeyed(k, q)
  {
    assert [q][..0] == [];
  }

  predicate NetsApart(routes: seq<Route>) {
    forall i, j :: 0 <= i < j < |routes| ==> routes[i].net != routes[j].net
  }

  /** The network of a dead route is over the interface picked, or gone; no
      other network is touched. */
  lemma {:induction false} ReplayedAt(k: KernelRoutes, routes: seq<Route>, picks: seq<Option<nat>>, net: Net)
    requires |routes| == |picks| && NetsApart(routes)
    ensures forall i :: 0 <= i < |routes| && routes[i].net == net ==>
              KnownIn(Replayed(k, Requests(routes, picks)), net)
              == if picks[i].Some? then Some(Route(net, None, picks[i])) else None
    ensures (forall i :: 0 <= i < |routes| ==> routes[i].net != net) ==>
              KnownIn(Replayed(k, Requests(routes, picks)), net) == KnownIn(k, net)
  {
    if routes != [] {
      var n := |routes| - 1;
      ReplayedAt(k, routes[..n], picks[..n], net);
      ReplayedConcat(k, Requests(routes[..n], picks[..n]), RequestsFor(routes[n], picks[n]));
      ReplayedPair(Replayed(k, Requests(routes[..n], picks[..n])), routes[n], picks[n], net);
    }
  }

  /** A dead route is deleted once. */
  lemma {:induction false} DeletedOnce(routes: seq<Route>, picks: seq<Option<nat>>, x: Route)
    requires |routes| == |picks|
    ensures multiset(Requests(routes, picks))[DeleteRoute(x)] == multiset(routes)[x]
  {
    if routes != [] {
      var n := |routes| - 1;
      DeletedOnce(routes[..n], picks[..n], x);
      assert routes == routes[..n] + [routes[n]];
    }
  }

  // ------------------------------------------------------------------- one failover

  lemma DeadApart(t: Routes, id: nat, dead: seq<Route>)
    requires OneRouteEach(t) && AllOn(t, id, dead)
    ensures NetsApart(dead)
    ensures forall i :: 0 <= i < |dead| ==> Stored(t, dead[i].net) == Some(dead[i])
  {
    forall i | 0 <= i < |dead| ensures Stored(t, dead[i].net) == Some(dead[i]) {
      assert dead[i] in dead;
    }
  }

  /** Replaying the requests of an event that cleans up leaves no network over
      the dead interface: those it had are over another one that recorded them,
      where there is one, and all others stay as they were. */
  lemma CleanedUp(k: KernelRoutes, t: State, id: nat, dead: seq<Route>, picks: seq<Option<nat>>, net: Net)
    requires RouteTable.Valid(t.routes) && Knows(t.routes, k)
    requires AllOn(t.routes, id, dead) && Picked(t.v4, t.v6, id, dead, picks)
    ensures var (was, now) := (KnownIn(k, net), KnownIn(Replayed(k, Requests(dead, picks)), net));
            var others := OthersFor(t.v4, t.v6, net, id);
            if was.None? || was.value.ifIndex != Some(id) then now == was
            else if others == {} then now == None
            else now.Some? && now.value.gateway == None && exists o :: o in others && now.value.ifIndex == Some(o)
  {
    DeadApart(t.routes, id, dead);
    ReplayedAt(k, dead, picks, net);
    assert Stored(t.routes, net) == KnownIn(k, net);
    if net in k && k[net].ifIndex == Some(id) {
      assert Has(t.routes, k[net]);
      var i :| 0 <= i < |dead| && dead[i] == k[net];
      assert PickedFor(t.v4, t.v6, id, dead[i].net, picks[i]);
    }
  }

  lemma RecordedIff(notices: seq<Notice>, net: Net, id: nat, o: nat)
    requires AllAddressed(notices)
    ensures o in OthersFor(BackupRun(notices, false), BackupRun(notices, true), net, id) <==>
            o != id && RecordedBy(notices, o, net)
  {
    RecordIsFold(notices, net.v6, o);
    OwnAddressed(notices, o);
  }

  /** What becomes of a network of the kernel, by the events heard so far. */
  ghost predicate FailsOver(was: Option<Route>, now: Option<Route>, notices: seq<Notice>, id: nat, net: Net) {
    && (was.None? || was.value.ifIndex != Some(id) ==> now == was)
    && (was.Some? && was.value.ifIndex == Some(id) ==>
          && (now.Some? <==> exists o: nat :: o != id && RecordedBy(notices, o, net))
          && (now.Some? ==>
                && now.value.gateway == None && now.value.ifIndex.Some? && now.value.ifIndex.value != id
                && RecordedBy(notices, now.value.ifIndex.value, net)))
  }

  /** In any run, with a kernel that has the routes of the table: an event that
      ends an interface moves each of its networks to another interface whose
      own events recorded it, or takes it out when there is none. */
  lemma Failover(listed: seq<Route>, events: seq<Event>, states: seq<State>, answers: seq<Answer>, i: nat,
                 k: KernelRoutes, net: Net)
    requires RouteRuns.Run(listed, events, states, answers) && i < |events| && CleansUp(events[i])
    requires Knows(states[i + 1].routes, k)
    ensures FailsOver(KnownIn(k, net), KnownIn(Replayed(k, Requests(answers[i].dead, answers[i].picks)), net),
                      NoticesIn(events[..i + 1]), events[i].notice.info.id, net)
  {
    RunFollows(listed, events, states, i + 1);
    FailoverFrom(listed, events[..i + 1], states[i + 1], events[i], answers[i], k, net);
  }

  lemma FailoverFrom(listed: seq<Route>, past: seq<Event>, t: State, e: Event, a: Answer, k: KernelRoutes, net: Net)
    requires Follows(listed, past, t) && Answers(t, e, a) && CleansUp(e) && Knows(t.routes, k)
    ensures FailsOver(KnownIn(k, net), KnownIn(Replayed(k, Requests(a.dead, a.picks)), net),
                      NoticesIn(past), e.notice.info.id, net)
  {
    PartsProper(past);
    var id := e.notice.info.id;
    CleanedUp(k, t, id, a.dead, a.picks, net);
    forall o: nat ensures o in OthersFor(t.v4, t.v6, net, id) <==> o != id && RecordedBy(NoticesIn(past), o, net) {
      RecordedIff(NoticesIn(past), net, id, o);
    }
  }

  // ------------------------------------------------------------------ default routes

  /** What becomes of a network when a family is asked a default route for. */
  ghost predicate GetsDefault(was: Option<Route>, now: Option<Route>, notices: seq<Notice>, v6: bool, net: Net) {
    && (net != DefaultNet(v6) || was.Some? ==> now == was)
    && (net == DefaultNet(v6) && was.None? ==>
          && (now.None? <==> forall id: nat, gateway :: !GatewayBy(notices, id, v6, gateway))
          && (now.Some? ==> exists id: nat, gateway ::
                GatewayBy(notices, id, v6, gateway) && now.value == Route(net, Some(gateway.addr), Some(id))))
  }

  /** In any run: a kernel without a default route has one after an event that
      asks for defaults, over a gateway that an interface's own events last gave,
      unless none did. No other network is touched. */
  lemma DefaultReplayed(listed: seq<Route>, events: seq<Event>, states: seq<State>, answers: seq<Answer>, i: nat,
                        k: KernelRoutes, v6: bool, net: Net)
    requires RouteRuns.Run(listed, events, states, answers) && i < |events| && AsksForDefaults(events[i])
    requires Knows(states[i + 1].routes, k)
    ensures var asked := if v6 then answers[i].asked6 else answers[i].asked4;
            GetsDefault(KnownIn(k, net), KnownIn(Replayed(k, asked), net), NoticesIn(events[..i + 1]), v6, net)
  {
    var a := answers[i];
    RunFollows(listed, events, states, i + 1);
    DefaultFrom(listed, events[..i + 1], states[i + 1], v6, if v6 then a.asked6 else a.asked4, k, net);
  }

  lemma DefaultFrom(listed: seq<Route>, past: seq<Event>, t: State, v6: bool, asked: seq<Request>,
                    k: KernelRoutes, net: Net)
    requires Follows(listed, past, t) && Knows(t.routes, k)
    requires DefaultAsked(t.routes, if v6 then t.v6 else t.v4, v6, asked)
    ensures GetsDefault(KnownIn(k, net), KnownIn(Replayed(k, asked), net), NoticesIn(past), v6, net)
  {
    PartsProper(past);
    var notices := NoticesIn(past);
    DefaultIsLive(notices, t.routes, v6, asked);
    assert Stored(t.routes, DefaultNet(v6)) == KnownIn(k, DefaultNet(v6));
    if asked != [] {
      assert asked == [asked[0]];
      ReplayedOne(k, asked[0]);
      var id: nat, gateway: Prefixed :|
        && asked[0] == AddRoute(Route(Net(v6, 0, 0), Some(gateway.addr), Some(id)))
        && AllAddressed(Own(notices, id)) && Folded(Own(notices, id), v6).gateway == Some(gateway);
      assert GatewayBy(notices, id, v6, gateway);
    }
  }

  // ----------------------------------------------------------- from the kernel's report

  /** The report that a wired link of the table is no longer connected reaches
      the route manager as an event that cleans up after it. */
  lemma DownReportCleansUp(t: Tables, info: InterfaceInfo)
    requires Named(t) && info.state != Connected
    requires info.name in t.interfaces ==>
               t.interfaces[info.name].state != Unmanaged && t.interfaces[info.name].interfaceType != Wlan
    ensures var told := InterfaceEvents.Notices(t.interfaces, Changed(info));
            |told| == 1 && CleansUp(Heard(told[0])) && told[0].info.id == info.id
  {
  }
}
