/** Whole runs of the route manager: interface events and route changes in any
    order, and why each request was made (network-daemon/src/route/mod.rs). */
module RouteRuns {
  import opened Prelude
  import opened InterfaceTable
  import opened InterfaceEvents
  import opened BackupRoutes
  import opened RouteTable
  import opened RouteManager

  datatype Event = Heard(notice: Notice) | Told(change: RouteChange)

  predicate Proper(e: Event) {
    match e
    case Heard(notice) => Addressed(notice.info)
    case Told(change) => change.route.ifIndex.Some?
  }

  predicate AllProper(events: seq<Event>) {
    forall i :: 0 <= i < |events| ==> Proper(events[i])
  }

  function NoticesIn(events: seq<Event>): seq<Notice> {
    if events == [] then []
    else
      var (rest, last) := (NoticesIn(events[..|events| - 1]), events[|events| - 1]);
      if last.Heard? then rest + [last.notice] else rest
  }

  function ChangesIn(events: seq<Event>): seq<RouteChange> {
    if events == [] then []
    else
      var (rest, last) := (ChangesIn(events[..|events| - 1]), events[|events| - 1]);
      if last.Told? then rest + [last.change] else rest
  }

  lemma {:induction false} PartsProper(events: seq<Event>)
    requires AllProper(events)
    ensures AllAddressed(NoticesIn(events)) && AllNamed(ChangesIn(events))
  {
    if events != [] {
      PartsProper(events[..|events| - 1]);
    }
  }

  // ------------------------------------------------------------------------ one step

  datatype State = State(v4: Backup<Prefixed>, v6: Backup<Prefixed>, routes: Routes, log: seq<Request>)

  /** An interface that is gone or not connected is cleaned up after. */
  predicate CleansUp(e: Event) {
    e.Heard? && (e.notice.InterfaceRemoved? || (e.notice.InterfaceChanged? && e.notice.info.state != Connected))
  }

  /** Every other event but a removal asks for default routes. */
  predicate AsksForDefaults(e: Event) {
    e.Heard? ==> !e.notice.InterfaceRemoved?
  }

  /** What one event leads to: the tables after it, and its requests. */
  datatype Answer = Answer(dead: seq<Route>, picks: seq<Option<nat>>, asked4: seq<Request>, asked6: seq<Request>)

  ghost predicate Moves(s: State, e: Event, t: State)
    requires Proper(e)
  {
    && RouteTable.Valid(s.routes)
    && match e
       case Heard(n) =>
         t.v4 == BackupAfter(s.v4, n, false) && t.v6 == BackupAfter(s.v6, n, true) && t.routes == s.routes
       case Told(c) => t.v4 == s.v4 && t.v6 == s.v6 && t.routes == RouteTable.Changed(s.routes, c)
  }

  ghost predicate Answers(t: State, e: Event, a: Answer) {
    && Picked(t.v4, t.v6, if e.Heard? then e.notice.info.id else 0, a.dead, a.picks)
    && (if CleansUp(e) then AllOn(t.routes, e.notice.info.id, a.dead) else a.dead == [])
    && (if AsksForDefaults(e)
        then DefaultAsked(t.routes, t.v4, false, a.asked4) && DefaultAsked(t.routes, t.v6, true, a.asked6)
        else a.asked4 == [] && a.asked6 == [])
  }

  function Asked(a: Answer): seq<Request>
    requires |a.dead| == |a.picks|
  {
    Requests(a.dead, a.picks) + a.asked4 + a.asked6
  }

  /** One step with its answer. */
  ghost predicate Step(s: State, e: Event, t: State, a: Answer)
    requires Proper(e)
  {
    Moves(s, e, t) && Answers(t, e, a) && t.log == s.log + Asked(a)
  }

  ghost function View(m: Manager): State
    reads m, m.v4Backup, m.v6Backup, m.routes
  {
    State(m.v4Backup.View(), m.v6Backup.View(), m.routes.View(), m.log)
  }

  method HearAdded(m: Manager, info: InterfaceInfo) returns (ghost a: Answer)
    requires m.Valid() && Proper(Heard(InterfaceAdded(info)))
    modifies m, m.v4Backup, m.v6Backup, m.routes
    ensures m.Valid() && Step(old(View(m)), Heard(InterfaceAdded(info)), View(m), a)
  {
    ghost var asked4, asked6 := m.OnAdded(info);
    a := Answer([], [], asked4, asked6);
  }

  method HearRemoved(m: Manager, info: InterfaceInfo) returns (ghost a: Answer)
    requires m.Valid() && Proper(Heard(InterfaceRemoved(info)))
    modifies m, m.v4Backup, m.v6Backup, m.routes
    ensures m.Valid() && Step(old(View(m)), Heard(InterfaceRemoved(info)), View(m), a)
  {
    ghost var dead, picks := m.OnRemoved(info);
    a := Answer(dead, picks, [], []);
  }

  method HearChanged(m: Manager, info: InterfaceInfo) returns (ghost a: Answer)
    requires m.Valid() && Proper(Heard(InterfaceChanged(info)))
    modifies m, m.v4Backup, m.v6Backup, m.routes
    ensures m.Valid() && Step(old(View(m)), Heard(InterfaceChanged(info)), View(m), a)
  {
    ghost var log := m.log;
    ghost var dead, picks, asked4, asked6 := m.OnChanged(info);
    a := Answer(dead, picks, asked4, asked6);
    AskedInTurn(log, a);
  }

  lemma AskedInTurn(log: seq<Request>, a: Answer)
    requires |a.dead| == |a.picks|
    ensures log + Asked(a) == log + Requests(a.dead, a.picks) + a.asked4 + a.asked6
  {
    var r := Requests(a.dead, a.picks);
    assert log + (r + a.asked4) == log + r + a.asked4;
  }

  method FollowChange(m: Manager, change: RouteChange) returns (ghost a: Answer)
    requires m.Valid() && Proper(Told(change))
    modifies m, m.v4Backup, m.v6Backup, m.routes
    ensures m.Valid() && Step(old(View(m)), Told(change), View(m), a)
  {
    ghost var asked4, asked6 := m.OnRouteChange(change);
    a := Answer([], [], asked4, asked6);
  }

  /** The actor takes such a step on every event. */
  method Handle(m: Manager, e: Event) returns (ghost a: Answer)
    requires m.Valid() && Proper(e)
    modifies m, m.v4Backup, m.v6Backup, m.routes
    ensures m.Valid() && Step(old(View(m)), e, View(m), a)
  {
    match e
    case Heard(InterfaceAdded(info)) => a := HearAdded(m, info);
    case Heard(InterfaceRemoved(info)) => a := HearRemoved(m, info);
    case Heard(InterfaceChanged(info)) => a := HearChanged(m, info);
    case Told(change) => a := FollowChange(m, change);
  }

  // ------------------------------------------------------------------------ whole runs

  predicate Listable(listed: seq<Route>) {
    forall i :: 0 <= i < |listed| ==> listed[i].ifIndex.Some?
  }

  /** The tables go from step to step. */
  ghost predicate Moved(events: seq<Event>, states: seq<State>) {
    && AllProper(events) && |states| == |events| + 1
    && forall i :: 0 <= i < |events| ==> Moves(states[i], events[i], states[i + 1])
  }

  /** And the log grows by the answers. */
  ghost predicate Logged(states: seq<State>, answers: seq<Answer>) {
    |states| == |answers| + 1
    && forall i :: 0 <= i < |answers| ==>
         |answers[i].dead| == |answers[i].picks| && states[i + 1].log == states[i].log + Asked(answers[i])
  }

  /** A run from the routes that the kernel listed, with no interface heard of:
      each state follows from the one before by a step. */
  ghost predicate Run(listed: seq<Route>, events: seq<Event>, states: seq<State>, answers: seq<Answer>) {
    && |answers| == |events| && Moved(events, states) && Logged(states, answers)
    && Listable(listed) && states[0] == Start(listed)
    && forall i :: 0 <= i < |events| ==> Answers(states[i + 1], events[i], answers[i])
  }

  /** Steps one after the other make a run. */
  lemma StepsRun(listed: seq<Route>, events: seq<Event>, states: seq<State>, answers: seq<Answer>)
    requires Listable(listed) && AllProper(events) && |states| == |events| + 1 && |answers| == |events|
    requires states[0] == Start(listed)
    requires forall i :: 0 <= i < |events| ==> Step(states[i], events[i], states[i + 1], answers[i])
    ensures Run(listed, events, states, answers)
  {
    forall i | 0 <= i < |answers|
      ensures |answers[i].dead| == |answers[i].picks| && states[i + 1].log == states[i].log + Asked(answers[i])
    {
      assert Step(states[i], events[i], states[i + 1], answers[i]);
    }
  }

  ghost function Start(listed: seq<Route>): State
    requires Listable(listed)
  {
    State(Backup(map[], map[]), Backup(map[], map[]), RouteTable.Run(NO_ROUTES, AddEach(listed)), [])
  }

  /** The route changes of the first events, the listed routes before them. */
  function History(listed: seq<Route>, events: seq<Event>): seq<RouteChange> {
    AddEach(listed) + ChangesIn(events)
  }

  /** The tables are functions of the events heard and told. */
  ghost predicate Follows(listed: seq<Route>, events: seq<Event>, s: State) {
    Listable(listed) && AllProper(events) && Tables(listed, events, s)
  }

  ghost predicate Tables(listed: seq<Route>, events: seq<Event>, s: State)
    requires Listable(listed) && AllProper(events)
  {
    PartsProper(events);
    && s.v4 == BackupRun(NoticesIn(events), false) && s.v6 == BackupRun(NoticesIn(events), true)
    && s.routes == RouteTable.Run(NO_ROUTES, History(listed, events))
  }

  lemma FollowsNext(listed: seq<Route>, events: seq<Event>, s: State, e: Event, t: State)
    requires Proper(e) && Follows(listed, events, s) && Moves(s, e, t)
    ensures Follows(listed, events + [e], t)
  {
    var now := events + [e];
    assert now[..|events|] == events;
    PartsProper(events);
    PartsProper(now);
    match e
    case Heard(n) =>
      assert NoticesIn(now) == NoticesIn(events) + [n] && ChangesIn(now) == ChangesIn(events);
      assert NoticesIn(now)[..|NoticesIn(events)|] == NoticesIn(events);
    case Told(c) =>
      assert NoticesIn(now) == NoticesIn(events);
      assert History(listed, now) == History(listed, events) + [c];
      assert History(listed, now)[..|History(listed, events)|] == History(listed, events);
  }

  lemma StartFollows(listed: seq<Route>)
    requires Listable(listed)
    ensures Follows(listed, [], Start(listed))
  {
    assert History(listed, []) == AddEach(listed);
  }

  /** After any number of steps the tables are what those events make of them. */
  lemma {:induction false} RunFollows(listed: seq<Route>, events: seq<Event>, states: seq<State>, n: nat)
    requires Listable(listed) && Moved(events, states) && states[0] == Start(listed) && n <= |events|
    ensures Follows(listed, events[..n], states[n])
  {
    if n == 0 {
      StartFollows(listed);
    } else {
      RunFollows(listed, events, states, n - 1);
      FollowsNext(listed, events[..n - 1], states[n - 1], events[n - 1], states[n]);
      assert events[..n] == events[..n - 1] + [events[n - 1]];
    }
  }

  // -------------------------------------------------------------- why a request was made

  /** The network is on record for the interface by its own events. */
  ghost predicate RecordedBy(notices: seq<Notice>, id: nat, net: Net) {
    AllAddressed(Own(notices, id)) && NetKey(net) in Folded(Own(notices, id), net.v6).nets
  }

  ghost predicate GatewayBy(notices: seq<Notice>, id: nat, v6: bool, gateway: Prefixed) {
    AllAddressed(Own(notices, id)) && Folded(Own(notices, id), v6).gateway == Some(gateway)
  }

  /** The event cleans up after the interface of a route in place. */
  ghost predicate Dies(changes: seq<RouteChange>, e: Event, x: Route) {
    CleansUp(e) && x.ifIndex == Some(e.notice.info.id) && InPlace(None, changes, x.net, x)
  }

  /** A dead route is deleted, or added back over another interface that its own
      events recorded for the network. */
  ghost predicate AddsBack(notices: seq<Notice>, changes: seq<RouteChange>, e: Event, r: Route) {
    && r.gateway == None && r.ifIndex.Some? && RecordedBy(notices, r.ifIndex.value, r.net)
    && exists x :: Dies(changes, e, x) && x.net == r.net && x.ifIndex != r.ifIndex
  }

  /** A default route is added where none is known, over the gateway that its
      interface's own events last gave. */
  ghost predicate Defaults(notices: seq<Notice>, changes: seq<RouteChange>, e: Event, r: Route) {
    && AsksForDefaults(e) && r.ifIndex.Some?
    && exists v6: bool, gateway: Prefixed ::
         && r == Route(DefaultNet(v6), Some(gateway.addr), r.ifIndex)
         && Vacant(None, changes, |changes|, DefaultNet(v6))
         && GatewayBy(notices, r.ifIndex.value, v6, gateway)
  }

  ghost predicate Justified(notices: seq<Notice>, changes: seq<RouteChange>, e: Event, q: Request) {
    match q
    case DeleteRoute(x) => Dies(changes, e, x)
    case AddRoute(r) => AddsBack(notices, changes, e, r) || Defaults(notices, changes, e, r)
  }

  lemma DeadDies(listed: seq<Route>, events: seq<Event>, t: State, e: Event, a: Answer, x: Route)
    requires Follows(listed, events, t) && Answers(t, e, a) && x in a.dead
    ensures Dies(History(listed, events), e, x)
  {
    PartsProper(events);
    CleanUpDeletesIff(History(listed, events), e.notice.info.id, a.dead, x);
  }

  lemma BackIsRecorded(notices: seq<Notice>, net: Net, id: nat, pick: nat)
    requires AllAddressed(notices)
    requires pick in OthersFor(BackupRun(notices, false), BackupRun(notices, true), net, id)
    ensures pick != id && RecordedBy(notices, pick, net)
  {
    AddedBackOverSurvivor(notices, net.v6, net, id, pick);
  }

  lemma BackJustified(listed: seq<Route>, events: seq<Event>, t: State, e: Event, a: Answer, r: Route)
    requires Follows(listed, events, t) && Answers(t, e, a) && AddRoute(r) in Requests(a.dead, a.picks)
    ensures AddsBack(NoticesIn(events), History(listed, events), e, r)
  {
    PartsProper(events);
    RequestsAre(a.dead, a.picks, r);
    var i :| 0 <= i < |a.picks| && a.picks[i].Some? && r == Route(a.dead[i].net, None, a.picks[i]);
    var x := a.dead[i];
    assert x in a.dead;
    DeadDies(listed, events, t, e, a, x);
    assert PickedFor(t.v4, t.v6, e.notice.info.id, x.net, a.picks[i]);
    BackIsRecorded(NoticesIn(events), r.net, e.notice.info.id, r.ifIndex.value);
  }

  lemma DefaultJustified(listed: seq<Route>, events: seq<Event>, t: State, e: Event, v6: bool,
                         asked: seq<Request>, q: Request)
    requires Follows(listed, events, t) && AsksForDefaults(e)
    requires DefaultAsked(t.routes, if v6 then t.v6 else t.v4, v6, asked) && q in asked
    ensures Justified(NoticesIn(events), History(listed, events), e, q)
  {
    PartsProper(events);
    var (notices, changes) := (NoticesIn(events), History(listed, events));
    DefaultIsLive(notices, t.routes, v6, asked);
    var oif: nat, gateway: Prefixed :|
      && asked[0] == AddRoute(Route(Net(v6, 0, 0), Some(gateway.addr), Some(oif)))
      && AllAddressed(Own(notices, oif)) && Folded(Own(notices, oif), v6).gateway == Some(gateway);
    RunStores(NO_ROUTES, changes, DefaultNet(v6));
    VacantIff(None, changes, |changes|, DefaultNet(v6));
    assert changes[..|changes|] == changes;
    assert q == asked[0];
    assert GatewayBy(notices, oif, v6, gateway);
    assert Defaults(notices, changes, e, q.route);
  }

  /** The requests of one step are justified by the events up to it. */
  lemma StepJustified(listed: seq<Route>, events: seq<Event>, t: State, e: Event, a: Answer, q: Request)
    requires Follows(listed, events, t) && Answers(t, e, a) && q in Asked(a)
    ensures Justified(NoticesIn(events), History(listed, events), e, q)
  {
    PartsProper(events);
    if q in Requests(a.dead, a.picks) {
      match q
      case DeleteRoute(x) =>
        RequestsAre(a.dead, a.picks, x);
        DeadDies(listed, events, t, e, a, x);
      case AddRoute(r) => BackJustified(listed, events, t, e, a, r);
    } else if q in a.asked4 {
      DefaultJustified(listed, events, t, e, false, a.asked4, q);
    } else {
      DefaultJustified(listed, events, t, e, true, a.asked6, q);
    }
  }

  /** The event at `i` and those before it justify the request. */
  ghost predicate JustifiedAt(listed: seq<Route>, events: seq<Event>, i: nat, q: Request)
    requires i < |events|
  {
    var past := events[..i + 1];
    Justified(NoticesIn(past), History(listed, past), events[i], q)
  }

  lemma {:induction false} AskedOnce(states: seq<State>, answers: seq<Answer>, n: nat, q: Request) returns (i: nat)
    requires Logged(states, answers) && states[0].log == [] && n <= |answers| && q in states[n].log
    ensures i < n && q in Asked(answers[i])
  {
    if n == 0 {
      assert false;
    } else if q in states[n - 1].log {
      i := AskedOnce(states, answers, n - 1, q);
    } else {
      i := n - 1;
    }
  }

  /** Whatever an event of a run asks is justified. */
  lemma AskedIsJustified(listed: seq<Route>, events: seq<Event>, states: seq<State>, answers: seq<Answer>,
                         i: nat, q: Request)
    requires Run(listed, events, states, answers) && i < |events| && q in Asked(answers[i])
    ensures JustifiedAt(listed, events, i, q)
  {
    RunFollows(listed, events, states, i + 1);
    StepJustified(listed, events[..i + 1], states[i + 1], events[i], answers[i], q);
  }

  /** In every run, every request in the log was made on some event, by which
      and the events before it the request was justified. */
  lemma EveryRequestJustified(listed: seq<Route>, events: seq<Event>, states: seq<State>, answers: seq<Answer>,
                              q: Request) returns (i: nat)
    requires Run(listed, events, states, answers) && q in states[|events|].log
    ensures i < |events| && q in Asked(answers[i]) && JustifiedAt(listed, events, i, q)
  {
    i := AskedOnce(states, answers, |events|, q);
    AskedIsJustified(listed, events, states, answers, i, q);
  }

  /** And what is due is asked for. An event that cleans up deletes every route
      in place over its interface. */
  lemma DeletionDue(listed: seq<Route>, events: seq<Event>, states: seq<State>, answers: seq<Answer>, i: nat, x: Route)
    requires Run(listed, events, states, answers) && i < |events|
    requires Dies(History(listed, events[..i + 1]), events[i], x)
    ensures DeleteRoute(x) in Asked(answers[i])
  {
    RunFollows(listed, events, states, i + 1);
    DeadDue(listed, events[..i + 1], states[i + 1], events[i], answers[i], x);
  }

  lemma DeadDue(listed: seq<Route>, events: seq<Event>, t: State, e: Event, a: Answer, x: Route)
    requires Follows(listed, events, t) && Answers(t, e, a) && Dies(History(listed, events), e, x)
    ensures DeleteRoute(x) in Asked(a)
  {
    PartsProper(events);
    CleanUpDeletesIff(History(listed, events), e.notice.info.id, a.dead, x);
    RequestsAre(a.dead, a.picks, x);
  }

  /** One that asks for defaults asks for one in each family that has none known
      and a gateway. */
  lemma DefaultsDue(listed: seq<Route>, events: seq<Event>, states: seq<State>, answers: seq<Answer>, i: nat,
                    v6: bool, id: nat, gateway: Prefixed)
    requires Run(listed, events, states, answers) && i < |events| && AsksForDefaults(events[i])
    requires var changes := History(listed, events[..i + 1]); Vacant(None, changes, |changes|, DefaultNet(v6))
    requires GatewayBy(NoticesIn(events[..i + 1]), id, v6, gateway)
    ensures exists r :: AddRoute(r) in Asked(answers[i]) && r.net == DefaultNet(v6)
  {
    var a := answers[i];
    RunFollows(listed, events, states, i + 1);
    DefaultDue(listed, events[..i + 1], states[i + 1], v6, id, gateway, if v6 then a.asked6 else a.asked4);
  }

  lemma DefaultDue(listed: seq<Route>, events: seq<Event>, t: State, v6: bool, id: nat, gateway: Prefixed,
                   asked: seq<Request>)
    requires Follows(listed, events, t) && DefaultAsked(t.routes, if v6 then t.v6 else t.v4, v6, asked)
    requires Vacant(None, History(listed, events), |History(listed, events)|, DefaultNet(v6))
    requires GatewayBy(NoticesIn(events), id, v6, gateway)
    ensures exists r :: AddRoute(r) in asked && r.net == DefaultNet(v6)
  {
    PartsProper(events);
    var changes := History(listed, events);
    RunStores(NO_ROUTES, changes, DefaultNet(v6));
    VacantIff(None, changes, |changes|, DefaultNet(v6));
    assert changes[..|changes|] == changes;
    RecordIsFold(NoticesIn(events), v6, id);
    var oif :| oif in (if v6 then t.v6 else t.v4).gateways
               && asked == [DefaultVia(v6, (if v6 then t.v6 else t.v4).gateways[oif], oif)];
    assert asked[0] in asked;
  }
}
