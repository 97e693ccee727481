/** From lease events to the kernel: what the notifications of a DHCP client
    do to an interface (network-daemon/src/dhcp/client.rs,
    network-daemon/src/interface/mod.rs). */
module LeaseConservation {
  import opened Prelude
  import opened Lease
  import opened InterfaceTable
  import opened InterfaceEvents
  import opened KernelAddresses
  import opened InterfaceManager
  import opened DhcpClient
  import Cidr

  // ---------------------------------------------------- what the kernel should hold

  function Of(p: Option<Prefixed>): set<Prefixed> {
    if p.Some? then {p.value} else {}
  }

  function AddressSet(lease: Option<Lease>): set<Prefixed> {
    Of(LeaseAddress(lease))
  }

  /** The interface has the lease's address besides its own, and its router. */
  predicate Settled(s: State, name: string, index: nat, base: set<Prefixed>, lease: Option<Lease>) {
    && name in s.tables.interfaces && s.tables.interfaces[name].id == index
    && s.tables.interfaces[name].gatewayIpv4 == LeaseGateway(lease)
    && Held(s.kernel.addrs, index, true) == base + AddressSet(lease)
  }

  /** Replacing one address by a different one, by a kernel with no reasons of
      its own to refuse. */
  lemma ReaddressedOn(w: Oracle, k: KernelState, index: nat, was: Option<Prefixed>, to: Option<Prefixed>)
    requires Willing(w) && was != to
    ensures var (r, held) := (Readdressed(w, k, index, was, to), Held(k.addrs, index, true));
            && (r.ok <==> Of(was) <= held && Of(to) !! held)
            && Held(r.kernel.addrs, index, true) ==
                 if !(Of(was) <= held) then held
                 else if Of(to) !! held then held - Of(was) + Of(to) else held - Of(was)
  {
  }

  lemma GatewayAfter(s: State, name: string, gateway: Option<Prefixed>, told: bool)
    requires Named(s.tables) && name in s.tables.interfaces
    ensures var after := Reported(s, SetGateway(name, gateway, told)).tables;
            && Named(after)
            && after.interfaces == s.tables.interfaces[name := s.tables.interfaces[name].(gatewayIpv4 := gateway)]
  {
  }

  /** A socket that cannot be opened leaves all as it is. */
  lemma LeaseSetEntries(w: Oracle, s: State, name: string, was: Option<Lease>, now: Option<Lease>)
    requires Named(s.tables) && name in s.tables.interfaces
    ensures var (r, entry) := (LeaseSet(w, s, name, was, now), s.tables.interfaces[name]);
            && Named(r.state.tables)
            && r.state.tables.interfaces
               == if LeaseGateway(was) == LeaseGateway(now) || !w(s.kernel.calls) then s.tables.interfaces
                  else s.tables.interfaces[name := entry.(gatewayIpv4 := LeaseGateway(now))]
  {
    GatewayAfter(s, name, LeaseGateway(now), LeaseAddress(was) == LeaseAddress(now));
  }

  lemma ReplacedOne(base: set<Prefixed>, was: Option<Prefixed>, to: Option<Prefixed>)
    requires was != to && Of(was) !! base && Of(to) !! base
    ensures Of(to) !! base + Of(was) && base + Of(was) - Of(was) + Of(to) == base + Of(to)
  {
  }

  /** One notification moves the interface from one lease to the next exactly
      when the address stays, or neither address was there for another reason. */
  lemma LeaseSetIff(w: Oracle, s: State, name: string, index: nat, base: set<Prefixed>,
                    was: Option<Lease>, now: Option<Lease>)
    requires Willing(w) && Named(s.tables) && Settled(s, name, index, base, was)
    ensures var r := LeaseSet(w, s, name, was, now);
            (r.result.Success? && Settled(r.state, name, index, base, now) <==>
              LeaseAddress(was) == LeaseAddress(now) || (AddressSet(was) !! base && AddressSet(now) !! base))
  {
    LeaseSetEntries(w, s, name, was, now);
    var (o, n) := (AddressSet(was), AddressSet(now));
    if LeaseAddress(was) != LeaseAddress(now) {
      ReaddressedOn(w, Told(w, s.kernel).kernel, index, LeaseAddress(was), LeaseAddress(now));
      var held := base + o;
      assert Held(s.kernel.addrs, index, true) == held;
      if o !! base && n !! base {
        ReplacedOne(base, LeaseAddress(was), LeaseAddress(now));
      } else if n !! held {
        var x := LeaseAddress(was).value;
        assert x in base && x !in n;
        assert x !in held - o + n;
      }
    }
  }

  /** A notification that fails, for whatever reason, adds no address and takes
      none but the old lease's. */
  lemma FailedLeaseSetWithin(w: Oracle, s: State, name: string, was: Option<Lease>, now: Option<Lease>)
    requires Named(s.tables) && LeaseSet(w, s, name, was, now).result.Failure?
    ensures var r := LeaseSet(w, s, name, was, now).state;
            && r.kernel.addrs <= s.kernel.addrs && r.kernel.up == s.kernel.up && r.kernel.slaac == s.kernel.slaac
            && (name !in s.tables.interfaces ==> r == s)
            && (name in s.tables.interfaces ==>
                  forall a :: a in s.kernel.addrs - r.kernel.addrs ==>
                    was.Some? && a.index == s.tables.interfaces[name].id && a.address == V4(LeaseAddress(was).value))
  {
  }

  /** Unless the socket cannot be opened, when nothing happens, subscribers
      always hear of the new gateway: at once when it alone has changed, and
      with the kernel's report of the addresses otherwise. */
  lemma GatewayIsHeard(w: Oracle, s: State, name: string, index: nat, base: set<Prefixed>,
                       was: Option<Lease>, now: Option<Lease>, report: InterfaceInfo)
    requires Named(s.tables) && Settled(s, name, index, base, was) && report.name == name
    ensures var r := LeaseSet(w, s, name, was, now).state;
            if !w(s.kernel.calls) then r.tables == s.tables && r.feed == s.feed && r.kernel.addrs == s.kernel.addrs
            else
              && name in r.tables.interfaces && r.tables.interfaces[name].gatewayIpv4 == LeaseGateway(now)
              && r.feed == s.feed + (if LeaseAddress(was) == LeaseAddress(now) && LeaseGateway(was) != LeaseGateway(now)
                                     then [InterfaceChanged(r.tables.interfaces[name])] else [])
              && Notices(r.tables.interfaces, Changed(report)) != []
              && Notices(r.tables.interfaces, Changed(report))[0].info.gatewayIpv4 == LeaseGateway(now)
  {
    LeaseSetEntries(w, s, name, was, now);
  }

  // -------------------------------------------------------------------- whole runs

  datatype Event = Notified(n: Notification) | Report(e: TableEvent)

  function Next(w: Oracle, s: State, name: string, e: Event): State {
    match e
    case Notified(n) => LeaseSet(w, s, name, n.was, n.now).state
    case Report(t) => Reported(s, t)
  }

  function Run(w: Oracle, s: State, name: string, events: seq<Event>): State {
    if events == [] then s else Next(w, Run(w, s, name, events[..|events| - 1]), name, events[|events| - 1])
  }

  function Notifications(events: seq<Event>): seq<Notification> {
    if events == [] then []
    else
      var init := Notifications(events[..|events| - 1]);
      if events[|events| - 1].Notified? then init + [events[|events| - 1].n] else init
  }

  /** Reports that may come in between: anything about other interfaces, and
      changes of this one that keep its index. */
  predicate Calm(e: TableEvent, name: string, index: nat) {
    match e
    case Added(info) => info.name != name
    case Gone(n) => n != name
    case Changed(info) => info.name == name ==> info.id == index
    case SetGateway(n, _, _) => n != name
    case Refreshed(_) => false
    case _ => true
  }

  /** Any notification may come, and calm reports between them. */
  predicate Allowed(e: Event, name: string, index: nat) {
    e.Report? ==> Calm(e.e, name, index)
  }

  /** The addresses that some notification has moved away from. */
  function Left(ns: seq<Notification>): set<Prefixed> {
    if ns == [] then {}
    else
      var last := ns[|ns| - 1];
      Left(ns[..|ns| - 1]) + if LeaseAddress(last.was) == LeaseAddress(last.now) then {} else AddressSet(last.was)
  }

  lemma NamedAfter(t: Tables, e: TableEvent)
    requires Named(t)
    ensures Named(After(t, e))
  {
    EntriesAre(t, e);
    if e.Refreshed? {
      ByNameHolds(e.infos);
    }
  }

  lemma CalmKeeps(s: State, e: TableEvent, name: string, index: nat, base: set<Prefixed>, lease: Option<Lease>)
    requires Named(s.tables) && Settled(s, name, index, base, lease) && Calm(e, name, index)
    ensures Named(Reported(s, e).tables) && Settled(Reported(s, e), name, index, base, lease)
  {
    NamedAfter(s.tables, e);
    EntriesAre(s.tables, e);
  }

  /** Whatever addresses the leases have: moving away from one takes it from
      the interface, be it its own besides. */
  lemma LeaseSetSettles(w: Oracle, s: State, name: string, index: nat, own: set<Prefixed>,
                        was: Option<Lease>, now: Option<Lease>)
    requires Willing(w) && Named(s.tables) && Settled(s, name, index, own, was)
    ensures var t := LeaseSet(w, s, name, was, now).state;
            && Named(t.tables)
            && Settled(t, name, index,
                       if LeaseAddress(was) == LeaseAddress(now) then own else own - AddressSet(was), now)
  {
    LeaseSetEntries(w, s, name, was, now);
    if LeaseAddress(was) != LeaseAddress(now) {
      ReaddressedOn(w, Told(w, s.kernel).kernel, index, LeaseAddress(was), LeaseAddress(now));
    }
  }

  /** Replaying any chain of notifications, with calm reports in between, leaves
      the kernel with the last lease's address and those of the interface's own
      that no lease has been moved away from, and the table with its router. */
  lemma {:induction false} ChainLeaves(w: Oracle, s: State, name: string, index: nat, base: set<Prefixed>,
                                       events: seq<Event>, lease: Option<Lease>)
    requires Willing(w) && Named(s.tables) && Settled(s, name, index, base, None)
    requires forall e :: e in events ==> Allowed(e, name, index)
    requires Chain(Notifications(events), lease)
    ensures Named(Run(w, s, name, events).tables)
    ensures Settled(Run(w, s, name, events), name, index, base - Left(Notifications(events)), lease)
  {
    if events == [] {
      assert base - {} == base;
    } else {
      var (init, last) := (events[..|events| - 1], events[|events| - 1]);
      var (before, ns) := (Run(w, s, name, init), Notifications(events));
      assert Allowed(last, name, index) by {
        assert last in events;
      }
      assert forall e :: e in init ==> e in events;
      match last {
        case Notified(n) =>
          assert ns[..|ns| - 1] == Notifications(init);
          ChainLeaves(w, s, name, index, base, init, n.was);
          var own := base - Left(Notifications(init));
          LeaseSetSettles(w, before, name, index, own, n.was, n.now);
          assert base - Left(ns) == if LeaseAddress(n.was) == LeaseAddress(n.now) then own else own - AddressSet(n.was);
        case Report(t) =>
          ChainLeaves(w, s, name, index, base, init, lease);
          CalmKeeps(before, t, name, index, base - Left(ns), lease);
      }
    }
  }

  /** So the interface's own addresses survive the chain exactly when no lease
      was moved away from one of them, unless the last lease brings it back. */
  lemma ChainConservesIff(w: Oracle, s: State, name: string, index: nat, base: set<Prefixed>,
                          events: seq<Event>, lease: Option<Lease>)
    requires Willing(w) && Named(s.tables) && Settled(s, name, index, base, None)
    requires forall e :: e in events ==> Allowed(e, name, index)
    requires Chain(Notifications(events), lease)
    ensures Settled(Run(w, s, name, events), name, index, base, lease) <==>
            base * Left(Notifications(events)) <= AddressSet(lease)
  {
    ChainLeaves(w, s, name, index, base, events, lease);
    LossIff(base, Left(Notifications(events)), AddressSet(lease));
  }

  lemma LossIff(base: set<Prefixed>, left: set<Prefixed>, held: set<Prefixed>)
    ensures base - left + held == base + held <==> base * left <= held
  {
    if base - left + held == base + held {
      forall p | p in base * left ensures p in held {
        assert p in base + held;
      }
    }
  }

  /** An address of the interface's own, leased and then expired, is gone. */
  lemma LostAddressExample(w: Oracle, s: State, name: string, index: nat, lease: Lease, events: seq<Event>)
    requires Willing(w) && Named(s.tables) && Settled(s, name, index, AddressSet(Some(lease)), None)
    requires events == [Notified(Notification(None, Some(lease))), Notified(Notification(Some(lease), None))]
    ensures Held(Run(w, s, name, events).kernel.addrs, index, true) == {}
  {
    var (first, second) := (Notification(None, Some(lease)), Notification(Some(lease), None));
    assert events[..1] == [Notified(first)] && events[..1][..0] == [] && Notifications(events[..1]) == [first];
    assert Notifications(events) == [first, second];
    assert [first, second][..1] == [first] && [first][..0] == [];
    assert Chain([first], Some(lease));
    ChainLeaves(w, s, name, index, AddressSet(Some(lease)), events, None);
    assert Left([first]) == {};
    assert Left([first, second]) == AddressSet(Some(lease));
  }

  /** What a client goes through after its start. */
  datatype Input = Input(event: LeaseEvent, traffic: Traffic, requesting: Requesting)

  datatype Client = Client(lease: Option<Lease>, notices: seq<Notification>)

  ghost predicate Readable(inputs: seq<Input>) {
    forall i :: 0 <= i < |inputs| ==> WellFormed(inputs[i].traffic) && WellFormed(inputs[i].requesting.ack)
  }

  ghost function Lived(first: Lease, inputs: seq<Input>): Client
    requires Readable(inputs)
  {
    if inputs == [] then Client(Some(first), [Notification(None, Some(first))])
    else
      var before := Lived(first, inputs[..|inputs| - 1]);
      var i := inputs[|inputs| - 1];
      var h := Handled(before.lease, i.event, i.traffic, i.requesting);
      Client(h.lease, before.notices + h.notices)
  }

  lemma {:induction false} LifeIsChain(first: Lease, inputs: seq<Input>)
    requires Readable(inputs)
    ensures Chain(Lived(first, inputs).notices, Lived(first, inputs).lease)
  {
    if inputs == [] {
      assert [Notification(None, Some(first))][..0] == [];
      assert Chain([], None);
    } else {
      LifeIsChain(first, inputs[..|inputs| - 1]);
      var (before, i) := (Lived(first, inputs[..|inputs| - 1]), inputs[|inputs| - 1]);
      HandledKeepsChain(before.notices, before.lease, i.event, i.traffic, i.requesting);
    }
  }

  /** From any traffic to the kernel: whatever the servers answer, the
      interface ends with the address of the lease that the client holds, and
      with those of its own that no lease was moved away from. */
  lemma LeaseConserved(w: Oracle, s: State, name: string, index: nat, base: set<Prefixed>,
                       first: Lease, inputs: seq<Input>, events: seq<Event>)
    requires Willing(w) && Named(s.tables) && Settled(s, name, index, base, None) && Readable(inputs)
    requires Notifications(events) == Lived(first, inputs).notices
    requires forall e :: e in events ==> Allowed(e, name, index)
    ensures var (t, lease) := (Run(w, s, name, events), Lived(first, inputs).lease);
            && Settled(t, name, index, base - Left(Lived(first, inputs).notices), lease)
            && (Settled(t, name, index, base, lease) <==>
                  base * Left(Lived(first, inputs).notices) <= AddressSet(lease))
    ensures var (t, lease) := (Run(w, s, name, events), Lived(first, inputs).lease);
            && name in t.tables.interfaces && Carries(t, name, index, lease)
  {
    LifeIsChain(first, inputs);
    ChainLeaves(w, s, name, index, base, events, Lived(first, inputs).lease);
    ChainConservesIff(w, s, name, index, base, events, Lived(first, inputs).lease);
  }

  /** The gateway is the router of the lease, and its address is there with the
      mask's leading ones for a prefix. */
  predicate Carries(s: State, name: string, index: nat, lease: Option<Lease>)
    requires name in s.tables.interfaces
  {
    var gateway := s.tables.interfaces[name].gatewayIpv4;
    && (lease.None? ==> gateway == None)
    && (lease.Some? ==>
          && Prefixed(lease.value.assignedIp, Cidr.LeadingOnes(32, lease.value.subnetMask))
             in Held(s.kernel.addrs, index, true)
          && match lease.value.router
             case Some(router) => gateway == Some(Prefixed(router, 32))
             case None => gateway == None)
  }

  /** From the acknowledgement to the table: once a lease is extended the
      gateway is the first router that the server named. */
  lemma RouterReachesTable(w: Oracle, s: State, name: string, index: nat, base: set<Prefixed>, first: Lease,
                           inputs: seq<Input>, events: seq<Event>, k: nat, i: nat, routers: seq<u32>)
    requires Willing(w) && Named(s.tables) && Settled(s, name, index, base, None) && Readable(inputs)
    requires Notifications(events) == Lived(first, inputs).notices
    requires forall e :: e in events ==> Allowed(e, name, index)
    requires inputs != [] && Lived(first, inputs[..|inputs| - 1]).lease.Some?
    requires var last := inputs[|inputs| - 1];
             && !last.event.LeaseExpired? && Acknowledges(last.traffic, k, i)
             && Router(routers) in last.traffic.windows(k)[i].message.opts && routers != []
    ensures var t := Run(w, s, name, events);
            name in t.tables.interfaces && t.tables.interfaces[name].gatewayIpv4 == Some(Prefixed(routers[0], 32))
  {
    var (last, held) := (inputs[|inputs| - 1], Lived(first, inputs[..|inputs| - 1]).lease.value);
    ExtendingIs(held, last.event, last.traffic, last.requesting);
    LeaseConserved(w, s, name, index, base, first, inputs, events);
  }

  /** From the offer to the kernel: a lease requested anew has its address there
      and its router in the table. */
  lemma GrantReachesKernel(w: Oracle, s: State, name: string, index: nat, base: set<Prefixed>, first: Lease,
                           inputs: seq<Input>, events: seq<Event>, granted: Lease)
    requires Willing(w) && Named(s.tables) && Settled(s, name, index, base, None) && Readable(inputs)
    requires Notifications(events) == Lived(first, inputs).notices
    requires forall e :: e in events ==> Allowed(e, name, index)
    requires inputs != []
    requires var (last, before) := (inputs[|inputs| - 1], Lived(first, inputs[..|inputs| - 1]));
             && (last.event.LeaseExpired? || (before.lease.Some? && RefusedIn(last.traffic)))
             && Grants(last.requesting, granted)
    ensures var t := Run(w, s, name, events);
            name in t.tables.interfaces && Carries(t, name, index, Some(granted))
  {
    var (last, before) := (inputs[|inputs| - 1], Lived(first, inputs[..|inputs| - 1]));
    AnewIs(before.lease, last.event, last.traffic, last.requesting, granted);
    LeaseConserved(w, s, name, index, base, first, inputs, events);
  }

  /** A client restarted after a crash knows of no earlier lease. It ends up
      right exactly when it gets the same address again and no router is left
      behind. */
  lemma RestartedClientIff(w: Oracle, s: State, name: string, index: nat, base: set<Prefixed>,
                           lost: Lease, found: Lease)
    requires Willing(w) && Named(s.tables) && Settled(s, name, index, base, Some(lost))
    requires AddressSet(Some(lost)) !! base
    ensures Settled(LeaseSet(w, s, name, None, Some(found)).state, name, index, base, Some(found)) <==>
            LeaseAddress(Some(lost)) == LeaseAddress(Some(found)) && (found.router.None? ==> lost.router.None?)
  {
    LeaseSetEntries(w, s, name, None, Some(found));
    ReaddressedOn(w, Told(w, s.kernel).kernel, index, None, LeaseAddress(Some(found)));
    var (x, held) := (LeaseAddress(Some(lost)).value, base + AddressSet(Some(lost)));
    assert Held(s.kernel.addrs, index, true) == held;
    assert x in held - {} + AddressSet(Some(found)) && x in held - {};
    if LeaseAddress(Some(lost)) == LeaseAddress(Some(found)) {
      assert held - {} == base + AddressSet(Some(found));
    } else {
      assert x !in base + AddressSet(Some(found));
    }
  }

  /** The client crashed with 10.0.0.5 and is given 10.0.0.6: the interface has
      both. */
  lemma LeftoverAddressExample(w: Oracle, s: State, lost: Lease, found: Lease, info: InterfaceInfo)
    requires Willing(w)
    requires lost == Lease(0x0A00_0005, 1, 0xFFFF_FF00, None, [], 3600, 1800, 3150)
    requires found == lost.(assignedIp := 0x0A00_0006)
    requires info.name == "em0" && info.id == 1 && info.gatewayIpv4 == None
    requires var p := LeaseAddress(Some(lost)).value;
             s == State(InterfaceTable.Inserted(NO_TABLES, info), KernelState({Assigned(1, V4(p))}, {}, {}, 0),
                        [], map[], 0)
    ensures var t := LeaseSet(w, s, "em0", None, Some(found)).state;
            && !Settled(t, "em0", 1, {}, Some(found))
            && Held(t.kernel.addrs, 1, true) == {LeaseAddress(Some(lost)).value, LeaseAddress(Some(found)).value}
  {
    var (p, q) := (LeaseAddress(Some(lost)).value, LeaseAddress(Some(found)).value);
    assert p.addr != q.addr;
    assert s.tables.interfaces == map["em0" := info];
    HeldAfter({}, 1, true, p);
    assert Held({}, 1, true) == {};
    assert {} + {Assigned(1, Make(true, p))} == s.kernel.addrs;
    assert Settled(s, "em0", 1, {}, Some(lost));
    RestartedClientIff(w, s, "em0", 1, {}, lost, found);
    ReaddressedOn(w, Told(w, s.kernel).kernel, 1, None, Some(q));
  }
}
