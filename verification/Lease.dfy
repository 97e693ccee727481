/** DHCPv4 leases and how server replies fill them in
    (libnetwork-daemon/src/dhcp.rs, network-daemon/src/dhcp/client.rs). */
module Lease {
  import opened Prelude

  type u32 = n: int | 0 <= n <= 0xFFFF_FFFF

  /** IPv4 addresses and masks are 32-bit words; times are in seconds. */
  datatype Lease = Lease(
    assignedIp: u32, serverId: u32, subnetMask: u32, router: Option<u32>, dnsServers: seq<u32>,
    leaseTime: u32, renewalTime: u32, rebindingTime: u32)

  datatype DhcpOption =
    | SubnetMask(mask: u32)
    | Router(routers: seq<u32>)
    | DomainNameServer(servers: seq<u32>)
    | AddressLeaseTime(time: u32)
    | Renewal(time: u32)
    | Rebinding(time: u32)
    | Unused(code: nat)

  /** Options of one message have different codes. */
  predicate SameCode(a: DhcpOption, b: DhcpOption) {
    match a
    case SubnetMask(_) => b.SubnetMask?
    case Router(_) => b.Router?
    case DomainNameServer(_) => b.DomainNameServer?
    case AddressLeaseTime(_) => b.AddressLeaseTime?
    case Renewal(_) => b.Renewal?
    case Rebinding(_) => b.Rebinding?
    case Unused(code) => b.Unused? && b.code == code
  }

  /** A router option lists at least one router: the client takes the first. */
  predicate Options(opts: seq<DhcpOption>) {
    && (forall i, j :: 0 <= i < j < |opts| ==> !SameCode(opts[i], opts[j]))
    && Routed(opts)
  }

  /** The fields that a message fills in. */
  datatype Fields = Fields(
    mask: Option<u32>, router: Option<u32>, dns: Option<seq<u32>>,
    leaseTime: Option<u32>, renewal: Option<u32>, rebinding: Option<u32>)

  const NO_FIELDS := Fields(None, None, None, None, None, None)

  /** The fields are what the options say, in whatever order they stand. */
  ghost predicate Says(f: Fields, opts: seq<DhcpOption>) {
    && (forall v: u32 :: f.mask == Some(v) <==> SubnetMask(v) in opts)
    && (forall v: u32 :: f.router == Some(v) <==> exists rs: seq<u32> :: Router(rs) in opts && rs != [] && rs[0] == v)
    && (forall v: seq<u32> :: f.dns == Some(v) <==> DomainNameServer(v) in opts)
    && (forall v: u32 :: f.leaseTime == Some(v) <==> AddressLeaseTime(v) in opts)
    && (forall v: u32 :: f.renewal == Some(v) <==> Renewal(v) in opts)
    && (forall v: u32 :: f.rebinding == Some(v) <==> Rebinding(v) in opts)
  }

  function With(f: Fields, o: DhcpOption): Fields
    requires o.Router? ==> o.routers != []
  {
    match o
    case SubnetMask(mask) => f.(mask := Some(mask))
    case Router(routers) => f.(router := Some(routers[0]))
    case DomainNameServer(servers) => f.(dns := Some(servers))
    case AddressLeaseTime(time) => f.(leaseTime := Some(time))
    case Renewal(time) => f.(renewal := Some(time))
    case Rebinding(time) => f.(rebinding := Some(time))
    case Unused(_) => f
  }

  predicate Routed(opts: seq<DhcpOption>) {
    forall i :: 0 <= i < |opts| && opts[i].Router? ==> opts[i].routers != []
  }

  function FieldsIn(opts: seq<DhcpOption>): Fields
    requires Routed(opts)
  {
    if opts == [] then NO_FIELDS else With(FieldsIn(opts[..|opts| - 1]), opts[|opts| - 1])
  }

  /** One more option of a new code: only its own field changes. */
  lemma SaysOneMore(f: Fields, init: seq<DhcpOption>, o: DhcpOption)
    requires Says(f, init) && (o.Router? ==> o.routers != [])
    requires forall x :: x in init ==> !SameCode(x, o)
    ensures Says(With(f, o), init + [o])
  {
  }

  lemma {:induction false} FieldsAreSaid(opts: seq<DhcpOption>)
    requires Options(opts)
    ensures Says(FieldsIn(opts), opts)
  {
    if opts != [] {
      var (init, o) := (opts[..|opts| - 1], opts[|opts| - 1]);
      assert opts == init + [o];
      FieldsAreSaid(init);
      forall x | x in init ensures !SameCode(x, o) {
        var i :| 0 <= i < |init| && init[i] == x;
        assert opts[i] == x;
      }
      SaysOneMore(FieldsIn(init), init, o);
    }
  }

  /** The order in which the options come makes no difference. */
  lemma OrderIrrelevant(opts: seq<DhcpOption>, others: seq<DhcpOption>)
    requires Options(opts) && Options(others)
    requires forall o :: o in opts <==> o in others
    ensures FieldsIn(opts) == FieldsIn(others)
  {
    FieldsAreSaid(opts);
    FieldsAreSaid(others);
    SaysUnique(FieldsIn(opts), FieldsIn(others), opts);
  }

  // ---------------------------------------------------------- a fresh lease

  datatype LeaseBuilder = LeaseBuilder(
    assignedIp: Option<u32>, serverId: Option<u32>, subnetMask: Option<u32>, router: Option<u32>,
    dnsServers: seq<u32>, leaseTime: u32, renewalTime: Option<u32>, rebindingTime: Option<u32>)
  {
    /** Absent timers default to a half and seven eighths of the lease; the
        product is taken in 64 bits. */
    function Build(): (r: Result<Lease, string>)
      ensures r.Success? <==> assignedIp.Some? && serverId.Some? && subnetMask.Some?
      ensures r.Success? && renewalTime.None? && rebindingTime.None? ==>
                r.value.renewalTime <= r.value.rebindingTime <= r.value.leaseTime
    {
      var renewal: u32 := if renewalTime.Some? then renewalTime.value else leaseTime / 2;
      var time: int := leaseTime;
      var rebinding: u32 := if rebindingTime.Some? then rebindingTime.value else time * 7 / 8;
      if assignedIp.None? then Failure("Assigned IP is required")
      else if serverId.None? then Failure("Server ID is required")
      else if subnetMask.None? then Failure("Subnet mask is required")
      else Success(Lease(assignedIp.value, serverId.value, subnetMask.value, router, dnsServers,
                         leaseTime, renewal, rebinding))
    }
  }

  function BuilderOf(assignedIp: u32, serverId: u32, f: Fields): LeaseBuilder {
    LeaseBuilder(Some(assignedIp), Some(serverId), f.mask, f.router, if f.dns.Some? then f.dns.value else [],
                 if f.leaseTime.Some? then f.leaseTime.value else 0, f.renewal, f.rebinding)
  }

  /** The lease of a first acknowledgement. */
  method RequestedLease(assignedIp: u32, serverId: u32, opts: seq<DhcpOption>) returns (r: Result<Lease, string>)
    requires Options(opts)
    ensures r == BuilderOf(assignedIp, serverId, FieldsIn(opts)).Build()
  {
    var b := LeaseBuilder(Some(assignedIp), Some(serverId), None, None, [], 0, None, None);
    for i := 0 to |opts|
      invariant b == BuilderOf(assignedIp, serverId, FieldsIn(opts[..i]))
    {
      assert opts[..i + 1][..i] == opts[..i];
      match opts[i] {
        case SubnetMask(mask) => b := b.(subnetMask := Some(mask));
        case Router(routers) => b := b.(router := Some(routers[0]));
        case DomainNameServer(servers) =>
          NoEarlierServers(opts, i);
          b := AddServers(b, servers);
        case AddressLeaseTime(time) => b := b.(leaseTime := time);
        case Renewal(time) => b := b.(renewalTime := Some(time));
        case Rebinding(time) => b := b.(rebindingTime := Some(time));
        case Unused(_) =>
      }
    }
    assert opts[..|opts|] == opts;
    r := b.Build();
  }

  lemma NoEarlierServers(opts: seq<DhcpOption>, i: nat)
    requires Options(opts) && i < |opts| && opts[i].DomainNameServer?
    ensures FieldsIn(opts[..i]).dns == None
  {
    FieldsAreSaid(opts[..i]);
    forall v: seq<u32> ensures DomainNameServer(v) !in opts[..i] {
      assert forall j :: 0 <= j < i ==> !SameCode(opts[j], opts[i]);
    }
  }

  method AddServers(b: LeaseBuilder, servers: seq<u32>)
    returns (r: LeaseBuilder)
    requires b.dnsServers == []
    ensures r == b.(dnsServers := servers)
  {
    r := b;
    for k := 0 to |servers|
      invariant r == b.(dnsServers := servers[..k])
    {
      r := r.(dnsServers := r.dnsServers + [servers[k]]);
    }
    assert servers[..|servers|] == servers;
  }

  lemma SaysUnique(f: Fields, g: Fields, opts: seq<DhcpOption>)
    requires Says(f, opts) && Says(g, opts)
    ensures f == g
  {
  }

  /** What an acknowledgement says of a fresh lease: no mask, no lease. Absent
      timers are a half and seven eighths of the lease time, rounded down. */
  ghost predicate Granted(opts: seq<DhcpOption>, l: Lease) {
    && SubnetMask(l.subnetMask) in opts
    && (forall v: u32 :: l.router == Some(v) <==> exists rs: seq<u32> :: Router(rs) in opts && rs != [] && rs[0] == v)
    && (forall v: seq<u32> :: DomainNameServer(v) in opts ==> l.dnsServers == v)
    && ((forall v: seq<u32> :: DomainNameServer(v) !in opts) ==> l.dnsServers == [])
    && (forall v: u32 :: AddressLeaseTime(v) in opts ==> l.leaseTime == v)
    && ((forall v: u32 :: AddressLeaseTime(v) !in opts) ==> l.leaseTime == 0)
    && (forall v: u32 :: Renewal(v) in opts ==> l.renewalTime == v)
    && ((forall v: u32 :: Renewal(v) !in opts) ==> 2 * l.renewalTime <= l.leaseTime < 2 * l.renewalTime + 2)
    && (forall v: u32 :: Rebinding(v) in opts ==> l.rebindingTime == v)
    && ((forall v: u32 :: Rebinding(v) !in opts) ==> 8 * l.rebindingTime <= 7 * l.leaseTime < 8 * l.rebindingTime + 8)
  }

  lemma GrantedIff(assignedIp: u32, serverId: u32, opts: seq<DhcpOption>, l: Lease)
    requires Options(opts)
    ensures BuilderOf(assignedIp, serverId, FieldsIn(opts)).Build() == Success(l) <==>
            l.assignedIp == assignedIp && l.serverId == serverId && Granted(opts, l)
  {
    var f := FieldsIn(opts);
    FieldsAreSaid(opts);
    NothingSaid(f, opts);
    var built := BuilderOf(assignedIp, serverId, f).Build();
    if built.Success? {
      assert Granted(opts, built.value);
    }
    if l.assignedIp == assignedIp && l.serverId == serverId && Granted(opts, l) {
      assert built.Success?;
      GrantedUnique(opts, l, built.value);
    }
  }

  /** A field is absent just when no option says it. */
  lemma NothingSaid(f: Fields, opts: seq<DhcpOption>)
    requires Says(f, opts)
    ensures f.mask.None? <==> forall v: u32 :: SubnetMask(v) !in opts
    ensures f.dns.None? <==> forall v: seq<u32> :: DomainNameServer(v) !in opts
    ensures f.leaseTime.None? <==> forall v: u32 :: AddressLeaseTime(v) !in opts
    ensures f.renewal.None? <==> forall v: u32 :: Renewal(v) !in opts
    ensures f.rebinding.None? <==> forall v: u32 :: Rebinding(v) !in opts
  {
    assert f.mask.Some? ==> SubnetMask(f.mask.value) in opts;
    assert f.dns.Some? ==> DomainNameServer(f.dns.value) in opts;
    assert f.leaseTime.Some? ==> AddressLeaseTime(f.leaseTime.value) in opts;
    assert f.renewal.Some? ==> Renewal(f.renewal.value) in opts;
    assert f.rebinding.Some? ==> Rebinding(f.rebinding.value) in opts;
  }

  lemma GrantedUnique(opts: seq<DhcpOption>, l: Lease, m: Lease)
    requires Options(opts) && Granted(opts, l) && Granted(opts, m)
    requires l.assignedIp == m.assignedIp && l.serverId == m.serverId
    ensures l == m
  {
    FieldsAreSaid(opts);
    NothingSaid(FieldsIn(opts), opts);
    assert FieldsIn(opts).mask == Some(l.subnetMask) == Some(m.subnetMask);
    assert l.router == FieldsIn(opts).router == m.router;
  }

  // -------------------------------------------------------- a renewed lease

  /** A renewal or rebinding keeps the address and server, and every field
      that the acknowledgement leaves out. */
  function Overlaid(l: Lease, f: Fields): Lease {
    Lease(
      l.assignedIp, l.serverId,
      if f.mask.Some? then f.mask.value else l.subnetMask,
      if f.router.Some? then f.router else l.router,
      if f.dns.Some? then f.dns.value else l.dnsServers,
      if f.leaseTime.Some? then f.leaseTime.value else l.leaseTime,
      if f.renewal.Some? then f.renewal.value else l.renewalTime,
      if f.rebinding.Some? then f.rebinding.value else l.rebindingTime)
  }

  /** What an acknowledgement leaves of a lease that it extends. */
  ghost predicate Renewed(l: Lease, opts: seq<DhcpOption>, m: Lease) {
    && m.assignedIp == l.assignedIp && m.serverId == l.serverId
    && (forall v: u32 :: SubnetMask(v) in opts ==> m.subnetMask == v)
    && ((forall v: u32 :: SubnetMask(v) !in opts) ==> m.subnetMask == l.subnetMask)
    && (forall rs: seq<u32> :: Router(rs) in opts && rs != [] ==> m.router == Some(rs[0]))
    && ((forall rs: seq<u32> :: Router(rs) !in opts) ==> m.router == l.router)
    && (forall v: seq<u32> :: DomainNameServer(v) in opts ==> m.dnsServers == v)
    && ((forall v: seq<u32> :: DomainNameServer(v) !in opts) ==> m.dnsServers == l.dnsServers)
    && (forall v: u32 :: AddressLeaseTime(v) in opts ==> m.leaseTime == v)
    && ((forall v: u32 :: AddressLeaseTime(v) !in opts) ==> m.leaseTime == l.leaseTime)
    && (forall v: u32 :: Renewal(v) in opts ==> m.renewalTime == v)
    && ((forall v: u32 :: Renewal(v) !in opts) ==> m.renewalTime == l.renewalTime)
    && (forall v: u32 :: Rebinding(v) in opts ==> m.rebindingTime == v)
    && ((forall v: u32 :: Rebinding(v) !in opts) ==> m.rebindingTime == l.rebindingTime)
  }

  lemma RenewedIff(l: Lease, opts: seq<DhcpOption>, m: Lease)
    requires Options(opts)
    ensures m == Overlaid(l, FieldsIn(opts)) <==> Renewed(l, opts, m)
  {
    var f := FieldsIn(opts);
    FieldsAreSaid(opts);
    NothingSaid(f, opts);
    RouterSaid(f, opts);
    assert Renewed(l, opts, Overlaid(l, f));
    if Renewed(l, opts, m) {
      assert f.mask.Some? ==> m.subnetMask == f.mask.value;
      assert m.router == Overlaid(l, f).router;
      assert f.dns.Some? ==> m.dnsServers == f.dns.value;
      assert f.leaseTime.Some? ==> m.leaseTime == f.leaseTime.value;
      assert f.renewal.Some? ==> m.renewalTime == f.renewal.value;
      assert f.rebinding.Some? ==> m.rebindingTime == f.rebinding.value;
    }
  }

  lemma RouterSaid(f: Fields, opts: seq<DhcpOption>)
    requires Options(opts) && Says(f, opts)
    ensures f.router.None? <==> forall rs: seq<u32> :: Router(rs) !in opts
    ensures forall rs: seq<u32> :: Router(rs) in opts ==> rs != [] && f.router == Some(rs[0])
  {
    forall rs: seq<u32> | Router(rs) in opts ensures rs != [] && f.router == Some(rs[0]) {
      var i :| 0 <= i < |opts| && opts[i] == Router(rs);
    }
  }

  method RenewedLease(lease: Lease, opts: seq<DhcpOption>) returns (l: Lease)
    requires Options(opts)
    ensures l == Overlaid(lease, FieldsIn(opts))
  {
    l := lease;
    for i := 0 to |opts|
      invariant l == Overlaid(lease, FieldsIn(opts[..i]))
    {
      assert opts[..i + 1][..i] == opts[..i];
      match opts[i] {
        case SubnetMask(mask) => l := l.(subnetMask := mask);
        case Router(routers) => l := l.(router := Some(routers[0]));
        case DomainNameServer(servers) => l := l.(dnsServers := servers);
        case AddressLeaseTime(time) => l := l.(leaseTime := time);
        case Renewal(time) => l := l.(renewalTime := time);
        case Rebinding(time) => l := l.(rebindingTime := time);
        case Unused(_) =>
      }
    }
    assert opts[..|opts|] == opts;
  }

  predicate OrderedTimers(lease: Lease) {
    lease.renewalTime <= lease.rebindingTime <= lease.leaseTime
  }

  /** An acknowledgement that gives a lease time and no timers to go with it. */
  predicate NamesOnlyLeaseTime(f: Fields) {
    f.leaseTime.Some? && f.renewal.None? && f.rebinding.None?
  }

  /** Such a renewal keeps the timers in order exactly when the new lease lasts
      at least to the old T2. */
  lemma RenewalKeepsOrderIff(lease: Lease, opts: seq<DhcpOption>)
    requires Options(opts) && OrderedTimers(lease) && NamesOnlyLeaseTime(FieldsIn(opts))
    ensures OrderedTimers(Overlaid(lease, FieldsIn(opts))) <==>
            exists time: u32 :: AddressLeaseTime(time) in opts && lease.rebindingTime <= time
  {
    FieldsAreSaid(opts);
    var time: u32 := FieldsIn(opts).leaseTime.value;
    assert AddressLeaseTime(time) in opts;
    assert forall t: u32 :: AddressLeaseTime(t) in opts ==> FieldsIn(opts).leaseTime == Some(t);
  }

  /** An hour's lease renewed for ten minutes keeps a T1 of half an hour. */
  lemma RenewalMayPassExpiry()
    ensures exists lease: Lease, opts :: Options(opts) && OrderedTimers(lease)
              && Overlaid(lease, FieldsIn(opts)).renewalTime > Overlaid(lease, FieldsIn(opts)).leaseTime
  {
    var (lease, opts) := (Lease(1, 2, 3, None, [], 3600, 1800, 3150), [AddressLeaseTime(600)]);
    assert opts[..|opts| - 1] == [];
    assert FieldsIn(opts) == NO_FIELDS.(leaseTime := Some(600));
    assert Overlaid(lease, FieldsIn(opts)) == lease.(leaseTime := 600);
    assert Options(opts) && OrderedTimers(lease);
  }
}
