/** The routes that the daemon knows, by prefix and by outgoing interface
    (network-daemon/src/route/table.rs). */
module RouteTable {
  import opened Prelude
  import opened Buckets

  /** A destination of either address family. */
  datatype Net = Net(v6: bool, addr: nat, prefixLen: nat)

  datatype Route = Route(net: Net, gateway: Option<nat>, ifIndex: Option<nat>)

  /** The routes of a prefix are an ordered set, here the list of its members
      in their order. */
  datatype Routes = Routes(byNet: map<Net, seq<Route>>, byOif: map<nat, set<Net>>)

  const NO_ROUTES := Routes(map[], map[])

  function DefaultNet(v6: bool): Net {
    Net(v6, 0, 0)
  }

  // --------------------------------------------------------- sets of ordered routes

  /** Routes are ordered by the length of their prefix and by nothing else
      (vendor/route_manager/src/common/mod.rs). */
  function Rank(r: Route): nat {
    r.net.prefixLen
  }

  /** An ordered set that has an equal member keeps it. */
  function Kept(bucket: seq<Route>, r: Route): seq<Route> {
    if bucket == [] || Rank(r) < Rank(bucket[0]) then [r] + bucket
    else if Rank(r) == Rank(bucket[0]) then bucket
    else [bucket[0]] + Kept(bucket[1..], r)
  }

  function Dropped(bucket: seq<Route>, r: Route): seq<Route> {
    if bucket == [] then []
    else if Rank(r) == Rank(bucket[0]) then bucket[1..]
    else [bucket[0]] + Dropped(bucket[1..], r)
  }

  // -------------------------------------------------------------- the operations

  function RoutesTo(t: Routes, net: Net): seq<Route> {
    if net in t.byNet then t.byNet[net] else []
  }

  function Inserted(t: Routes, r: Route): Routes
    requires r.ifIndex.Some?
  {
    Routes(t.byNet[r.net := Kept(RoutesTo(t, r.net), r)], Enlisted(t.byOif, r.ifIndex.value, r.net))
  }

  /** The first route of a prefix goes. */
  function Removed(t: Routes, net: Net): Routes
    requires RoutesTo(t, net) != [] ==> RoutesTo(t, net)[0].ifIndex.Some?
  {
    if RoutesTo(t, net) == [] then t
    else
      var first := RoutesTo(t, net)[0];
      var rest := Dropped(RoutesTo(t, net), first);
      Routes(if rest == [] then t.byNet - {net} else t.byNet[net := rest], Cut(t.byOif, first.ifIndex.value, net))
  }

  // ------------------------------------------------------ what holds in every run

  /** No prefix has an empty set of routes, and none has two. */
  predicate OneRouteEach(t: Routes) {
    forall n :: n in t.byNet ==> |t.byNet[n]| == 1 && t.byNet[n][0].net == n && t.byNet[n][0].ifIndex.Some?
  }

  predicate Has(t: Routes, r: Route) {
    r in RoutesTo(t, r.net)
  }

  /** The prefix has a stored route on the interface. */
  predicate StoredOn(t: Routes, net: Net, oif: nat) {
    exists r :: r in RoutesTo(t, net) && r.ifIndex == Some(oif)
  }

  /** Every stored route is listed under its own interface. */
  ghost predicate Listed(t: Routes) {
    forall n, oif: nat :: StoredOn(t, n, oif) ==> n in Bucket(t.byOif, oif)
  }

  ghost predicate Valid(t: Routes) {
    OneRouteEach(t) && NoEmpty(t.byOif) && Listed(t)
  }

  /** What is known of the prefix `net`, if anything. */
  function Stored(t: Routes, net: Net): Option<Route> {
    if RoutesTo(t, net) == [] then None else Some(RoutesTo(t, net)[0])
  }

  lemma StoredOnIff(t: Routes, net: Net, oif: nat)
    requires OneRouteEach(t)
    ensures StoredOn(t, net, oif) <==> Stored(t, net).Some? && Stored(t, net).value.ifIndex == Some(oif)
  {
  }

  /** A new route takes a vacant prefix, and none other: of two routes of one
      prefix only the first is stored. */
  lemma InsertStores(t: Routes, r: Route)
    requires OneRouteEach(t) && r.ifIndex.Some?
    ensures OneRouteEach(Inserted(t, r))
    ensures forall n :: Stored(Inserted(t, r), n) == if n == r.net then Some(Stored(t, n).GetOr(r)) else Stored(t, n)
  {
    assert r.net in t.byNet ==> t.byNet[r.net] == [t.byNet[r.net][0]];
  }

  lemma RemoveStores(t: Routes, net: Net)
    requires OneRouteEach(t)
    ensures OneRouteEach(Removed(t, net))
    ensures forall n :: Stored(Removed(t, net), n) == if n == net then None else Stored(t, n)
  {
    assert net in t.byNet ==> t.byNet[net] == [t.byNet[net][0]];
  }

  lemma InsertKeepsValid(t: Routes, r: Route)
    requires Valid(t) && r.ifIndex.Some?
    ensures Valid(Inserted(t, r))
  {
    var u := Inserted(t, r);
    InsertStores(t, r);
    EnlistedIn(t.byOif, r.ifIndex.value, r.net);
    forall n, oif: nat | StoredOn(u, n, oif) ensures n in Bucket(u.byOif, oif) {
      StoredOnIff(u, n, oif);
      StoredOnIff(t, n, oif);
    }
  }

  lemma RemoveKeepsValid(t: Routes, net: Net)
    requires Valid(t)
    ensures Valid(Removed(t, net))
  {
    var u := Removed(t, net);
    RemoveStores(t, net);
    if Stored(t, net).Some? {
      CutIn(t.byOif, Stored(t, net).value.ifIndex.value, net);
      forall n, oif: nat | StoredOn(u, n, oif) ensures n in Bucket(u.byOif, oif) {
        StoredOnIff(u, n, oif);
        StoredOnIff(t, n, oif);
      }
    }
  }

  // --------------------------------------------------------------- stale listings

  /** A listing with no route behind it. */
  predicate Stale(t: Routes, oif: nat, net: Net) {
    net in Bucket(t.byOif, oif) && !StoredOn(t, net, oif)
  }

  /** Every listed prefix has a stored route on its interface. */
  ghost predicate IndexSound(t: Routes) {
    forall oif: nat, n :: !Stale(t, oif, n)
  }

  /** The prefix is vacant, or its stored route is on that interface. */
  predicate Room(t: Routes, r: Route) {
    Stored(t, r.net).None? || Stored(t, r.net).value.ifIndex == r.ifIndex
  }

  /** An insertion decides about its own listing and leaves all others. */
  lemma InsertStale(t: Routes, r: Route, oif: nat, net: Net)
    requires Valid(t) && r.ifIndex.Some?
    ensures Stale(Inserted(t, r), oif, net) <==>
            if net == r.net && r.ifIndex == Some(oif) then !Room(t, r) else Stale(t, oif, net)
  {
    InsertStores(t, r);
    EnlistedIn(t.byOif, r.ifIndex.value, r.net);
    StoredOnIff(t, net, oif);
    StoredOnIff(Inserted(t, r), net, oif);
  }

  /** A removal neither makes nor mends a stale listing. */
  lemma RemoveStale(t: Routes, net: Net, oif: nat, n: Net)
    requires Valid(t)
    ensures Stale(Removed(t, net), oif, n) <==> Stale(t, oif, n)
  {
    RemoveStores(t, net);
    StoredOnIff(t, n, oif);
    StoredOnIff(Removed(t, net), n, oif);
    if Stored(t, net).Some? {
      CutIn(t.byOif, Stored(t, net).value.ifIndex.value, net);
    }
  }

  /** The index stays sound exactly when the insertion finds room: a route of a
      prefix that another interface has is dropped, and listed all the same. */
  lemma InsertSoundIff(t: Routes, r: Route)
    requires Valid(t) && IndexSound(t) && r.ifIndex.Some?
    ensures IndexSound(Inserted(t, r)) <==> Room(t, r)
  {
    InsertStale(t, r, r.ifIndex.value, r.net);
    forall oif: nat, n ensures Stale(Inserted(t, r), oif, n) ==> !Room(t, r) {
      InsertStale(t, r, oif, n);
    }
  }

  lemma RemoveKeepsSound(t: Routes, net: Net)
    requires Valid(t) && IndexSound(t)
    ensures IndexSound(Removed(t, net))
  {
    forall oif: nat, n ensures !Stale(Removed(t, net), oif, n) {
      RemoveStale(t, net, oif, n);
    }
  }

  // -------------------------------------------------------------- route changes

  datatype RouteChange = Add(route: Route) | Delete(route: Route) | Change(route: Route)

  function Changed(t: Routes, c: RouteChange): Routes
    requires OneRouteEach(t) && c.route.ifIndex.Some?
  {
    match c
    case Add(r) => Inserted(t, r)
    case Delete(r) => Removed(t, r.net)
    case Change(r) => Inserted(Removed(t, r.net), r)
  }

  /** A deletion takes the reported route and no other exactly when it is the
      one stored, or none of its prefix is. */
  lemma DeleteTakesIff(t: Routes, r: Route)
    requires Valid(t)
    ensures (forall x :: Has(Removed(t, r.net), x) <==> Has(t, x) && x != r) <==>
            Stored(t, r.net) == None || Stored(t, r.net) == Some(r)
  {
    var u := Removed(t, r.net);
    RemoveStores(t, r.net);
    forall x ensures Has(t, x) <==> Stored(t, x.net) == Some(x) {
    }
    forall x ensures Has(u, x) <==> Stored(u, x.net) == Some(x) {
    }
    if Stored(t, r.net).Some? && Stored(t, r.net) != Some(r) {
      var x := Stored(t, r.net).value;
      assert Has(t, x) && x != r && !Has(u, x);
    }
  }

  lemma ChangeKeepsValid(t: Routes, c: RouteChange)
    requires Valid(t) && c.route.ifIndex.Some?
    ensures Valid(Changed(t, c))
  {
    match c
    case Add(r) => InsertKeepsValid(t, r);
    case Delete(r) => RemoveKeepsValid(t, r.net);
    case Change(r) =>
      RemoveKeepsValid(t, r.net);
      InsertKeepsValid(Removed(t, r.net), r);
  }

  /** Only an addition can make the index unsound. */
  lemma ChangeSoundIff(t: Routes, c: RouteChange)
    requires Valid(t) && IndexSound(t) && c.route.ifIndex.Some?
    ensures IndexSound(Changed(t, c)) <==> (c.Add? ==> Room(t, c.route))
  {
    match c
    case Add(r) => InsertSoundIff(t, r);
    case Delete(r) => RemoveKeepsSound(t, r.net);
    case Change(r) =>
      RemoveKeepsSound(t, r.net);
      RemoveKeepsValid(t, r.net);
      RemoveStores(t, r.net);
      InsertSoundIff(Removed(t, r.net), r);
  }

  predicate AllNamed(changes: seq<RouteChange>) {
    forall i :: 0 <= i < |changes| ==> changes[i].route.ifIndex.Some?
  }

  /** Whatever the kernel sends, no prefix has an empty set of routes or two
      routes, and every stored route is listed under its interface. */
  ghost function Run(t: Routes, changes: seq<RouteChange>): (u: Routes)
    requires Valid(t) && AllNamed(changes)
    ensures Valid(u)
  {
    if changes == [] then t
    else
      var before := Run(t, changes[..|changes| - 1]);
      ChangeKeepsValid(before, changes[|changes| - 1]);
      Changed(before, changes[|changes| - 1])
  }

  /** What a run of changes leaves known of a prefix: a first addition, or the
      last change, until a deletion of whichever route of the prefix. */
  function Known(before: Option<Route>, changes: seq<RouteChange>, net: Net): Option<Route> {
    if changes == [] then before
    else
      var (r, c) := (Known(before, changes[..|changes| - 1], net), changes[|changes| - 1]);
      if c.route.net != net then r
      else
        match c
        case Add(x) => if r.None? then Some(x) else r
        case Delete(_) => None
        case Change(x) => Some(x)
  }

  lemma {:induction false} RunStores(t: Routes, changes: seq<RouteChange>, net: Net)
    requires Valid(t) && AllNamed(changes)
    ensures Stored(Run(t, changes), net) == Known(Stored(t, net), changes, net)
  {
    if changes != [] {
      var (before, c) := (Run(t, changes[..|changes| - 1]), changes[|changes| - 1]);
      RunStores(t, changes[..|changes| - 1], net);
      match c {
        case Add(r) => InsertStores(before, r);
        case Delete(r) => RemoveStores(before, r.net);
        case Change(r) =>
          RemoveStores(before, r.net);
          InsertStores(Removed(before, r.net), r);
      }
    }
  }

  // ------------------------------------------- what is known, by the events alone

  predicate Concerns(c: RouteChange, net: Net) {
    c.route.net == net
  }

  /** Of the first `n` changes from `m` on, those of the prefix are deletions. */
  predicate OnlyDeletes(changes: seq<RouteChange>, m: nat, n: nat, net: Net)
    requires n <= |changes|
  {
    forall j :: m <= j < n && Concerns(changes[j], net) ==> changes[j].Delete?
  }

  predicate OnlyAdds(changes: seq<RouteChange>, m: nat, net: Net) {
    forall j :: m <= j < |changes| && Concerns(changes[j], net) ==> changes[j].Add?
  }

  /** After `n` changes the prefix is vacant: it was and nothing but deletions
      came, or nothing else came after one of them. */
  predicate Vacant(before: Option<Route>, changes: seq<RouteChange>, n: nat, net: Net)
    requires n <= |changes|
  {
    || (before.None? && OnlyDeletes(changes, 0, n, net))
    || exists k :: 0 <= k < n && Concerns(changes[k], net) && changes[k].Delete? && OnlyDeletes(changes, k, n, net)
  }

  /** The change puts its route in place: a change always does, an addition if
      the prefix is vacant as it comes. */
  predicate Settles(before: Option<Route>, changes: seq<RouteChange>, k: nat, net: Net)
    requires k < |changes|
  {
    Concerns(changes[k], net) && (changes[k].Change? || (changes[k].Add? && Vacant(before, changes, k, net)))
  }

  /** What is known is a route from before that only additions have followed, or
      one put in place since that only additions have followed. */
  predicate InPlace(before: Option<Route>, changes: seq<RouteChange>, net: Net, x: Route) {
    || (before == Some(x) && OnlyAdds(changes, 0, net))
    || exists k :: 0 <= k < |changes| && Settles(before, changes, k, net) && changes[k].route == x
                   && OnlyAdds(changes, k + 1, net)
  }

  lemma {:induction false} VacantIff(before: Option<Route>, changes: seq<RouteChange>, n: nat, net: Net)
    requires n <= |changes|
    ensures Known(before, changes[..n], net) == None <==> Vacant(before, changes, n, net)
  {
    if n > 0 {
      VacantIff(before, changes, n - 1, net);
      assert changes[..n][..n - 1] == changes[..n - 1];
      VacantNext(before, changes, n - 1, net);
    }
  }

  lemma VacantNext(before: Option<Route>, changes: seq<RouteChange>, n: nat, net: Net)
    requires n < |changes|
    ensures Vacant(before, changes, n + 1, net) <==>
            if Concerns(changes[n], net) then changes[n].Delete? else Vacant(before, changes, n, net)
  {
    if k :| 0 <= k < n && Concerns(changes[k], net) && changes[k].Delete? && OnlyDeletes(changes, k, n, net) {
      assert !Concerns(changes[n], net) ==> OnlyDeletes(changes, k, n + 1, net);
    }
    if k :| 0 <= k < n + 1 && Concerns(changes[k], net) && changes[k].Delete? && OnlyDeletes(changes, k, n + 1, net) {
      assert !Concerns(changes[n], net) ==> k < n && OnlyDeletes(changes, k, n, net);
    }
    assert Concerns(changes[n], net) && changes[n].Delete? ==> OnlyDeletes(changes, n, n + 1, net);
  }

  /** For any run: nothing is known of a prefix exactly when it is vacant by the
      events, and a route exactly when it is in place by them. */
  lemma {:induction false} KnownIff(before: Option<Route>, changes: seq<RouteChange>, net: Net, x: Route)
    ensures Known(before, changes, net) == None <==> Vacant(before, changes, |changes|, net)
    ensures Known(before, changes, net) == Some(x) <==> InPlace(before, changes, net, x)
    decreases |changes|
  {
    assert changes[..|changes|] == changes;
    VacantIff(before, changes, |changes|, net);
    if changes != [] {
      var (init, n) := (changes[..|changes| - 1], |changes| - 1);
      KnownIff(before, init, net, x);
      VacantIff(before, changes, n, net);
      InPlaceNext(before, init, changes[n], net, x);
      assert changes == init + [changes[n]];
    }
  }

  lemma SettlesSame(before: Option<Route>, init: seq<RouteChange>, c: RouteChange, k: nat, net: Net)
    requires k < |init|
    ensures Settles(before, init + [c], k, net) <==> Settles(before, init, k, net)
  {
    var changes := init + [c];
    assert changes[..k] == init[..k];
    VacantIff(before, changes, k, net);
    VacantIff(before, init, k, net);
  }

  /** One more change: another prefix and an addition to a taken one alter
      nothing, all else decides. */
  lemma InPlaceNext(before: Option<Route>, init: seq<RouteChange>, c: RouteChange, net: Net, x: Route)
    ensures InPlace(before, init + [c], net, x) <==>
            || ((Concerns(c, net) ==> c.Add?) && InPlace(before, init, net, x))
            || (Settles(before, init + [c], |init|, net) && c.route == x)
  {
    var changes := init + [c];
    forall m: nat | m <= |init|
      ensures OnlyAdds(changes, m, net) <==> OnlyAdds(init, m, net) && (Concerns(c, net) ==> c.Add?)
    {
      assert OnlyAdds(changes, m, net) ==> Concerns(changes[|init|], net) ==> c.Add?;
      assert forall j :: m <= j < |init| ==> changes[j] == init[j];
    }
    forall k | 0 <= k < |init| ensures Settles(before, changes, k, net) <==> Settles(before, init, k, net) {
      SettlesSame(before, init, c, k, net);
    }
    assert OnlyAdds(changes, |changes|, net);
    if k :| 0 <= k < |init| && Settles(before, init, k, net) && init[k].route == x && OnlyAdds(init, k + 1, net)
    {
      assert (Concerns(c, net) ==> c.Add?) ==>
          Settles(before, changes, k, net) && changes[k].route == x && OnlyAdds(changes, k + 1, net);
    }
    if k :| 0 <= k < |changes| && Settles(before, changes, k, net) && changes[k].route == x
            && OnlyAdds(changes, k + 1, net)
    {
      assert k < |init| ==> Settles(before, init, k, net) && init[k].route == x && OnlyAdds(init, k + 1, net);
    }
  }

  const TEN: Net := Net(false, 0x0A00_0000, 8)

  /** Two additions of 10.0.0.0/8: the second is lost, its listing is not, and
      deleting it takes the first. */
  lemma TwoAddsExample(a: Route, b: Route, t: Routes)
    requires a == Route(TEN, None, Some(1)) && b == Route(TEN, None, Some(2))
    requires t == Inserted(Inserted(NO_ROUTES, a), b)
    ensures Valid(t) && Stored(t, TEN) == Some(a) && Stale(t, 2, TEN) && !IndexSound(t)
    ensures Stored(Removed(t, b.net), TEN) == None && Stale(Removed(t, b.net), 2, TEN)
  {
    InsertKeepsValid(NO_ROUTES, a);
    InsertStores(NO_ROUTES, a);
    var first := Inserted(NO_ROUTES, a);
    InsertKeepsValid(first, b);
    InsertStores(first, b);
    InsertStale(first, b, 2, TEN);
    RemoveStores(t, TEN);
    RemoveStale(t, TEN, 2, TEN);
  }

  /** And removing by the second interface takes the first one's route. */
  lemma StaleSweepExample(a: Route, b: Route, t: Routes, u: Routes)
    requires a == Route(TEN, None, Some(1)) && b == Route(TEN, None, Some(2))
    requires t == Inserted(Inserted(NO_ROUTES, a), b) && Swept(t, 2, u)
    ensures Has(t, a) && a.ifIndex != Some(2) && !Has(u, a)
  {
    TwoAddsExample(a, b, t);
  }

  // --------------------------------------------------------- one route a prefix

  /** The kernel's routes when each prefix has at most one. */
  type KernelRoutes = map<Net, Route>

  predicate Proper(k: KernelRoutes) {
    forall n :: n in k ==> k[n].net == n && k[n].ifIndex.Some?
  }

  /** The table stands for the kernel's routes, index and all. */
  ghost predicate Mirrors(t: Routes, k: KernelRoutes) {
    && NoEmpty(t.byOif) && t.byNet == (map n | n in k :: [k[n]])
    && forall oif: nat, n :: n in Bucket(t.byOif, oif) <==> n in k && k[n].ifIndex == Some(oif)
  }

  function KnownIn(k: KernelRoutes, net: Net): Option<Route> {
    if net in k then Some(k[net]) else None
  }

  ghost predicate Knows(t: Routes, k: KernelRoutes) {
    forall n :: Stored(t, n) == KnownIn(k, n)
  }

  lemma MirrorIsExact(t: Routes, k: KernelRoutes)
    requires Mirrors(t, k) && Proper(k)
    ensures Valid(t) && IndexSound(t) && Knows(t, k)
  {
    assert OneRouteEach(t);
    forall n, oif: nat ensures StoredOn(t, n, oif) <==> n in Bucket(t.byOif, oif) {
      StoredOnIff(t, n, oif);
    }
  }

  lemma ExactMirrors(t: Routes, k: KernelRoutes)
    requires Valid(t) && IndexSound(t) && Knows(t, k)
    ensures Mirrors(t, k)
  {
    forall n ensures (n in t.byNet <==> n in k) && (n in k ==> t.byNet[n] == [k[n]]) {
      assert Stored(t, n) == KnownIn(k, n);
    }
    assert t.byNet == map n | n in k :: [k[n]];
    forall oif: nat, n ensures n in Bucket(t.byOif, oif) <==> n in k && k[n].ifIndex == Some(oif) {
      StoredOnIff(t, n, oif);
      assert Stored(t, n) == KnownIn(k, n) && !Stale(t, oif, n);
    }
  }

  /** Which is to say: valid, sound, and knowing just those. */
  lemma MirrorsIff(t: Routes, k: KernelRoutes)
    requires Proper(k)
    ensures Mirrors(t, k) <==> Valid(t) && IndexSound(t) && Knows(t, k)
  {
    if Mirrors(t, k) {
      MirrorIsExact(t, k);
    }
    if Valid(t) && IndexSound(t) && Knows(t, k) {
      ExactMirrors(t, k);
    }
  }

  /** Only one table stands for given routes. */
  lemma MirrorUnique(t: Routes, u: Routes, k: KernelRoutes)
    requires Mirrors(t, k) && Mirrors(u, k)
    ensures t == u
  {
    forall oif: nat, n ensures n in Bucket(t.byOif, oif) <==> n in Bucket(u.byOif, oif) {
      assert n in Bucket(t.byOif, oif) <==> n in k && k[n].ifIndex == Some(oif);
      assert n in Bucket(u.byOif, oif) <==> n in k && k[n].ifIndex == Some(oif);
    }
    SameBuckets(t.byOif, u.byOif);
  }

  /** Additions of new prefixes, deletions and changes of known ones. */
  predicate Reportable(k: KernelRoutes, c: RouteChange) {
    c.route.ifIndex.Some? && (c.Add? <==> c.route.net !in k)
  }

  function KernelAfter(k: KernelRoutes, c: RouteChange): KernelRoutes {
    match c
    case Add(r) => k[r.net := r]
    case Delete(r) => k - {r.net}
    case Change(r) => k[r.net := r]
  }

  lemma ChangeKnows(t: Routes, k: KernelRoutes, c: RouteChange)
    requires Valid(t) && Knows(t, k) && Reportable(k, c)
    ensures Knows(Changed(t, c), KernelAfter(k, c))
  {
    forall n ensures Stored(Changed(t, c), n) == KnownIn(KernelAfter(k, c), n) {
      RunOne(t, c, n);
      assert Stored(t, n) == KnownIn(k, n);
    }
  }

  lemma ChangeStaysExact(t: Routes, k: KernelRoutes, c: RouteChange)
    requires Valid(t) && IndexSound(t) && Knows(t, k) && Reportable(k, c)
    ensures Valid(Changed(t, c)) && IndexSound(Changed(t, c)) && Knows(Changed(t, c), KernelAfter(k, c))
  {
    ChangeKnows(t, k, c);
    ChangeKeepsValid(t, c);
    assert c.Add? ==> Room(t, c.route) by {
      assert Stored(t, c.route.net) == KnownIn(k, c.route.net);
    }
    ChangeSoundIff(t, c);
  }

  lemma RunOne(t: Routes, c: RouteChange, n: Net)
    requires Valid(t) && c.route.ifIndex.Some?
    ensures Stored(Changed(t, c), n) == Known(Stored(t, n), [c], n)
  {
    RunStores(t, [c], n);
    assert [c][..0] == [];
    assert Run(t, [c][..0]) == t;
  }

  function KernelRun(k: KernelRoutes, changes: seq<RouteChange>): KernelRoutes {
    if changes == [] then k else KernelAfter(KernelRun(k, changes[..|changes| - 1]), changes[|changes| - 1])
  }

  predicate ReportableRun(k: KernelRoutes, changes: seq<RouteChange>) {
    changes == []
    || (ReportableRun(k, changes[..|changes| - 1])
        && Reportable(KernelRun(k, changes[..|changes| - 1]), changes[|changes| - 1]))
  }

  lemma {:induction false} RunStaysExact(t: Routes, k: KernelRoutes, changes: seq<RouteChange>)
    requires Valid(t) && IndexSound(t) && Knows(t, k) && AllNamed(changes) && ReportableRun(k, changes)
    ensures IndexSound(Run(t, changes)) && Knows(Run(t, changes), KernelRun(k, changes))
  {
    if changes != [] {
      var init := changes[..|changes| - 1];
      RunStaysExact(t, k, init);
      ChangeStaysExact(Run(t, init), KernelRun(k, init), changes[|changes| - 1]);
    }
  }

  /** Following such reports keeps the table equal to the kernel's routes. */
  lemma RunMirrors(t: Routes, k: KernelRoutes, changes: seq<RouteChange>)
    requires Valid(t) && Mirrors(t, k) && Proper(k) && AllNamed(changes) && ReportableRun(k, changes)
    ensures Mirrors(Run(t, changes), KernelRun(k, changes))
  {
    MirrorIsExact(t, k);
    RunStaysExact(t, k, changes);
    ExactMirrors(Run(t, changes), KernelRun(k, changes));
  }

  // ------------------------------------------------------- removing by interface

  /** What removing the prefixes `gone`, listed for `oif`, leaves. */
  ghost predicate Sweeping(t: Routes, oif: nat, gone: set<Net>, u: Routes) {
    && NoEmpty(u.byOif) && u.byNet == t.byNet - gone
    && forall o: nat, n :: n in Bucket(u.byOif, o) <==>
         o != oif && n in Bucket(t.byOif, o) && !(n in gone && StoredOn(t, n, o))
  }

  ghost predicate Swept(t: Routes, oif: nat, u: Routes) {
    Sweeping(t, oif, Bucket(t.byOif, oif), u)
  }

  lemma SweepKeepsValid(t: Routes, oif: nat, u: Routes)
    requires Valid(t) && Swept(t, oif, u)
    ensures Valid(u)
  {
    forall n, o: nat | StoredOn(u, n, o) ensures n in Bucket(u.byOif, o) {
      StoredOnIff(u, n, o);
      StoredOnIff(t, n, o);
    }
  }

  /** It takes the interface's routes and no others exactly when no stale
      listing points at a route of another interface. */
  lemma SweepTakesIff(t: Routes, oif: nat, u: Routes)
    requires Valid(t) && Swept(t, oif, u)
    ensures (forall r :: Has(u, r) <==> Has(t, r) && r.ifIndex != Some(oif)) <==>
            (forall n :: Stale(t, oif, n) ==> Stored(t, n).None?)
  {
    if forall n :: Stale(t, oif, n) ==> Stored(t, n).None? {
      forall r ensures Has(u, r) <==> Has(t, r) && r.ifIndex != Some(oif) {
        StoredOnIff(t, r.net, oif);
        assert Stale(t, oif, r.net) ==> Stored(t, r.net).None?;
      }
    } else {
      var n :| Stale(t, oif, n) && Stored(t, n).Some?;
      var r := Stored(t, n).value;
      StoredOnIff(t, n, oif);
      assert Has(t, r) && r.ifIndex != Some(oif) && !Has(u, r);
    }
  }

  /** With one route a prefix in the kernel that is so, and the table goes on
      standing for what remains. */
  lemma SweptIsAll(t: Routes, k: KernelRoutes, oif: nat, u: Routes)
    requires Mirrors(t, k) && Proper(k) && Swept(t, oif, u)
    ensures Mirrors(u, map n | n in k && k[n].ifIndex != Some(oif) :: k[n])
  {
    MirrorIsExact(t, k);
    SweepKeepsValid(t, oif, u);
    var l := map n | n in k && k[n].ifIndex != Some(oif) :: k[n];
    forall n, o: nat ensures StoredOn(t, n, o) <==> n in k && k[n].ifIndex == Some(o) {
      StoredOnIff(t, n, o);
      assert Stored(t, n) == KnownIn(k, n);
    }
    forall n ensures Stored(u, n) == KnownIn(l, n) {
      assert n in Bucket(t.byOif, oif) <==> n in k && k[n].ifIndex == Some(oif);
    }
    forall o: nat, n ensures !Stale(u, o, n) {
      StoredOnIff(u, n, o);
      assert !Stale(t, o, n);
    }
    ExactMirrors(u, l);
  }

  lemma SweepOne(t: Routes, oif: nat, gone: set<Net>, u: Routes, net: Net)
    requires Valid(t) && Sweeping(t, oif, gone, u) && net in Bucket(t.byOif, oif) && net !in gone
    ensures OneRouteEach(u) && Sweeping(t, oif, gone + {net}, Removed(u, net))
  {
    var v := Removed(u, net);
    assert RoutesTo(u, net) == RoutesTo(t, net);
    assert v.byNet == t.byNet - (gone + {net}) by {
      assert net in t.byNet ==> t.byNet[net] == [t.byNet[net][0]];
    }
    if net in t.byNet {
      var o := t.byNet[net][0].ifIndex.value;
      CutIn(u.byOif, o, net);
      forall p: nat ensures StoredOn(t, net, p) <==> p == o {
        StoredOnIff(t, net, p);
      }
    }
  }

  // ------------------------------------------------------- finding by interface

  function FirstOn(bucket: seq<Route>, oif: nat): Option<Route> {
    if bucket == [] then None
    else if bucket[0].ifIndex == Some(oif) then Some(bucket[0])
    else FirstOn(bucket[1..], oif)
  }

  /** The first route on the interface of each prefix in turn; prefixes without
      one are skipped. */
  function FoundOn(t: Routes, oif: nat, order: seq<Net>): seq<Route> {
    if order == [] then []
    else
      var found := FirstOn(RoutesTo(t, order[|order| - 1]), oif);
      FoundOn(t, oif, order[..|order| - 1]) + if found.Some? then [found.value] else []
  }

  /** The members of a set, each once. */
  ghost predicate InSomeOrder<T(!new)>(s: set<T>, order: seq<T>) {
    NoDuplicates(order) && forall x :: x in order <==> x in s
  }

  lemma FirstOfOne(bucket: seq<Route>, oif: nat)
    requires |bucket| == 1
    ensures FirstOn(bucket, oif) == if bucket[0].ifIndex == Some(oif) then Some(bucket[0]) else None
  {
    assert bucket[1..] == [];
  }

  lemma {:induction false} FoundIff(t: Routes, oif: nat, order: seq<Net>, r: Route)
    requires OneRouteEach(t)
    ensures r in FoundOn(t, oif, order) <==> r.net in order && Has(t, r) && r.ifIndex == Some(oif)
  {
    if order != [] {
      var last := order[|order| - 1];
      FoundIff(t, oif, order[..|order| - 1], r);
      assert order == order[..|order| - 1] + [last];
      if last in t.byNet {
        FirstOfOne(t.byNet[last], oif);
      }
    }
  }

  lemma {:induction false} FoundApart(t: Routes, oif: nat, order: seq<Net>)
    requires OneRouteEach(t) && NoDuplicates(order)
    ensures NoDuplicates(FoundOn(t, oif, order))
  {
    if order != [] {
      var (init, last) := (order[..|order| - 1], order[|order| - 1]);
      FoundApart(t, oif, init);
      var found := FirstOn(RoutesTo(t, last), oif);
      if found.Some? {
        FoundIff(t, oif, init, found.value);
        FirstOfOne(t.byNet[last], oif);
        assert last !in init;
      }
    }
  }

  /** The routes stored on an interface, each once. */
  ghost predicate AllOn(t: Routes, oif: nat, routes: seq<Route>) {
    NoDuplicates(routes) && forall r :: r in routes <==> Has(t, r) && r.ifIndex == Some(oif)
  }

  /** Stale listings or not, what is found are all the stored routes. */
  lemma FoundAreAll(t: Routes, oif: nat, order: seq<Net>)
    requires Valid(t) && InSomeOrder(Bucket(t.byOif, oif), order)
    ensures AllOn(t, oif, FoundOn(t, oif, order))
  {
    FoundApart(t, oif, order);
    forall r ensures r in FoundOn(t, oif, order) <==> Has(t, r) && r.ifIndex == Some(oif) {
      FoundIff(t, oif, order, r);
      if Has(t, r) && r.ifIndex == Some(oif) {
        assert StoredOn(t, r.net, oif);
      }
    }
  }

  // ------------------------------------------------------------------- the class

  class Table {
    var byNet: map<Net, seq<Route>>
    var byOif: map<nat, set<Net>>

    ghost function View(): Routes
      reads this
    {
      Routes(byNet, byOif)
    }

    constructor ()
      ensures View() == NO_ROUTES && Valid(View()) && Mirrors(View(), map[])
    {
      byNet, byOif := map[], map[];
    }

    /** Every route must name its interface. The first of a prefix is kept. */
    method Insert(r: Route)
      requires Valid(View()) && r.ifIndex.Some?
      modifies this
      ensures View() == Inserted(old(View()), r) && Valid(View())
      ensures Stored(View(), r.net) == Some(old(Stored(View(), r.net)).GetOr(r))
      ensures old(IndexSound(View())) ==> (IndexSound(View()) <==> old(Room(View(), r)))
    {
      ghost var t := View();
      InsertKeepsValid(t, r);
      InsertStores(t, r);
      byNet := byNet[r.net := Kept(if r.net in byNet then byNet[r.net] else [], r)];
      byOif := Enlisted(byOif, r.ifIndex.value, r.net);
      if IndexSound(t) {
        InsertSoundIff(t, r);
      }
    }

    method Remove(net: Net) returns (removed: Option<Route>)
      requires OneRouteEach(View())
      modifies this
      ensures removed == old(Stored(View(), net))
      ensures View() == Removed(old(View()), net)
      ensures old(Valid(View())) ==> Valid(View())
    {
      ghost var t := View();
      if Valid(t) {
        RemoveKeepsValid(t, net);
      }
      if net !in byNet || byNet[net] == [] {
        return None;
      }
      var first := byNet[net][0];
      var rest := Dropped(byNet[net], first);
      byOif := Cut(byOif, first.ifIndex.value, net);
      byNet := if rest == [] then byNet - {net} else byNet[net := rest];
      removed := Some(first);
    }

    method RemoveDefaultRoute(v6: bool) returns (removed: Option<Route>)
      requires Valid(View())
      modifies this
      ensures View() == Removed(old(View()), DefaultNet(v6)) && Valid(View())
      ensures removed == old(Stored(View(), DefaultNet(v6)))
    {
      removed := Remove(DefaultNet(v6));
    }

    method RemoveByOif(oif: nat) returns (removed: Option<set<Net>>)
      requires Valid(View())
      modifies this
      ensures removed == if oif in old(byOif) then Some(old(byOif)[oif]) else None
      ensures Swept(old(View()), oif, View()) && Valid(View())
    {
      ghost var t := View();
      if oif !in byOif {
        SweepKeepsValid(t, oif, t);
        return None;
      }
      var addrs := byOif[oif];
      byOif := byOif - {oif};
      Sweep(t, oif, addrs);
      SweepKeepsValid(t, oif, View());
      removed := Some(addrs);
    }

    method Sweep(ghost t: Routes, ghost oif: nat, addrs: set<Net>)
      requires Valid(t) && Sweeping(t, oif, {}, View()) && addrs == Bucket(t.byOif, oif)
      modifies this
      ensures Swept(t, oif, View())
    {
      var left := addrs;
      ghost var gone: set<Net> := {};
      while left != {}
        invariant gone !! left && gone + left == addrs
        invariant Sweeping(t, oif, gone, View())
        decreases |left|
      {
        var net :| net in left;
        RemoveNext(t, oif, gone, net);
        gone, left := gone + {net}, left - {net};
      }
    }

    method RemoveNext(ghost t: Routes, ghost oif: nat, ghost gone: set<Net>, net: Net)
      requires Valid(t) && Sweeping(t, oif, gone, View()) && net in Bucket(t.byOif, oif) && net !in gone
      modifies this
      ensures Sweeping(t, oif, gone + {net}, View())
    {
      SweepOne(t, oif, gone, View(), net);
      var _ := Remove(net);
    }

    function Find(net: Net): (r: Option<seq<Route>>)
      reads this
      ensures OneRouteEach(View()) ==> (r.None? <==> Stored(View(), net).None?)
      ensures OneRouteEach(View()) && r.Some? ==> r.value == [Stored(View(), net).value]
    {
      if net in byNet then Some(byNet[net]) else None
    }

    /** No prefix has an empty set of routes, so there is none just when no
        default route is stored. */
    function FindDefault(v6: bool): (r: Option<seq<Route>>)
      reads this
      ensures OneRouteEach(View()) ==> (r.None? <==> forall x :: Has(View(), x) ==> x.net != DefaultNet(v6))
    {
      assert OneRouteEach(View()) && DefaultNet(v6) in byNet ==> Has(View(), byNet[DefaultNet(v6)][0]);
      Find(DefaultNet(v6))
    }

    method FindByOif(oif: nat) returns (found: Option<seq<Route>>, ghost order: seq<Net>)
      ensures found.None? <==> oif !in byOif
      ensures found.Some? ==> InSomeOrder(byOif[oif], order) && found.value == FoundOn(View(), oif, order)
      ensures Valid(View()) ==> AllOn(View(), oif, if found.Some? then found.value else [])
    {
      order := [];
      if oif !in byOif {
        if Valid(View()) {
          FoundAreAll(View(), oif, []);
        }
        return None, order;
      }
      var routes: seq<Route> := [];
      var left := byOif[oif];
      while left != {}
        invariant NoDuplicates(order) && forall n :: n in order <==> n in byOif[oif] - left
        invariant left <= byOif[oif] && routes == FoundOn(View(), oif, order)
        decreases |left|
      {
        var net :| net in left;
        var first := FirstOn(if net in byNet then byNet[net] else [], oif);
        if first.Some? {
          routes := routes + [first.value];
        }
        assert net !in order && (order + [net])[..|order|] == order;
        order, left := order + [net], left - {net};
      }
      found := Some(routes);
      if Valid(View()) {
        FoundAreAll(View(), oif, order);
      }
    }

    method Follow(c: RouteChange)
      requires Valid(View()) && c.route.ifIndex.Some?
      modifies this
      ensures View() == Changed(old(View()), c) && Valid(View())
      ensures old(IndexSound(View())) ==> (IndexSound(View()) <==> (c.Add? ==> old(Room(View(), c.route))))
    {
      ghost var t := View();
      if IndexSound(t) {
        ChangeSoundIff(t, c);
      }
      match c {
        case Add(r) => Insert(r);
        case Delete(r) => var _ := Remove(r.net);
        case Change(r) =>
          var _ := Remove(r.net);
          Insert(r);
      }
    }
  }
}
