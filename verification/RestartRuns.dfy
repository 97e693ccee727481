/** Whole runs of the daemon over any number of wireless interfaces: clients add
    and remove profiles and connect with them, interfaces restart, and what a
    restart would rebuild is at all times what is in memory
    (network-daemon/src/daemon/client.rs, network-daemon/src/daemon/service.rs). */
module RestartRuns {
  import opened Prelude
  import opened KnownNetworks
  import opened NetworkStore
  import opened PersistedProfiles
  import opened Restart
  import SecurityName
  import WpaSupplicant

  type Security = SecurityName.Security

  const FRESH := State(map[], Supplicant({}, {}, false))

  datatype World = World(memory: map<Mac, State>, disk: Disk)

  function Recall(memory: map<Mac, State>, mac: Mac): State {
    if mac in memory then memory[mac] else FRESH
  }

  function At(w: World, mac: Mac): State {
    Recall(w.memory, mac)
  }

  datatype WorldEvent = Request(mac: Mac, event: Event) | Reload(mac: Mac)

  function DiskAfter(d: Disk, mac: Mac, e: Event): Disk {
    match e
    case Add(a) => PersistedAdd(d, Some(mac), a)
    case Remove(ssid, bssid, security) => PersistedRemove(d, Some(mac), ssid, bssid, security)
    case Connect(_, _, _) => d
  }

  /** A client request: the disk is written first, then the backend acts. */
  ghost predicate Requested(w: World, mac: Mac, e: Event, v: World) {
    && mac in v.memory && v.memory == w.memory[mac := v.memory[mac]]
    && Step(At(w, mac), e, v.memory[mac])
    && v.disk == DiskAfter(w.disk, mac, e)
  }

  /** An interface starts again from what is on disk. */
  ghost predicate Reloaded(w: World, mac: Mac, v: World) {
    exists cs, ks ::
      && Lists(cs, w.disk.rows)
      && ListsProfiles(ks, Rebuilt(w.disk.networks, cs, Some(mac)))
      && v == w.(memory := w.memory[mac := FRESH.(profiles := WpaSupplicant.Loaded(ks))])
  }

  /** Additions that pass validation, and removals that name the
      authentication. */
  predicate Careful(w: World, e: WorldEvent) {
    match e
    case Request(mac, Add(a)) => Validates(Merged(At(w, mac).profiles, a))
    case Request(_, Remove(_, _, security)) => security.Some?
    case _ => true
  }

  ghost predicate WorldStep(w: World, e: WorldEvent, v: World) {
    match e
    case Request(mac, event) => Requested(w, mac, event, v)
    case Reload(mac) => Reloaded(w, mac, v)
  }

  ghost predicate CarefulRun(worlds: seq<World>, events: seq<WorldEvent>) {
    && |worlds| == |events| + 1
    && forall i :: 0 <= i < |events| ==> Careful(worlds[i], events[i]) && WorldStep(worlds[i], events[i], worlds[i + 1])
  }

  // ------------------------------------------------------------------ the promise

  /** For every interface, whatever order the rows are read in, rebuilding gives
      the profiles in memory, except for supplicant ids and connection state. */
  ghost predicate Faithful(w: World) {
    forall mac, cs :: Lists(cs, w.disk.rows) ==>
      Rebuilt(w.disk.networks, cs, Some(mac)) == ErasedProfiles(At(w, mac).profiles)
  }

  predicate AllValidate(profiles: Profiles) {
    forall slot :: slot in profiles ==> Validates(profiles[slot])
  }

  /** The image as the memory of the interfaces shows it. */
  ghost predicate Shows(memory: map<Mac, State>, image: Image) {
    && (forall o :: o in image ==> o.mac.Some?)
    && (forall mac :: ShowsAt(Recall(memory, mac).profiles, image, mac))
  }

  ghost predicate ShowsAt(profiles: Profiles, image: Image, mac: Mac) {
    && ErasedProfiles(profiles) == Scope(image, Some(mac))
    && OwnSlots(profiles) && AllValidate(profiles)
  }

  /** The disk encodes the memory of all interfaces. */
  ghost predicate Agree(w: World, image: Image) {
    Holds(w.disk, image) && Shows(w.memory, image)
  }

  lemma SourceIsOwn(image: Image, mac: Mac)
    requires forall o :: o in image ==> o.mac.Some?
    ensures Scope(image, Source(image, Some(mac))) == Scope(image, Some(mac))
  {
  }

  lemma RebuildsMemory(w: World, image: Image, mac: Mac, cs: seq<Credential>)
    requires Agree(w, image) && Lists(cs, w.disk.rows)
    ensures Rebuilt(w.disk.networks, cs, Some(mac)) == Scope(image, Some(mac)) == ErasedProfiles(At(w, mac).profiles)
  {
    RebuiltIsScope(w.disk, image, cs, Some(mac));
    SourceIsOwn(image, mac);
    assert ShowsAt(Recall(w.memory, mac).profiles, image, mac);
  }

  lemma AgreeIsFaithful(w: World, image: Image)
    requires Agree(w, image)
    ensures Faithful(w)
  {
    forall mac, cs | Lists(cs, w.disk.rows)
      ensures Rebuilt(w.disk.networks, cs, Some(mac)) == ErasedProfiles(At(w, mac).profiles)
    {
      RebuildsMemory(w, image, mac, cs);
    }
  }

  /** Changing one interface's memory and the image together. */
  lemma ShowsAfter(memory: map<Mac, State>, image: Image, mac: Mac, t: State, after: Image)
    requires Shows(memory, image)
    requires forall o :: o in after ==> o.mac.Some?
    requires ShowsAt(t.profiles, after, mac)
    requires forall m :: m != mac ==> Scope(after, Some(m)) == Scope(image, Some(m))
    ensures Shows(memory[mac := t], after)
  {
    var next := memory[mac := t];
    forall m ensures ShowsAt(Recall(next, m).profiles, after, m) {
      if m != mac {
        assert ShowsAt(Recall(memory, m).profiles, image, m);
        assert Recall(next, m) == Recall(memory, m);
      }
    }
  }

  // --------------------------------------------------------------------- additions

  lemma ScopeAfterPut(image: Image, o: Owner, k: Known, mac: Option<Mac>)
    ensures Scope(image[o := k], mac) == if o.mac == mac then Scope(image, mac)[o.slot := k] else Scope(image, mac)
  {
  }

  /** Merging with a profile in memory or with its saved form is the same. */
  lemma MergedErased(profiles: Profiles, a: AddArgs)
    ensures Merged(ErasedProfiles(profiles), a) == Merged(profiles, a) == Erased(Merged(profiles, a))
    ensures ErasedProfiles(profiles[a.slot := Merged(profiles, a)])
            == ErasedProfiles(profiles)[a.slot := Merged(profiles, a)]
  {
  }

  lemma AddShows(memory: map<Mac, State>, image: Image, mac: Mac, a: AddArgs, t: State)
    requires Shows(memory, image)
    requires AddStep(Recall(memory, mac), a, true, t)
    ensures Shows(memory[mac := t], Added(image, mac, a))
  {
    var (s, o) := (Recall(memory, mac), Owner(Some(mac), a.slot));
    var k := Merged(s.profiles, a);
    assert ShowsAt(s.profiles, image, mac);
    MergedErased(s.profiles, a);
    assert Added(image, mac, a) == image[o := k];
    ScopeAfterPut(image, o, k, Some(mac));
    forall m | m != mac ensures Scope(Added(image, mac, a), Some(m)) == Scope(image, Some(m)) {
      ScopeAfterPut(image, o, k, Some(m));
    }
    ShowsAfter(memory, image, mac, t, Added(image, mac, a));
  }

  lemma AddAgrees(w: World, image: Image, mac: Mac, a: AddArgs, v: World)
    requires Agree(w, image)
    requires Requested(w, mac, Add(a), v) && Validates(Merged(At(w, mac).profiles, a))
    ensures Agree(v, Added(image, mac, a))
  {
    AddHolds(w.disk, image, mac, a);
    AddShows(w.memory, image, mac, a, v.memory[mac]);
  }

  lemma {:induction false} SomeOrder(keys: set<RowKey>) returns (order: seq<RowKey>)
    ensures forall key :: key in keys <==> key in order
    ensures forall i, j :: 0 <= i < j < |order| ==> order[i] != order[j]
  {
    if key :| key in keys {
      var rest := SomeOrder(keys - {key});
      order := rest + [key];
    } else {
      order := [];
    }
  }

  lemma ListingExists(rows: map<RowKey, Row>) returns (cs: seq<Credential>)
    ensures Lists(cs, rows)
  {
    var order := SomeOrder(rows.Keys);
    cs := seq(|order|, i requires 0 <= i < |order| => CredentialOf(order[i], rows[order[i]]));
    forall key | key in rows ensures exists i :: 0 <= i < |cs| && KeyOf(cs[i]) == key {
      var i :| 0 <= i < |order| && order[i] == key;
      assert KeyOf(cs[i]) == key;
    }
  }

  /** An addition that fails validation is on disk all the same. */
  lemma FailedAddOnDisk(w: World, image: Image, mac: Mac, a: AddArgs, v: World)
    requires Agree(w, image) && Requested(w, mac, Add(a), v)
    requires !Validates(Merged(At(w, mac).profiles, a))
    ensures !Faithful(v)
  {
    var (s, o) := (At(w, mac), Owner(Some(mac), a.slot));
    var k := Merged(s.profiles, a);
    assert ShowsAt(Recall(w.memory, mac).profiles, image, mac);
    MergedErased(s.profiles, a);
    AddHolds(w.disk, image, mac, a);
    var cs := ListingExists(v.disk.rows);
    FailedAddDiffers(v.disk, image, mac, a, cs, s.profiles);
    assert At(v, mac) == s;
  }

  lemma FailedAddDiffers(d: Disk, image: Image, mac: Mac, a: AddArgs, cs: seq<Credential>, profiles: Profiles)
    requires Holds(d, Added(image, mac, a)) && Lists(cs, d.rows)
    requires AllValidate(profiles)
    requires !Validates(Added(image, mac, a)[Owner(Some(mac), a.slot)])
    ensures Rebuilt(d.networks, cs, Some(mac)) != ErasedProfiles(profiles)
  {
    var (o, after) := (Owner(Some(mac), a.slot), Added(image, mac, a));
    RebuiltIsScope(d, after, cs, Some(mac));
    assert o in after && HasOwn(after, Some(mac));
    var scope := Scope(after, Some(mac));
    assert a.slot in scope && scope[a.slot] == after[o];
    if a.slot in profiles {
      assert Validates(Erased(profiles[a.slot]));
    }
  }

  /** An addition keeps the promise exactly when it passes validation: one that
      fails is nevertheless on disk, and comes up at the next restart. */
  lemma AddFaithfulIff(w: World, image: Image, mac: Mac, a: AddArgs, v: World)
    requires Agree(w, image) && Requested(w, mac, Add(a), v)
    ensures Faithful(v) <==> Validates(Merged(At(w, mac).profiles, a))
  {
    if Validates(Merged(At(w, mac).profiles, a)) {
      AddAgrees(w, image, mac, a, v);
      AgreeIsFaithful(v, Added(image, mac, a));
    } else {
      FailedAddOnDisk(w, image, mac, a, v);
    }
  }

  // ---------------------------------------------------------------------- removals

  predicate Hit(slot: Slot, ssid: string, bssid: Option<Mac>, security: Option<Security>) {
    slot.ssid == ssid && slot.bssid == bssid && (security.Some? ==> slot.security == security.value)
  }

  predicate AtMostOneHit(profiles: Profiles, ssid: string, bssid: Option<Mac>) {
    forall x, y ::
      x in profiles && y in profiles && Hit(x, ssid, bssid, None) && Hit(y, ssid, bssid, None) ==> x == y
  }

  function Unhit(profiles: Profiles, ssid: string, bssid: Option<Mac>, security: Option<Security>): Profiles {
    map slot | slot in profiles && !Hit(slot, ssid, bssid, security) :: profiles[slot]
  }

  lemma ScopeAfterRemove(image: Image, mac: Mac, ssid: string, bssid: Option<Mac>, security: Option<Security>, m: Mac)
    ensures Scope(Removed(image, mac, ssid, bssid, security), Some(m))
            == if m == mac then Unhit(Scope(image, Some(m)), ssid, bssid, security) else Scope(image, Some(m))
  {
  }

  lemma RemoveShows(
    memory: map<Mac, State>, image: Image, mac: Mac, ssid: string, bssid: Option<Mac>, security: Option<Security>,
    t: State)
    requires Shows(memory, image)
    requires t.profiles == Unhit(Recall(memory, mac).profiles, ssid, bssid, security)
    ensures Shows(memory[mac := t], Removed(image, mac, ssid, bssid, security))
  {
    var (before, after) := (Recall(memory, mac).profiles, Removed(image, mac, ssid, bssid, security));
    assert ShowsAt(before, image, mac);
    UnhitShows(before, image, mac, ssid, bssid, security);
    forall m | m != mac ensures Scope(after, Some(m)) == Scope(image, Some(m)) {
      ScopeAfterRemove(image, mac, ssid, bssid, security, m);
    }
    ShowsAfter(memory, image, mac, t, after);
  }

  lemma UnhitShows(
    profiles: Profiles, image: Image, mac: Mac, ssid: string, bssid: Option<Mac>, security: Option<Security>)
    requires ShowsAt(profiles, image, mac)
    ensures ShowsAt(Unhit(profiles, ssid, bssid, security), Removed(image, mac, ssid, bssid, security), mac)
  {
    ScopeAfterRemove(image, mac, ssid, bssid, security, mac);
    var rest := Unhit(profiles, ssid, bssid, security);
    assert ErasedProfiles(rest) == Unhit(ErasedProfiles(profiles), ssid, bssid, security);
  }

  lemma RemoveAgrees(
    w: World, image: Image, mac: Mac, ssid: string, bssid: Option<Mac>, security: Option<Security>, v: World)
    requires Agree(w, image) && Requested(w, mac, Remove(ssid, bssid, security), v)
    requires v.memory[mac].profiles == Unhit(At(w, mac).profiles, ssid, bssid, security)
    ensures Agree(v, Removed(image, mac, ssid, bssid, security))
  {
    RemoveHolds(w.disk, image, mac, ssid, bssid, security);
    RemoveShows(w.memory, image, mac, ssid, bssid, security, v.memory[mac]);
  }

  /** What memory loses when the removal names the authentication, or when it
      leaves it open and at most one profile matches. */
  lemma RemoveUnhits(s: State, ssid: string, bssid: Option<Mac>, security: Option<Security>, t: State)
    requires Step(s, Remove(ssid, bssid, security), t)
    requires security.Some? || AtMostOneHit(s.profiles, ssid, bssid)
    ensures t.profiles == Unhit(s.profiles, ssid, bssid, security)
  {
  }

  lemma SeveralHitsOnDisk(w: World, image: Image, mac: Mac, ssid: string, bssid: Option<Mac>, v: World)
    requires Agree(w, image) && Requested(w, mac, Remove(ssid, bssid, None), v)
    requires !AtMostOneHit(At(w, mac).profiles, ssid, bssid)
    ensures !Faithful(v)
  {
    var (s, t) := (At(w, mac), At(v, mac));
    var kept := KeptHit(s, ssid, bssid, t);
    RemoveHolds(w.disk, image, mac, ssid, bssid, None);
    var cs := ListingExists(v.disk.rows);
    var after := Removed(image, mac, ssid, bssid, None);
    RebuiltIsScope(v.disk, after, cs, Some(mac));
    assert kept !in Scope(after, Source(after, Some(mac)));
    assert Rebuilt(v.disk.networks, cs, Some(mac)) != ErasedProfiles(t.profiles);
  }

  lemma KeptHit(s: State, ssid: string, bssid: Option<Mac>, t: State) returns (kept: Slot)
    requires Step(s, Remove(ssid, bssid, None), t)
    requires !AtMostOneHit(s.profiles, ssid, bssid)
    ensures kept in t.profiles && Hit(kept, ssid, bssid, None)
  {
    var x, y :|
      x in s.profiles && y in s.profiles && Hit(x, ssid, bssid, None) && Hit(y, ssid, bssid, None) && x != y;
    kept := if x in t.profiles then x else y;
  }

  /** A removal that leaves the authentication open drops one profile from
      memory but every matching one from disk, so it keeps the promise exactly
      when at most one profile matches. */
  lemma RemoveAnyFaithfulIff(w: World, image: Image, mac: Mac, ssid: string, bssid: Option<Mac>, v: World)
    requires Agree(w, image) && Requested(w, mac, Remove(ssid, bssid, None), v)
    ensures Faithful(v) <==> AtMostOneHit(At(w, mac).profiles, ssid, bssid)
  {
    if AtMostOneHit(At(w, mac).profiles, ssid, bssid) {
      RemoveUnhits(At(w, mac), ssid, bssid, None, v.memory[mac]);
      RemoveAgrees(w, image, mac, ssid, bssid, None, v);
      AgreeIsFaithful(v, Removed(image, mac, ssid, bssid, None));
    } else {
      SeveralHitsOnDisk(w, image, mac, ssid, bssid, v);
    }
  }

  // -------------------------------------------------------- connecting and restarting

  lemma ConnectErased(s: State, e: Event, t: State)
    requires e.Connect? && Step(s, e, t) && OwnSlots(s.profiles) && AllValidate(s.profiles)
    ensures ErasedProfiles(t.profiles) == ErasedProfiles(s.profiles)
    ensures OwnSlots(t.profiles) && AllValidate(t.profiles)
  {
  }

  lemma ConnectAgrees(w: World, image: Image, mac: Mac, e: Event, v: World)
    requires Agree(w, image) && e.Connect? && Requested(w, mac, e, v)
    ensures Agree(v, image)
  {
    assert ShowsAt(Recall(w.memory, mac).profiles, image, mac);
    ConnectErased(At(w, mac), e, v.memory[mac]);
    ShowsAfter(w.memory, image, mac, v.memory[mac], image);
  }

  /** Loading a listing of a table gives back the table. */
  lemma {:induction false} LoadedListing(ks: seq<Known>, profiles: Profiles)
    requires forall i :: 0 <= i < |ks| ==> SlotOf(ks[i]) in profiles && profiles[SlotOf(ks[i])] == ks[i]
    ensures forall slot :: slot in WpaSupplicant.Loaded(ks) <==> exists i :: 0 <= i < |ks| && SlotOf(ks[i]) == slot
    ensures forall slot :: slot in WpaSupplicant.Loaded(ks) ==>
              slot in profiles && WpaSupplicant.Loaded(ks)[slot] == profiles[slot]
  {
    if ks != [] {
      var init := ks[..|ks| - 1];
      LoadedListing(init, profiles);
      forall slot
        ensures slot in WpaSupplicant.Loaded(ks) <==> exists i :: 0 <= i < |ks| && SlotOf(ks[i]) == slot
      {
        if slot in WpaSupplicant.Loaded(init) {
          var i :| 0 <= i < |init| && SlotOf(init[i]) == slot;
          assert SlotOf(ks[i]) == slot;
        }
        if i :| 0 <= i < |ks| && SlotOf(ks[i]) == slot {
          assert i < |init| ==> SlotOf(init[i]) == slot;
        }
        assert SlotOf(ks[|ks| - 1]) == SlotOf(ks[|ks| - 1]);
      }
    }
  }

  lemma ReloadAgrees(w: World, image: Image, mac: Mac, v: World)
    requires Agree(w, image) && Reloaded(w, mac, v)
    ensures Agree(v, image)
    ensures At(v, mac).profiles == ErasedProfiles(At(w, mac).profiles)
  {
    var cs, ks :|
      && Lists(cs, w.disk.rows)
      && ListsProfiles(ks, Rebuilt(w.disk.networks, cs, Some(mac)))
      && v == w.(memory := w.memory[mac := FRESH.(profiles := WpaSupplicant.Loaded(ks))]);
    RebuildsMemory(w, image, mac, cs);
    var before := At(w, mac).profiles;
    assert ShowsAt(before, image, mac);
    ListingLoads(ks, ErasedProfiles(before));
    ErasedTwice(before);
    ShowsAfter(w.memory, image, mac, v.memory[mac], image);
  }

  lemma ListingLoads(ks: seq<Known>, profiles: Profiles)
    requires ListsProfiles(ks, profiles)
    ensures WpaSupplicant.Loaded(ks) == profiles
  {
    LoadedListing(ks, profiles);
  }

  lemma ErasedTwice(profiles: Profiles)
    ensures ErasedProfiles(ErasedProfiles(profiles)) == ErasedProfiles(profiles)
    ensures OwnSlots(profiles) ==> OwnSlots(ErasedProfiles(profiles))
    ensures AllValidate(profiles) ==> AllValidate(ErasedProfiles(profiles))
  {
  }

  // ----------------------------------------------------------------------- whole runs

  function ImageAfter(image: Image, e: WorldEvent): Image {
    match e
    case Request(mac, Add(a)) => Added(image, mac, a)
    case Request(mac, Remove(ssid, bssid, security)) => Removed(image, mac, ssid, bssid, security)
    case _ => image
  }

  lemma StepAgrees(w: World, image: Image, e: WorldEvent, v: World)
    requires Agree(w, image) && Careful(w, e) && WorldStep(w, e, v)
    ensures Agree(v, ImageAfter(image, e))
  {
    match e
    case Request(mac, Add(a)) => AddAgrees(w, image, mac, a, v);
    case Request(mac, Remove(ssid, bssid, security)) => {
      RemoveUnhits(At(w, mac), ssid, bssid, security, v.memory[mac]);
      RemoveAgrees(w, image, mac, ssid, bssid, security, v);
    }
    case Request(mac, Connect(ssid, bssid, security)) => ConnectAgrees(w, image, mac, e.event, v);
    case Reload(mac) => ReloadAgrees(w, image, mac, v);
  }

  /** At every point of a run some image is both on disk and in memory. */
  lemma {:induction false} RunAgrees(worlds: seq<World>, events: seq<WorldEvent>, start: Image, i: nat)
    returns (image: Image)
    requires CarefulRun(worlds, events) && Agree(worlds[0], start)
    requires i < |worlds|
    ensures Agree(worlds[i], image)
  {
    if i == 0 {
      image := start;
    } else {
      image := RunAgrees(worlds, events, start, i - 1);
      StepAgrees(worlds[i - 1], image, events[i - 1], worlds[i]);
      image := ImageAfter(image, events[i - 1]);
    }
  }

  /** From an empty store, through any run over any interfaces, with restarts
      anywhere, every restart rebuilds exactly the profiles in memory. */
  lemma RestartRefinement(worlds: seq<World>, events: seq<WorldEvent>)
    requires CarefulRun(worlds, events)
    requires worlds[0] == World(map[], Disk([], map[]))
    ensures forall i :: 0 <= i < |worlds| ==> Faithful(worlds[i])
  {
    assert Agree(worlds[0], map[]);
    forall i | 0 <= i < |worlds| ensures Faithful(worlds[i]) {
      var image := RunAgrees(worlds, events, map[], i);
      AgreeIsFaithful(worlds[i], image);
    }
  }
}
