/** Inputs on which a request, a removal elsewhere or the death of a backend
    parts memory from disk (network-daemon/src/daemon/client.rs,
    network-daemon/src/wifi/manager.rs). */
module RestartExamples {
  import opened Prelude
  import opened KnownNetworks
  import opened NetworkStore
  import opened PersistedProfiles
  import opened Restart
  import opened RestartRuns
  import opened RestartLimits
  import SecurityName

  const NOTHING := World(map[], Disk([], map[]))

  lemma NothingAgrees()
    ensures Agree(NOTHING, map[])
  {
  }

  /** A password of five letters is refused and on disk all the same. */
  lemma RefusedAddExample(mac: Mac, a: AddArgs, v: World)
    requires a == AddArgs(Slot("cafe", SecurityName.Psk, None), Some("short"), None, false, true)
    requires v == World(map[mac := FRESH], PersistedAdd(NOTHING.disk, Some(mac), a))
    ensures Requested(NOTHING, mac, Add(a), v) && Faithful(NOTHING) && !Faithful(v)
  {
    NothingAgrees();
    AgreeIsFaithful(NOTHING, map[]);
    assert AddStep(FRESH, a, false, FRESH);
    AddFaithfulIff(NOTHING, map[], mac, a, v);
  }

  lemma AddRequested(w: World, mac: Mac, a: AddArgs) returns (v: World)
    requires a.slot !in At(w, mac).profiles && Validates(Merged(At(w, mac).profiles, a))
    ensures Requested(w, mac, Add(a), v)
    ensures At(v, mac).profiles == At(w, mac).profiles[a.slot := Merged(At(w, mac).profiles, a)]
  {
    var s := At(w, mac);
    var t := s.(profiles := s.profiles[a.slot := Merged(s.profiles, a)]);
    v := World(w.memory[mac := t], PersistedAdd(w.disk, Some(mac), a));
    assert AddStep(s, a, true, t);
  }

  lemma RemoveRequested(v: World, mac: Mac, a: Slot) returns (w: World)
    requires a in At(v, mac).profiles && At(v, mac).profiles[a].id == None
    ensures Requested(v, mac, Remove(a.ssid, a.bssid, None), w)
  {
    var s := At(v, mac);
    var t := s.(profiles := s.profiles - {a});
    w := World(v.memory[mac := t], PersistedRemove(v.disk, Some(mac), a.ssid, a.bssid, None));
    assert RemoveStep(s, a, true, t);
  }

  /** A profile for a new slot, added without trouble. */
  lemma NewProfile(w: World, image: Image, mac: Mac, a: AddArgs) returns (v: World, after: Image)
    requires Agree(w, image) && a.slot !in At(w, mac).profiles && Validates(Merged(At(w, mac).profiles, a))
    ensures Agree(v, after)
    ensures At(v, mac).profiles == At(w, mac).profiles[a.slot := Merged(At(w, mac).profiles, a)]
  {
    v := AddRequested(w, mac, a);
    AddAgrees(w, image, mac, a, v);
    after := Added(image, mac, a);
  }

  /** Two of them, in any memory that has none yet. */
  lemma TwoProfiles(w: World, image: Image, mac: Mac, a: AddArgs, b: AddArgs) returns (v: World, after: Image)
    requires Agree(w, image) && At(w, mac).profiles == map[] && a.slot != b.slot
    requires Validates(Merged(map[], a)) && Validates(Merged(map[], b))
    ensures Agree(v, after)
    ensures At(v, mac).profiles == map[a.slot := Merged(map[], a), b.slot := Merged(map[], b)]
  {
    var u, first := NewProfile(w, image, mac, a);
    assert Merged(At(u, mac).profiles, b) == Merged(map[], b);
    v, after := NewProfile(u, first, mac, b);
  }

  /** Removing one SSID while two profiles have it, neither of them in use. */
  lemma RemovesTwo(v: World, image: Image, mac: Mac, a: Slot, b: Slot) returns (w: World)
    requires Agree(v, image) && a in At(v, mac).profiles && b in At(v, mac).profiles && a != b
    requires a.ssid == b.ssid && a.bssid == b.bssid && At(v, mac).profiles[a].id == None
    ensures Requested(v, mac, Remove(a.ssid, a.bssid, None), w) && Faithful(v) && !Faithful(w)
  {
    AgreeIsFaithful(v, image);
    w := RemoveRequested(v, mac, a);
    assert Hit(a, a.ssid, a.bssid, None) && Hit(b, a.ssid, a.bssid, None);
    RemoveAnyFaithfulIff(v, image, mac, a.ssid, a.bssid, w);
  }

  lemma BothValidate(open: AddArgs, psk: AddArgs)
    requires open.slot.security.Open? && psk.slot.security.Psk? && psk.password == Some("password")
    ensures Validates(Merged(map[], open)) && Validates(Merged(map[], psk))
  {
  }

  /** The network "cafe", open and with a password: removing it without naming
      the authentication takes one profile from memory and both from disk. */
  lemma RemovedTwiceExample(mac: Mac) returns (v: World, w: World)
    ensures Requested(v, mac, Remove("cafe", None, None), w) && Faithful(v) && !Faithful(w)
  {
    var open := AddArgs(Slot("cafe", SecurityName.Open, None), None, None, false, true);
    var psk := AddArgs(Slot("cafe", SecurityName.Psk, None), Some("password"), None, false, true);
    NothingAgrees();
    BothValidate(open, psk);
    var image;
    v, image := TwoProfiles(NOTHING, map[], mac, open, psk);
    w := RemovesTwo(v, image, mac, open.slot, psk.slot);
  }

  /** Any profile of an interface is lost with its backend. */
  lemma DeathExample(mac: Mac, open: AddArgs) returns (w: World, v: World)
    requires open == AddArgs(Slot("cafe", SecurityName.Open, None), None, None, false, true)
    ensures v == w.(memory := w.memory[mac := FRESH]) && FaithfulAt(w, mac) && !FaithfulAt(v, mac)
  {
    NothingAgrees();
    assert At(NOTHING, mac).profiles == map[];
    var image;
    w, image := NewProfile(NOTHING, map[], mac, open);
    v := Dies(w, image, mac, open.slot);
  }

  lemma Dies(w: World, image: Image, mac: Mac, slot: Slot) returns (v: World)
    requires Agree(w, image) && slot in At(w, mac).profiles
    ensures v == w.(memory := w.memory[mac := FRESH]) && FaithfulAt(w, mac) && !FaithfulAt(v, mac)
  {
    AgreeIsFaithful(w, image);
    v := w.(memory := w.memory[mac := FRESH]);
    DeathFaithfulIff(w, image, mac, v);
  }

  // ------------------------------------------------------------ unscoped entries

  /** A disk with one entry that names no interface. */
  function UnscopedDisk(k: Known): Disk {
    var o := Owner(None, SlotOf(k));
    Disk([ConfigOf(o, k)], map[RowKeyOf(o) := Row(k.password, k.identity)])
  }

  function UnscopedImage(k: Known): Image {
    map[Owner(None, SlotOf(k)) := k]
  }

  /** An interface that has loaded it. */
  function Loaded(k: Known): State {
    FRESH.(profiles := map[SlotOf(k) := k])
  }

  lemma UnscopedHolds(k: Known)
    requires k == Erased(k) && k.priority == 0
    ensures Holds(UnscopedDisk(k), UnscopedImage(k))
  {
    var o := Owner(None, SlotOf(k));
    var image := UnscopedImage(k);
    assert o in image && image[o] == k;
    forall n | n in UnscopedDisk(k).networks ensures exists p :: p in image && n == ConfigOf(p, image[p]) {
      assert n == ConfigOf(o, image[o]);
    }
    assert ConfigOf(o, k) in UnscopedDisk(k).networks;
  }

  lemma UnscopedRemembers(k: Known, mac: Mac)
    requires k == Erased(k)
    ensures Remembers(Loaded(k).profiles, UnscopedImage(k), mac) && !HasOwn(UnscopedImage(k), Some(mac))
  {
    assert ErasedProfiles(map[SlotOf(k) := k]) == map[SlotOf(k) := k];
    assert Scope(UnscopedImage(k), None) == map[SlotOf(k) := k];
  }

  lemma UnscopedFaithful(w: World, k: Known, mac: Mac)
    requires k == Erased(k) && k.priority == 0
    requires w.disk == UnscopedDisk(k) && At(w, mac) == Loaded(k)
    ensures FaithfulAt(w, mac) && !HasOwn(UnscopedImage(k), Some(mac))
  {
    UnscopedHolds(k);
    UnscopedRemembers(k, mac);
    FaithfulAtIff(w, UnscopedImage(k), mac);
  }

  /** An entry from before interfaces had their own. */
  const CAFE := Known(None, 0, false, SecurityName.Open, Enabled, "cafe", None, None, None, true)

  const HOME := AddArgs(Slot("home", SecurityName.Open, None), None, None, false, true)

  /** The interface has loaded "cafe"; adding "home" hides it on disk. */
  lemma HiddenEntryExample(mac: Mac) returns (w: World, v: World)
    ensures w == World(map[mac := Loaded(CAFE)], UnscopedDisk(CAFE))
    ensures Requested(w, mac, Add(HOME), v) && FaithfulAt(w, mac) && !FaithfulAt(v, mac)
  {
    w := World(map[mac := Loaded(CAFE)], UnscopedDisk(CAFE));
    v := Hides(w, CAFE, mac, HOME);
  }

  lemma Hides(w: World, k: Known, mac: Mac, a: AddArgs) returns (v: World)
    requires k == Erased(k) && k.priority == 0 && a.slot != SlotOf(k)
    requires w.disk == UnscopedDisk(k) && At(w, mac) == Loaded(k) && a.slot.security.Open?
    ensures Requested(w, mac, Add(a), v) && FaithfulAt(w, mac) && !FaithfulAt(v, mac)
  {
    UnscopedHolds(k);
    UnscopedFaithful(w, k, mac);
    v := AddRequested(w, mac, a);
    assert SlotOf(k) in At(w, mac).profiles;
    FirstOwnAddFaithfulIff(w, UnscopedImage(k), mac, a, v);
  }

  /** Two interfaces have loaded "cafe"; removing it on one takes it from the
      other's disk. */
  lemma RemovedElsewhereExample(mac: Mac, other: Mac) returns (w: World, v: World)
    requires mac != other
    ensures w == World(map[mac := Loaded(CAFE), other := Loaded(CAFE)], UnscopedDisk(CAFE))
    ensures Requested(w, mac, Remove("cafe", None, None), v) && FaithfulAt(w, other) && !FaithfulAt(v, other)
  {
    w := World(map[mac := Loaded(CAFE), other := Loaded(CAFE)], UnscopedDisk(CAFE));
    v := RemovesElsewhere(w, CAFE, mac, other);
  }

  lemma RemovesElsewhere(w: World, k: Known, mac: Mac, other: Mac) returns (v: World)
    requires k == Erased(k) && k.priority == 0 && mac != other
    requires w.disk == UnscopedDisk(k) && At(w, mac) == Loaded(k) && At(w, other) == Loaded(k)
    ensures Requested(w, mac, Remove(k.ssid, k.bssid, None), v) && FaithfulAt(w, other) && !FaithfulAt(v, other)
  {
    UnscopedHolds(k);
    UnscopedFaithful(w, k, other);
    v := RemoveRequested(w, mac, SlotOf(k));
    var o := Owner(None, SlotOf(k));
    assert o in UnscopedImage(k) && Meant(o, None, k.ssid, k.bssid, None);
    RemovalElsewhereFaithfulIff(w, UnscopedImage(k), mac, k.ssid, k.bssid, None, other, v);
  }

  /** The interface has "home" of its own, and "cafe" is hidden behind it;
      removing "home" brings "cafe" back at the next start. */
  lemma RevivedEntryExample(mac: Mac) returns (w: World, v: World)
    ensures w.disk == PersistedAdd(UnscopedDisk(CAFE), Some(mac), HOME)
    ensures At(w, mac).profiles == map[HOME.slot := Merged(map[], HOME)]
    ensures Requested(w, mac, Remove("home", None, None), v) && FaithfulAt(w, mac) && !FaithfulAt(v, mac)
  {
    w, v := Revives(CAFE, mac, HOME);
  }

  lemma Revives(k: Known, mac: Mac, a: AddArgs) returns (w: World, v: World)
    requires k == Erased(k) && k.priority == 0 && a.slot.ssid != k.ssid
    ensures w.disk == PersistedAdd(UnscopedDisk(k), Some(mac), a)
    ensures At(w, mac).profiles == map[a.slot := Merged(map[], a)]
    ensures Requested(w, mac, Remove(a.slot.ssid, a.slot.bssid, None), v)
    ensures FaithfulAt(w, mac) && !FaithfulAt(v, mac)
  {
    w := HiddenWorld(k, mac, a);
    v := RemoveRequested(w, mac, a.slot);
    StaysUnscoped(k, mac, a);
    RemovalFaithfulIff(w, Added(UnscopedImage(k), mac, a), mac, a.slot.ssid, a.slot.bssid, None, v);
  }

  /** The interface has started since it was given an entry of its own. */
  lemma HiddenWorld(k: Known, mac: Mac, a: AddArgs) returns (w: World)
    requires k == Erased(k) && k.priority == 0
    ensures w.disk == PersistedAdd(UnscopedDisk(k), Some(mac), a)
    ensures Holds(w.disk, Added(UnscopedImage(k), mac, a))
    ensures At(w, mac).profiles == map[a.slot := Merged(map[], a)] && FaithfulAt(w, mac)
  {
    var mine: Profiles := map[a.slot := Merged(map[], a)];
    w := World(map[mac := FRESH.(profiles := mine)], PersistedAdd(UnscopedDisk(k), Some(mac), a));
    UnscopedHolds(k);
    AddHolds(UnscopedDisk(k), UnscopedImage(k), mac, a);
    OwnRemembers(k, mac, a);
    FaithfulAtIff(w, Added(UnscopedImage(k), mac, a), mac);
  }

  lemma OwnRemembers(k: Known, mac: Mac, a: AddArgs)
    ensures Remembers(map[a.slot := Merged(map[], a)], Added(UnscopedImage(k), mac, a), mac)
  {
    OwnScope(UnscopedImage(k), mac, a);
    var mine: Profiles := map[a.slot := Merged(map[], a)];
    assert ErasedProfiles(mine) == mine;
  }

  lemma StaysUnscoped(k: Known, mac: Mac, a: AddArgs)
    requires a.slot.ssid != k.ssid
    ensures var image := Added(UnscopedImage(k), mac, a);
            !LeavesSource(image, mac, Removed(image, mac, a.slot.ssid, a.slot.bssid, None))
  {
    var image := Added(UnscopedImage(k), mac, a);
    var after := Removed(image, mac, a.slot.ssid, a.slot.bssid, None);
    var (o, own) := (Owner(None, SlotOf(k)), Owner(Some(mac), a.slot));
    assert own in image && o in image && o in after;
    assert SlotOf(k) in Scope(after, None);
    assert forall p :: p in after ==> p == o;
  }
}
