/** The daemon's wpa_supplicant backend: the nested table of known networks and
    the control connection (network-daemon/src/wifi/wpa_supplicant/mod.rs). */
module WpaSupplicant {
  import opened Prelude
  import opened MacText
  import opened SecurityName
  import opened KnownNetworks

  datatype WifiError =
    | AddNetworkFailed
    | ConfigureNetworkFailed
    | RemoveNetworkFailed
    | InvalidPasswordLength
    | NotSupported
    | KnownNetworkNotFound
    | SsidUnavailable
    | ConnectFailed

  type Key = (string, Security)

  datatype SsidEntry = SsidEntry(noBssid: Option<Known>, byBssid: map<MacAddr, Known>)

  const EMPTY_ENTRY := SsidEntry(None, map[])

  datatype ScanResult = ScanResult(signal: int, bssid: MacAddr, ssid: string, security: Security)

  // ------------------------------------------- the nested table as a flat map

  function EntryAt(known: map<Key, SsidEntry>, key: Key): SsidEntry {
    if key in known then known[key] else EMPTY_ENTRY
  }

  function InEntry(e: SsidEntry, bssid: Option<MacAddr>): Option<Known> {
    match bssid
    case None => e.noBssid
    case Some(mac) => if mac in e.byBssid then Some(e.byBssid[mac]) else None
  }

  function PutEntry(e: SsidEntry, bssid: Option<MacAddr>, k: Known): (r: SsidEntry)
    ensures r != EMPTY_ENTRY
    ensures forall b :: InEntry(r, b) == if b == bssid then Some(k) else InEntry(e, b)
  {
    match bssid
    case None => e.(noBssid := Some(k))
    case Some(mac) =>
      var byBssid := e.byBssid[mac := k];
      assert mac in byBssid;
      e.(byBssid := byBssid)
  }

  function DropEntry(e: SsidEntry, bssid: Option<MacAddr>): (r: SsidEntry)
    ensures forall b :: InEntry(r, b) == if b == bssid then None else InEntry(e, b)
  {
    match bssid
    case None => e.(noBssid := None)
    case Some(mac) => e.(byBssid := e.byBssid - {mac})
  }

  function Lookup(known: map<Key, SsidEntry>, slot: Slot): Option<Known> {
    InEntry(EntryAt(known, (slot.ssid, slot.security)), slot.bssid)
  }

  ghost function Slots(known: map<Key, SsidEntry>): set<Slot> {
    (set key | key in known && known[key].noBssid.Some? :: Slot(key.0, key.1, None))
    + (set key, mac | key in known && mac in known[key].byBssid :: Slot(key.0, key.1, Some(mac)))
  }

  ghost function Flatten(known: map<Key, SsidEntry>): (profiles: Profiles)
    ensures forall slot :: slot in profiles <==> Lookup(known, slot).Some?
    ensures forall slot :: slot in profiles ==> profiles[slot] == Lookup(known, slot).value
  {
    SlotsAreLookups(known);
    map slot | slot in Slots(known) :: Lookup(known, slot).value
  }

  lemma SlotsAreLookups(known: map<Key, SsidEntry>)
    ensures forall slot :: slot in Slots(known) <==> Lookup(known, slot).Some?
  {
  }

  lemma FlattenPut(known: map<Key, SsidEntry>, slot: Slot, k: Known)
    ensures var key := (slot.ssid, slot.security);
            Flatten(known[key := PutEntry(EntryAt(known, key), slot.bssid, k)]) == Flatten(known)[slot := k]
  {
    var key := (slot.ssid, slot.security);
    var e := PutEntry(EntryAt(known, key), slot.bssid, k);
    LookupAfterSet(known, key, e);
    var after, flat := Flatten(known[key := e]), Flatten(known)[slot := k];
    forall x: Slot ensures (x in after <==> x in flat) && (x in after ==> after[x] == flat[x]) {
      assert (x.ssid, x.security) == key && x.bssid == slot.bssid <==> x == slot;
    }
  }

  lemma LookupAfterSet(known: map<Key, SsidEntry>, key: Key, e: SsidEntry)
    ensures forall x: Slot :: Lookup(known[key := e], x) ==
              if (x.ssid, x.security) == key then InEntry(e, x.bssid) else Lookup(known, x)
  {
  }

  lemma FlattenDrop(known: map<Key, SsidEntry>, slot: Slot)
    ensures var key := (slot.ssid, slot.security);
            Flatten(known[key := DropEntry(EntryAt(known, key), slot.bssid)]) == Flatten(known) - {slot}
  {
    var key := (slot.ssid, slot.security);
    var e := DropEntry(EntryAt(known, key), slot.bssid);
    LookupAfterSet(known, key, e);
    var after, flat := Flatten(known[key := e]), Flatten(known) - {slot};
    forall x: Slot ensures (x in after <==> x in flat) && (x in after ==> after[x] == flat[x]) {
      assert (x.ssid, x.security) == key && x.bssid == slot.bssid <==> x == slot;
    }
  }

  lemma FlattenPrune(known: map<Key, SsidEntry>, key: Key)
    requires key in known && known[key] == EMPTY_ENTRY
    ensures Flatten(known - {key}) == Flatten(known)
  {
  }

  lemma DropThenPut(profiles: Profiles, slot: Slot, k: Known)
    ensures (profiles - {slot})[slot := k] == profiles[slot := k]
  {
  }

  predicate NoEmptyEntries(known: map<Key, SsidEntry>) {
    forall key :: key in known ==> known[key] != EMPTY_ENTRY
  }

  /** What loading a list leaves: the last profile of each slot. */
  function Loaded(networks: seq<Known>): Profiles {
    if networks == [] then map[]
    else
      var last := networks[|networks| - 1];
      Loaded(networks[..|networks| - 1])[SlotOf(last) := last]
  }

  lemma {:induction false} LastIsLoaded(networks: seq<Known>, i: nat)
    requires i < |networks|
    requires forall j :: i < j < |networks| ==> SlotOf(networks[j]) != SlotOf(networks[i])
    ensures SlotOf(networks[i]) in Loaded(networks) && Loaded(networks)[SlotOf(networks[i])] == networks[i]
  {
    if i < |networks| - 1 {
      LastIsLoaded(networks[..|networks| - 1], i);
    }
  }

  /** And nothing else. */
  lemma {:induction false} LoadedIsListed(networks: seq<Known>, slot: Slot)
    ensures slot in Loaded(networks) ==> exists i :: 0 <= i < |networks| && SlotOf(networks[i]) == slot
  {
    if networks != [] {
      var init := networks[..|networks| - 1];
      LoadedIsListed(init, slot);
      if i :| 0 <= i < |init| && SlotOf(init[i]) == slot {
        assert SlotOf(networks[i]) == slot;
      }
      assert SlotOf(networks[|networks| - 1]) == SlotOf(networks[|networks| - 1]);
    }
  }

  // -------------------------------------------------------- control connection

  /** The parameters that the daemon sets of a network. */
  datatype Setting = Ssid | Bssid | KeyMgmt | Psk | Eap | Identity | Password | Phase2 | ScanSsid

  type Settings = map<Setting, string>

  function Quoted(s: string): string {
    "\"" + s + "\""
  }

  /** What wpa_supplicant is told of a network that stands for the profile. */
  predicate Describes(s: Settings, k: Known, bssid: Option<MacAddr>) {
    && Ssid in s && s[Ssid] == "\"" + k.ssid + "\""
    && (if bssid.Some? then Bssid in s && s[Bssid] == MacText.Display(bssid.value) else Bssid !in s)
    && (if k.hidden then ScanSsid in s && s[ScanSsid] == "1" else ScanSsid !in s)
    && Secures(s, k)
  }

  predicate Secures(s: Settings, k: Known) {
    match k.security
    case Open => KeyMgmt in s && s[KeyMgmt] == "NONE" && !HasSecrets(s)
    case Psk =>
      && k.password.Some? && Setting.Psk in s && s[Setting.Psk] == "\"" + k.password.value + "\""
      && KeyMgmt !in s && Identity !in s && Password !in s
    case Eap =>
      && KeyMgmt in s && s[KeyMgmt] == "WPA-EAP" && Setting.Eap in s && s[Setting.Eap] == "PEAP"
      && k.identity.Some? && Identity in s && s[Identity] == "\"" + k.identity.value + "\""
      && Password in s && s[Password] == (if k.password.Some? then "\"" + k.password.value + "\"" else "\"\"")
      && Phase2 in s && s[Phase2] == "\"auth=MSCHAPV2\"" && Setting.Psk !in s
    case Unknown => false
  }

  predicate HasSecrets(s: Settings) {
    Setting.Psk in s || Identity in s || Password in s
  }

  /** What identifies the network, apart from its security. */
  predicate SameIdentity(s: Settings, t: Settings) {
    && (Ssid in s <==> Ssid in t) && (Ssid in s ==> s[Ssid] == t[Ssid])
    && (Bssid in s <==> Bssid in t) && (Bssid in s ==> s[Bssid] == t[Bssid])
  }

  lemma {:induction false} UpperBound(s: set<int>) returns (m: int)
    ensures forall x :: x in s ==> x < m
  {
    if x :| x in s {
      m := UpperBound(s - {x});
      if m <= x {
        m := x + 1;
      }
      assert forall y :: y in s ==> y == x || y in s - {x};
    } else {
      m := 0;
    }
  }

  /** wpa_supplicant behind its control socket: any command may fail. */
  class Control {
    var state: Supplicant
    var settings: map<int, Settings>
    var enabled: set<int>
    var selected: Option<int>

    constructor ()
      ensures state == Supplicant({}, {}, false) && settings == map[] && enabled == {} && selected == None
    {
      state, settings, enabled, selected := Supplicant({}, {}, false), map[], {}, None;
    }

    method AddNetwork() returns (reply: Option<int>)
      modifies this`state, this`settings
      ensures AddReply(old(state), reply, state)
      ensures reply.Some? ==> settings == old(settings)[reply.value := map[]]
    {
      ghost var bound := UpperBound(state.issued + state.live);
      assert bound !in state.issued + state.live;
      var id :| id !in state.issued + state.live;
      var created: bool, answered: bool := *, *;
      if created {
        state := state.(live := state.live + {id}, issued := state.issued + {id});
        settings := settings[id := map[]];
      }
      if created && answered {
        reply := Some(id);
      } else {
        reply := None;
        state := state.(faulty := true);
      }
    }

    /** What is left of the settings of a network that is gone means nothing. */
    method RemoveNetwork(id: int) returns (ok: bool)
      modifies this`state
      ensures RemoveReply(old(state), id, ok, state)
    {
      var removed: bool, answered: bool := *, *;
      ok := removed && answered;
      state := state.(live := if removed then state.live - {id} else state.live, faulty := state.faulty || !ok);
    }

    method Request() returns (ok: bool)
      modifies this`state
      ensures OtherReply(old(state), ok, state)
    {
      ok := *;
      state := state.(faulty := state.faulty || !ok);
    }

    /** SET_NETWORK. */
    method SetNetwork(id: int, key: Setting, value: string) returns (ok: bool)
      requires id in settings
      modifies this`state, this`settings
      ensures OtherReply(old(state), ok, state)
      ensures settings == if ok then old(settings)[id := old(settings)[id][key := value]] else old(settings)
    {
      ok := Request();
      if ok {
        settings := settings[id := settings[id][key := value]];
      }
    }

    method EnableNetwork(id: int) returns (ok: bool)
      modifies this`state, this`enabled
      ensures OtherReply(old(state), ok, state)
      ensures enabled == if ok then old(enabled) + {id} else old(enabled)
    {
      ok := Request();
      if ok {
        enabled := enabled + {id};
      }
    }

    method SelectNetwork(id: int) returns (ok: bool)
      modifies this`state, this`selected
      ensures OtherReply(old(state), ok, state)
      ensures selected == if ok then Some(id) else old(selected)
    {
      ok := Request();
      if ok {
        selected := Some(id);
      }
    }
  }

  // ---------------------------------------------------------------- the backend

  /** The effect of configuring a fresh network for `k`. */
  ghost predicate Configured(a: Supplicant, k: Known, r: Result<int, WifiError>, b: Supplicant) {
    && Grows(a, b) && a.live <= b.live
    && match r
       case Success(id) => Configurable(k) && id in b.issued - a.issued && b.live == a.live + {id}
       case Failure(_) => !b.faulty ==> !Configurable(k) && (b.live == a.live <==> !LacksCredential(k))
  }

  class Backend {
    var known: map<Key, SsidEntry>
    var scanResults: seq<ScanResult>
    const ctrl: Control

    ghost function View(): State
      reads this, ctrl
    {
      State(Flatten(known), ctrl.state)
    }

    constructor (ctrl: Control)
      ensures this.ctrl == ctrl && known == map[] && scanResults == []
    {
      this.ctrl := ctrl;
      known := map[];
      scanResults := [];
    }

    /** `entry(key).or_default()` followed by an insertion. */
    method Put(slot: Slot, k: Known)
      modifies this`known
      ensures Flatten(known) == old(Flatten(known))[slot := k]
      ensures forall key :: key in known && known[key] == EMPTY_ENTRY ==>
                key in old(known) && old(known)[key] == EMPTY_ENTRY && key != (slot.ssid, slot.security)
    {
      var key := (slot.ssid, slot.security);
      FlattenPut(known, slot, k);
      known := known[key := PutEntry(EntryAt(known, key), slot.bssid, k)];
    }

    /** `entry(key).or_default()` followed by a removal; the entry stays. */
    method Take(slot: Slot)
      modifies this`known
      ensures Flatten(known) == old(Flatten(known)) - {slot}
      ensures (slot.ssid, slot.security) in known
      ensures forall key :: key in known && known[key] == EMPTY_ENTRY ==>
                key == (slot.ssid, slot.security) || (key in old(known) && old(known)[key] == EMPTY_ENTRY)
    {
      var key := (slot.ssid, slot.security);
      FlattenDrop(known, slot);
      known := known[key := DropEntry(EntryAt(known, key), slot.bssid)];
    }

    method LoadKnownNetworks(networks: seq<Known>)
      modifies this
      ensures Flatten(known) == Loaded(networks)
      ensures NoEmptyEntries(known)
      ensures scanResults == old(scanResults)
    {
      known := map[];
      for i := 0 to |networks|
        invariant Flatten(known) == Loaded(networks[..i])
        invariant NoEmptyEntries(known)
        invariant scanResults == old(scanResults)
      {
        var network := networks[i];
        Put(SlotOf(network), network);
        assert networks[..i + 1][..i] == networks[..i];
      }
      assert networks[..|networks|] == networks;
    }

    method ConfigureIdentity(nwid: int, ssid: string, bssid: Option<MacAddr>) returns (ok: bool)
      requires nwid in ctrl.settings && ctrl.settings[nwid] == map[]
      modifies ctrl`state, ctrl`settings
      ensures OtherReply(old(ctrl.state), ok, ctrl.state)
      ensures nwid in ctrl.settings
      ensures ok ==> ctrl.settings[nwid]
                     == if bssid.Some? then map[Ssid := Quoted(ssid), Bssid := MacText.Display(bssid.value)]
                        else map[Ssid := Quoted(ssid)]
    {
      ok := ctrl.SetNetwork(nwid, Ssid, Quoted(ssid));
      if ok && bssid.Some? {
        ok := ctrl.SetNetwork(nwid, Bssid, MacText.Display(bssid.value));
      }
    }

    method ConfigureEap(nwid: int, identity: string, password: string) returns (ok: bool)
      requires nwid in ctrl.settings
      modifies ctrl`state, ctrl`settings
      ensures OtherReply(old(ctrl.state), ok, ctrl.state)
      ensures nwid in ctrl.settings
      ensures ok ==> ctrl.settings[nwid] == old(ctrl.settings)[nwid][KeyMgmt := "WPA-EAP"][Setting.Eap := "PEAP"]
                       [Identity := Quoted(identity)][Password := Quoted(password)][Phase2 := "\"auth=MSCHAPV2\""]
    {
      ok := ctrl.SetNetwork(nwid, KeyMgmt, "WPA-EAP");
      if ok {
        ok := ctrl.SetNetwork(nwid, Setting.Eap, "PEAP");
      }
      if ok {
        ok := ctrl.SetNetwork(nwid, Identity, Quoted(identity));
      }
      if ok {
        ok := ctrl.SetNetwork(nwid, Password, Quoted(password));
      }
      if ok {
        ok := ctrl.SetNetwork(nwid, Phase2, "\"auth=MSCHAPV2\"");
      }
    }

    method ConfigureSecurity(nwid: int, k: Known) returns (r: Result<(), WifiError>)
      requires !LacksCredential(k) && nwid in ctrl.settings
      requires ctrl.settings[nwid].Keys <= {Ssid, Bssid}
      modifies ctrl`state, ctrl`settings
      ensures nwid in ctrl.settings
      ensures r.Success? ==> Secures(ctrl.settings[nwid], k) && ScanSsid !in ctrl.settings[nwid]
                             && SameIdentity(old(ctrl.settings)[nwid], ctrl.settings[nwid])
      ensures ctrl.state.live == old(ctrl.state.live) && ctrl.state.issued == old(ctrl.state.issued)
      ensures old(ctrl.state.faulty) ==> ctrl.state.faulty
      ensures r.Success? ==> Configurable(k)
      ensures r.Failure? && !ctrl.state.faulty ==> !Configurable(k)
    {
      var ok;
      match k.security {
        case Open =>
          ok := ctrl.SetNetwork(nwid, KeyMgmt, "NONE");
        case Psk =>
          if !PskFits(k.password.value) {
            return Failure(InvalidPasswordLength);
          }
          ok := ctrl.SetNetwork(nwid, Setting.Psk, Quoted(k.password.value));
        case Eap =>
          ok := ConfigureEap(nwid, k.identity.value, k.password.GetOr(""));
        case Unknown =>
          return Failure(NotSupported);
      }
      r := if ok then Success(()) else Failure(ConfigureNetworkFailed);
    }

    method AddAndConfigureNetwork(k: Known, bssid: Option<MacAddr>) returns (r: Result<int, WifiError>)
      modifies ctrl
      ensures Configured(old(ctrl.state), k, r, ctrl.state)
      ensures r.Success? ==>
                && r.value in ctrl.settings && Describes(ctrl.settings[r.value], k, bssid)
                && r.value in ctrl.enabled
    {
      var added := ctrl.AddNetwork();
      if added.None? {
        return Failure(AddNetworkFailed);
      }
      var nwid := added.value;
      assert nwid in ctrl.state.live && nwid !in old(ctrl.state.live);
      var ok := ConfigureIdentity(nwid, k.ssid, bssid);
      if !ok {
        var _ := ctrl.RemoveNetwork(nwid);
        return Failure(ConfigureNetworkFailed);
      }
      // A missing credential returns at once and does not remove the network.
      if k.security.Psk? && k.password.None? {
        return Failure(InvalidPasswordLength);
      }
      if k.security.Eap? && k.identity.None? {
        return Failure(NotSupported);
      }
      var secured := ConfigureSecurity(nwid, k);
      if secured.Failure? {
        var _ := ctrl.RemoveNetwork(nwid);
        return Failure(secured.error);
      }
      r := FinishNetwork(nwid, k.hidden);
    }

    /** Hidden networks are probed for, and every new one is enabled. */
    method FinishNetwork(nwid: int, hidden: bool) returns (r: Result<int, WifiError>)
      requires nwid in ctrl.settings && ScanSsid !in ctrl.settings[nwid]
      modifies ctrl
      ensures ctrl.state.issued == old(ctrl.state.issued) && (old(ctrl.state.faulty) ==> ctrl.state.faulty)
      ensures ctrl.state.live == old(ctrl.state.live) || ctrl.state.live == old(ctrl.state.live) - {nwid}
      ensures r.Failure? ==> ctrl.state.faulty
      ensures r.Success? ==>
                && r.value == nwid && ctrl.state.live == old(ctrl.state.live)
                && nwid in ctrl.enabled && nwid in ctrl.settings
                && ctrl.settings[nwid]
                   == if hidden then old(ctrl.settings)[nwid][ScanSsid := "1"] else old(ctrl.settings)[nwid]
    {
      if hidden {
        var ok := ctrl.SetNetwork(nwid, ScanSsid, "1");
        if !ok {
          var _ := ctrl.RemoveNetwork(nwid);
          return Failure(ConfigureNetworkFailed);
        }
      }
      var enabled := ctrl.EnableNetwork(nwid);
      r := if enabled then Success(nwid) else Failure(ConfigureNetworkFailed);
    }

    method UnregisterWpaNetwork(k: Known)
      modifies ctrl
      ensures Unregistered(old(ctrl.state), k.id, ctrl.state)
    {
      if k.id.Some? {
        var _ := ctrl.RemoveNetwork(k.id.value);
      }
    }

    method RegisterKnownNetwork(a: AddArgs) returns (r: Result<(), WifiError>)
      modifies this, ctrl
      ensures AddStep(old(View()), a, r.Success?, View())
      ensures scanResults == old(scanResults)
      ensures old(NoEmptyEntries(known)) ==> NoEmptyEntries(known)
    {
      var previous := Lookup(known, a.slot);
      var password := Or(a.password, if previous.Some? then previous.value.password else None);
      var identity := Or(a.identity, if previous.Some? then previous.value.identity else None);
      var k := Known(None, 0, a.hidden, a.slot.security, if a.autoconnect then Enabled else Disabled,
                     a.slot.ssid, a.slot.bssid, password, identity, a.autoconnect);
      assert k == Merged(Flatten(known), a);
      match a.slot.security {
        case Psk =>
          if password.None? || !PskFits(password.value) {
            return Failure(InvalidPasswordLength);
          }
        case Eap =>
          if identity.None? {
            return Failure(NotSupported);
          }
        case _ =>
      }
      ReplaceProfile(a.slot, k);
      r := Success(());
    }

    method ReplaceProfile(slot: Slot, k: Known)
      modifies this, ctrl
      ensures Flatten(known) == old(Flatten(known))[slot := k]
      ensures var previous := old(Previous(Flatten(known), slot));
              Unregistered(old(ctrl.state), if previous.Some? then previous.value.id else None, ctrl.state)
      ensures scanResults == old(scanResults)
      ensures old(NoEmptyEntries(known)) ==> NoEmptyEntries(known)
    {
      var previous := Lookup(known, slot);
      DropThenPut(Flatten(known), slot, k);
      Take(slot);
      if previous.Some? {
        UnregisterWpaNetwork(previous.value);
      }
      Put(slot, k);
    }

    method RemoveKnownNetwork(ssid: string, bssid: Option<MacAddr>, security: Option<Security>)
      returns (r: Result<(), WifiError>)
      modifies this, ctrl
      ensures Step(old(View()), Remove(ssid, bssid, security), View())
      ensures security.Some? ==> RemoveStep(old(View()), Slot(ssid, security.value, bssid), r.Success?, View())
      ensures security.None? ==>
                if exists slot :: slot in old(Flatten(known)) && slot.ssid == ssid && slot.bssid == bssid
                then exists slot :: slot in old(Flatten(known)) && slot.ssid == ssid && slot.bssid == bssid
                       && RemoveStep(old(View()), slot, r.Success?, View())
                else r.Failure? && View() == old(View())
      ensures scanResults == old(scanResults)
      ensures old(NoEmptyEntries(known)) && !ctrl.state.faulty ==> NoEmptyEntries(known)
    {
      var chosen := security;
      if security.None? {
        if found :| found in known && found.0 == ssid && InEntry(known[found], bssid).Some? {
          chosen := Some(found.1);
        } else {
          assert forall slot :: slot in Flatten(known) && slot.ssid == ssid ==> slot.bssid != bssid by {
            forall slot | slot in Flatten(known) && slot.ssid == ssid ensures slot.bssid != bssid {
              assert (slot.ssid, slot.security) in known;
            }
          }
          return Failure(KnownNetworkNotFound);
        }
      }
      var slot := Slot(ssid, chosen.value, bssid);
      r := RemoveSlot(slot);
      ghost var before, after := old(View()), View();
      if security.None? {
        assert slot in before.profiles && RemoveStep(before, slot, r.Success?, after);
      }
    }

    method RemoveSlot(slot: Slot) returns (r: Result<(), WifiError>)
      modifies this, ctrl
      ensures RemoveStep(old(View()), slot, r.Success?, View())
      ensures r.Success? ==> slot in old(Flatten(known))
      ensures scanResults == old(scanResults)
      ensures old(NoEmptyEntries(known)) && !ctrl.state.faulty ==> NoEmptyEntries(known)
    {
      var key := (slot.ssid, slot.security);
      if key !in known {
        return Failure(KnownNetworkNotFound);
      }
      var removed := InEntry(known[key], slot.bssid);
      if removed.None? {
        return Failure(KnownNetworkNotFound);
      }
      Take(slot);
      if removed.value.id.Some? {
        var ok := ctrl.RemoveNetwork(removed.value.id.value);
        if !ok {
          return Failure(RemoveNetworkFailed);
        }
      }
      if known[key].noBssid.None? && known[key].byBssid == map[] {
        FlattenPrune(known, key);
        known := known - {key};
      }
      r := Success(());
    }

    // ------------------------------------------------------ choosing a profile

    /** The scan result at `i` shows a known access point of this network. */
    predicate Scanned(key: Key, i: nat)
      reads this
    {
      && i < |scanResults|
      && scanResults[i].ssid == key.0 && scanResults[i].security == key.1
      && scanResults[i].bssid in EntryAt(known, key).byBssid
    }

    /** The strongest such result, the earliest on equal signal. */
    ghost predicate Strongest(key: Key, i: nat)
      reads this
    {
      && Scanned(key, i)
      && forall j: nat :: Scanned(key, j) ==>
           scanResults[j].signal < scanResults[i].signal
           || (scanResults[j].signal == scanResults[i].signal && i <= j)
    }

    method StrongestScanned(key: Key) returns (best: Option<nat>)
      ensures best.None? <==> forall i: nat :: !Scanned(key, i)
      ensures best.Some? ==> Strongest(key, best.value)
    {
      best := None;
      for idx := 0 to |scanResults|
        invariant best.None? ==> forall j: nat :: j < idx ==> !Scanned(key, j)
        invariant best.Some? ==> Scanned(key, best.value) && best.value < idx
        invariant best.Some? ==> forall j: nat :: j < idx && Scanned(key, j) ==>
          scanResults[j].signal < scanResults[best.value].signal
          || (scanResults[j].signal == scanResults[best.value].signal && best.value <= j)
      {
        var scan := scanResults[idx];
        if scan.ssid == key.0 && scan.security == key.1 && scan.bssid in EntryAt(known, key).byBssid {
          if best.Some?
             && (scanResults[best.value].signal > scan.signal
                 || (scanResults[best.value].signal == scan.signal && best.value <= idx)) {
          } else {
            best := Some(idx);
          }
        }
      }
    }

    /** The profile that a request for `key` selects, given the bssid asked
        for. */
    ghost predicate Selects(key: Key, requested: Option<MacAddr>, target: Option<MacAddr>, k: Known)
      reads this
    {
      var e := EntryAt(known, key);
      && target == requested
      && match requested
         case Some(mac) => Some(k) == Or(InEntry(e, Some(mac)), e.noBssid)
         case None =>
           if e.noBssid.Some? then k == e.noBssid.value
           else if exists i: nat :: Scanned(key, i) then
             exists i: nat :: Strongest(key, i) && k == e.byBssid[scanResults[i].bssid]
           else exists mac :: mac in e.byBssid && k == e.byBssid[mac]
    }

    /** What a connection request may select; without an authentication any
        entry of the SSID may be looked at. */
    ghost predicate Candidate(ssid: string, security: Option<Security>, requested: Option<MacAddr>, k: Known)
      reads this
    {
      exists sec :: (security.Some? ==> sec == security.value) && Selects((ssid, sec), requested, requested, k)
    }

    ghost predicate SelectsNone(key: Key, requested: Option<MacAddr>)
      reads this
    {
      forall k :: !Selects(key, requested, requested, k)
    }

    method SelectInEntry(key: Key, requested: Option<MacAddr>)
      returns (r: Result<(Option<MacAddr>, Known), WifiError>)
      ensures r.Success? ==> Selects(key, requested, r.value.0, r.value.1)
      ensures r.Failure? <==> (match requested
                               case Some(mac) =>
                                 mac !in EntryAt(known, key).byBssid && EntryAt(known, key).noBssid.None?
                               case None => EntryAt(known, key) == EMPTY_ENTRY)
    {
      if key !in known {
        return Failure(KnownNetworkNotFound);
      }
      var e := known[key];
      match requested
      case Some(mac) =>
        if mac in e.byBssid {
          r := Success((Some(mac), e.byBssid[mac]));
        } else if e.noBssid.Some? {
          r := Success((Some(mac), e.noBssid.value));
        } else {
          r := Failure(KnownNetworkNotFound);
        }
      case None =>
        if e.noBssid.Some? {
          return Success((None, e.noBssid.value));
        }
        var best := StrongestScanned(key);
        if best.Some? {
          r := Success((None, e.byBssid[scanResults[best.value].bssid]));
        } else if mac :| mac in e.byBssid {
          r := Success((None, e.byBssid[mac]));
        } else {
          r := Failure(SsidUnavailable);
        }
    }

    method SelectKnownCandidate(ssid: string, security: Option<Security>, requested: Option<MacAddr>)
      returns (r: Result<(Option<MacAddr>, Known), WifiError>)
      ensures r.Success? ==> r.value.0 == requested && Candidate(ssid, security, requested, r.value.1)
      ensures r.Failure? ==>
                exists sec :: (security.Some? ==> sec == security.value) && SelectsNone((ssid, sec), requested)
      ensures r.Success? ==>
                exists slot :: Names(slot, ssid, security) && slot in Flatten(known)
                  && Flatten(known)[slot] == r.value.1
      ensures requested.None? && NoEmptyEntries(known) ==>
                (r.Success? <==> exists slot :: Names(slot, ssid, security) && slot in Flatten(known))
    {
      var chosen := security;
      if security.None? {
        if found :| found in known && found.0 == ssid {
          chosen := Some(found.1);
        } else {
          assert forall slot :: slot in Flatten(known) ==> (slot.ssid, slot.security) in known;
          assert EntryAt(known, (ssid, Unknown)) == EMPTY_ENTRY;
          assert SelectsNone((ssid, Unknown), requested);
          return Failure(KnownNetworkNotFound);
        }
      }
      var key := (ssid, chosen.value);
      r := SelectInEntry(key, requested);
      if r.Success? {
        var slot := SelectedSlot(key, requested, r.value.0, r.value.1);
        assert Names(slot, ssid, security);
      } else if requested.None? {
        assert EntryAt(known, key) == EMPTY_ENTRY;
        assert forall slot :: slot in Flatten(known) ==> (slot.ssid, slot.security) in known;
      }
    }

    lemma SelectedSlot(key: Key, requested: Option<MacAddr>, target: Option<MacAddr>, k: Known)
      returns (slot: Slot)
      requires Selects(key, requested, target, k)
      ensures slot.ssid == key.0 && slot.security == key.1
      ensures slot in Flatten(known) && Flatten(known)[slot] == k
    {
      var e := EntryAt(known, key);
      if e.noBssid == Some(k) {
        slot := Slot(key.0, key.1, None);
      } else {
        var mac :| mac in e.byBssid && k == e.byBssid[mac];
        slot := Slot(key.0, key.1, Some(mac));
      }
      assert Lookup(known, slot) == Some(k);
    }

    /** The network that wpa_supplicant was last told to use is enabled and
        stands for the profile. */
    predicate Selected(k: Known, target: Option<MacAddr>)
      reads ctrl
    {
      && ctrl.selected.Some? && ctrl.selected.value in ctrl.enabled && ctrl.selected.value in ctrl.settings
      && Describes(ctrl.settings[ctrl.selected.value], k, target)
    }

    method ConnectKnown(ssid: string, security: Option<Security>, bssid: Option<MacAddr>)
      returns (r: Result<(), WifiError>)
      modifies this, ctrl
      ensures Step(old(View()), Connect(ssid, bssid, security), View())
      // a candidate is connected with, unless some entry of the SSID has none
      ensures (exists k :: old(Candidate(ssid, security, bssid, k)) && ConnectStep(old(View()), k, r.Success?, View())
                           && (r.Success? ==> Selected(k, bssid)))
              || (r.Failure? && View() == old(View())
                  && exists sec :: (security.Some? ==> sec == security.value) && old(SelectsNone((ssid, sec), bssid)))
      ensures bssid.None? && old(NoEmptyEntries(known)) ==>
                if exists slot :: Names(slot, ssid, security) && slot in old(Flatten(known)) then
                  exists k :: old(Candidate(ssid, security, bssid, k))
                              && ConnectStep(old(View()), k, r.Success?, View())
                else r.Failure? && View() == old(View())
      ensures scanResults == old(scanResults)
      ensures old(NoEmptyEntries(known)) ==> NoEmptyEntries(known)
    {
      var choice := SelectKnownCandidate(ssid, security, bssid);
      if choice.Failure? {
        ghost var sec :| (security.Some? ==> sec == security.value) && SelectsNone((ssid, sec), bssid);
        assert old(SelectsNone((ssid, sec), bssid));
        return Failure(choice.error);
      }
      var (target, k) := choice.value;
      ghost var slot :| Names(slot, ssid, security) && slot in Flatten(known) && Flatten(known)[slot] == k;
      r := ConnectProfile(k, target);
      ghost var before, after := old(View()), View();
      assert Names(slot, ssid, security) && slot in before.profiles
             && ConnectStep(before, before.profiles[slot], r.Success?, after);
    }

    method ConnectProfile(k: Known, target: Option<MacAddr>) returns (r: Result<(), WifiError>)
      modifies this, ctrl
      ensures ConnectStep(old(View()), k, r.Success?, View())
      ensures r.Success? ==> Selected(k, target)
      ensures scanResults == old(scanResults)
      ensures old(NoEmptyEntries(known)) ==> NoEmptyEntries(known)
    {
      UnregisterWpaNetwork(k);
      var added := AddAndConfigureNetwork(k, target);
      if added.Failure? {
        return Failure(added.error);
      }
      var nwid := added.value;
      var ok := ctrl.SelectNetwork(nwid);
      if !ok {
        return Failure(ConnectFailed);
      }
      var current := k.(id := Some(nwid), state := Current);
      Put(SlotOf(k), current);
      r := Success(());
    }
  }
}
