/** The saved networks of one wireless interface and the networks configured
    in its wpa_supplicant, as one abstract machine
    (network-daemon/src/wifi/wpa_supplicant/mod.rs). */
module KnownNetworks {
  import opened Prelude
  import opened MacText
  import opened SecurityName
  import Utf8

  const PSK_MIN_LEN := 8
  const PSK_MAX_LEN := 63

  datatype NetworkState = Enabled | Disabled | Disconnected | Current

  datatype Known = Known(
    id: Option<int>,
    priority: int,
    hidden: bool,
    security: Security,
    state: NetworkState,
    ssid: string,
    bssid: Option<MacAddr>,
    password: Option<string>,
    identity: Option<string>,
    autoconnect: bool)

  /** Where a profile lives: equal SSIDs with different authentication, or
      scoped to different access points, are different profiles. */
  datatype Slot = Slot(ssid: string, security: Security, bssid: Option<MacAddr>)

  type Profiles = map<Slot, Known>

  function SlotOf(k: Known): Slot {
    Slot(k.ssid, k.security, k.bssid)
  }

  /** wpa_supplicant as the daemon sees it: the network ids it holds, those it
      ever handed out, and whether any control command has failed so far. */
  datatype Supplicant = Supplicant(live: set<int>, issued: set<int>, faulty: bool)

  datatype State = State(profiles: Profiles, supplicant: Supplicant)

  function IdSet(id: Option<int>): set<int> {
    if id.Some? then {id.value} else {}
  }

  // ------------------------------------------------------------- the commands

  /** ADD_NETWORK: ids are never reused; a failing command may still have
      created a network. */
  ghost predicate AddReply(a: Supplicant, reply: Option<int>, b: Supplicant) {
    match reply
    case Some(id) =>
      id !in a.issued + a.live && b == Supplicant(a.live + {id}, a.issued + {id}, a.faulty)
    case None =>
      && b.faulty && a.issued <= b.issued && a.live <= b.live
      && b.live - a.live <= b.issued - a.issued
  }

  /** REMOVE_NETWORK: a failing command may still have taken effect. */
  predicate RemoveReply(a: Supplicant, id: int, ok: bool, b: Supplicant) {
    && b.issued == a.issued
    && if ok then b == a.(live := a.live - {id})
       else b.faulty && (b.live == a.live || b.live == a.live - {id})
  }

  /** Any other command: no effect on which networks exist. */
  predicate OtherReply(a: Supplicant, ok: bool, b: Supplicant) {
    b == a.(faulty := a.faulty || !ok)
  }

  /** Dropping a profile's own network, failure tolerated. */
  predicate Unregistered(a: Supplicant, id: Option<int>, b: Supplicant) {
    match id
    case None => b == a
    case Some(nwid) => exists ok :: RemoveReply(a, nwid, ok, b)
  }

  // -------------------------------------------------------------- credentials

  /** Lengths are counted in bytes, as `str::len` does. */
  predicate PskFits(password: string) {
    PSK_MIN_LEN <= |Utf8.Encode(password)| <= PSK_MAX_LEN
  }

  /** What an added profile must satisfy to be stored. */
  predicate Validates(k: Known) {
    match k.security
    case Psk => k.password.Some? && PskFits(k.password.value)
    case Eap => k.identity.Some?
    case Open => true
    case Unknown => true
  }

  /** What a profile must satisfy for wpa_supplicant to take it. */
  predicate Configurable(k: Known) {
    Validates(k) && !k.security.Unknown?
  }

  /** A profile whose required credential is missing altogether. Configuring it
      stops right after the network was created. */
  predicate LacksCredential(k: Known) {
    (k.security.Psk? && k.password.None?) || (k.security.Eap? && k.identity.None?)
  }

  // -------------------------------------------------------------------- steps

  datatype AddArgs = AddArgs(
    slot: Slot, password: Option<string>, identity: Option<string>, hidden: bool, autoconnect: bool)

  function Previous(profiles: Profiles, slot: Slot): Option<Known> {
    if slot in profiles then Some(profiles[slot]) else None
  }

  /** The profile an addition stores: an omitted secret keeps the one already
      stored in that slot. */
  function Merged(profiles: Profiles, a: AddArgs): Known {
    var previous := Previous(profiles, a.slot);
    Known(
      None, 0, a.hidden, a.slot.security,
      if a.autoconnect then Enabled else Disabled,
      a.slot.ssid, a.slot.bssid,
      Or(a.password, if previous.Some? then previous.value.password else None),
      Or(a.identity, if previous.Some? then previous.value.identity else None),
      a.autoconnect)
  }

  predicate AddStep(s: State, a: AddArgs, ok: bool, t: State) {
    && ok == Validates(Merged(s.profiles, a))
    && if !ok then t == s
       else
         var previous := Previous(s.profiles, a.slot);
         && t.profiles == s.profiles[a.slot := Merged(s.profiles, a)]
         && Unregistered(s.supplicant, if previous.Some? then previous.value.id else None, t.supplicant)
  }

  /** The profile goes even when wpa_supplicant fails to drop its network. */
  predicate RemoveStep(s: State, slot: Slot, ok: bool, t: State) {
    if slot !in s.profiles then !ok && t == s
    else
      && t.profiles == s.profiles - {slot}
      && match s.profiles[slot].id
         case None => ok && t.supplicant == s.supplicant
         case Some(id) => RemoveReply(s.supplicant, id, ok, t.supplicant)
  }

  predicate Grows(a: Supplicant, b: Supplicant) {
    && (a.faulty ==> b.faulty)
    && a.issued <= b.issued
    && b.live - a.live <= b.issued - a.issued
  }

  /** One attempt to connect with the stored profile `k`. */
  predicate ConnectStep(s: State, k: Known, ok: bool, t: State) {
    var a, b, kept := s.supplicant, t.supplicant, s.supplicant.live - IdSet(k.id);
    && Grows(a, b)
    && (ok ==> Configurable(k))
    && (Configurable(k) && !b.faulty ==> ok)
    && if ok then
         && SlotOf(k) in t.profiles && t.profiles[SlotOf(k)].id.Some?
         && var id := t.profiles[SlotOf(k)].id.value;
         && t.profiles == s.profiles[SlotOf(k) := k.(id := Some(id), state := Current)]
         && id in b.issued - a.issued
         && (!b.faulty ==> b.live == kept + {id})
       else
         && t.profiles == s.profiles
         && (!b.faulty ==> kept <= b.live && (b.live - kept) !! a.issued)
         && (!b.faulty ==> (b.live == kept <==> !LacksCredential(k)))
  }

  /** Profiles that a caller naming an SSID, optionally its authentication and
      optionally an access point may mean. */
  predicate Names(slot: Slot, ssid: string, security: Option<Security>) {
    slot.ssid == ssid && (security.Some? ==> slot.security == security.value)
  }

  datatype Event =
    | Add(args: AddArgs)
    | Remove(ssid: string, bssid: Option<MacAddr>, security: Option<Security>)
    | Connect(ssid: string, bssid: Option<MacAddr>, security: Option<Security>)

  ghost predicate Step(s: State, e: Event, t: State) {
    match e
    case Add(a) => exists ok :: AddStep(s, a, ok, t)
    case Remove(ssid, bssid, security) =>
      if security.Some? then exists ok :: RemoveStep(s, Slot(ssid, security.value, bssid), ok, t)
      else if !exists slot :: slot in s.profiles && slot.ssid == ssid && slot.bssid == bssid then t == s
      else exists slot, ok ::
        slot in s.profiles && slot.ssid == ssid && slot.bssid == bssid && RemoveStep(s, slot, ok, t)
    case Connect(ssid, _, security) =>
      t == s || exists slot, ok ::
        Names(slot, ssid, security) && slot in s.profiles && ConnectStep(s, s.profiles[slot], ok, t)
  }

  ghost predicate Run(states: seq<State>, events: seq<Event>) {
    && |states| == |events| + 1
    && forall i :: 0 <= i < |events| ==> Step(states[i], events[i], states[i + 1])
  }

  // --------------------------------------------------------------- invariants

  predicate OwnSlots(profiles: Profiles) {
    forall slot :: slot in profiles ==> SlotOf(profiles[slot]) == slot
  }

  /** Every profile sits in its own slot; ids were handed out by the supplicant,
      are not shared, and only configurable profiles have one. */
  predicate Owned(s: State) {
    && OwnSlots(s.profiles)
    && s.supplicant.live <= s.supplicant.issued
    && (forall slot :: slot in s.profiles && s.profiles[slot].id.Some? ==>
          s.profiles[slot].id.value in s.supplicant.issued && Configurable(s.profiles[slot]))
    && (forall a, b :: a in s.profiles && b in s.profiles && a != b && s.profiles[a].id.Some? ==>
          s.profiles[a].id != s.profiles[b].id)
  }

  ghost function StoredIds(profiles: Profiles): set<int> {
    set slot | slot in profiles && profiles[slot].id.Some? :: profiles[slot].id.value
  }

  /** wpa_supplicant holds exactly the networks that profiles refer to. */
  ghost predicate Exact(s: State) {
    s.supplicant.live == StoredIds(s.profiles)
  }

  predicate AllCarryCredentials(profiles: Profiles) {
    forall slot :: slot in profiles ==> !LacksCredential(profiles[slot])
  }

  // --------------------------------------------------------- one step at a time

  /** When an addition is taken: a PSK profile needs a password of 8 to 63 bytes
      and an EAP profile an identity, given or already stored. */
  lemma AcceptedIff(s: State, a: AddArgs, ok: bool, t: State)
    requires AddStep(s, a, ok, t)
    ensures var stored := a.slot in s.profiles;
            ok <==> match a.slot.security
                    case Psk =>
                      if a.password.Some? then 8 <= |Utf8.Encode(a.password.value)| <= 63
                      else && stored && s.profiles[a.slot].password.Some?
                           && 8 <= |Utf8.Encode(s.profiles[a.slot].password.value)| <= 63
                    case Eap => a.identity.Some? || (stored && s.profiles[a.slot].identity.Some?)
                    case _ => true
    ensures !ok ==> t == s
    ensures ok ==> t.profiles.Keys == s.profiles.Keys + {a.slot}
                   && forall slot :: slot in s.profiles && slot != a.slot ==> t.profiles[slot] == s.profiles[slot]
  {
  }

  lemma AddKeepsOwned(s: State, a: AddArgs, ok: bool, t: State)
    requires Owned(s) && AddStep(s, a, ok, t)
    ensures Owned(t)
    ensures AllCarryCredentials(s.profiles) ==> AllCarryCredentials(t.profiles)
    ensures s.supplicant.faulty ==> t.supplicant.faulty
    ensures Exact(s) && !t.supplicant.faulty ==> Exact(t)
  {
    if ok && Exact(s) && !t.supplicant.faulty {
      StoredIdsAfterPut(s, a.slot, Merged(s.profiles, a));
    }
  }

  /** Overwriting one slot of a state with unshared ids. */
  lemma StoredIdsAfterPut(s: State, slot: Slot, k: Known)
    requires Owned(s)
    ensures StoredIds(s.profiles[slot := k]) ==
            StoredIds(s.profiles)
            - (if slot in s.profiles then IdSet(s.profiles[slot].id) else {}) + IdSet(k.id)
  {
    var before, after := s.profiles, s.profiles[slot := k];
    var gone := if slot in before then IdSet(before[slot].id) else {};
    forall id ensures id in StoredIds(after) <==> id in StoredIds(before) - gone + IdSet(k.id) {
      if id in StoredIds(after) {
        var x :| x in after && after[x].id == Some(id);
        assert x != slot ==> before[x].id == Some(id);
      }
      if id in StoredIds(before) - gone {
        var x :| x in before && before[x].id == Some(id);
        assert after[x].id == Some(id);
      }
      if id in IdSet(k.id) {
        assert after[slot].id == Some(id);
      }
    }
  }

  lemma StoredIdsAfterRemove(s: State, slot: Slot)
    requires Owned(s) && slot in s.profiles
    ensures StoredIds(s.profiles - {slot}) == StoredIds(s.profiles) - IdSet(s.profiles[slot].id)
  {
    var before, after := s.profiles, s.profiles - {slot};
    forall id ensures id in StoredIds(after) <==> id in StoredIds(before) - IdSet(before[slot].id) {
      if id in StoredIds(before) - IdSet(before[slot].id) {
        var x :| x in before && before[x].id == Some(id);
        assert after[x].id == Some(id);
      }
    }
  }

  lemma RemoveKeepsOwned(s: State, slot: Slot, ok: bool, t: State)
    requires Owned(s) && RemoveStep(s, slot, ok, t)
    ensures Owned(t)
    ensures AllCarryCredentials(s.profiles) ==> AllCarryCredentials(t.profiles)
    ensures s.supplicant.faulty ==> t.supplicant.faulty
    ensures Exact(s) && !t.supplicant.faulty ==> Exact(t)
  {
    if slot in s.profiles {
      StoredIdsAfterRemove(s, slot);
    }
  }

  lemma ConnectKeepsOwned(s: State, slot: Slot, ok: bool, t: State)
    requires Owned(s) && slot in s.profiles && ConnectStep(s, s.profiles[slot], ok, t)
    ensures Owned(t)
    ensures AllCarryCredentials(s.profiles) ==> AllCarryCredentials(t.profiles)
  {
    var a, b := s.supplicant, t.supplicant;
    forall id | id in b.live ensures id in b.issued {
      assert id in a.live || id in b.live - a.live;
    }
  }

  /** While commands succeed, connecting keeps the supplicant's networks those
      of the profiles exactly when the chosen profile does not lack its
      credential: a PSK profile without a password, or an EAP profile without
      an identity, leaves the network just created behind. */
  lemma ConnectExactIff(s: State, slot: Slot, ok: bool, t: State)
    requires Owned(s) && Exact(s)
    requires slot in s.profiles && ConnectStep(s, s.profiles[slot], ok, t)
    requires !t.supplicant.faulty
    ensures Exact(t) <==> !LacksCredential(s.profiles[slot])
  {
    var k := s.profiles[slot];
    if ok {
      StoredIdsAfterPut(s, slot, t.profiles[slot]);
    } else {
      assert k.id.None?;
      assert s.supplicant.live - IdSet(k.id) == s.supplicant.live;
    }
  }

  lemma StepKeepsOwned(s: State, e: Event, t: State)
    requires Owned(s) && Step(s, e, t)
    ensures Owned(t)
    ensures s.supplicant.faulty ==> t.supplicant.faulty
    ensures AllCarryCredentials(s.profiles) ==> AllCarryCredentials(t.profiles)
    ensures AllCarryCredentials(s.profiles) && Exact(s) && !t.supplicant.faulty ==> Exact(t)
  {
    match e
    case Add(a) =>
      var ok :| AddStep(s, a, ok, t);
      AddKeepsOwned(s, a, ok, t);
    case Remove(ssid, bssid, security) =>
      if security.Some? {
        var ok :| RemoveStep(s, Slot(ssid, security.value, bssid), ok, t);
        RemoveKeepsOwned(s, Slot(ssid, security.value, bssid), ok, t);
      } else if exists slot :: slot in s.profiles && slot.ssid == ssid && slot.bssid == bssid {
        var slot, ok :| slot in s.profiles && slot.ssid == ssid && slot.bssid == bssid && RemoveStep(s, slot, ok, t);
        RemoveKeepsOwned(s, slot, ok, t);
      }
    case Connect(ssid, _, security) =>
      if t != s {
        var slot, ok :| Names(slot, ssid, security) && slot in s.profiles && ConnectStep(s, s.profiles[slot], ok, t);
        ConnectKeepsOwned(s, slot, ok, t);
        if Exact(s) && !t.supplicant.faulty {
          ConnectExactIff(s, slot, ok, t);
        }
      }
  }

  // ----------------------------------------------------------------- whole runs

  /** In every run, whatever commands fail, every profile stays in its own
      slot and no supplicant id is shared. */
  lemma {:induction false} RunKeepsOwned(states: seq<State>, events: seq<Event>)
    requires Run(states, events) && Owned(states[0])
    ensures forall i :: 0 <= i < |states| ==> Owned(states[i])
  {
    if |events| > 0 {
      StepKeepsOwned(states[0], events[0], states[1]);
      assert Run(states[1..], events[1..]);
      RunKeepsOwned(states[1..], events[1..]);
      forall i | 0 <= i < |states| ensures Owned(states[i]) {
        if i > 0 {
          assert states[i] == states[1..][i - 1];
        }
      }
    }
  }

  /** In every run without a failing command, starting from profiles that carry
      their credentials, the networks live in the supplicant are at all times
      exactly those the profiles refer to. */
  lemma {:induction false} RunKeepsExact(states: seq<State>, events: seq<Event>)
    requires Run(states, events)
    requires Owned(states[0]) && Exact(states[0]) && AllCarryCredentials(states[0].profiles)
    requires !states[|states| - 1].supplicant.faulty
    ensures forall i :: 0 <= i < |states| ==> Exact(states[i]) && AllCarryCredentials(states[i].profiles)
  {
    if |events| > 0 {
      StepKeepsOwned(states[0], events[0], states[1]);
      assert Run(states[1..], events[1..]);
      FaultsPersist(states[1..], events[1..]);
      RunKeepsExact(states[1..], events[1..]);
      forall i | 0 <= i < |states| ensures Exact(states[i]) && AllCarryCredentials(states[i].profiles) {
        if i > 0 {
          assert states[i] == states[1..][i - 1];
        }
      }
    }
  }

  lemma {:induction false} FaultsPersist(states: seq<State>, events: seq<Event>)
    requires Run(states, events) && Owned(states[0])
    ensures states[0].supplicant.faulty ==> states[|states| - 1].supplicant.faulty
  {
    if |events| > 0 {
      StepKeepsOwned(states[0], events[0], states[1]);
      assert Run(states[1..], events[1..]);
      FaultsPersist(states[1..], events[1..]);
    }
  }

  /** A profile without its credential does leak: connecting to it once leaves
      a live network that no profile refers to. */
  lemma LeakExample(s: State, t: State)
    requires s == State(
               map[Slot("cafe", Psk, None) := Known(None, 0, false, Psk, Enabled, "cafe", None, None, None, true)],
               Supplicant({}, {}, false))
    requires t == s.(supplicant := Supplicant({7}, {7}, false))
    ensures Owned(s) && Exact(s) && Step(s, Connect("cafe", None, None), t) && !Exact(t)
  {
    var slot := Slot("cafe", Psk, None);
    assert ConnectStep(s, s.profiles[slot], false, t);
    assert Names(slot, "cafe", None);
    assert 7 in t.supplicant.live;
  }
}
