/** Where disk and memory part: a backend that dies, entries written before
    profiles were scoped to an interface, and inputs on which a request fails
    to keep them together (network-daemon/src/wifi/manager.rs,
    network-daemon/src/daemon/service.rs, network-daemon/src/daemon/client.rs). */
module RestartLimits {
  import opened Prelude
  import opened KnownNetworks
  import opened NetworkStore
  import opened PersistedProfiles
  import opened Restart
  import opened RestartRuns
  import SecurityName

  // ------------------------------------------------------------- one interface

  /** The promise for one interface. */
  ghost predicate FaithfulAt(w: World, mac: Mac) {
    forall cs :: Lists(cs, w.disk.rows) ==>
      Rebuilt(w.disk.networks, cs, Some(mac)) == ErasedProfiles(At(w, mac).profiles)
  }

  /** Memory is what the image has for the interface. */
  ghost predicate Remembers(profiles: Profiles, image: Image, mac: Mac) {
    ErasedProfiles(profiles) == Scope(image, Source(image, Some(mac)))
  }

  lemma FaithfulAtIff(w: World, image: Image, mac: Mac)
    requires Holds(w.disk, image)
    ensures FaithfulAt(w, mac) <==> Remembers(At(w, mac).profiles, image, mac)
  {
    forall cs | Lists(cs, w.disk.rows)
      ensures Rebuilt(w.disk.networks, cs, Some(mac)) == Scope(image, Source(image, Some(mac)))
    {
      RebuiltIsScope(w.disk, image, cs, Some(mac));
    }
    var cs := ListingExists(w.disk.rows);
    assert Lists(cs, w.disk.rows);
  }

  /** A backend that dies comes up with an empty table and is not loaded again:
      the promise survives exactly when there was nothing to lose. */
  lemma DeathFaithfulIff(w: World, image: Image, mac: Mac, v: World)
    requires Holds(w.disk, image) && FaithfulAt(w, mac)
    requires v == w.(memory := w.memory[mac := FRESH])
    ensures FaithfulAt(v, mac) <==> At(w, mac).profiles == map[]
  {
    FaithfulAtIff(w, image, mac);
    FaithfulAtIff(v, image, mac);
    NothingRemembersIff(At(w, mac).profiles, image, mac);
  }

  lemma NothingRemembersIff(profiles: Profiles, image: Image, mac: Mac)
    requires Remembers(profiles, image, mac)
    ensures Remembers(map[], image, mac) <==> profiles == map[]
  {
    assert ErasedProfiles(profiles).Keys == profiles.Keys;
    assert ErasedProfiles(map[]) == map[];
  }

  // ------------------------------------------------------------ unscoped entries

  /** The addition replaces the only profile, and brings every secret it had. */
  predicate TakesAllAlong(profiles: Profiles, a: AddArgs) {
    && (forall slot :: slot in profiles ==> slot == a.slot)
    && (a.slot in profiles ==>
          && (a.password.Some? || profiles[a.slot].password.None?)
          && (a.identity.Some? || profiles[a.slot].identity.None?))
  }

  /** The first entry of an interface's own hides the unscoped ones that it has
      used, and completes no secret from them: the promise survives exactly when
      the addition takes all along, or is refused while memory is that very
      entry. */
  lemma FirstOwnAddFaithfulIff(w: World, image: Image, mac: Mac, a: AddArgs, v: World)
    requires Holds(w.disk, image) && FaithfulAt(w, mac) && !HasOwn(image, Some(mac))
    requires Requested(w, mac, Add(a), v)
    ensures var before := At(w, mac).profiles;
            FaithfulAt(v, mac) <==>
              if Validates(Merged(before, a)) then TakesAllAlong(before, a)
              else ErasedProfiles(before) == map[a.slot := Merged(map[], a)]
  {
    var before := At(w, mac).profiles;
    AddHolds(w.disk, image, mac, a);
    FaithfulAtIff(v, Added(image, mac, a), mac);
    OwnScope(image, mac, a);
    if Validates(Merged(before, a)) {
      assert At(v, mac).profiles == before[a.slot := Merged(before, a)];
      ErasedAddition(before, a);
    }
  }

  lemma OwnScope(image: Image, mac: Mac, a: AddArgs)
    requires !HasOwn(image, Some(mac))
    ensures var after := Added(image, mac, a); Scope(after, Source(after, Some(mac))) == map[a.slot := Merged(map[], a)]
  {
    var (o, after) := (Owner(Some(mac), a.slot), Added(image, mac, a));
    assert Scope(image, Some(mac)) == map[];
    assert o in after && HasOwn(after, Some(mac));
    forall p | p in after && p.mac == Some(mac) ensures p == o {
      assert p in image ==> HasOwn(image, Some(mac));
    }
    assert Scope(after, Some(mac)) == map[a.slot := Merged(map[], a)];
  }

  lemma ErasedAddition(before: Profiles, a: AddArgs)
    ensures ErasedProfiles(before[a.slot := Merged(before, a)]) == map[a.slot := Merged(map[], a)] <==>
            TakesAllAlong(before, a)
  {
    var (l, r) := (ErasedProfiles(before[a.slot := Merged(before, a)]), map[a.slot := Merged(map[], a)]);
    assert l[a.slot] == Merged(before, a) && r[a.slot] == Merged(map[], a);
    assert l.Keys == before.Keys + {a.slot};
  }

  /** A removal on one interface takes unscoped entries away from another: that
      one keeps the promise exactly when it has entries of its own, or no
      unscoped entry is meant. */
  lemma RemovalElsewhereFaithfulIff(w: World, image: Image, mac: Mac, ssid: string, bssid: Option<Mac>,
                                    security: Option<Security>, other: Mac, v: World)
    requires Holds(w.disk, image) && FaithfulAt(w, other) && other != mac
    requires Requested(w, mac, Remove(ssid, bssid, security), v)
    ensures FaithfulAt(v, other) <==>
            HasOwn(image, Some(other)) || !exists o :: o in image && Meant(o, None, ssid, bssid, security)
  {
    RemovedDiskHolds(w, image, mac, ssid, bssid, security, v);
    FaithfulAtIff(w, image, other);
    FaithfulAtIff(v, Removed(image, mac, ssid, bssid, security), other);
    ScopesAfterRemoval(At(w, other).profiles, image, mac, ssid, bssid, security, other);
  }

  lemma RemovedDiskHolds(w: World, image: Image, mac: Mac, ssid: string, bssid: Option<Mac>,
                         security: Option<Security>, v: World)
    requires Holds(w.disk, image) && Requested(w, mac, Remove(ssid, bssid, security), v)
    ensures Holds(v.disk, Removed(image, mac, ssid, bssid, security))
    ensures forall other :: other != mac ==> At(v, other) == At(w, other)
  {
    RemoveHolds(w.disk, image, mac, ssid, bssid, security);
  }

  lemma OthersEntriesStay(
    image: Image, mac: Mac, ssid: string, bssid: Option<Mac>, security: Option<Security>, other: Mac)
    requires other != mac
    ensures var after := Removed(image, mac, ssid, bssid, security);
            && (HasOwn(after, Some(other)) <==> HasOwn(image, Some(other)))
            && Scope(after, Some(other)) == Scope(image, Some(other))
  {
    ScopeAfterRemove(image, mac, ssid, bssid, security, other);
    if o :| o in image && o.mac == Some(other) {
      assert o in Removed(image, mac, ssid, bssid, security);
    }
  }

  lemma UnscopedAfterRemoval(
    image: Image, mac: Mac, ssid: string, bssid: Option<Mac>, security: Option<Security>)
    ensures Scope(Removed(image, mac, ssid, bssid, security), None) == Scope(image, None) <==>
            !exists o :: o in image && Meant(o, None, ssid, bssid, security)
  {
    var after := Removed(image, mac, ssid, bssid, security);
    if o :| o in image && Meant(o, None, ssid, bssid, security) {
      assert o.slot in Scope(image, None) && o.slot !in Scope(after, None);
    }
  }

  lemma ScopesAfterRemoval(profiles: Profiles, image: Image, mac: Mac, ssid: string, bssid: Option<Mac>,
                           security: Option<Security>, other: Mac)
    requires other != mac && Remembers(profiles, image, other)
    ensures Remembers(profiles, Removed(image, mac, ssid, bssid, security), other) <==>
            HasOwn(image, Some(other)) || !exists o :: o in image && Meant(o, None, ssid, bssid, security)
  {
    OthersEntriesStay(image, mac, ssid, bssid, security, other);
    UnscopedAfterRemoval(image, mac, ssid, bssid, security);
  }

  /** What a removal leaves in memory and on disk of the interface's own. */
  predicate LeavesSource(image: Image, mac: Mac, after: Image) {
    (exists o :: o in image && o.mac == Some(mac)) ==>
      (exists o :: o in after && o.mac == Some(mac)) || Scope(after, None) == map[]
  }

  /** A removal keeps the promise for its interface exactly when it names the
      authentication or hits at most one profile, and either leaves an entry of
      the interface's own or brings no unscoped one back that was hidden. */
  lemma RemovalFaithfulIff(w: World, image: Image, mac: Mac, ssid: string, bssid: Option<Mac>,
                           security: Option<Security>, v: World)
    requires Holds(w.disk, image) && FaithfulAt(w, mac)
    requires Requested(w, mac, Remove(ssid, bssid, security), v)
    ensures FaithfulAt(v, mac) <==>
            && (security.Some? || AtMostOneHit(At(w, mac).profiles, ssid, bssid))
            && LeavesSource(image, mac, Removed(image, mac, ssid, bssid, security))
  {
    var (s, t) := (At(w, mac), At(v, mac));
    RemovedDiskHolds(w, image, mac, ssid, bssid, security, v);
    FaithfulAtIff(w, image, mac);
    FaithfulAtIff(v, Removed(image, mac, ssid, bssid, security), mac);
    if security.Some? || AtMostOneHit(s.profiles, ssid, bssid) {
      RemoveUnhits(s, ssid, bssid, security, t);
      UnhitRemembersIff(s.profiles, image, mac, ssid, bssid, security);
    } else {
      var kept := KeptHit(s, ssid, bssid, t);
      KeptForgotten(t.profiles, image, mac, kept);
    }
  }

  lemma UnhitRemembersIff(profiles: Profiles, image: Image, mac: Mac, ssid: string, bssid: Option<Mac>,
                          security: Option<Security>)
    requires Remembers(profiles, image, mac)
    ensures Remembers(Unhit(profiles, ssid, bssid, security), Removed(image, mac, ssid, bssid, security), mac) <==>
            LeavesSource(image, mac, Removed(image, mac, ssid, bssid, security))
  {
    var after := Removed(image, mac, ssid, bssid, security);
    var rest := Unhit(ErasedProfiles(profiles), ssid, bssid, security);
    assert ErasedProfiles(Unhit(profiles, ssid, bssid, security)) == rest;
    ScopeAfterRemove(image, mac, ssid, bssid, security, mac);
    if HasOwn(image, Some(mac)) {
      assert rest == Scope(after, Some(mac));
      OwnOrNothing(after, mac);
    } else {
      UnscopedUnhit(image, mac, ssid, bssid, security);
      assert !HasOwn(after, Some(mac));
    }
  }

  lemma OwnOrNothing(image: Image, mac: Mac)
    ensures HasOwn(image, Some(mac)) <==> Scope(image, Some(mac)) != map[]
  {
    if o :| o in image && o.mac == Some(mac) {
      assert o.slot in Scope(image, Some(mac));
    }
  }

  lemma UnscopedUnhit(image: Image, mac: Mac, ssid: string, bssid: Option<Mac>, security: Option<Security>)
    ensures Scope(Removed(image, mac, ssid, bssid, security), None) == Unhit(Scope(image, None), ssid, bssid, security)
  {
  }

  /** No entry is left of a profile that the removal meant. */
  lemma KeptForgotten(profiles: Profiles, image: Image, mac: Mac, kept: Slot)
    requires kept in profiles
    ensures !Remembers(profiles, Removed(image, mac, kept.ssid, kept.bssid, None), mac)
  {
    var after := Removed(image, mac, kept.ssid, kept.bssid, None);
    assert kept in ErasedProfiles(profiles);
    assert kept !in Scope(after, Some(mac)) && kept !in Scope(after, None);
  }
}
