/** Rebuilding the saved profiles of one interface from the two stores
    (network-daemon/src/daemon/service.rs). */
module PersistedProfiles {
  import opened Prelude
  import opened KnownNetworks
  import opened NetworkStore
  import MacText
  import SecurityName

  // ---------------------------------------------------------------- the contents

  function ParseBssid(bssid: Option<string>): Option<NetworkStore.MacAddr> {
    if bssid.Some? then MacText.Parse(bssid.value) else None
  }

  function ProfileOf(n: NetworkConfig): Known {
    Known(None, n.priority, n.hidden, SecurityName.FromName(n.security),
          if n.enabled then Enabled else Disabled,
          n.ssid, ParseBssid(n.bssid), None, None, n.enabled)
  }

  function CredentialSlot(c: Credential): Slot {
    Slot(c.ssid, SecurityName.FromName(c.security), ParseBssid(c.bssid))
  }

  /** Where a credential without metadata goes. */
  function Bare(slot: Slot): Known {
    Known(None, 0, false, slot.security, Enabled, slot.ssid, slot.bssid, None, None, true)
  }

  predicate InScope(owner: Option<string>, mac: Option<string>, hasScoped: bool) {
    owner == mac || (mac.Some? && !hasScoped && owner.None?)
  }

  predicate HasScopedConfig(ns: seq<NetworkConfig>, mac: Option<string>) {
    mac.Some? && exists i :: 0 <= i < |ns| && ns[i].interfaceMac == mac
  }

  predicate HasScopedCredentials(cs: seq<Credential>, mac: Option<string>) {
    mac.Some? && exists i :: 0 <= i < |cs| && cs[i].interfaceMac == mac
  }

  function FromMetadata(ns: seq<NetworkConfig>, mac: Option<string>, hasScoped: bool): Profiles {
    if ns == [] then map[]
    else
      var (init, last) := (ns[..|ns| - 1], ns[|ns| - 1]);
      var profiles := FromMetadata(init, mac, hasScoped);
      if InScope(last.interfaceMac, mac, hasScoped)
      then profiles[SlotOf(ProfileOf(last)) := ProfileOf(last)]
      else profiles
  }

  function WithSecrets(profiles: Profiles, c: Credential): Profiles {
    var slot := CredentialSlot(c);
    var k := if slot in profiles then profiles[slot] else Bare(slot);
    profiles[slot := k.(password := c.psk, identity := c.identity)]
  }

  function WithCredentials(base: Profiles, cs: seq<Credential>, mac: Option<string>, hasScoped: bool): Profiles {
    if cs == [] then base
    else
      var (init, last) := (cs[..|cs| - 1], cs[|cs| - 1]);
      var profiles := WithCredentials(base, init, mac, hasScoped);
      if InScope(last.interfaceMac, mac, hasScoped) then WithSecrets(profiles, last) else profiles
  }

  function Rebuilt(ns: seq<NetworkConfig>, cs: seq<Credential>, interfaceMac: Option<NetworkStore.MacAddr>): Profiles {
    var mac := MacString(interfaceMac);
    WithCredentials(
      FromMetadata(ns, mac, HasScopedConfig(ns, mac)), cs, mac, HasScopedCredentials(cs, mac))
  }

  lemma {:induction false} FromMetadataOwnSlots(ns: seq<NetworkConfig>, mac: Option<string>, hasScoped: bool)
    ensures OwnSlots(FromMetadata(ns, mac, hasScoped))
  {
    if ns != [] {
      FromMetadataOwnSlots(ns[..|ns| - 1], mac, hasScoped);
    }
  }

  lemma {:induction false} WithCredentialsOwnSlots(
    base: Profiles, cs: seq<Credential>, mac: Option<string>, hasScoped: bool)
    requires OwnSlots(base)
    ensures OwnSlots(WithCredentials(base, cs, mac, hasScoped))
  {
    if cs != [] {
      WithCredentialsOwnSlots(base, cs[..|cs| - 1], mac, hasScoped);
    }
  }

  // ------------------------------------------------------------------- the order

  /** Lexicographic order on strings. */
  predicate StringLess(a: string, b: string) {
    b != "" && (a == "" || a[0] < b[0] || (a[0] == b[0] && StringLess(a[1..], b[1..])))
  }

  datatype SortKey = SortKey(ssid: string, security: string, bssid: string)

  function SortKeyOf(slot: Slot): SortKey {
    SortKey(slot.ssid, SecurityName.Display(slot.security), OrEmpty(MacString(slot.bssid)))
  }

  predicate KeyLess(a: SortKey, b: SortKey) {
    || StringLess(a.ssid, b.ssid)
    || (a.ssid == b.ssid && (StringLess(a.security, b.security)
                             || (a.security == b.security && StringLess(a.bssid, b.bssid))))
  }

  predicate Before(a: Known, b: Known) {
    KeyLess(SortKeyOf(SlotOf(a)), SortKeyOf(SlotOf(b)))
  }

  predicate Sorted(ks: seq<Known>) {
    forall i, j :: 0 <= i < j < |ks| ==> Before(ks[i], ks[j])
  }

  lemma {:induction false} StringLessTransitive(a: string, b: string, c: string)
    requires StringLess(a, b) && StringLess(b, c)
    ensures StringLess(a, c)
    decreases |a|
  {
    if a != "" && a[0] == b[0] == c[0] {
      StringLessTransitive(a[1..], b[1..], c[1..]);
    }
  }

  lemma {:induction false} StringLessTotal(a: string, b: string)
    ensures StringLess(a, b) || a == b || StringLess(b, a)
    ensures !(StringLess(a, b) && StringLess(b, a)) && !StringLess(a, a)
    decreases |a|
  {
    if a != "" {
      StringLessTotal(a[1..], a[1..]);
      if b != "" && a[0] == b[0] {
        StringLessTotal(a[1..], b[1..]);
        if a[1..] == b[1..] {
          assert a == [a[0]] + a[1..] && b == [b[0]] + b[1..];
        }
      }
    }
  }

  lemma BeforeTransitive(a: Known, b: Known, c: Known)
    requires Before(a, b) && Before(b, c)
    ensures Before(a, c)
  {
    var (x, y, z) := (SortKeyOf(SlotOf(a)), SortKeyOf(SlotOf(b)), SortKeyOf(SlotOf(c)));
    if StringLess(x.ssid, y.ssid) && StringLess(y.ssid, z.ssid) {
      StringLessTransitive(x.ssid, y.ssid, z.ssid);
    }
    if StringLess(x.security, y.security) && StringLess(y.security, z.security) {
      StringLessTransitive(x.security, y.security, z.security);
    }
    if StringLess(x.bssid, y.bssid) && StringLess(y.bssid, z.bssid) {
      StringLessTransitive(x.bssid, y.bssid, z.bssid);
    }
  }

  /** Different slots have different sort keys. */
  lemma BeforeTotal(a: Known, b: Known)
    ensures Before(a, b) || SlotOf(a) == SlotOf(b) || Before(b, a)
    ensures !(Before(a, b) && Before(b, a)) && !Before(a, a)
  {
    var (x, y) := (SortKeyOf(SlotOf(a)), SortKeyOf(SlotOf(b)));
    StringLessTotal(x.ssid, y.ssid);
    StringLessTotal(x.security, y.security);
    StringLessTotal(x.bssid, y.bssid);
    StringLessTotal(x.ssid, x.ssid);
    StringLessTotal(x.security, x.security);
    StringLessTotal(x.bssid, x.bssid);
    SecurityName.DisplayInjective(a.security, b.security);
    if a.bssid.Some? { MacText.RoundTrip(a.bssid.value); }
    if b.bssid.Some? { MacText.RoundTrip(b.bssid.value); }
  }

  /** The profiles of a table, each once. */
  ghost predicate ListsProfiles(ks: seq<Known>, profiles: Profiles) {
    && (forall i :: 0 <= i < |ks| ==> SlotOf(ks[i]) in profiles && profiles[SlotOf(ks[i])] == ks[i])
    && (forall slot :: slot in profiles ==> exists i :: 0 <= i < |ks| && SlotOf(ks[i]) == slot)
  }

  function Insert(ks: seq<Known>, k: Known): seq<Known> {
    if ks == [] || Before(k, ks[0]) then [k] + ks else [ks[0]] + Insert(ks[1..], k)
  }

  lemma {:induction false} InsertSorted(ks: seq<Known>, k: Known)
    requires Sorted(ks)
    requires forall i :: 0 <= i < |ks| ==> SlotOf(ks[i]) != SlotOf(k)
    ensures Sorted(Insert(ks, k))
    ensures forall x :: x in Insert(ks, k) <==> x == k || x in ks
  {
    if ks == [] {
    } else if Before(k, ks[0]) {
      forall i | 0 <= i < |ks| ensures Before(k, ks[i]) {
        if i > 0 { BeforeTransitive(k, ks[0], ks[i]); }
      }
    } else {
      BeforeTotal(k, ks[0]);
      InsertSorted(ks[1..], k);
      var rest := Insert(ks[1..], k);
      forall i | 0 <= i < |rest| ensures Before(ks[0], rest[i]) {
        assert rest[i] in rest;
      }
    }
  }

  lemma HasElement(ks: seq<Known>)
    requires ks != []
    ensures exists k :: k in ks
  {
    assert ks[0] in ks;
  }

  /** Sorting leaves nothing to chance: a table has only one sorted listing. */
  lemma {:induction false} SortedListingUnique(a: seq<Known>, b: seq<Known>)
    requires Sorted(a) && Sorted(b)
    requires forall k :: k in a <==> k in b
    ensures a == b
  {
    if a == [] {
      if b != [] {
        HasElement(b);
        assert false;
      }
    } else {
      assert a[0] in b;
      var i :| 0 <= i < |b| && b[i] == a[0];
      assert b[0] in a;
      var j :| 0 <= j < |a| && a[j] == b[0];
      BeforeTotal(a[0], b[0]);
      assert a[0] == b[0];
      forall k ensures k in a[1..] <==> k in b[1..] {
        BeforeTotal(a[0], a[0]);
        assert k in a <==> k == a[0] || k in a[1..];
        assert k in b <==> k == b[0] || k in b[1..];
      }
      SortedListingUnique(a[1..], b[1..]);
    }
  }

  // ------------------------------------------------------------------ the method

  method SortProfiles(profiles: Profiles) returns (ks: seq<Known>)
    requires OwnSlots(profiles)
    ensures Sorted(ks) && ListsProfiles(ks, profiles)
  {
    ks := [];
    var left := profiles.Keys;
    while left != {}
      invariant left <= profiles.Keys
      invariant Sorted(ks)
      invariant forall k :: k in ks ==> SlotOf(k) in profiles && profiles[SlotOf(k)] == k && SlotOf(k) !in left
      invariant forall slot :: slot in profiles ==> slot in left || profiles[slot] in ks
      decreases |left|
    {
      var slot :| slot in left;
      InsertSorted(ks, profiles[slot]);
      ks := Insert(ks, profiles[slot]);
      left := left - {slot};
    }
    forall slot | slot in profiles ensures exists i :: 0 <= i < |ks| && SlotOf(ks[i]) == slot {
      var i :| 0 <= i < |ks| && ks[i] == profiles[slot];
      assert SlotOf(ks[i]) == slot;
    }
  }

  method PersistedNetworks(ns: seq<NetworkConfig>, cs: seq<Credential>, interfaceMac: Option<NetworkStore.MacAddr>)
    returns (networks: seq<Known>)
    ensures Sorted(networks)
    ensures ListsProfiles(networks, Rebuilt(ns, cs, interfaceMac))
  {
    var mac := MacString(interfaceMac);
    var hasScopedConfig := HasScopedConfig(ns, mac);
    var hasScopedCredentials := HasScopedCredentials(cs, mac);
    var table: Profiles := map[];
    for i := 0 to |ns|
      invariant table == FromMetadata(ns[..i], mac, hasScopedConfig)
    {
      assert ns[..i + 1][..i] == ns[..i];
      if InScope(ns[i].interfaceMac, mac, hasScopedConfig) {
        var k := ProfileOf(ns[i]);
        table := table[Slot(k.ssid, k.security, k.bssid) := k];
      }
    }
    assert ns[..|ns|] == ns;
    ghost var base := table;
    for i := 0 to |cs|
      invariant table == WithCredentials(base, cs[..i], mac, hasScopedCredentials)
    {
      assert cs[..i + 1][..i] == cs[..i];
      if InScope(cs[i].interfaceMac, mac, hasScopedCredentials) {
        var slot := CredentialSlot(cs[i]);
        var network := if slot in table then table[slot] else Bare(slot);
        table := table[slot := network.(password := cs[i].psk, identity := cs[i].identity)];
      }
    }
    assert cs[..|cs|] == cs;
    FromMetadataOwnSlots(ns, mac, hasScopedConfig);
    WithCredentialsOwnSlots(base, cs, mac, hasScopedCredentials);
    networks := SortProfiles(table);
  }
}
