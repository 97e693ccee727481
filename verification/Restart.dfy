/** What the two stores hold between them, and that rebuilding an interface's
    profiles after a restart gives back the profiles it had. */
module Restart {
  import opened Prelude
  import opened KnownNetworks
  import opened NetworkStore
  import opened PersistedProfiles
  import MacText
  import SecurityName
  import WpaSupplicant

  type Mac = MacText.MacAddr

  /** The interface that owns a saved profile; `None` marks entries written
      before profiles were scoped to an interface. */
  datatype Owner = Owner(mac: Option<Mac>, slot: Slot)

  /** The one table that both stores encode. */
  type Image = map<Owner, Known>

  /** A profile as a restart gives it back. */
  function Erased(k: Known): Known {
    k.(id := None, state := if k.autoconnect then Enabled else Disabled)
  }

  function ErasedProfiles(profiles: Profiles): Profiles {
    map slot | slot in profiles :: Erased(profiles[slot])
  }

  // ------------------------------------------------------- text keys and owners

  function ConfigOf(o: Owner, k: Known): NetworkConfig {
    NetworkConfig(o.slot.ssid, MacString(o.mac), MacString(o.slot.bssid), SecurityName.Display(o.slot.security),
                  k.hidden, 0, k.autoconnect)
  }

  function RowKeyOf(o: Owner): RowKey {
    CredKey(MacString(o.mac), o.slot.ssid, MacString(o.slot.bssid), SecurityName.Display(o.slot.security))
  }

  function StoredCredential(o: Owner, k: Known): Credential {
    CredentialOf(RowKeyOf(o), Row(k.password, k.identity))
  }

  lemma MacStringRoundTrip(mac: Option<Mac>)
    ensures ParseBssid(MacString(mac)) == mac
    ensures NonEmpty(OrEmpty(MacString(mac))) == MacString(mac)
  {
    if mac.Some? {
      MacText.RoundTrip(mac.value);
    }
  }

  lemma MacStringInjective(a: Option<Mac>, b: Option<Mac>)
    ensures MacString(a) == MacString(b) <==> a == b
    ensures OrEmpty(MacString(a)) == OrEmpty(MacString(b)) <==> a == b
  {
    MacStringRoundTrip(a);
    MacStringRoundTrip(b);
  }

  /** Neither store confuses two owners. */
  lemma OwnersDiffer(o: Owner, p: Owner, k: Known, l: Known)
    ensures SameNetwork(ConfigOf(o, k), ConfigOf(p, l)) <==> o == p
    ensures RowKeyOf(o) == RowKeyOf(p) <==> o == p
  {
    MacStringInjective(o.mac, p.mac);
    MacStringInjective(o.slot.bssid, p.slot.bssid);
    SecurityName.DisplayInjective(o.slot.security, p.slot.security);
  }

  lemma ReadsBack(o: Owner, k: Known)
    ensures SlotOf(ProfileOf(ConfigOf(o, k))) == o.slot
    ensures CredentialSlot(StoredCredential(o, k)) == o.slot
    ensures StoredCredential(o, k).interfaceMac == MacString(o.mac)
  {
    MacStringRoundTrip(o.mac);
    MacStringRoundTrip(o.slot.bssid);
    SecurityName.RoundTrip(o.slot.security);
  }

  // --------------------------------------------------------- what a disk encodes

  predicate Plain(o: Owner, k: Known) {
    SlotOf(k) == o.slot && k == Erased(k) && k.priority == 0
  }

  ghost predicate ConfigHolds(ns: seq<NetworkConfig>, image: Image) {
    && (forall n :: n in ns ==> exists o :: o in image && n == ConfigOf(o, image[o]))
    && (forall o :: o in image ==> ConfigOf(o, image[o]) in ns)
    && (forall i, j :: 0 <= i < j < |ns| ==> !SameNetwork(ns[i], ns[j]))
  }

  ghost predicate RowsHold(rows: map<RowKey, Row>, image: Image) {
    && (forall key :: key in rows ==> exists o :: o in image && key == RowKeyOf(o))
    && (forall o :: o in image ==>
          RowKeyOf(o) in rows && rows[RowKeyOf(o)] == Row(image[o].password, image[o].identity))
  }

  ghost predicate Holds(d: Disk, image: Image) {
    && (forall o :: o in image ==> Plain(o, image[o]))
    && ConfigHolds(d.networks, image)
    && RowsHold(d.rows, image)
  }

  /** The profiles of one owner. */
  function Scope(image: Image, mac: Option<Mac>): Profiles {
    map o | o in image && o.mac == mac :: o.slot := image[o]
  }

  // ------------------------------------------------------------ saving a profile

  function Added(image: Image, mac: Mac, a: AddArgs): Image {
    image[Owner(Some(mac), a.slot) := Merged(Scope(image, Some(mac)), a)]
  }

  /** Looking an owner up finds its entry when it has one. */
  lemma FindsOwner(ns: seq<NetworkConfig>, image: Image, o: Owner, k: Known, n: NetworkConfig)
    requires ConfigHolds(ns, image) && n in ns
    ensures exists p :: p in image && n == ConfigOf(p, image[p]) && (SameNetwork(n, ConfigOf(o, k)) <==> p == o)
  {
    var p :| p in image && n == ConfigOf(p, image[p]);
    OwnersDiffer(p, o, image[p], k);
  }

  lemma UpsertKeepsDistinct(ns: seq<NetworkConfig>, net: NetworkConfig)
    requires forall i, j :: 0 <= i < j < |ns| ==> !SameNetwork(ns[i], ns[j])
    ensures var out := Upserted(ns, net);
            && (forall i, j :: 0 <= i < j < |out| ==> !SameNetwork(out[i], out[j]))
            && (forall n :: n in out <==> n == net || (n in ns && !SameNetwork(n, net)))
  {
    var out := Upserted(ns, net);
    var at := Find(ns, net);
    assert out[at] == net;
    forall n ensures n in out <==> n == net || (n in ns && !SameNetwork(n, net)) {
      if n in ns && !SameNetwork(n, net) {
        var i :| 0 <= i < |ns| && ns[i] == n;
        assert out[i] == n;
      }
      if n in out && n != net {
        var i :| 0 <= i < |out| && out[i] == n;
        assert ns[i] == n && (i < at || !SameNetwork(ns[at], ns[i]));
      }
    }
  }

  lemma UpsertHolds(ns: seq<NetworkConfig>, image: Image, o: Owner, k: Known)
    requires ConfigHolds(ns, image)
    ensures ConfigHolds(Upserted(ns, ConfigOf(o, k)), image[o := k])
  {
    var (net, after) := (ConfigOf(o, k), image[o := k]);
    var out := Upserted(ns, net);
    UpsertKeepsDistinct(ns, net);
    forall n | n in out ensures exists p :: p in after && n == ConfigOf(p, after[p]) {
      if n == net {
        assert o in after && n == ConfigOf(o, after[o]);
      } else {
        FindsOwner(ns, image, o, k, n);
        var p :| p in image && n == ConfigOf(p, image[p]) && (SameNetwork(n, net) <==> p == o);
        assert p in after && n == ConfigOf(p, after[p]);
      }
    }
    forall p | p in after ensures ConfigOf(p, after[p]) in out {
      if p != o {
        OwnersDiffer(p, o, image[p], k);
      }
    }
  }

  lemma SaveHolds(rows: map<RowKey, Row>, image: Image, o: Owner, k: Known, row: Row)
    requires RowsHold(rows, image)
    requires row == Row(k.password, k.identity)
    ensures RowsHold(rows[RowKeyOf(o) := row], image[o := k])
  {
    var (after, out) := (image[o := k], rows[RowKeyOf(o) := row]);
    forall key | key in out ensures exists p :: p in after && key == RowKeyOf(p) {
      if key == RowKeyOf(o) {
        assert o in after;
      } else {
        var p :| p in image && key == RowKeyOf(p);
        assert p in after;
      }
    }
    forall p | p in after
      ensures RowKeyOf(p) in out && out[RowKeyOf(p)] == Row(after[p].password, after[p].identity)
    {
      OwnersDiffer(p, o, k, k);
    }
  }

  lemma RowOf(rows: map<RowKey, Row>, image: Image, o: Owner)
    requires RowsHold(rows, image)
    ensures RowKeyOf(o) in rows <==> o in image
  {
    if RowKeyOf(o) in rows {
      var p :| p in image && RowKeyOf(o) == RowKeyOf(p);
      OwnersDiffer(p, o, image[p], image[p]);
    }
  }

  lemma MergedSecrets(image: Image, mac: Option<Mac>, a: AddArgs)
    ensures var (o, k) := (Owner(mac, a.slot), Merged(Scope(image, mac), a));
            && k.password == Or(a.password, if o in image then image[o].password else None)
            && k.identity == Or(a.identity, if o in image then image[o].identity else None)
  {
  }

  /** An omitted secret is completed from the row exactly as it is from the
      profile in memory. */
  lemma SavedRow(rows: map<RowKey, Row>, image: Image, mac: Option<Mac>, a: AddArgs)
    requires RowsHold(rows, image)
    ensures var (key, k) := (RowKeyOf(Owner(mac, a.slot)), Merged(Scope(image, mac), a));
            SavedAt(rows, key, a.password, a.identity) == rows[key := Row(k.password, k.identity)]
  {
    RowOf(rows, image, Owner(mac, a.slot));
    MergedSecrets(image, mac, a);
  }

  /** Both stores, written independently, change as one image does. */
  lemma PersistedAddIs(d: Disk, image: Image, mac: Mac, a: AddArgs)
    requires RowsHold(d.rows, image)
    ensures var (o, k) := (Owner(Some(mac), a.slot), Merged(Scope(image, Some(mac)), a));
            PersistedAdd(d, Some(mac), a)
            == Disk(Upserted(d.networks, ConfigOf(o, k)), d.rows[RowKeyOf(o) := Row(k.password, k.identity)])
  {
    SavedRow(d.rows, image, Some(mac), a);
  }

  lemma AddHolds(d: Disk, image: Image, mac: Mac, a: AddArgs)
    requires Holds(d, image)
    ensures Holds(PersistedAdd(d, Some(mac), a), Added(image, mac, a))
  {
    var (o, k) := (Owner(Some(mac), a.slot), Merged(Scope(image, Some(mac)), a));
    UpsertHolds(d.networks, image, o, k);
    SaveHolds(d.rows, image, o, k, Row(k.password, k.identity));
    PersistedAddIs(d, image, mac, a);
    PlainAfterAdd(image, mac, a);
  }

  lemma PlainAfterAdd(image: Image, mac: Mac, a: AddArgs)
    requires forall o :: o in image ==> Plain(o, image[o])
    ensures forall o :: o in Added(image, mac, a) ==> Plain(o, Added(image, mac, a)[o])
  {
  }

  // ---------------------------------------------------------- removing a profile

  predicate Meant(o: Owner, mac: Option<Mac>, ssid: string, bssid: Option<Mac>,
                  security: Option<SecurityName.Security>)
  {
    && o.mac == mac && o.slot.ssid == ssid && o.slot.bssid == bssid
    && (security.Some? ==> o.slot.security == security.value)
  }

  function Dropped(
    image: Image, mac: Option<Mac>, ssid: string, bssid: Option<Mac>, security: Option<SecurityName.Security>): Image
  {
    map o | o in image && !Meant(o, mac, ssid, bssid, security) :: image[o]
  }

  lemma MeantInText(
    o: Owner, k: Known, mac: Option<Mac>, ssid: string, bssid: Option<Mac>, security: Option<SecurityName.Security>)
    ensures var (m, b, s) := (MacString(mac), MacString(bssid), SecurityString(security));
            && (Matches(ConfigOf(o, k), m, ssid, b, s) <==> Meant(o, mac, ssid, bssid, security))
            && (Deletes(RowKeyOf(o), m, ssid, b, s) <==> Meant(o, mac, ssid, bssid, security))
  {
    MacStringInjective(o.mac, mac);
    MacStringInjective(o.slot.bssid, bssid);
    if security.Some? {
      SecurityName.DisplayInjective(o.slot.security, security.value);
    }
  }

  lemma {:induction false} WithoutMembers(
    ns: seq<NetworkConfig>, mac: Option<string>, ssid: string, bssid: Option<string>, security: Option<string>)
    ensures var rest := Without(ns, mac, ssid, bssid, security);
            && (forall n :: n in rest <==> n in ns && !Matches(n, mac, ssid, bssid, security))
            && ((forall i, j :: 0 <= i < j < |ns| ==> !SameNetwork(ns[i], ns[j])) ==>
                  forall i, j :: 0 <= i < j < |rest| ==> !SameNetwork(rest[i], rest[j]))
  {
    if ns != [] {
      var (init, last) := (ns[..|ns| - 1], ns[|ns| - 1]);
      WithoutMembers(init, mac, ssid, bssid, security);
      var kept := Without(init, mac, ssid, bssid, security);
      assert forall n :: n in ns <==> n in init || n == last;
      if forall i, j :: 0 <= i < j < |ns| ==> !SameNetwork(ns[i], ns[j]) {
        forall i | 0 <= i < |kept| ensures !SameNetwork(kept[i], last) {
          assert kept[i] in kept;
          var j :| 0 <= j < |init| && init[j] == kept[i];
          assert !SameNetwork(ns[j], ns[|ns| - 1]);
        }
      }
    }
  }

  lemma DropConfigHolds(
    ns: seq<NetworkConfig>, image: Image, mac: Option<Mac>, ssid: string, bssid: Option<Mac>,
    security: Option<SecurityName.Security>)
    requires ConfigHolds(ns, image)
    ensures ConfigHolds(Without(ns, MacString(mac), ssid, MacString(bssid), SecurityString(security)),
                        Dropped(image, mac, ssid, bssid, security))
  {
    var (m, b, s) := (MacString(mac), MacString(bssid), SecurityString(security));
    var after := Dropped(image, mac, ssid, bssid, security);
    WithoutMembers(ns, m, ssid, b, s);
    forall n | n in Without(ns, m, ssid, b, s) ensures exists o :: o in after && n == ConfigOf(o, after[o]) {
      var o :| o in image && n == ConfigOf(o, image[o]);
      MeantInText(o, image[o], mac, ssid, bssid, security);
      assert o in after;
    }
    forall o | o in after ensures ConfigOf(o, after[o]) in Without(ns, m, ssid, b, s) {
      MeantInText(o, image[o], mac, ssid, bssid, security);
    }
  }

  lemma DropRowsHold(
    rows: map<RowKey, Row>, image: Image, mac: Option<Mac>, ssid: string, bssid: Option<Mac>,
    security: Option<SecurityName.Security>)
    requires RowsHold(rows, image)
    ensures RowsHold(Deleted(rows, MacString(mac), ssid, MacString(bssid), SecurityString(security)),
                     Dropped(image, mac, ssid, bssid, security))
  {
    var (m, b, s) := (MacString(mac), MacString(bssid), SecurityString(security));
    var after := Dropped(image, mac, ssid, bssid, security);
    forall o | o in after ensures RowKeyOf(o) in Deleted(rows, m, ssid, b, s) {
      MeantInText(o, image[o], mac, ssid, bssid, security);
    }
    forall key | key in Deleted(rows, m, ssid, b, s) ensures exists o :: o in after && key == RowKeyOf(o) {
      var o :| o in image && key == RowKeyOf(o);
      MeantInText(o, image[o], mac, ssid, bssid, security);
      assert o in after;
    }
  }

  function Removed(
    image: Image, mac: Mac, ssid: string, bssid: Option<Mac>, security: Option<SecurityName.Security>): Image
  {
    Dropped(Dropped(image, Some(mac), ssid, bssid, security), None, ssid, bssid, security)
  }

  lemma RemoveHolds(
    d: Disk, image: Image, mac: Mac, ssid: string, bssid: Option<Mac>, security: Option<SecurityName.Security>)
    requires Holds(d, image)
    ensures Holds(PersistedRemove(d, Some(mac), ssid, bssid, security), Removed(image, mac, ssid, bssid, security))
  {
    var (m, b, s) := (MacString(Some(mac)), MacString(bssid), SecurityString(security));
    var first := Dropped(image, Some(mac), ssid, bssid, security);
    DropConfigHolds(d.networks, image, Some(mac), ssid, bssid, security);
    DropConfigHolds(Without(d.networks, m, ssid, b, s), first, None, ssid, bssid, security);
    DropRowsHold(d.rows, image, Some(mac), ssid, bssid, security);
    DropRowsHold(Deleted(d.rows, m, ssid, b, s), first, None, ssid, bssid, security);
  }

  // ------------------------------------------------------------------ rebuilding

  /** A metadata entry that stands for some owner's profile. */
  ghost predicate EntryOf(n: NetworkConfig, image: Image) {
    exists o :: o in image && n == ConfigOf(o, image[o])
  }

  ghost predicate SecretOf(c: Credential, image: Image) {
    exists o :: o in image && c == StoredCredential(o, image[o])
  }

  function Bland(k: Known): Known {
    k.(password := None, identity := None)
  }

  /** The table after reading the metadata `ns` of the owner `from`. */
  ghost predicate MetadataRead(f: Profiles, ns: seq<NetworkConfig>, image: Image, from: Option<Mac>) {
    && (forall slot :: slot in f <==>
          Owner(from, slot) in image && ConfigOf(Owner(from, slot), image[Owner(from, slot)]) in ns)
    && (forall slot :: slot in f ==> f[slot] == Bland(image[Owner(from, slot)]))
  }

  /** The table once the secrets of the slots in `seen` are filled in. */
  ghost predicate SecretsRead(f: Profiles, base: Profiles, seen: set<Slot>, image: Image, from: Option<Mac>) {
    && f.Keys == base.Keys && seen <= base.Keys
    && (forall slot :: slot in base ==> Owner(from, slot) in image && base[slot] == Bland(image[Owner(from, slot)]))
    && (forall slot :: slot in base ==> f[slot] == if slot in seen then image[Owner(from, slot)] else base[slot])
  }

  lemma ReadEntry(f: Profiles, init: seq<NetworkConfig>, image: Image, from: Option<Mac>, o: Owner)
    requires MetadataRead(f, init, image, from)
    requires o in image && Plain(o, image[o])
    ensures MetadataRead(if o.mac == from then f[o.slot := Bland(image[o])] else f,
                         init + [ConfigOf(o, image[o])], image, from)
  {
    var last := ConfigOf(o, image[o]);
    forall slot | Owner(from, slot) in image
      ensures ConfigOf(Owner(from, slot), image[Owner(from, slot)]) == last <==> Owner(from, slot) == o
    {
      OwnersDiffer(Owner(from, slot), o, image[Owner(from, slot)], image[o]);
    }
  }

  lemma {:induction false} MetadataOfImage(
    ns: seq<NetworkConfig>, image: Image, mac: Option<string>, from: Option<Mac>, has: bool)
    requires forall o :: o in image ==> Plain(o, image[o])
    requires forall n :: n in ns ==> EntryOf(n, image)
    requires forall o :: o in image ==> (InScope(MacString(o.mac), mac, has) <==> o.mac == from)
    ensures MetadataRead(FromMetadata(ns, mac, has), ns, image, from)
  {
    if ns != [] {
      var (init, last) := (ns[..|ns| - 1], ns[|ns| - 1]);
      assert ns == init + [last];
      MetadataOfImage(init, image, mac, from, has);
      assert EntryOf(last, image);
      var o :| o in image && last == ConfigOf(o, image[o]);
      ReadsBack(o, image[o]);
      assert ProfileOf(last) == Bland(image[o]);
      ReadEntry(FromMetadata(init, mac, has), init, image, from, o);
    }
  }

  /** Setting both secrets completes a profile, whichever were set before. */
  lemma ReadSecret(f: Profiles, base: Profiles, seen: set<Slot>, image: Image, o: Owner)
    requires SecretsRead(f, base, seen, image, o.mac)
    requires o in image && o.slot in base
    ensures var k := f[o.slot].(password := image[o].password, identity := image[o].identity);
            SecretsRead(f[o.slot := k], base, seen + {o.slot}, image, o.mac)
  {
  }

  lemma {:induction false} CredentialsOfImage(
    base: Profiles, cs: seq<Credential>, image: Image, mac: Option<string>, from: Option<Mac>, has: bool)
    returns (seen: set<Slot>)
    requires forall slot :: slot in base <==> Owner(from, slot) in image
    requires forall slot :: slot in base ==> base[slot] == Bland(image[Owner(from, slot)])
    requires forall c :: c in cs ==> SecretOf(c, image)
    requires forall o :: o in image ==> (InScope(MacString(o.mac), mac, has) <==> o.mac == from)
    ensures SecretsRead(WithCredentials(base, cs, mac, has), base, seen, image, from)
    ensures forall c :: c in cs && InScope(c.interfaceMac, mac, has) ==> CredentialSlot(c) in seen
  {
    if cs == [] {
      seen := {};
    } else {
      var (init, last) := (cs[..|cs| - 1], cs[|cs| - 1]);
      assert cs == init + [last];
      seen := CredentialsOfImage(base, init, image, mac, from, has);
      assert SecretOf(last, image);
      var o :| o in image && last == StoredCredential(o, image[o]);
      ReadsBack(o, image[o]);
      if o.mac == from {
        assert o == Owner(from, o.slot);
        ReadSecret(WithCredentials(base, init, mac, has), base, seen, image, o);
        seen := seen + {o.slot};
      }
    }
  }

  ghost predicate HasOwn(image: Image, mac: Option<Mac>) {
    exists o :: o in image && o.mac == mac
  }

  /** Whose entries an interface gets: its own as soon as it has any, and the
      unscoped ones until then. */
  ghost function Source(image: Image, mac: Option<Mac>): Option<Mac> {
    if mac.None? || HasOwn(image, mac) then mac else None
  }

  lemma SecretsOfImage(rows: map<RowKey, Row>, image: Image, cs: seq<Credential>)
    requires RowsHold(rows, image) && Lists(cs, rows)
    ensures forall c :: c in cs ==> SecretOf(c, image)
    ensures forall o :: o in image ==> StoredCredential(o, image[o]) in cs
  {
  }

  lemma ScopedConfig(ns: seq<NetworkConfig>, image: Image, mac: Option<Mac>)
    requires ConfigHolds(ns, image) && mac.Some?
    ensures HasScopedConfig(ns, MacString(mac)) <==> HasOwn(image, mac)
  {
    if HasScopedConfig(ns, MacString(mac)) {
      var i :| 0 <= i < |ns| && ns[i].interfaceMac == MacString(mac);
      assert ns[i] in ns;
      var o :| o in image && ns[i] == ConfigOf(o, image[o]);
      MacStringInjective(o.mac, mac);
    }
    if HasOwn(image, mac) {
      var o :| o in image && o.mac == mac;
      var i :| 0 <= i < |ns| && ns[i] == ConfigOf(o, image[o]);
    }
  }

  lemma ScopedCredentials(cs: seq<Credential>, image: Image, mac: Option<Mac>)
    requires forall c :: c in cs ==> SecretOf(c, image)
    requires forall o :: o in image ==> StoredCredential(o, image[o]) in cs
    requires mac.Some?
    ensures HasScopedCredentials(cs, MacString(mac)) <==> HasOwn(image, mac)
  {
    if HasScopedCredentials(cs, MacString(mac)) {
      var i :| 0 <= i < |cs| && cs[i].interfaceMac == MacString(mac);
      assert SecretOf(cs[i], image);
      var o :| o in image && cs[i] == StoredCredential(o, image[o]);
      ReadsBack(o, image[o]);
      MacStringInjective(o.mac, mac);
    }
    if HasOwn(image, mac) {
      var o :| o in image && o.mac == mac;
      ReadsBack(o, image[o]);
      var i :| 0 <= i < |cs| && cs[i] == StoredCredential(o, image[o]);
    }
  }

  lemma ReadCompletely(f: Profiles, base: Profiles, seen: set<Slot>, image: Image, from: Option<Mac>)
    requires SecretsRead(f, base, seen, image, from)
    requires forall o :: o in image && o.mac == from ==> o.slot in seen
    ensures f == Scope(image, from)
  {
  }

  lemma SeesAll(seen: set<Slot>, cs: seq<Credential>, image: Image, mac: Option<string>, from: Option<Mac>, has: bool)
    requires forall c :: c in cs && InScope(c.interfaceMac, mac, has) ==> CredentialSlot(c) in seen
    requires forall o :: o in image ==> StoredCredential(o, image[o]) in cs
    requires forall o :: o in image ==> (InScope(MacString(o.mac), mac, has) <==> o.mac == from)
    ensures forall o :: o in image && o.mac == from ==> o.slot in seen
  {
    forall o | o in image && o.mac == from ensures o.slot in seen {
      ReadsBack(o, image[o]);
    }
  }

  lemma ReadsScope(
    ns: seq<NetworkConfig>, cs: seq<Credential>, image: Image, mac: Option<string>, from: Option<Mac>, has: bool)
    requires forall o :: o in image ==> Plain(o, image[o])
    requires forall n :: n in ns ==> EntryOf(n, image)
    requires forall c :: c in cs ==> SecretOf(c, image)
    requires forall o :: o in image ==> ConfigOf(o, image[o]) in ns && StoredCredential(o, image[o]) in cs
    requires forall o :: o in image ==> (InScope(MacString(o.mac), mac, has) <==> o.mac == from)
    ensures WithCredentials(FromMetadata(ns, mac, has), cs, mac, has) == Scope(image, from)
  {
    var base := FromMetadata(ns, mac, has);
    MetadataOfImage(ns, image, mac, from, has);
    var seen := CredentialsOfImage(base, cs, image, mac, from, has);
    SeesAll(seen, cs, image, mac, from, has);
    ReadCompletely(WithCredentials(base, cs, mac, has), base, seen, image, from);
  }

  lemma EntriesOfImage(ns: seq<NetworkConfig>, image: Image)
    requires ConfigHolds(ns, image)
    ensures forall n :: n in ns ==> EntryOf(n, image)
    ensures forall o :: o in image ==> ConfigOf(o, image[o]) in ns
  {
  }

  lemma RebuiltByFlag(ns: seq<NetworkConfig>, cs: seq<Credential>, mac: Option<Mac>, has: bool)
    requires HasScopedConfig(ns, MacString(mac)) == has
    requires HasScopedCredentials(cs, MacString(mac)) == has
    ensures Rebuilt(ns, cs, mac) == WithCredentials(FromMetadata(ns, MacString(mac), has), cs, MacString(mac), has)
  {
  }

  lemma ScopedAlike(d: Disk, image: Image, cs: seq<Credential>, mac: Option<Mac>)
    requires ConfigHolds(d.networks, image) && RowsHold(d.rows, image) && Lists(cs, d.rows)
    ensures HasScopedConfig(d.networks, MacString(mac)) == (mac.Some? && HasOwn(image, mac))
    ensures HasScopedCredentials(cs, MacString(mac)) == (mac.Some? && HasOwn(image, mac))
  {
    if mac.Some? {
      SecretsOfImage(d.rows, image, cs);
      ScopedConfig(d.networks, image, mac);
      ScopedCredentials(cs, image, mac);
    }
  }

  lemma ScopesAreSource(image: Image, mac: Option<Mac>, has: bool)
    requires has == (mac.Some? && HasOwn(image, mac))
    ensures forall o :: o in image ==>
              (InScope(MacString(o.mac), MacString(mac), has) <==> o.mac == Source(image, mac))
  {
    forall o | o in image
      ensures InScope(MacString(o.mac), MacString(mac), has) <==> o.mac == Source(image, mac)
    {
      MacStringInjective(o.mac, mac);
    }
  }

  /** Rebuilding decodes the two stores into exactly one owner's profiles,
      whatever the order in which the rows are read. */
  lemma RebuiltIsScope(d: Disk, image: Image, cs: seq<Credential>, mac: Option<Mac>)
    requires Holds(d, image) && Lists(cs, d.rows)
    ensures Rebuilt(d.networks, cs, mac) == Scope(image, Source(image, mac))
  {
    var has := mac.Some? && HasOwn(image, mac);
    SecretsOfImage(d.rows, image, cs);
    EntriesOfImage(d.networks, image);
    ScopedAlike(d, image, cs, mac);
    ScopesAreSource(image, mac, has);
    ReadsScope(d.networks, cs, image, MacString(mac), Source(image, mac), has);
    RebuiltByFlag(d.networks, cs, mac, has);
  }
}
