/** What rebuilding gives for any two stores, also such as do not agree with one
    another, and the order in which it lists the profiles
    (network-daemon/src/daemon/service.rs). */
module RebuiltProfiles {
  import opened Prelude
  import opened KnownNetworks
  import opened NetworkStore
  import opened PersistedProfiles
  import MacText
  import SecurityName

  // ------------------------------------------------------------------ who gets what

  /** The entry is the interface's own, or it has none of its own and this one
      belongs to no interface. */
  ghost predicate MetadataFor(ns: seq<NetworkConfig>, mac: Option<string>, i: nat) {
    && i < |ns|
    && (ns[i].interfaceMac == mac
        || (ns[i].interfaceMac.None? && forall j :: 0 <= j < |ns| ==> ns[j].interfaceMac != mac))
  }

  ghost predicate CredentialFor(cs: seq<Credential>, mac: Option<string>, i: nat) {
    && i < |cs|
    && (cs[i].interfaceMac == mac
        || (cs[i].interfaceMac.None? && forall j :: 0 <= j < |cs| ==> cs[j].interfaceMac != mac))
  }

  /** The profile that the texts of an entry name. */
  function NamedSlot(ssid: string, security: string, bssid: Option<string>): Slot {
    Slot(ssid, SecurityName.FromName(security), if bssid.Some? then MacText.Parse(bssid.value) else None)
  }

  /** Entry `i` is the last of the interface's metadata for the profile. */
  ghost predicate LastMetadata(ns: seq<NetworkConfig>, mac: Option<string>, slot: Slot, i: nat) {
    && MetadataFor(ns, mac, i) && NamedSlot(ns[i].ssid, ns[i].security, ns[i].bssid) == slot
    && forall j: nat :: i < j && MetadataFor(ns, mac, j) ==>
         NamedSlot(ns[j].ssid, ns[j].security, ns[j].bssid) != slot
  }

  ghost predicate LastCredential(cs: seq<Credential>, mac: Option<string>, slot: Slot, i: nat) {
    && CredentialFor(cs, mac, i) && NamedSlot(cs[i].ssid, cs[i].security, cs[i].bssid) == slot
    && forall j: nat :: i < j && CredentialFor(cs, mac, j) ==>
         NamedSlot(cs[j].ssid, cs[j].security, cs[j].bssid) != slot
  }

  // -------------------------------------------------------------- one store at a time

  /** Position `i` is the last that names the profile. */
  ghost predicate LastOf(names: seq<Option<Slot>>, slot: Slot, i: nat) {
    i < |names| && names[i] == Some(slot) && forall j :: i < j < |names| ==> names[j] != Some(slot)
  }

  lemma LastOfNext(names: seq<Option<Slot>>, x: Option<Slot>, slot: Slot)
    ensures x == Some(slot) ==> forall i: nat :: LastOf(names + [x], slot, i) <==> i == |names|
    ensures x != Some(slot) ==> forall i: nat :: LastOf(names + [x], slot, i) <==> LastOf(names, slot, i)
  {
    forall i: nat
      ensures x == Some(slot) ==> (LastOf(names + [x], slot, i) <==> i == |names|)
      ensures x != Some(slot) ==> (LastOf(names + [x], slot, i) <==> LastOf(names, slot, i))
    {
      assert x == Some(slot) && i < |names| ==> (names + [x])[|names|] == Some(slot);
      assert i < |names| ==> forall j :: i < j < |names| ==> (names + [x])[j] == names[j];
    }
  }

  function EntryNames(ns: seq<NetworkConfig>, mac: Option<string>, has: bool): seq<Option<Slot>> {
    if ns == [] then []
    else
      var last := ns[|ns| - 1];
      EntryNames(ns[..|ns| - 1], mac, has)
      + [if InScope(last.interfaceMac, mac, has) then Some(NamedSlot(last.ssid, last.security, last.bssid)) else None]
  }

  function SecretNames(cs: seq<Credential>, mac: Option<string>, has: bool): seq<Option<Slot>> {
    if cs == [] then []
    else
      var last := cs[|cs| - 1];
      SecretNames(cs[..|cs| - 1], mac, has)
      + [if InScope(last.interfaceMac, mac, has) then Some(NamedSlot(last.ssid, last.security, last.bssid)) else None]
  }

  /** A profile of the metadata, but for secrets. */
  predicate Plainly(k: Known, n: NetworkConfig, slot: Slot) {
    && k.id == None && k.priority == n.priority && k.hidden == n.hidden && k.autoconnect == n.enabled
    && k.state == (if n.enabled then Enabled else Disabled) && SlotOf(k) == slot
  }

  lemma {:induction false} MetadataIs(ns: seq<NetworkConfig>, mac: Option<string>, has: bool, slot: Slot)
    ensures var (names, f) := (EntryNames(ns, mac, has), FromMetadata(ns, mac, has));
            && |names| == |ns|
            && (slot in f <==> exists i: nat :: LastOf(names, slot, i))
            && forall i: nat :: LastOf(names, slot, i) ==>
                 slot in f && Plainly(f[slot], ns[i], slot) && f[slot].password == f[slot].identity == None
  {
    if ns != [] {
      var (init, last) := (ns[..|ns| - 1], ns[|ns| - 1]);
      MetadataIs(init, mac, has, slot);
      var x :=
        if InScope(last.interfaceMac, mac, has) then Some(NamedSlot(last.ssid, last.security, last.bssid)) else None;
      LastOfNext(EntryNames(init, mac, has), x, slot);
      assert x == Some(slot) ==> LastOf(EntryNames(ns, mac, has), slot, |init|);
      assert SlotOf(ProfileOf(last)) == NamedSlot(last.ssid, last.security, last.bssid);
    }
  }

  /** Credentials set both secrets, and make up a profile that has no metadata:
      visible and connected to automatically. */
  ghost predicate Completed(base: Profiles, after: Profiles, slot: Slot, c: Credential) {
    && slot in after
    && if slot in base then after[slot] == base[slot].(password := c.psk, identity := c.identity)
       else after[slot] == Known(None, 0, false, slot.security, Enabled, slot.ssid, slot.bssid, c.psk, c.identity, true)
  }

  lemma {:induction false} CredentialsAre(
    base: Profiles, cs: seq<Credential>, mac: Option<string>, has: bool, slot: Slot)
    ensures var (names, after) := (SecretNames(cs, mac, has), WithCredentials(base, cs, mac, has));
            && |names| == |cs|
            && (forall i: nat :: LastOf(names, slot, i) ==> Completed(base, after, slot, cs[i]))
            && ((forall i: nat :: !LastOf(names, slot, i)) ==>
                  (slot in after <==> slot in base) && (slot in base ==> after[slot] == base[slot]))
  {
    if cs != [] {
      var (init, last) := (cs[..|cs| - 1], cs[|cs| - 1]);
      CredentialsAre(base, init, mac, has, slot);
      var x :=
        if InScope(last.interfaceMac, mac, has) then Some(NamedSlot(last.ssid, last.security, last.bssid)) else None;
      LastOfNext(SecretNames(init, mac, has), x, slot);
      assert CredentialSlot(last) == NamedSlot(last.ssid, last.security, last.bssid);
      if x == Some(slot) {
        assert LastOf(SecretNames(cs, mac, has), slot, |init|);
        if i: nat :| LastOf(SecretNames(init, mac, has), slot, i) {
          assert Completed(base, WithCredentials(base, init, mac, has), slot, cs[i]);
        }
      }
    }
  }

  lemma {:induction false} EntryNamesAt(ns: seq<NetworkConfig>, mac: Option<string>, has: bool, i: nat)
    requires i < |ns|
    ensures |EntryNames(ns, mac, has)| == |ns|
    ensures EntryNames(ns, mac, has)[i]
            == if InScope(ns[i].interfaceMac, mac, has)
               then Some(NamedSlot(ns[i].ssid, ns[i].security, ns[i].bssid)) else None
  {
    if |ns| > 1 {
      EntryNamesAt(ns[..|ns| - 1], mac, has, if i < |ns| - 1 then i else 0);
    }
  }

  lemma {:induction false} SecretNamesAt(cs: seq<Credential>, mac: Option<string>, has: bool, i: nat)
    requires i < |cs|
    ensures |SecretNames(cs, mac, has)| == |cs|
    ensures SecretNames(cs, mac, has)[i]
            == if InScope(cs[i].interfaceMac, mac, has)
               then Some(NamedSlot(cs[i].ssid, cs[i].security, cs[i].bssid)) else None
  {
    if |cs| > 1 {
      SecretNamesAt(cs[..|cs| - 1], mac, has, if i < |cs| - 1 then i else 0);
    }
  }

  lemma LastEntryIff(ns: seq<NetworkConfig>, mac: Option<string>, slot: Slot, i: nat)
    ensures LastOf(EntryNames(ns, mac, HasScopedConfig(ns, mac)), slot, i) <==> LastMetadata(ns, mac, slot, i)
  {
    var has := HasScopedConfig(ns, mac);
    MetadataIs(ns, mac, has, slot);
    forall j: nat | j < |ns|
      ensures EntryNames(ns, mac, has)[j]
              == if MetadataFor(ns, mac, j) then Some(NamedSlot(ns[j].ssid, ns[j].security, ns[j].bssid)) else None
    {
      EntryNamesAt(ns, mac, has, j);
    }
  }

  lemma LastSecretIff(cs: seq<Credential>, mac: Option<string>, slot: Slot, i: nat)
    ensures LastOf(SecretNames(cs, mac, HasScopedCredentials(cs, mac)), slot, i) <==> LastCredential(cs, mac, slot, i)
  {
    var has := HasScopedCredentials(cs, mac);
    CredentialsAre(map[], cs, mac, has, slot);
    forall j: nat | j < |cs|
      ensures SecretNames(cs, mac, has)[j]
              == if CredentialFor(cs, mac, j) then Some(NamedSlot(cs[j].ssid, cs[j].security, cs[j].bssid)) else None
    {
      SecretNamesAt(cs, mac, has, j);
    }
  }

  // ---------------------------------------------------------------------- both stores

  /** A profile is rebuilt when either store names it. It is as its last metadata
      has it, or visible and automatic without any, and has the secrets of its
      last credential, or none. */
  ghost predicate IsRebuilt(back: Profiles, ns: seq<NetworkConfig>, cs: seq<Credential>, mac: Option<string>,
                            slot: Slot)
  {
    && (slot in back <==> (exists i: nat :: LastMetadata(ns, mac, slot, i))
                          || exists i: nat :: LastCredential(cs, mac, slot, i))
    && (slot in back ==>
          var k := back[slot];
          && (forall i: nat :: LastMetadata(ns, mac, slot, i) ==> Plainly(k, ns[i], slot))
          && ((forall i: nat :: !LastMetadata(ns, mac, slot, i)) ==>
                k == Known(None, 0, false, slot.security, Enabled, slot.ssid, slot.bssid, k.password, k.identity, true))
          && (forall i: nat :: LastCredential(cs, mac, slot, i) ==>
                k.password == cs[i].psk && k.identity == cs[i].identity)
          && ((forall i: nat :: !LastCredential(cs, mac, slot, i)) ==> k.password == k.identity == None))
  }

  lemma MetadataDecides(ns: seq<NetworkConfig>, mac: Option<string>, slot: Slot)
    ensures var base := FromMetadata(ns, mac, HasScopedConfig(ns, mac));
            && (slot in base <==> exists i: nat :: LastMetadata(ns, mac, slot, i))
            && forall i: nat :: LastMetadata(ns, mac, slot, i) ==>
                 slot in base && Plainly(base[slot], ns[i], slot) && base[slot].password == base[slot].identity == None
  {
    MetadataIs(ns, mac, HasScopedConfig(ns, mac), slot);
    forall i: nat
      ensures LastOf(EntryNames(ns, mac, HasScopedConfig(ns, mac)), slot, i) <==> LastMetadata(ns, mac, slot, i)
    {
      LastEntryIff(ns, mac, slot, i);
    }
  }

  lemma CredentialsDecide(base: Profiles, cs: seq<Credential>, mac: Option<string>, slot: Slot)
    ensures var after := WithCredentials(base, cs, mac, HasScopedCredentials(cs, mac));
            && (forall i: nat :: LastCredential(cs, mac, slot, i) ==> Completed(base, after, slot, cs[i]))
            && ((forall i: nat :: !LastCredential(cs, mac, slot, i)) ==>
                  (slot in after <==> slot in base) && (slot in base ==> after[slot] == base[slot]))
  {
    CredentialsAre(base, cs, mac, HasScopedCredentials(cs, mac), slot);
    forall i: nat
      ensures LastOf(SecretNames(cs, mac, HasScopedCredentials(cs, mac)), slot, i) <==> LastCredential(cs, mac, slot, i)
    {
      LastSecretIff(cs, mac, slot, i);
    }
  }

  /** So it is from any two stores. Metadata and credentials are scoped
      separately. */
  lemma RebuiltIs(ns: seq<NetworkConfig>, cs: seq<Credential>, interfaceMac: Option<NetworkStore.MacAddr>, slot: Slot)
    ensures IsRebuilt(Rebuilt(ns, cs, interfaceMac), ns, cs, MacString(interfaceMac), slot)
  {
    var mac := MacString(interfaceMac);
    var base := FromMetadata(ns, mac, HasScopedConfig(ns, mac));
    MetadataDecides(ns, mac, slot);
    CredentialsDecide(base, cs, mac, slot);
    var back := Rebuilt(ns, cs, interfaceMac);
    if i: nat :| LastCredential(cs, mac, slot, i) {
      assert Completed(base, back, slot, cs[i]);
    }
  }

  // ------------------------------------------------------------------------- the order

  /** Up to some point both are the same, and there the first ends or has the
      lesser character. */
  ghost predicate Precedes(a: string, b: string) {
    exists n: nat :: n <= |a| && n < |b| && a[..n] == b[..n] && (n == |a| || a[n] < b[n])
  }

  lemma {:induction false} StringLessIff(a: string, b: string)
    ensures StringLess(a, b) <==> Precedes(a, b)
    decreases |a|
  {
    if a == "" {
      assert b != "" ==> a[..0] == b[..0];
    } else if b != "" {
      if a[0] == b[0] {
        StringLessIff(a[1..], b[1..]);
        if n: nat :| n <= |a| && n < |b| && a[..n] == b[..n] && (n == |a| || a[n] < b[n]) {
          assert n > 0 && a[1..][..n - 1] == b[1..][..n - 1];
        }
        if n: nat :| n <= |a[1..]| && n < |b[1..]| && a[1..][..n] == b[1..][..n]
                     && (n == |a[1..]| || a[1..][n] < b[1..][n]) {
          assert a[..n + 1] == [a[0]] + a[1..][..n] && b[..n + 1] == [b[0]] + b[1..][..n];
        }
      } else {
        assert a[..0] == b[..0];
        assert forall n: nat :: 0 < n <= |a| && n < |b| && a[..n] == b[..n] ==> a[0] == a[..n][0] == b[..n][0] == b[0];
      }
    }
  }

  /** Profiles are listed by SSID, those of one SSID by the name of their
      authentication, and those of one authentication by access point, the one
      for all of them first. */
  lemma SortedMeans(ks: seq<Known>, i: nat, j: nat)
    requires Sorted(ks) && i < j < |ks|
    ensures var (a, b) := (ks[i], ks[j]);
            || Precedes(a.ssid, b.ssid)
            || (a.ssid == b.ssid
                && (|| Precedes(SecurityName.Display(a.security), SecurityName.Display(b.security))
                    || (a.security == b.security && b.bssid.Some?
                        && (a.bssid.None?
                            || Precedes(MacText.Display(a.bssid.value), MacText.Display(b.bssid.value))))))
  {
    var (a, b) := (ks[i], ks[j]);
    var (x, y) := (SortKeyOf(SlotOf(a)), SortKeyOf(SlotOf(b)));
    assert Before(a, b);
    StringLessIff(x.ssid, y.ssid);
    StringLessIff(x.security, y.security);
    StringLessIff(x.bssid, y.bssid);
    SecurityName.DisplayInjective(a.security, b.security);
  }
}
