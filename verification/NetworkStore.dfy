/** The two on-disk stores of saved networks: the metadata vector of the
    configuration file and the keyed credential rows
    (network-daemon/src/config/mod.rs, network-daemon/src/storage/mod.rs,
    network-daemon/src/daemon/client.rs). */
module NetworkStore {
  import opened Prelude
  import opened KnownNetworks
  import MacText
  import SecurityName

  type MacAddr = MacText.MacAddr

  datatype NetworkConfig = NetworkConfig(
    ssid: string, interfaceMac: Option<string>, bssid: Option<string>, security: string,
    hidden: bool, priority: int, enabled: bool)

  datatype Credential = Credential(
    interfaceMac: Option<string>, ssid: string, bssid: Option<string>, security: string,
    psk: Option<string>, identity: Option<string>)

  datatype RowKey = RowKey(interfaceMac: string, ssid: string, bssid: string, security: string)

  datatype Row = Row(psk: Option<string>, identity: Option<string>)

  /** Everything on disk. */
  datatype Disk = Disk(networks: seq<NetworkConfig>, rows: map<RowKey, Row>)

  function OrEmpty(s: Option<string>): string {
    if s.Some? then s.value else ""
  }

  function NonEmpty(s: string): Option<string> {
    if s == "" then None else Some(s)
  }

  function CredKey(interfaceMac: Option<string>, ssid: string, bssid: Option<string>, security: string): RowKey {
    RowKey(OrEmpty(interfaceMac), ssid, OrEmpty(bssid), security)
  }

  function KeyOf(c: Credential): RowKey {
    CredKey(c.interfaceMac, c.ssid, c.bssid, c.security)
  }

  function CredentialOf(key: RowKey, row: Row): (c: Credential)
    ensures KeyOf(c) == key
  {
    Credential(NonEmpty(key.interfaceMac), key.ssid, NonEmpty(key.bssid), key.security, row.psk, row.identity)
  }

  // --------------------------------------------------------- the metadata vector

  predicate SameNetwork(n: NetworkConfig, net: NetworkConfig) {
    n.interfaceMac == net.interfaceMac && n.ssid == net.ssid && n.bssid == net.bssid && n.security == net.security
  }

  predicate Matches(n: NetworkConfig, mac: Option<string>, ssid: string, bssid: Option<string>,
                    security: Option<string>)
  {
    && n.interfaceMac == mac && n.ssid == ssid && n.bssid == bssid
    && (security.Some? ==> n.security == security.value)
  }

  /** The first entry for the same network, or the length of the vector. */
  function Find(ns: seq<NetworkConfig>, net: NetworkConfig): (i: nat)
    ensures i <= |ns|
    ensures i < |ns| ==> SameNetwork(ns[i], net)
    ensures forall j :: 0 <= j < i ==> !SameNetwork(ns[j], net)
  {
    if ns == [] || SameNetwork(ns[0], net) then 0 else 1 + Find(ns[1..], net)
  }

  function Upserted(ns: seq<NetworkConfig>, net: NetworkConfig): seq<NetworkConfig> {
    var i := Find(ns, net);
    if i < |ns| then ns[i := net] else ns + [net]
  }

  function Without(
    ns: seq<NetworkConfig>, mac: Option<string>, ssid: string, bssid: Option<string>, security: Option<string>)
    : seq<NetworkConfig>
  {
    if ns == [] then []
    else
      var (init, last) := (ns[..|ns| - 1], ns[|ns| - 1]);
      var kept := Without(init, mac, ssid, bssid, security);
      if Matches(last, mac, ssid, bssid, security) then kept else kept + [last]
  }

  lemma {:induction false} WithoutLength(
    ns: seq<NetworkConfig>, mac: Option<string>, ssid: string, bssid: Option<string>, security: Option<string>)
    ensures var rest := Without(ns, mac, ssid, bssid, security);
            && |rest| <= |ns|
            && (|rest| == |ns| <==> forall n :: n in ns ==> !Matches(n, mac, ssid, bssid, security))
  {
    if ns != [] {
      WithoutLength(ns[..|ns| - 1], mac, ssid, bssid, security);
      assert forall n :: n in ns ==> n == ns[|ns| - 1] || n in ns[..|ns| - 1];
    }
  }

  class DaemonConfig {
    var networks: seq<NetworkConfig>

    method UpsertNetwork(net: NetworkConfig)
      modifies this
      ensures networks == Upserted(old(networks), net)
      // in place of the first entry of the network, or else at the end
      ensures forall i :: 0 <= i < |old(networks)| && SameNetwork(old(networks)[i], net)
                          && (forall j :: 0 <= j < i ==> !SameNetwork(old(networks)[j], net)) ==>
                networks == old(networks)[i := net]
      ensures (forall i :: 0 <= i < |old(networks)| ==> !SameNetwork(old(networks)[i], net)) ==>
                networks == old(networks) + [net]
    {
      var i := 0;
      while i < |networks| && !SameNetwork(networks[i], net)
        invariant i <= |networks| && networks == old(networks)
        invariant Find(networks, net) == i + Find(networks[i..], net)
      {
        assert networks[i..][1..] == networks[i + 1..];
        i := i + 1;
      }
      if i < |networks| {
        networks := networks[i := net];
      } else {
        networks := networks + [net];
      }
    }

    method RemoveNetwork(mac: Option<string>, ssid: string, bssid: Option<string>, security: Option<string>)
      returns (existed: bool)
      modifies this
      ensures networks == Without(old(networks), mac, ssid, bssid, security)
      ensures existed <==> exists n :: n in old(networks) && Matches(n, mac, ssid, bssid, security)
    {
      var kept: seq<NetworkConfig> := [];
      for i := 0 to |networks|
        invariant networks == old(networks)
        invariant kept == Without(networks[..i], mac, ssid, bssid, security)
      {
        assert networks[..i + 1][..i] == networks[..i];
        if !Matches(networks[i], mac, ssid, bssid, security) {
          kept := kept + [networks[i]];
        }
      }
      assert networks[..|networks|] == networks;
      WithoutLength(networks, mac, ssid, bssid, security);
      existed := |kept| != |networks|;
      networks := kept;
    }
  }

  // ------------------------------------------------------------ the credential rows

  function SavedAt(rows: map<RowKey, Row>, key: RowKey, psk: Option<string>, identity: Option<string>)
    : map<RowKey, Row>
  {
    var previous := if key in rows then rows[key] else Row(None, None);
    rows[key := Row(Or(psk, previous.psk), Or(identity, previous.identity))]
  }

  function Saved(rows: map<RowKey, Row>, c: Credential): map<RowKey, Row> {
    SavedAt(rows, KeyOf(c), c.psk, c.identity)
  }

  predicate Deletes(key: RowKey, mac: Option<string>, ssid: string, bssid: Option<string>, security: Option<string>) {
    && key.interfaceMac == OrEmpty(mac) && key.ssid == ssid && key.bssid == OrEmpty(bssid)
    && (security.Some? ==> key.security == security.value)
  }

  function Deleted(
    rows: map<RowKey, Row>, mac: Option<string>, ssid: string, bssid: Option<string>, security: Option<string>)
    : map<RowKey, Row>
  {
    map key | key in rows && !Deletes(key, mac, ssid, bssid, security) :: rows[key]
  }

  /** A list of the rows, each once, in whatever order the database yields. */
  ghost predicate Lists(cs: seq<Credential>, rows: map<RowKey, Row>) {
    && (forall i :: 0 <= i < |cs| ==> KeyOf(cs[i]) in rows && cs[i] == CredentialOf(KeyOf(cs[i]), rows[KeyOf(cs[i])]))
    && (forall i, j :: 0 <= i < j < |cs| ==> KeyOf(cs[i]) != KeyOf(cs[j]))
    && (forall key :: key in rows ==> exists i :: 0 <= i < |cs| && KeyOf(cs[i]) == key)
  }

  class CredentialStore {
    var rows: map<RowKey, Row>

    method Save(c: Credential)
      modifies this
      ensures rows == Saved(old(rows), c)
    {
      var key := CredKey(c.interfaceMac, c.ssid, c.bssid, c.security);
      var psk, identity := c.psk, c.identity;
      if key in rows {
        psk := Or(psk, rows[key].psk);
        identity := Or(identity, rows[key].identity);
      }
      rows := rows[key := Row(psk, identity)];
    }

    method Remove(mac: Option<string>, ssid: string, bssid: Option<string>, security: Option<string>)
      returns (deleted: bool)
      modifies this
      ensures rows == Deleted(old(rows), mac, ssid, bssid, security)
      ensures deleted <==> rows != old(rows)
    {
      var kept := map key | key in rows && !Deletes(key, mac, ssid, bssid, security) :: rows[key];
      deleted := exists key :: key in rows && Deletes(key, mac, ssid, bssid, security);
      if deleted {
        ghost var gone :| gone in rows && Deletes(gone, mac, ssid, bssid, security);
        assert gone !in kept;
      }
      rows := kept;
    }

    /** The keys in the order in which a query happens to yield them. */
    method QueryKeys() returns (keys: seq<RowKey>)
      ensures forall i :: 0 <= i < |keys| ==> keys[i] in rows
      ensures forall i, j :: 0 <= i < j < |keys| ==> keys[i] != keys[j]
      ensures forall key :: key in rows ==> key in keys
    {
      keys := [];
      var left := rows.Keys;
      while left != {}
        invariant left <= rows.Keys
        invariant forall i :: 0 <= i < |keys| ==> keys[i] in rows && keys[i] !in left
        invariant forall i, j :: 0 <= i < j < |keys| ==> keys[i] != keys[j]
        invariant forall key :: key in rows ==> key in left || key in keys
        decreases |left|
      {
        var key :| key in left;
        keys := keys + [key];
        left := left - {key};
      }
    }

    method LoadAll() returns (cs: seq<Credential>)
      ensures Lists(cs, rows)
    {
      var keys := QueryKeys();
      cs := [];
      for i := 0 to |keys|
        invariant |cs| == i
        invariant forall j :: 0 <= j < i ==> cs[j] == CredentialOf(keys[j], rows[keys[j]])
      {
        cs := cs + [CredentialOf(keys[i], rows[keys[i]])];
      }
      forall key | key in rows ensures exists i :: 0 <= i < |cs| && KeyOf(cs[i]) == key {
        var i :| 0 <= i < |keys| && keys[i] == key;
        assert KeyOf(cs[i]) == key;
      }
    }
  }

  // ------------------------------------------------- persisting client requests

  function MacString(mac: Option<MacAddr>): Option<string> {
    match mac case None => None case Some(m) => Some(MacText.Display(m))
  }

  function SecurityString(security: Option<SecurityName.Security>): Option<string> {
    match security case None => None case Some(s) => Some(SecurityName.Display(s))
  }

  function PersistedAdd(d: Disk, mac: Option<MacAddr>, a: AddArgs): Disk {
    var security := SecurityName.Display(a.slot.security);
    Disk(
      Upserted(d.networks, NetworkConfig(a.slot.ssid, MacString(mac), MacString(a.slot.bssid), security,
                                         a.hidden, 0, a.autoconnect)),
      Saved(d.rows, Credential(MacString(mac), a.slot.ssid, MacString(a.slot.bssid), security,
                               a.password, a.identity)))
  }

  /** Entries without an interface are a migration fallback and go too. */
  function PersistedRemove(
    d: Disk, mac: Option<MacAddr>, ssid: string, bssid: Option<MacAddr>, security: Option<SecurityName.Security>): Disk
  {
    var b, s := MacString(bssid), SecurityString(security);
    var scoped := Disk(Without(d.networks, MacString(mac), ssid, b, s), Deleted(d.rows, MacString(mac), ssid, b, s));
    if mac.None? then scoped
    else Disk(Without(scoped.networks, None, ssid, b, s), Deleted(scoped.rows, None, ssid, b, s))
  }

  class ClientHandler {
    const storage: CredentialStore
    const config: DaemonConfig

    constructor (storage: CredentialStore, config: DaemonConfig)
      ensures this.storage == storage && this.config == config
    {
      this.storage, this.config := storage, config;
    }

    function OnDisk(): Disk
      reads storage, config
    {
      Disk(config.networks, storage.rows)
    }

    method PersistNetwork(mac: Option<MacAddr>, a: AddArgs)
      modifies storage, config
      ensures OnDisk() == PersistedAdd(old(OnDisk()), mac, a)
    {
      var security := SecurityName.Display(a.slot.security);
      storage.Save(Credential(MacString(mac), a.slot.ssid, MacString(a.slot.bssid), security, a.password, a.identity));
      config.UpsertNetwork(
        NetworkConfig(a.slot.ssid, MacString(mac), MacString(a.slot.bssid), security, a.hidden, 0, a.autoconnect));
    }

    method RemovePersisted(
      mac: Option<MacAddr>, ssid: string, bssid: Option<MacAddr>, security: Option<SecurityName.Security>)
      modifies storage, config
      ensures OnDisk() == PersistedRemove(old(OnDisk()), mac, ssid, bssid, security)
    {
      var b, s := MacString(bssid), SecurityString(security);
      var _ := storage.Remove(MacString(mac), ssid, b, s);
      if mac.Some? {
        var _ := storage.Remove(None, ssid, b, s);
      }
      var _ := config.RemoveNetwork(MacString(mac), ssid, b, s);
      if mac.Some? {
        var _ := config.RemoveNetwork(None, ssid, b, s);
      }
    }
  }
}
