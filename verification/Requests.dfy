/** Client requests as the daemon carries them out: the stores first, then the
    backend; and seeding a backend from the stores
    (network-daemon/src/daemon/client.rs, network-daemon/src/daemon/service.rs). */
module Requests {
  import opened Prelude
  import opened KnownNetworks
  import opened NetworkStore
  import opened PersistedProfiles
  import RestartRuns
  import SecurityName
  import opened WpaSupplicant

  /** The stores are written whatever the backend then answers. */
  method AddNetwork(handler: ClientHandler, backend: Backend, mac: NetworkStore.MacAddr, a: AddArgs)
    returns (r: Result<(), WifiError>)
    modifies handler.storage, handler.config, backend, backend.ctrl
    ensures handler.OnDisk() == RestartRuns.DiskAfter(old(handler.OnDisk()), mac, Add(a))
    ensures AddStep(old(backend.View()), a, r.Success?, backend.View())
  {
    handler.PersistNetwork(Some(mac), a);
    r := backend.RegisterKnownNetwork(a);
  }

  predicate NothingSaved(s: State, ssid: string, bssid: Option<NetworkStore.MacAddr>) {
    forall slot :: slot in s.profiles && slot.ssid == ssid ==> slot.bssid != bssid
  }

  method RemoveNetwork(
    handler: ClientHandler, backend: Backend, mac: NetworkStore.MacAddr,
    ssid: string, bssid: Option<NetworkStore.MacAddr>, security: Option<SecurityName.Security>)
    returns (r: Result<(), WifiError>)
    modifies handler.storage, handler.config, backend, backend.ctrl
    ensures handler.OnDisk() == RestartRuns.DiskAfter(old(handler.OnDisk()), mac, Remove(ssid, bssid, security))
    ensures Step(old(backend.View()), Remove(ssid, bssid, security), backend.View())
    ensures security.Some? ==>
              RemoveStep(old(backend.View()), Slot(ssid, security.value, bssid), r.Success?, backend.View())
    ensures security.None? && old(NothingSaved(backend.View(), ssid, bssid)) ==>
              r.Failure? && backend.View() == old(backend.View())
    ensures security.None? && !old(NothingSaved(backend.View(), ssid, bssid)) ==>
              exists slot :: slot in old(backend.View()).profiles && slot.ssid == ssid && slot.bssid == bssid
                && RemoveStep(old(backend.View()), slot, r.Success?, backend.View())
  {
    handler.RemovePersisted(Some(mac), ssid, bssid, security);
    r := backend.RemoveKnownNetwork(ssid, bssid, security);
  }

  /** Loading what is persisted for one interface. */
  method LoadPersisted(handler: ClientHandler, backend: Backend, mac: Option<NetworkStore.MacAddr>)
    modifies backend
    ensures handler.OnDisk() == old(handler.OnDisk())
    ensures exists cs :: Lists(cs, handler.OnDisk().rows)
                         && Flatten(backend.known) == Rebuilt(handler.OnDisk().networks, cs, mac)
  {
    var credentials := handler.storage.LoadAll();
    var networks := PersistedNetworks(handler.config.networks, credentials, mac);
    backend.LoadKnownNetworks(networks);
    RestartRuns.ListingLoads(networks, Rebuilt(handler.config.networks, credentials, mac));
    assert Lists(credentials, handler.OnDisk().rows);
  }
}
