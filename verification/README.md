# Verification model of the network daemon

A Dafny model of the state that the daemon has to keep consistent, and of the
codecs and arithmetic it rests on, with proofs. `dafny verify dfyconfig.toml`
checks everything. Objects that the program updates in place are classes whose
methods are proved against specification functions; what the program promises is
proved about those functions over all inputs, all runs and every order in which
a hash table may be read. The kernel and wpa_supplicant are explicit state: a
command may fail for reasons of its own, and each theorem says whether it needs
that not to happen.

- Saved networks (`KnownNetworks`, `WpaSupplicant`, `NetworkStore`,
  `PersistedProfiles`, `RebuiltProfiles`, `Restart`, `RestartRuns`,
  `SavedByRequests`, `RestartLimits`, `RestartExamples`, `Requests`): a nested
  table in memory, a metadata vector and keyed rows on disk, one abstract table
  behind all three, and whole runs over any number of interfaces with interface
  starts.
- Logical links (`LinkRestore`): the restore loop as a least fixpoint.
- Interfaces (`Buckets`, `InterfaceTable`, `InterfaceEvents`,
  `KernelAddresses`, `InterfaceManager`): the six maps, the manager's handlers,
  and what subscribers can know.
- Leases (`Lease`, `LeaseTimers`, `Attempt`, `DhcpClient`,
  `LeaseConservation`): from traffic to the kernel's addresses.
- Routes (`RouteTable`, `BackupRoutes`, `RouteManager`, `RouteRuns`,
  `RouteFailover`): the tables, the handlers, why each request of a run was made,
  and what a kernel is left with that carries them out.
- The editor (`EditCompile`): from edited lists to the kernel's addresses.
- Codecs and arithmetic (`Prelude`, `Text`, `Utf8`, `Ssid`, `MacText`,
  `SecurityName`, `Cidr`, `FreshNames`) and the message feed (`Broadcast`).

## Where the code does not keep a promise

Each of these is stated with its exact condition:

- An addition is written to disk before it is validated (`AddFaithfulIff`,
  `RefusedAddExample`).
- A removal without a security takes one profile from memory and all matching
  ones from disk (`RemoveAnyFaithfulIff`, `RemovedTwiceExample`).
- Connecting with a profile whose credential is missing leaves a network behind
  in wpa_supplicant (`ConnectExactIff`, `LeakExample`).
- `attempt` without a timeout panics on its first retry, so a DHCP client that
  is refused twice in a row crashes (`CrashesIff`, `CrashExample`); its successor
  does not know of the address still configured (`RestartedClientIff`,
  `LeftoverAddressExample`).
- A renewal may shorten a lease and leave T1 or T2 beyond its end
  (`RenewalKeepsOrderIff`, `RenewalMayPassExpiry`); the expiry is then late but
  for one case (`ExpiryOnTimeIff`, `ExtendedExpiryIff`, `LateExpiryExample`).
- Routes are ordered by prefix length alone, so a second route of a prefix is
  dropped while its interface is listed all the same (`InsertSoundIff`,
  `TwoAddsExample`). Deleting it takes the first (`DeleteTakesIff`), cleaning up
  after its interface misses it (`CleanUpDeletesIff`, `MissedRouteExample`), and
  removing by its interface takes the first with it (`SweepTakesIff`,
  `StaleSweepExample`).
- A policy is saved after the flags are stored and announced, so a change that
  fails to save is visible (`FailedChangeInvisibleIff`, `FailedSaveExample`).
- Subscribers are never told of a link whose end the kernel reports
  (`MirrorStaysIff`, `StaleMirrorExample`), and a refresh does not make up for it
  (`RefreshAt`).
- Saved entries without an interface are used only as long as the interface has
  none of its own (`RebuiltIsScope`), so a first addition hides them
  (`FirstOwnAddFaithfulIff`, `HiddenEntryExample`), the removal of the last brings
  them back (`RemovalFaithfulIff`, `RevivedEntryExample`), and a removal elsewhere
  may take them away (`RemovalElsewhereFaithfulIff`, `RemovedElsewhereExample`).
- A plus sign may stand for the first digit of a hexadecimal escape
  (`HexEscape`), and before each number of a MAC address (`ParseIff`).
- A backend that dies is not loaded again (`DeathFaithfulIff`, `DeathExample`).
- A lease of an address that the interface has already takes it along when it
  goes (`ChainConservesIff`, `LostAddressExample`).

## Model

| member | source | states |
|---|---|---|
| RestartRuns.RestartRefinement | network-daemon/src/daemon/service.rs:515-613 | from an empty store, through any run of careful client requests on any interfaces with interface starts anywhere, rebuilding from disk gives, for every interface and row order, exactly the profiles in memory without supplicant ids and connection state |
| SavedByRequests.RestartRemembers | network-daemon/src/daemon/client.rs:293-345 | after any run whatever, from an empty store: a restart brings a profile back if and only if the last request about it was an addition, exactly as that one had it, with each secret as last given since the profile was last removed; whichever backends refused or commands failed |
| SavedByRequests.DiskIsImage | network-daemon/src/daemon/client.rs:588-683 | at every point of any run the disk encodes the table that the requests alone determine |
| RestartRuns.AddFaithfulIff | network-daemon/src/daemon/client.rs:293-345 | an addition keeps disk and memory in agreement if and only if the merged profile passes validation: it is written to disk before the backend can refuse it |
| RestartRuns.RemoveAnyFaithfulIff | network-daemon/src/daemon/client.rs:631-683 | a removal that leaves the authentication open keeps the agreement if and only if at most one profile matches: memory loses one, disk loses all |
| RestartExamples.RefusedAddExample | network-daemon/src/daemon/client.rs:293-345 | a password of five letters is refused and on disk all the same |
| RestartExamples.RemovedTwiceExample | network-daemon/src/daemon/client.rs:631-683 | two profiles of one SSID: the removal takes one from memory and both from disk |
| RestartLimits.DeathFaithfulIff | network-daemon/src/wifi/manager.rs:127-160 | a backend that dies comes up empty and is not loaded again: memory is what disk gives if and only if there were no profiles |
| RestartLimits.FirstOwnAddFaithfulIff | network-daemon/src/daemon/service.rs:515-540 | the first entry of an interface's own hides the unscoped ones it has used: the promise survives if and only if the addition replaces the only profile and brings every secret it had, or is refused while memory is that very entry |
| RestartLimits.RemovalElsewhereFaithfulIff | network-daemon/src/daemon/client.rs:631-683 | a removal on one interface breaks the promise for another if and only if that one uses an unscoped entry that is meant |
| RestartLimits.RemovalFaithfulIff | network-daemon/src/daemon/client.rs:631-683 | a removal keeps the promise for its own interface if and only if it names the authentication or hits at most one profile, and leaves an entry of its own or brings no hidden unscoped one back |
| RestartExamples.DeathExample | network-daemon/src/wifi/manager.rs:127-160 | an interface with one profile loses it with its backend |
| RestartExamples.HiddenEntryExample | network-daemon/src/daemon/service.rs:515-540 | adding "home" hides the unscoped "cafe" that the interface has loaded |
| RestartExamples.RemovedElsewhereExample | network-daemon/src/daemon/client.rs:631-683 | removing the unscoped "cafe" on one interface takes it from another |
| RestartExamples.RevivedEntryExample | network-daemon/src/daemon/client.rs:631-683 | removing the interface's own "home" brings the unscoped "cafe" back |
| RestartRuns.StepAgrees | network-daemon/src/daemon/client.rs:293-345 | each careful request or restart takes a table that both disk and memory encode to the next such table |
| RestartRuns.AddAgrees | network-daemon/src/wifi/wpa_supplicant/mod.rs:468-566 | a validated addition changes memory and both stores as one insertion with merged secrets does, for the one interface |
| RestartRuns.RemoveAgrees | network-daemon/src/wifi/wpa_supplicant/mod.rs:568-631 | a removal that hits the same profiles on both sides changes memory and both stores as one deletion does |
| RestartRuns.ConnectAgrees | network-daemon/src/wifi/wpa_supplicant/mod.rs:746-784 | connecting, whatever fails, leaves nothing on disk to change: what a restart gives back is the same |
| RestartRuns.ReloadAgrees | network-daemon/src/daemon/service.rs:501-512 | starting an interface again from disk gives the profiles it had |
| RestartRuns.RunAgrees | network-daemon/src/daemon/client.rs:293-345 | at every point of a run one table is encoded both on disk and in memory |
| RestartRuns.ListingLoads | network-daemon/src/wifi/wpa_supplicant/mod.rs:176-188 | loading a listing of a table, each profile once and in any order, gives the table |
| Restart.RebuiltIsScope | network-daemon/src/daemon/service.rs:515-613 | from two stores that encode one table, whatever the row order, rebuilding decodes exactly the profiles of one owner: the interface itself if it has any, the entries without an interface otherwise |
| RebuiltProfiles.RebuiltIs | network-daemon/src/daemon/service.rs:515-604 | from any two stores at all: a profile is rebuilt if and only if one of them names it for the interface, its metadata is the last such entry, or visible and automatic without one, and its secrets are those of the last such credential, or none; each store is scoped for itself |
| Restart.OwnersDiffer | network-daemon/src/storage/mod.rs:165-177 | metadata identity and credential key each coincide exactly for the same interface, SSID, BSSID and security |
| Restart.ReadsBack | network-daemon/src/daemon/service.rs:541-565 | the texts written for MAC addresses and security read back as the same slot |
| Restart.UpsertHolds | network-daemon/src/config/mod.rs:134-145 | the metadata vector goes on encoding the table after an upsert, with one entry a network |
| Restart.SaveHolds | network-daemon/src/storage/mod.rs:234-288 | the credential rows go on encoding the table after a save |
| Restart.SavedRow | network-daemon/src/storage/mod.rs:234-288 | a secret left out is completed from the row to the very secret that memory keeps |
| Restart.AddHolds | network-daemon/src/daemon/client.rs:588-628 | two independent writes, of metadata and of secrets, amount to one insertion into the encoded table |
| Restart.RemoveHolds | network-daemon/src/daemon/client.rs:631-683 | two independent deletions amount to one: the meant profiles of this interface, and those without an interface |
| NetworkStore.DaemonConfig.UpsertNetwork | network-daemon/src/config/mod.rs:134-145 | replaces the first entry of the same interface, SSID, BSSID and security in place, or appends |
| NetworkStore.DaemonConfig.RemoveNetwork | network-daemon/src/config/mod.rs:148-164 | keeps, in order, exactly the entries that do not match |
| NetworkStore.CredentialStore.Save | network-daemon/src/storage/mod.rs:234-288 | one row under the four-part key, omitted secrets taken from the row already there |
| NetworkStore.CredentialStore.Remove | network-daemon/src/storage/mod.rs:291-315 | deletes exactly the matching keys, of any security when none is named |
| NetworkStore.CredentialStore.LoadAll | network-daemon/src/storage/mod.rs:318-358 | lists every row once |
| NetworkStore.ClientHandler.PersistNetwork | network-daemon/src/daemon/client.rs:588-628 | changes metadata and rows, and only those, as the addition says |
| NetworkStore.ClientHandler.RemovePersisted | network-daemon/src/daemon/client.rs:631-683 | removes for the interface and for entries without one |
| PersistedProfiles.PersistedNetworks | network-daemon/src/daemon/service.rs:515-613 | returns each rebuilt profile once, sorted by SSID, security and BSSID |
| PersistedProfiles.SortedListingUnique | network-daemon/src/daemon/service.rs:606-613 | a table has only one sorted listing, so hash order never shows |
| PersistedProfiles.SortProfiles | network-daemon/src/daemon/service.rs:606-613 | sorts the profiles of a table without losing or repeating one |
| RebuiltProfiles.SortedMeans | network-daemon/src/daemon/service.rs:606-613 | of two profiles listed the first has the lesser SSID, or the same one and the lesser name of its authentication, or the same two and the lesser access point, none at all being the least |
| RebuiltProfiles.StringLessIff | network-daemon/src/daemon/service.rs:606-613 | a text precedes another if and only if they agree up to a point where the first ends or has the lesser character |
| Requests.AddNetwork | network-daemon/src/daemon/client.rs:293-345 | disk takes the addition whatever the backend answers |
| Requests.RemoveNetwork | network-daemon/src/daemon/client.rs:293-345 | disk takes the removal whatever the backend answers; the answer is that of the removal step, and a failure if nothing matches |
| Requests.LoadPersisted | network-daemon/src/daemon/service.rs:501-512 | the backend table becomes the rebuilt profiles |
| KnownNetworks.RunKeepsOwned | network-daemon/src/wifi/wpa_supplicant/mod.rs:392-784 | in every run, whatever commands fail, each profile stays in its own slot and no supplicant id is shared |
| KnownNetworks.RunKeepsExact | network-daemon/src/wifi/wpa_supplicant/mod.rs:392-784 | without failing commands and with credentials present, the live supplicant networks are at all times exactly those that profiles refer to |
| KnownNetworks.ConnectExactIff | network-daemon/src/wifi/wpa_supplicant/mod.rs:392-453 | connecting keeps that equality if and only if the profile does not lack its credential: a missing password or identity returns after the network was created and leaves it behind |
| KnownNetworks.LeakExample | network-daemon/src/wifi/wpa_supplicant/mod.rs:392-453 | a concrete profile without a password whose connection leaks a network |
| KnownNetworks.AddKeepsOwned | network-daemon/src/wifi/wpa_supplicant/mod.rs:468-566 | adding unregisters the replaced profile's id before the slot is overwritten, so no id is lost or shared |
| KnownNetworks.AcceptedIff | network-daemon/src/wifi/wpa_supplicant/mod.rs:500-523 | an addition is taken if and only if a PSK profile has a password of 8 to 63 bytes and an EAP profile an identity, given or stored; other profiles stay |
| KnownNetworks.RemoveKeepsOwned | network-daemon/src/wifi/wpa_supplicant/mod.rs:568-631 | removing drops the profile together with its id |
| KnownNetworks.ConnectKeepsOwned | network-daemon/src/wifi/wpa_supplicant/mod.rs:746-784 | connecting stores a fresh id in the chosen slot only |
| WpaSupplicant.Backend.LoadKnownNetworks | network-daemon/src/wifi/wpa_supplicant/mod.rs:176-188 | the nested table becomes the flat table with the last profile of each slot |
| WpaSupplicant.LastIsLoaded | network-daemon/src/wifi/wpa_supplicant/mod.rs:176-188 | of several profiles of one slot the last one listed is loaded |
| WpaSupplicant.LoadedIsListed | network-daemon/src/wifi/wpa_supplicant/mod.rs:176-188 | nothing is loaded that is not listed |
| WpaSupplicant.Backend.RegisterKnownNetwork | network-daemon/src/wifi/wpa_supplicant/mod.rs:468-566 | takes the addition step on the flat table: merge, validate, unregister, store |
| WpaSupplicant.Backend.RemoveKnownNetwork | network-daemon/src/wifi/wpa_supplicant/mod.rs:568-631 | takes the removal step; without a security one matching profile goes |
| WpaSupplicant.Backend.AddAndConfigureNetwork | network-daemon/src/wifi/wpa_supplicant/mod.rs:392-453 | success makes one new live network, enabled and told the SSID, BSSID, authentication, secrets and hiddenness of the profile and nothing else; failure leaves one behind just when the credential is missing, unless a command failed |
| WpaSupplicant.Backend.UnregisterWpaNetwork | network-daemon/src/wifi/wpa_supplicant/mod.rs:456-465 | asks for the removal of the profile's network and ignores the answer |
| WpaSupplicant.Backend.StrongestScanned | network-daemon/src/wifi/wpa_supplicant/mod.rs:633-718 | the known access point with the greatest signal, the earliest on ties, among all scan results of the network |
| WpaSupplicant.Backend.SelectInEntry | network-daemon/src/wifi/wpa_supplicant/mod.rs:633-718 | the requested BSSID or the roaming profile; without a request the roaming profile, then the strongest scanned, then any stored one; fails exactly when there is none |
| WpaSupplicant.Backend.SelectKnownCandidate | network-daemon/src/wifi/wpa_supplicant/mod.rs:633-718 | the choice is always a stored profile of the SSID and of the security asked for, and there is one unless some entry looked at has none |
| WpaSupplicant.Backend.ConnectKnown | network-daemon/src/wifi/wpa_supplicant/mod.rs:746-784 | connects with such a candidate and takes the connection step, so that on success wpa_supplicant has selected an enabled network that says what the profile says; changes nothing only if some entry of the SSID has no candidate, and without a BSSID if and only if no profile is stored |
| LinkRestore.CreateConfiguredLinks | network-daemon/src/interface/mod.rs:171-233 | ends with the least set closed under creation, whatever the order; true exactly when it grew; each name once; at most n(n+1)/2 attempts over the missing links |
| LinkRestore.Round | network-daemon/src/interface/mod.rs:205-223 | one pass creates only what must exist, keeps the rest in order, and without progress leaves nothing that could be created |
| LinkRestore.LeastUnique | network-daemon/src/interface/mod.rs:192-199 | the outcome is the same for every order of the configuration |
| LinkRestore.CyclesStayOut | network-daemon/src/interface/mod.rs:203-204 | links that wait for one another are never created |
| LinkRestore.RestoredIff | network-daemon/src/interface/ifconfig.rs:167-225 | by the daemon's own checks a configured link that was missing exists in the end if and only if its names are proper, its tag is 1 to 4094, and its parent or members exist in the end or, for a WLAN, its device does |
| LinkRestore.ParametersAreMonotone | network-daemon/src/interface/ifconfig.rs:65-104 | the rule by valid names, tags, parents and members satisfies the monotonicity the loop needs |
| InterfaceTable.InsertExactIff | network-daemon/src/interface/table.rs:31-67 | a plain insertion keeps every index exact if and only if no other name has the index and the name is new or keeps its type, state and parent |
| InterfaceTable.UpdateExactIff | network-daemon/src/interface/table.rs:100-104 | removing first, only a shared index can break exactness |
| InterfaceTable.RemoveExact | network-daemon/src/interface/table.rs:72-95 | a removal keeps every index exact |
| InterfaceTable.InsertCovers | network-daemon/src/interface/table.rs:31-67 | with no hypothesis every entry stays listed under its own type, parent and state |
| InterfaceTable.RemoveCovers | network-daemon/src/interface/table.rs:72-95 | and after a removal |
| InterfaceTable.Table.Insert | network-daemon/src/interface/table.rs:31-67 | the six maps step by step; an exact table stays exact if and only if the entry fits |
| InterfaceTable.Table.Remove | network-daemon/src/interface/table.rs:72-95 | returns the entry and takes it out of all six maps; an exact table stays exact |
| InterfaceTable.Table.Update | network-daemon/src/interface/table.rs:100-104 | returns the replaced entry; an exact table stays exact if and only if no other name has the index |
| InterfaceTable.Table.GetByIndex | network-daemon/src/interface/table.rs:112-116 | in an exact table finds an entry just when one has the index, and the right one |
| InterfaceTable.Table.ListByType | network-daemon/src/interface/table.rs:142-155 | in an exact table lists exactly the entries of the type |
| InterfaceTable.Table.ListByParent | network-daemon/src/interface/table.rs:158-168 | in an exact table lists exactly the entries of the parent |
| InterfaceTable.Table.ListByState | network-daemon/src/interface/table.rs:171-181 | in an exact table lists exactly the entries in the state |
| InterfaceEvents.StepExactIff | network-daemon/src/interface/mod.rs:816-905 | a manager event keeps the table exact if and only if it is safe; a refresh by entries with different names and indices always does |
| InterfaceEvents.RunExact | network-daemon/src/interface/mod.rs:816-905 | every run of safe events keeps all indices exact |
| InterfaceEvents.RunCovers | network-daemon/src/interface/mod.rs:816-905 | every run at all keeps each entry listed under its own keys |
| InterfaceEvents.InsertedAllExact | network-daemon/src/interface/mod.rs:108-113 | refilling a cleared table with distinct names and indices makes it exact |
| InterfaceEvents.ReportsKeepManaged | network-daemon/src/interface/mod.rs:836-868 | over any run of kernel reports gateways, DHCP and SLAAC flags and the state of an unmanaged or wireless interface survive |
| InterfaceEvents.LastReportShows | network-daemon/src/interface/mod.rs:836-868 | index, type, parent and addresses are those of the interface's last report, and so is the state unless the entry before was unmanaged or wireless; a new entry is all as reported |
| InterfaceEvents.NoticesShow | network-daemon/src/interface/mod.rs:816-905 | what is announced is the entry then in the table, as added if the kernel reported an addition and as changed otherwise; reports of an addition or change always are |
| InterfaceEvents.ReportsRun | network-daemon/src/interface/mod.rs:836-868 | the table over a run of reports holds exactly the entries so reported |
| InterfaceEvents.MirrorStaysIff | network-daemon/src/interface/mod.rs:816-905 | a subscriber's mirror of the table stays one exactly when the change is announced; the end of a link never is |
| InterfaceEvents.StaleMirrorExample | network-daemon/src/interface/mod.rs:828-835 | the reported end of a link leaves it in every mirror |
| InterfaceEvents.RefreshAt | network-daemon/src/interface/mod.rs:95-128 | the announcements of a refresh correct a mirror at exactly the names whose entry changed |
| InterfaceEvents.RefreshMirrors | network-daemon/src/interface/mod.rs:95-128 | removed-then-added announcements in any order turn a mirror of the old table into the new table |
| InterfaceManager.Manager.InterfaceAddedReport | network-daemon/src/interface/mod.rs:818-827 | stores and announces; an exact table stays exact if and only if the entry fits |
| InterfaceManager.Manager.InterfaceRemovedReport | network-daemon/src/interface/mod.rs:828-835 | removes without announcing and keeps an exact table exact |
| InterfaceManager.Manager.InterfaceChangedReport | network-daemon/src/interface/mod.rs:836-868 | stores the report with what the daemon manages carried over, and announces the entry so stored; an exact table stays exact if and only if no other name has the index |
| InterfaceManager.Manager.UpdateExternalInterfaceState | network-daemon/src/interface/mod.rs:871-889 | sets and announces the state, or reports that there is no such interface |
| InterfaceManager.Manager.MarkAsUnManaged | network-daemon/src/interface/mod.rs:890-905 | the same with the unmanaged state |
| InterfaceManager.Manager.RefreshInterfaces | network-daemon/src/interface/mod.rs:95-128 | the table becomes the snapshot with saved policies, and exactly the differences are announced, lost ones first |
| InterfaceManager.Manager.ApplySavedPolicies | network-daemon/src/interface/mod.rs:134-168 | applies the saved flags, the SLAAC flag as far as the kernel takes it; a configuration that cannot be loaded leaves the snapshot alone |
| InterfaceManager.PoliciesHold | network-daemon/src/interface/mod.rs:134-168 | applying policies changes nothing but two flags, and with a willing kernel they are the saved ones |
| InterfaceManager.RefreshShowsSlaac | network-daemon/src/interface/mod.rs:134-168 | a refresh from a snapshot that is right about SLAAC leaves a table that is, whatever policies the kernel refuses |
| InterfaceManager.SavedFlagsReturn | network-daemon/src/interface/mod.rs:375-413 | the flags of a change come back with every later refresh that can load them; one that cannot shows the kernel's; what was never saved starts as DHCP without SLAAC |
| InterfaceManager.Manager.ModLink | network-daemon/src/interface/mod.rs:647-746 | a socket and its commands for each family, link state, SLAAC, DHCP and policy in order, up to the first failure, which may be a socket for an unchanged family or the saving of the policy |
| InterfaceManager.FailedChangeInvisibleIff | network-daemon/src/interface/mod.rs:725-744 | a failing change saves no policy, and leaves entries and feed alone if and only if a command failed or the flags are as they were: the save that may fail comes last |
| InterfaceManager.FailedChangeKeepsTable | network-daemon/src/interface/mod.rs:725-744 | in an exact table the whole table is then as before |
| InterfaceManager.FailedSaveExample | network-daemon/src/interface/mod.rs:375-413 | a configuration that cannot be saved: the answer is an error, the DHCP flag is set and announced |
| InterfaceManager.ChangeElsewhere | network-daemon/src/interface/mod.rs:655-692 | a change never touches another interface's addresses |
| InterfaceManager.FlagsAfter | network-daemon/src/interface/mod.rs:712-743 | the entry has the flags as set, and only a new DHCP flag is announced |
| InterfaceManager.ChangeMeans | network-daemon/src/interface/mod.rs:655-744 | a change that goes through was possible in both families and takes its step in each independently; it goes through if and only if every command does and the policy, if any, can be saved |
| InterfaceManager.CommandsFlags | network-daemon/src/interface/mod.rs:716-730 | link status and SLAAC of this interface end as asked, those of others as they were; SLAAC is set last of all commands |
| InterfaceManager.ChangeShowsSlaac | network-daemon/src/interface/mod.rs:716-744 | no change makes an entry's SLAAC flag differ from the kernel, whichever command or save fails |
| InterfaceManager.Manager.DhcpV4Set | network-daemon/src/interface/mod.rs:747-802 | opens the socket, stores the router of the new lease as gateway, replaces the address, and announces only a change of gateway alone |
| InterfaceManager.LeasePrefix | network-daemon/src/interface/mod.rs:753-765 | a contiguous mask of p ones gives the lease address the prefix p |
| KernelAddresses.ModifiedMeans | network-daemon/src/interface/mod.rs:655-692 | append, remove, clear, replace: what each needs and what it makes of one family's addresses |
| KernelAddresses.ModifiedWithin | network-daemon/src/interface/mod.rs:655-692 | one that fails midway adds nothing and takes only what it names; without a socket it does nothing, even if nothing is to change |
| KernelAddresses.ModifiedElsewhere | network-daemon/src/interface/mod.rs:655-692 | a modification concerns one family of one interface |
| KernelAddresses.DeletedAllEffect | network-daemon/src/interface/mod.rs:669-676 | deletions in turn that all go through take out just the listed addresses, each listed once and present |
| KernelAddresses.NetlinkModifier.ModIp | network-daemon/src/interface/mod.rs:655-692 | the socket is opened first, so that even no change can fail; then the commands sent equal the specified modification |
| KernelAddresses.NetlinkModifier.AddAddress | network-daemon/src/netlink/modifier.rs:55-81 | adding is exclusive: it succeeds with an address that was not there, and a willing kernel refuses no other |
| KernelAddresses.NetlinkModifier.DelAddress | network-daemon/src/netlink/modifier.rs:162-186 | deleting takes exactly an address that was there, and a willing kernel refuses no other |
| LeaseConservation.LeaseConserved | network-daemon/src/interface/mod.rs:747-802 | whatever the servers answer, after any run the kernel has the address of the lease held, under the leading ones of its mask, and those of the interface's own that no lease was moved away from, and the table has its router as gateway or none if it has none; all of its own are there if and only if each one so left is the address held |
| LeaseConservation.RouterReachesTable | network-daemon/src/dhcp/client.rs:441-468 | once an acknowledgement has extended a lease, the gateway in the table is the first router that it lists |
| LeaseConservation.GrantReachesKernel | network-daemon/src/dhcp/client.rs:323-355 | a lease requested anew has the address and mask of its acknowledgement in the kernel and its router in the table |
| LeaseConservation.ChainLeaves | network-daemon/src/interface/mod.rs:747-802 | replaying any chain of notifications, interleaved with calm reports, has that effect |
| LeaseConservation.ChainConservesIff | network-daemon/src/interface/mod.rs:747-802 | the interface's own addresses survive the chain if and only if none of them was moved away from but the one held last |
| LeaseConservation.LeaseSetSettles | network-daemon/src/interface/mod.rs:747-802 | one notification takes the address it moves away from, be it the interface's own besides |
| LeaseConservation.LostAddressExample | network-daemon/src/interface/mod.rs:747-802 | an address of the interface's own, leased and then expired, is gone |
| LeaseConservation.LeaseSetIff | network-daemon/src/interface/mod.rs:747-802 | one notification moves the interface from one lease to the next if and only if the address stays or neither was there for another reason |
| LeaseConservation.FailedLeaseSetWithin | network-daemon/src/interface/mod.rs:784-791 | a notification that fails adds no address and takes none but the old lease's |
| LeaseConservation.GatewayIsHeard | network-daemon/src/interface/mod.rs:775-802 | unless the socket cannot be opened, when nothing happens, subscribers hear of a new gateway: at once when it alone changed, otherwise with the next report of the interface |
| LeaseConservation.CalmKeeps | network-daemon/src/interface/mod.rs:836-868 | reports in between keep addresses, index and gateway |
| LeaseConservation.LifeIsChain | network-daemon/src/dhcp/client.rs:650-768 | over a client's whole life the notifications form a chain that ends with its lease |
| LeaseConservation.RestartedClientIff | network-daemon/src/dhcp/client.rs:650-669 | a client started after a crash ends up right if and only if it gets the same address and leaves no router behind |
| LeaseConservation.LeftoverAddressExample | network-daemon/src/dhcp/client.rs:650-669 | a client given another address after a crash leaves the interface with both |
| DhcpClient.HandledKeepsChain | network-daemon/src/dhcp/client.rs:690-768 | every event extends the chain; failures and crashes say nothing and keep the lease; only a rejection loses it |
| DhcpClient.LostIff | network-daemon/src/dhcp/client.rs:701-749 | a lease is lost if and only if it ends or its extension is refused, and the request that follows is neither granted nor refused |
| DhcpClient.ExtendingIs | network-daemon/src/dhcp/client.rs:695-767 | before its end an acknowledgement extends a lease and is told, with the new times as answer; an exchange that nothing decides leaves lease and manager alone and fails |
| DhcpClient.AnewIs | network-daemon/src/dhcp/client.rs:703-749 | after the end or a refusal: a granted request replaces the lease, a refused one crashes the client, any other failure loses the lease and is told |
| DhcpClient.CrashesIff | network-daemon/src/dhcp/client.rs:709-723 | the client crashes if and only if the first deciding message after a request is a refusal, following an offer that names a server, and so was that of the extension, if one was due; or there is no lease to extend |
| DhcpClient.CrashExample | network-daemon/src/dhcp/client.rs:709-723 | one server that offers and then refuses everything crashes the client |
| DhcpClient.RequestRefusedIff | network-daemon/src/dhcp/client.rs:171-355 | a request is refused if and only if its traffic has such an offer and such a refusal |
| DhcpClient.RequestedIff | network-daemon/src/dhcp/client.rs:171-355 | a request yields a lease if and only if an offer that names its server decides, then an acknowledgement with its address whose options say the rest |
| DhcpClient.DecidedExchange | network-daemon/src/dhcp/client.rs:274-321 | an exchange comes to what its first deciding message says |
| DhcpClient.UndecidedExchange | network-daemon/src/dhcp/client.rs:274-321 | and fails without one |
| DhcpClient.RefusedIff | network-daemon/src/dhcp/client.rs:386-440 | an exchange is refused if and only if its first deciding message is a refusal with the right id |
| DhcpClient.ServerIff | network-daemon/src/dhcp/client.rs:188-238 | an offer that names a server is had if and only if the first deciding message is one |
| DhcpClient.Client.Start | network-daemon/src/dhcp/client.rs:650-669 | notifies of the first lease, or does not start |
| DhcpClient.Client.Handle | network-daemon/src/dhcp/client.rs:690-768 | answer, lease and notifications are those specified for the event |
| DhcpClient.Client.RequestAnew | network-daemon/src/dhcp/client.rs:709-745 | of three attempts without a timeout only the first can count |
| DhcpClient.Request | network-daemon/src/dhcp/client.rs:171-355 | offer, then acknowledgement, then lease, with each way to fail |
| DhcpClient.Extend | network-daemon/src/dhcp/client.rs:357-475 | the lease overlaid with what the acknowledgement says |
| DhcpClient.ExtensionKeepsAddress | network-daemon/src/dhcp/client.rs:357-475 | renewing and rebinding keep address and server |
| DhcpClient.Exchange | network-daemon/src/dhcp/client.rs:267-321 | the first decisive message within three windows of 5, 10 and 20 seconds, waiting through just those up to it, or 35 seconds when nothing decides |
| DhcpClient.FirstDecisiveDecides | network-daemon/src/dhcp/client.rs:274-315 | the first message with this transaction's id and a decisive type decides, whatever surrounds it |
| DhcpClient.VerdictIsReceived | network-daemon/src/dhcp/client.rs:274-315 | nothing is accepted that was not received with the right id and type |
| DhcpClient.ReadWindow | network-daemon/src/dhcp/client.rs:274-315 | the receive loop computes that verdict |
| DhcpClient.Watchdog.TimerEvent | network-daemon/src/dhcp/lease.rs:107-156 | the latest of renewal, rebinding and expiry that is due is handled; new times start over when it is done; as long as the client holds a lease and has not crashed, a deadline of that very lease is still to come |
| LeaseTimers.NextStage | network-daemon/src/dhcp/lease.rs:66-81 | wakes with the latest stage that is due |
| LeaseTimers.StagesInOrder | network-daemon/src/dhcp/lease.rs:66-81 | whatever T1, T2 and the lease time, a stream has one to three events with growing indices, each due with all later ones ahead, the last one the expiry |
| LeaseTimers.ExpiryOnTimeIff | network-daemon/src/dhcp/lease.rs:56-87 | with a prompt clock the expiry is on time if and only if no timer makes the stream sleep past it |
| LeaseTimers.LateExpiryExample | network-daemon/src/dhcp/lease.rs:56-87 | a lease of ten minutes with a T1 of half an hour expires after half an hour |
| LeaseTimers.OrderedTimersArePunctual | network-daemon/src/dhcp/lease.rs:56-87 | with T1 <= T2 <= lease every event comes at its own deadline (section 4.4.5 of RFC 2131) |
| Lease.LeaseBuilder.Build | libnetwork-daemon/src/dhcp.rs:72-88 | needs address, server and mask; default timers satisfy T1 <= T2 <= lease |
| Lease.RequestedLease | network-daemon/src/dhcp/client.rs:323-352 | the lease built from an acknowledgement's options |
| Lease.RenewedLease | network-daemon/src/dhcp/client.rs:444-468 | fields left out keep their values |
| Lease.FieldsAreSaid | network-daemon/src/dhcp/client.rs:444-468 | the loop's result says exactly what the options say |
| Lease.GrantedIff | libnetwork-daemon/src/dhcp.rs:72-88 | the lease built from options has the values they give; absent timers are a half and seven eighths of the lease time, rounded down, and without a mask there is none |
| Lease.RenewedIff | network-daemon/src/dhcp/client.rs:444-468 | a lease extended by options has their values, and its own where they say nothing |
| Lease.OrderIrrelevant | network-daemon/src/dhcp/client.rs:444-468 | the order of options makes no difference |
| Lease.RenewalMayPassExpiry | network-daemon/src/dhcp/client.rs:444-468 | a renewal can leave T1 beyond the end of the lease |
| Lease.RenewalKeepsOrderIff | network-daemon/src/dhcp/client.rs:444-468 | a renewal with a lease time and no timers keeps T1 <= T2 <= lease if and only if it lasts to the old T2 |
| DhcpClient.ExtendedExpiryIff | network-daemon/src/dhcp/lease.rs:56-87 | after such a renewal the expiry is on time if and only if the lease lasts to the old T2 or ends with T1 |
| Attempt.Attempt | network-daemon/src/dhcp/utils.rs:11-38 | at most n runs, one retry action after each run that goes on, windows that double, the first break's result or exhaustion, and overflow exactly when a doubled timeout is too long |
| Attempt.TotalIs | network-daemon/src/dhcp/utils.rs:23-36 | k windows total t(2^k - 1) |
| Attempt.WindowIs | network-daemon/src/dhcp/utils.rs:23-36 | window k is t 2^k |
| Attempt.NoTimeoutAllowsOne | network-daemon/src/dhcp/utils.rs:23-35 | without a timeout there is one attempt at most: the first retry overflows |
| RouteTable.RunMirrors | network-daemon/src/route/mod.rs:298-315 | following the kernel's reports keeps the table, index and all, equal to its routes, if the kernel has one route a prefix |
| RouteTable.Run | network-daemon/src/route/mod.rs:298-315 | whatever the kernel sends, no prefix has an empty set of routes or two routes, and every stored route is listed under its own interface |
| RouteTable.RunStores | network-daemon/src/route/mod.rs:298-315 | what is known of a prefix is the first addition or the last change, until a deletion of whichever route of the prefix |
| RouteTable.KnownIff | network-daemon/src/route/mod.rs:298-315 | for any run: nothing is known of a prefix if and only if nothing was and only deletions came, or only deletions followed one; a route is known if and only if it was before, or a change or an addition to the prefix while vacant put it in place, and only additions to the prefix followed |
| RouteTable.VacantIff | network-daemon/src/route/mod.rs:298-315 | at every point of a run a prefix is without a route exactly when it is vacant by the events |
| RouteTable.InsertStores | vendor/route_manager/src/common/mod.rs:283-291 | routes are ordered by prefix length alone, so the set of a prefix keeps the route it has and drops the new one |
| RouteTable.InsertSoundIff | network-daemon/src/route/table.rs:27-48 | every listed prefix goes on having a route on its interface if and only if the prefix was vacant or its route is on that interface |
| RouteTable.InsertStale | network-daemon/src/route/table.rs:27-48 | an insertion decides whether its own listing is stale, and changes no other |
| RouteTable.RemoveStale | network-daemon/src/route/table.rs:50-95 | a removal neither makes nor mends a stale listing |
| RouteTable.ChangeSoundIff | network-daemon/src/route/mod.rs:298-315 | of all reports only an addition to a prefix that another interface has makes the index unsound |
| RouteTable.DeleteTakesIff | network-daemon/src/route/mod.rs:302-306 | a deletion takes the reported route and no other if and only if it is the one stored, or none of its prefix is |
| RouteTable.TwoAddsExample | network-daemon/src/route/table.rs:27-48 | 10.0.0.0/8 added on two interfaces: one route, two listings, and deleting the second takes the first |
| RouteTable.StaleSweepExample | network-daemon/src/route/table.rs:98-111 | removing by the second interface takes the first one's route |
| RouteTable.MirrorsIff | network-daemon/src/route/table.rs:9-14 | standing for the kernel's routes is being valid, sound, and knowing just those |
| RouteTable.SweepTakesIff | network-daemon/src/route/table.rs:98-111 | removing by interface takes the interface's routes and no others if and only if no stale listing points at another interface's route |
| RouteTable.FoundAreAll | network-daemon/src/route/table.rs:147-157 | stale listings or not, what is found for an interface are all the stored routes over it, each once |
| RouteTable.MirrorUnique | network-daemon/src/route/table.rs:9-14 | only one table stands for given routes |
| RouteTable.MirrorIsExact | network-daemon/src/route/table.rs:9-14 | such a table is valid, its index sound, and it knows just the kernel's routes |
| RouteTable.SweptIsAll | network-daemon/src/route/table.rs:98-111 | with one route a prefix, removing by interface leaves a table that stands for the other interfaces' routes |
| RouteTable.Table.Insert | network-daemon/src/route/table.rs:27-48 | the first route of a prefix stays; the interface is listed in any case, soundly if and only if there was room |
| RouteTable.Table.Remove | network-daemon/src/route/table.rs:50-95 | takes the stored route of the prefix and its listing, or nothing when there is none |
| RouteTable.Table.RemoveByOif | network-daemon/src/route/table.rs:98-111 | takes whatever is stored of the prefixes listed for the interface, and their listings |
| RouteTable.Table.RemoveDefaultRoute | network-daemon/src/route/table.rs:114-120 | removes the default route of the family, if there is one |
| RouteTable.Table.Find | network-daemon/src/route/table.rs:122-130 | nothing exactly when no route of the prefix is stored, and otherwise that one |
| RouteTable.Table.FindDefault | network-daemon/src/route/table.rs:132-145 | nothing exactly when no default route is stored |
| RouteTable.Table.FindByOif | network-daemon/src/route/table.rs:147-157 | the route on the interface of each listed prefix, skipping listings without one |
| RouteTable.Table.Follow | network-daemon/src/route/mod.rs:298-315 | adds, deletes or replaces as reported, and says when the index stays sound |
| BackupRoutes.Table.Insert | network-daemon/src/route/backup.rs:34-50 | adds the interface's pairs to both maps, which stay converses without empty buckets |
| BackupRoutes.Table.Remove | network-daemon/src/route/backup.rs:52-64 | takes exactly the interface's pairs from both maps |
| BackupRoutes.Table.NetOutputs | network-daemon/src/route/backup.rs:70-75 | the relational image of a network, or nothing exactly when it is empty |
| BackupRoutes.Table.FirstGateway | network-daemon/src/route/backup.rs:66-68 | some recorded gateway with its interface, if there is any |
| BackupRoutes.InsertIsUnion | network-daemon/src/route/backup.rs:34-50 | insertion is union with the interface's pairs and replaces nothing |
| BackupRoutes.RemoveIsExact | network-daemon/src/route/backup.rs:52-64 | removal takes the interface's own pairs and no others |
| BackupRoutes.InsertKeepsSound | network-daemon/src/route/backup.rs:34-50 | every interface with networks has a gateway |
| RouteManager.RecordIsFold | network-daemon/src/route/mod.rs:217-286 | an interface's gateway and networks are the fold of its own events, whatever the others do |
| RouteManager.OneEvent | network-daemon/src/route/mod.rs:217-286 | an event records, clears or leaves its interface's record and no other |
| RouteManager.LastWordDecides | network-daemon/src/route/mod.rs:217-286 | the last recording or clearing event decides about the gateway |
| RouteManager.DefaultIsLive | network-daemon/src/route/mod.rs:43-81 | a default route is asked for only when the table has none, over the gateway that the interface's own events last gave, and none is asked for only if nobody has one |
| RouteManager.AddedBackOverSurvivor | network-daemon/src/route/mod.rs:100-155 | a route is added back over another interface whose own events recorded the network |
| RouteManager.CleanUpDeletesIff | network-daemon/src/route/mod.rs:83-97 | after any run of route changes a clean-up deletes a route over the interface if and only if the events put it in place and only additions to its prefix followed |
| RouteManager.MissedRouteExample | network-daemon/src/route/mod.rs:83-97 | with a route to 10.0.0.0/8 over each of two interfaces, cleaning up after the second deletes nothing |
| RouteManager.SharedNetworkRecorded | network-daemon/src/route/mod.rs:217-286 | an interface whose address shares the leading bits of another address is on record for its network |
| RouteManager.SharedNetworkComesBack | network-daemon/src/route/mod.rs:83-155 | when a clean-up finds a dead route to the network of such an address, the log holds its deletion and its addition over an interface that survives |
| RouteManager.RequestsAre | network-daemon/src/route/mod.rs:83-155 | every dead route is deleted and no other; only picked networks are added |
| RouteFailover.Failover | network-daemon/src/route/mod.rs:83-161 | in any run, carrying out the requests after the end of an interface on a kernel with one route a prefix moves each of its networks to another interface whose own events recorded it, takes out those that none recorded, and touches no other |
| RouteFailover.CleanedUp | network-daemon/src/route/mod.rs:83-155 | the same for one clean-up from the tables |
| RouteFailover.DefaultReplayed | network-daemon/src/route/mod.rs:43-81 | in any run, a kernel without a default route has one once the requests are carried out, over a gateway that an interface's own events last gave, unless none did |
| RouteFailover.DeletedOnce | network-daemon/src/route/mod.rs:83-97 | each dead route is deleted once |
| RouteFailover.DownReportCleansUp | network-daemon/src/route/mod.rs:260-300 | the report that a wired link is no longer connected reaches the route manager as an event that cleans up after it |
| RouteManager.Manager.AddDefaultIfNeeded | network-daemon/src/route/mod.rs:43-81 | at most one request a family, over a recorded gateway, exactly when one is needed and possible |
| RouteManager.Manager.DeadRouteCleanup | network-daemon/src/route/mod.rs:83-161 | one deletion for each route stored over the interface, each followed by an add-back exactly when another interface has the network |
| RouteManager.Manager.OnAdded | network-daemon/src/route/mod.rs:219-241 | records gateways of either family and asks for default routes |
| RouteManager.Manager.OnRemoved | network-daemon/src/route/mod.rs:242-248 | clears both records and cleans up |
| RouteManager.Manager.OnChanged | network-daemon/src/route/mod.rs:249-283 | records or clears, cleans up unless connected, and asks for default routes |
| RouteManager.Manager.OnRouteChange | network-daemon/src/route/mod.rs:292-323 | follows the change and asks for default routes |
| RouteRuns.Handle | network-daemon/src/route/mod.rs:206-323 | every event is one step of the run relation |
| RouteRuns.StepsRun | network-daemon/src/route/mod.rs:206-323 | steps one after the other make a run |
| RouteRuns.RunFollows | network-daemon/src/route/mod.rs:206-323 | after any number of events the backups are the fold of the interface events and the table that of the route changes |
| RouteRuns.EveryRequestJustified | network-daemon/src/route/mod.rs:43-161 | in every run every request in the log was made on some event that, with those before it, justifies it: a deletion of a route in place over a dead interface, its addition over another that recorded the network, or a default route over a live gateway where none is known |
| RouteRuns.AskedIsJustified | network-daemon/src/route/mod.rs:43-161 | and so is each single request of each event |
| RouteRuns.DeletionDue | network-daemon/src/route/mod.rs:83-97 | an event that cleans up deletes every route in place over its interface |
| RouteRuns.DefaultsDue | network-daemon/src/route/mod.rs:43-81 | an event that asks for defaults asks for one in each family that has none known and a gateway |
| RouteManager.TableOf | network-daemon/src/route/mod.rs:187-192 | the table starts with the first route of each prefix that the kernel lists |
| EditCompile.EditorMeans | network-manager-tui/src/app.rs:1869-1941 | actions that all went through leave IPv4 with exactly the manual list or nothing, IPv6 with the manual list, nothing or what it had, both flags and the saved policy as edited, SLAAC so in the kernel too, and the link up or down as it was |
| EditCompile.EditMeans | network-manager-tui/src/app.rs:1910-1941 | each family ends with its own plan, however long the other's list is and whatever was reported in between |
| EditCompile.EditProceeds | network-manager-tui/src/app.rs:2988-2996 | with feasible plans, a willing kernel and a first policy that can be saved no action fails |
| EditCompile.EditNeedsSave | network-manager-tui/src/app.rs:2988-2996 | actions that all went through had their first policy saved |
| EditCompile.EditNeedsFeasible | network-manager-tui/src/app.rs:2988-2996 | and actions that all went through were feasible: listed once and present, manual values distinct and not among the unlisted |
| EditCompile.ExactlyTheListIff | network-manager-tui/src/app.rs:1869-1908 | a family ends with exactly the list if and only if the table knew all of the kernel's addresses |
| EditCompile.CompilesIff | network-manager-tui/src/app.rs:1869-1941 | editing is refused exactly when a manual family has no address or a wrong one |
| EditCompile.CompilesToPlans | network-manager-tui/src/app.rs:1910-1941 | the zipped actions are the two plans side by side |
| EditCompile.StageStep | network-manager-tui/src/app.rs:1910-1941 | each action takes each family one stage further |
| EditCompile.TraceReaches | network-manager-tui/src/app.rs:2988-2996 | after any number of actions both families are at that stage and the flags were set once, by the first |
| EditCompile.ValuesIff | network-manager-tui/src/app.rs:1831-1867 | values parse exactly when every entry does and its prefix fits |
| EditCompile.SendActions | network-manager-tui/src/app.rs:2988-2996 | the actions go through one by one up to the first that fails |
| Ssid.RoundTrip | libnetwork-daemon/src/utils/ssid.rs:35-156 | unescaping an escaped SSID gives it back, for every string of Unicode scalar values |
| Ssid.EscapeInjective | libnetwork-daemon/src/utils/ssid.rs:138-156 | different SSIDs have different escapes |
| Ssid.EscapedIsSafe | libnetwork-daemon/src/utils/ssid.rs:138-156 | an escaped SSID has no ASCII control character, no space and no quote without a backslash before it |
| Ssid.BytesBounded | libnetwork-daemon/src/utils/ssid.rs:35-118 | for every input the bytes collected are at most the UTF-8 bytes of the input |
| Ssid.UnescapedBytesOfEscaped | libnetwork-daemon/src/utils/ssid.rs:35-156 | the bytes collected from an escape are the UTF-8 of the original |
| Ssid.AnyNotation | libnetwork-daemon/src/utils/ssid.rs:35-118 | whatever notation each byte is written in, plain, letter, hexadecimal in either case or octal, the bytes are collected, and the SSID is recovered when they are its UTF-8 |
| Ssid.HexEscape | libnetwork-daemon/src/utils/ssid.rs:48-62 | a hexadecimal escape is a byte if and only if two digits follow, or a plus sign and a digit; otherwise it stays, with a small x |
| Ssid.OctalEscape | libnetwork-daemon/src/utils/ssid.rs:84-108 | one to three octal digits are the byte they denote if there is one, and stay otherwise |
| Ssid.UnknownEscape | libnetwork-daemon/src/utils/ssid.rs:109-112 | any other backslash stays |
| Ssid.EscapeCharIs | libnetwork-daemon/src/utils/ssid.rs:138-156 | only quotes, backslashes, spaces and control characters are escaped, by a letter where there is one |
| Ssid.EscapeSsid | libnetwork-daemon/src/utils/ssid.rs:138-156 | the loop computes the escape |
| Ssid.UnescapeSsid | libnetwork-daemon/src/utils/ssid.rs:35-118 | the loop computes the lossy decoding of the collected bytes |
| Ssid.CollectBytes | libnetwork-daemon/src/utils/ssid.rs:39-115 | the iterator loop collects the specified bytes |
| Ssid.ConsumeEscape | libnetwork-daemon/src/utils/ssid.rs:47-108 | one escape is consumed as specified, known or not |
| Utf8.DecodeEncode | libnetwork-daemon/src/utils/ssid.rs:117-118 | lossy decoding undoes encoding on scalar values (section 3 of RFC 3629) |
| Utf8.DecodeLossyIs | libnetwork-daemon/src/utils/ssid.rs:117-118 | any bytes: the encoding of a character gives the character, and the longest start of an encoding that breaks off, or a byte that starts none, gives one replacement (section 3.9 of the Unicode Standard) |
| Utf8.EncodeScalar | libnetwork-daemon/src/utils/ssid.rs:117-118 | encoding undoes the decoding of every valid sequence |
| MacText.RoundTrip | libnetwork-daemon/src/interface/mac.rs:21-54 | a displayed MAC address parses back |
| MacText.ParseDisplay | libnetwork-daemon/src/interface/mac.rs:21-54 | so it does in any letter case and with space around it |
| MacText.ParseIff | libnetwork-daemon/src/interface/mac.rs:21-46 | any text is the address if and only if, without padding, it is six hexadecimal numbers with colons between them, each of one sign at most and of any length |
| Text.ParseU8Iff | libnetwork-daemon/src/interface/mac.rs:25-28 | a text is a number in a radix if and only if, after one plus sign at most, it has digits and nothing else and their number fits a byte |
| Text.DigitValueIff | libnetwork-daemon/src/interface/mac.rs:25-28 | a digit is one of the first numerals in either case |
| MacText.DisplayIs | libnetwork-daemon/src/interface/mac.rs:48-54 | seventeen characters: six pairs of small hexadecimal digits and five colons |
| MacText.DisplayInjective | libnetwork-daemon/src/interface/mac.rs:48-54 | different addresses are displayed differently |
| SecurityName.RoundTrip | libnetwork-daemon/src/wifi/security.rs:33-54 | a displayed security reads back |
| SecurityName.FromNameIff | libnetwork-daemon/src/wifi/security.rs:43-54 | any text is a type if and only if it is one of the names of the type in any case and with any space around it |
| SecurityName.DisplayIsName | libnetwork-daemon/src/wifi/security.rs:33-54 | the name written is the first of those names, but for its case |
| SecurityName.DisplayInjective | libnetwork-daemon/src/wifi/security.rs:33-41 | different securities are displayed differently |
| Cidr.NetIdIs | libnetwork-daemon/src/ip.rs:25-36 | masking is a - a mod 2^(W-p), for any width and prefix |
| Cidr.NetIdNested | libnetwork-daemon/src/ip.rs:123-135 | masking with two prefixes in either order is masking with the shorter |
| Cidr.NetIdIdempotent | libnetwork-daemon/src/ip.rs:25-36 | masking twice is masking once |
| Cidr.SameNetworkIff | libnetwork-daemon/src/ip.rs:25-36 | two addresses have the same network if and only if they share the first p bits |
| Cidr.MaskIs | libnetwork-daemon/src/ip.rs:25-36 | the shifted mask is 2^W - 2^(W-p), also when every bit is shifted out |
| Cidr.LeadingOnesOfMask | network-daemon/src/interface/mod.rs:753-765 | the leading ones of a contiguous mask are its prefix length |
| Cidr.LeadingOnesAre | network-daemon/src/interface/mod.rs:753-765 | in any word they are ones up to the first zero |
| Cidr.MaskRecoveredIff | network-daemon/src/interface/mod.rs:753-765 | a lease mask survives the conversion exactly when it is contiguous |
| FreshNames.NextInterfaceName | network-manager-tui/src/app.rs:2659-2672 | the least unused index, at most the number of interfaces |
| FreshNames.Pigeonhole | network-manager-tui/src/app.rs:2659-2672 | k taken names need k interfaces |
| FreshNames.DecimalValue | network-manager-tui/src/app.rs:2659-2672 | decimal printing is injective |
| FreshNames.DecimalShape | network-manager-tui/src/app.rs:2659-2672 | digits without a leading zero |
| FreshNames.CreateAutoWlans | network-daemon/src/interface/mod.rs:257-317 | tries exactly the eligible parents in order, numbered by least unused indices; each try makes its interface if and only if the kernel can create a WLAN of that name on that very parent; true exactly when something was created |
| FreshNames.WlansServed | network-daemon/src/interface/mod.rs:277-302 | by the daemon's own checks every parent tried that exists and has a proper name gets its interface |
| FreshNames.NumberedApart | network-daemon/src/interface/mod.rs:277-291 | the names tried are new and pairwise different, at strictly growing indices |
| FreshNames.EligibleOnce | network-daemon/src/interface/mod.rs:261-276 | a device is tried as often as it is listed, and not at all if a WLAN interface is on it, a configured one is to be, or the configuration forbids it |
| Broadcast.Broadcaster.Broadcast | libnetwork-daemon/src/utils/broadcast.rs:73-88 | every live subscriber gets the message once, dead ones are dropped, order is kept, the count is that of the live |
| Broadcast.PassIsBroadcast | libnetwork-daemon/src/utils/broadcast.rs:73-88 | popping and pushing each sender once amounts to that |
| Broadcast.EachHasItsDue | libnetwork-daemon/src/utils/broadcast.rs:58-88 | over any run of subscriptions, broadcasts and closings each subscriber has exactly what was broadcast between its subscription and its end |
| Broadcast.Broadcaster.Subscribe | libnetwork-daemon/src/utils/broadcast.rs:58-62 | a new open subscription at the end of the queue |

## Left out

- Encryption, SQLite and TOML: rows hold what was saved, and decrypting is taken to undo encrypting. A configuration that cannot be loaded or saved is modelled for automatic WLANs, the policy of a change and the policies of a refresh; elsewhere reads and writes of the disk succeed. Schema migration is not modelled.
- Actors, mailboxes and scheduling: each handler is one atomic step. The supplicant never reuses an id, which is a property of wpa_supplicant and not of the daemon.
- Packet encoding, Ethernet framing and sockets: messages are records, and each receive window is the list of what arrives in it. The options of a message have different codes, and a router option lists at least one router, as its indexing in the client demands.
- wpa_supplicant's replies are success or failure, and the frequency hint, which changes no table, is left out.
- That at most one profile is current, and that gateways survive a refresh: the code does not ensure either.
- wlan mode, region and lagg protocol of a link: they do not enter the creation rule. Interface name length limits belong to the kernel.
- The interface types that the daemon treats alike are one constructor, and MAC addresses of interfaces are not part of their entries.
- Addresses are numbers and prefixes are at most the address width; the overflow of `net_id` beyond it is not modelled. The IPv4 and IPv6 maps of the route table are one map whose keys carry the family.
- Indices and counters are unbounded: the u32 overflow of `next_index` and of interface ids is not modelled.
- Routes carry destination, gateway and interface, and are ordered as on FreeBSD; metrics, which order them elsewhere, are left out.
- Saving creation options to the configuration file, link creation and destruction requests, and the terminal interface beyond the four functions modelled.
- Texts of error messages, hostname, scan and status parsing: one-branch facts.
- `drop` of a receiver during a broadcast pass: a channel is open or closed throughout one pass.
- EditCompile.ValuesIff: takes an entered text as the address it stands for, or as none; reading the text is library code.
- InterfaceEvents.StepExactIff: asks for different names and indices in a refresh, which the kernel and the map by index ensure; what repeated ones would leave is not stated.
- Restart.RebuiltIsScope: speaks of stores that encode one table, as every run of requests keeps them; `RebuiltIs` speaks of any two.
- LinkRestore.ParametersAreMonotone: covers the daemon's own checks and the presence of parents and members; further reasons of the kernel to refuse enter as any monotone rule.
- InterfaceManager.Manager.RefreshInterfaces: starts from the last snapshot of links; the queries and creations before it are `LinkRestore` and `FreshNames`.
- DhcpClient.Exchange: bounds the windows granted by 35 seconds; it does not model the time that sending takes.
