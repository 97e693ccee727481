/** The interface manager: link reports, address edits, DHCP leases and
    refreshes on its table and on the kernel (network-daemon/src/interface/mod.rs). */
module InterfaceManager {
  import opened Prelude
  import opened InterfaceTable
  import opened InterfaceEvents
  import opened KernelAddresses
  import opened Lease
  import Cidr

  datatype InterfaceError = NotFound | CommandFailed | SaveFailed

  /** Which uses of the configuration file, by their number, go through: it may
      be impossible to load or to save. */
  type Disk = nat -> bool

  datatype Policy = Policy(slaac: bool, dhcpv4: bool)

  const DEFAULT_POLICY := Policy(false, true)

  datatype State = State(
    tables: Tables, kernel: KernelState, feed: seq<Notice>, policies: map<string, Policy>, uses: nat)

  datatype Outcome = Outcome(result: Result<(), InterfaceError>, state: State)

  function Reported(s: State, e: TableEvent): State {
    s.(tables := After(s.tables, e), feed := s.feed + Notices(s.tables.interfaces, e))
  }

  function ResultOf(ok: bool): Result<(), InterfaceError> {
    if ok then Success(()) else Failure(CommandFailed)
  }

  // -------------------------------------------------------------- setting a lease

  /** The address of a lease; the leading ones of its mask are the prefix. */
  function LeaseAddress(lease: Option<Lease>): Option<Prefixed> {
    if lease.None? then None
    else Some(Prefixed(lease.value.assignedIp, Cidr.LeadingOnes(Cidr.V4_WIDTH, lease.value.subnetMask)))
  }

  function LeaseGateway(lease: Option<Lease>): Option<Prefixed> {
    if lease.None? || lease.value.router.None? then None else Some(Prefixed(lease.value.router.value, 32))
  }

  /** A contiguous mask of `p` ones gives the address its prefix of `p`. */
  lemma LeasePrefix(lease: Lease, p: nat)
    requires p <= Cidr.V4_WIDTH && lease.subnetMask == Cidr.Mask(Cidr.V4_WIDTH, p)
    ensures LeaseAddress(Some(lease)) == Some(Prefixed(lease.assignedIp, p))
  {
    Cidr.LeadingOnesOfMask(Cidr.V4_WIDTH, p);
  }

  /** One address in place of another. */
  function Readdressed(w: Oracle, k: KernelState, index: nat, was: Option<Prefixed>, to: Option<Prefixed>): Reply {
    var first := if was.Some? then AddressDeleted(w, k, Assigned(index, V4(was.value))) else Reply(true, k);
    if first.ok && to.Some? then AddressAdded(w, first.kernel, Assigned(index, V4(to.value))) else first
  }

  /** The socket is opened before anything is stored. */
  function LeaseSet(w: Oracle, s: State, name: string, was: Option<Lease>, now: Option<Lease>): Outcome {
    if name !in s.tables.interfaces then Outcome(Failure(NotFound), s)
    else if !Told(w, s.kernel).ok then Outcome(Failure(CommandFailed), s.(kernel := Told(w, s.kernel).kernel))
    else
      var socket := Told(w, s.kernel).kernel;
      var id := s.tables.interfaces[name].id;
      var moved := LeaseAddress(was) != LeaseAddress(now);
      var routed :=
        if LeaseGateway(was) != LeaseGateway(now) then Reported(s, SetGateway(name, LeaseGateway(now), !moved)) else s;
      var reply :=
        if moved then Readdressed(w, socket, id, LeaseAddress(was), LeaseAddress(now)) else Reply(true, socket);
      Outcome(ResultOf(reply.ok), routed.(kernel := reply.kernel))
  }

  // ------------------------------------------------------------- modifying a link

  datatype LinkChange = LinkChange(
    name: string, ipv4: Modification<Prefixed>, ipv6: Modification<Prefixed>,
    operState: Modification<bool>, slaac: Modification<bool>, dhcpv4: Modification<bool>)

  /** The IPv4 change, then the IPv6 one if that went through. */
  function AddressesModified(w: Oracle, k: KernelState, info: InterfaceInfo, c: LinkChange): Reply {
    var first := Modified(w, k, info.id, Change(true, c.ipv4), Addresses(true, info.ipv4Addrs));
    if !first.ok then first
    else Modified(w, first.kernel, info.id, Change(false, c.ipv6), Addresses(false, info.ipv6Addrs))
  }

  function PolicyAt(policies: map<string, Policy>, name: string): Policy {
    if name in policies then policies[name] else DEFAULT_POLICY
  }

  function Persisted(policies: map<string, Policy>, c: LinkChange): map<string, Policy> {
    if !c.slaac.Replace? && !c.dhcpv4.Replace? then policies
    else
      var p := PolicyAt(policies, c.name);
      policies[c.name := Policy(if c.slaac.Replace? then c.slaac.value else p.slaac,
                                if c.dhcpv4.Replace? then c.dhcpv4.value else p.dhcpv4)]
  }

  function SlaacFlagSet(s: State, c: LinkChange): State {
    if c.slaac.Replace? then Reported(s, SetSlaac(c.name, c.slaac.value)) else s
  }

  function DhcpFlagSet(s: State, c: LinkChange): State {
    if c.dhcpv4.Replace? then Reported(s, SetDhcp(c.name, c.dhcpv4.value)) else s
  }

  /** The flags are stored, and a new DHCP flag announced. */
  function FlagsSet(s: State, c: LinkChange): State {
    DhcpFlagSet(SlaacFlagSet(s, c), c)
  }

  /** Only then is the policy saved, which may fail. */
  function PolicySaved(d: Disk, s: State, c: LinkChange): Outcome {
    if !c.slaac.Replace? && !c.dhcpv4.Replace? then Outcome(Success(()), s)
    else if d(s.uses) then Outcome(Success(()), s.(policies := Persisted(s.policies, c), uses := s.uses + 1))
    else Outcome(Failure(SaveFailed), s.(uses := s.uses + 1))
  }

  /** The kernel's part of a change: addresses, link status, SLAAC. */
  function Commands(w: Oracle, k: KernelState, info: InterfaceInfo, c: LinkChange): Reply {
    var addressed := AddressesModified(w, k, info, c);
    if !addressed.ok then addressed else
    var link := if c.operState.Replace? then LinkSet(w, addressed.kernel, c.name, c.operState.value) else addressed;
    if link.ok && c.slaac.Replace? then SlaacSet(w, link.kernel, c.name, c.slaac.value) else link
  }

  function ModLinked(w: Oracle, d: Disk, s: State, c: LinkChange): Outcome {
    if c.name !in s.tables.interfaces then Outcome(Failure(NotFound), s)
    else
      var r := Commands(w, s.kernel, s.tables.interfaces[c.name], c);
      if !r.ok then Outcome(Failure(CommandFailed), s.(kernel := r.kernel))
      else PolicySaved(d, FlagsSet(s.(kernel := r.kernel), c), c)
  }

  // ------------------------------------------------------------------- refreshing

  /** Saved policies over a snapshot: the DHCP flag always, the SLAAC flag if
      it differs and the kernel takes it. */
  datatype Policed = Policed(infos: seq<InterfaceInfo>, kernel: KernelState)

  function PolicedOne(w: Oracle, k: KernelState, policies: map<string, Policy>, info: InterfaceInfo)
    : (InterfaceInfo, KernelState)
  {
    if info.name !in policies then (info, k)
    else
      var p := policies[info.name];
      var dhcp := info.(dhcpv4Enabled := p.dhcpv4);
      if info.slaacEnabled == p.slaac then (dhcp, k)
      else
        var r := SlaacSet(w, k, info.name, p.slaac);
        (if r.ok then dhcp.(slaacEnabled := p.slaac) else dhcp, r.kernel)
  }

  function PoliciesApplied(w: Oracle, k: KernelState, policies: map<string, Policy>, infos: seq<InterfaceInfo>)
    : Policed
  {
    if infos == [] then Policed([], k)
    else
      var init := PoliciesApplied(w, k, policies, infos[..|infos| - 1]);
      var (info, kernel) := PolicedOne(w, init.kernel, policies, infos[|infos| - 1]);
      Policed(init.infos + [info], kernel)
  }

  /** Without the configuration nothing is applied. */
  function Restored(w: Oracle, loaded: bool, k: KernelState, policies: map<string, Policy>, infos: seq<InterfaceInfo>)
    : Policed
  {
    if loaded then PoliciesApplied(w, k, policies, infos) else Policed(infos, k)
  }

  predicate PolicyHolds(policies: map<string, Policy>, before: InterfaceInfo, after: InterfaceInfo) {
    && after == before.(dhcpv4Enabled := after.dhcpv4Enabled, slaacEnabled := after.slaacEnabled)
    && if before.name in policies then after.dhcpv4Enabled == policies[before.name].dhcpv4 else after == before
  }

  ghost predicate SlaacHolds(w: Oracle, policies: map<string, Policy>, before: InterfaceInfo, after: InterfaceInfo) {
    Willing(w) && before.name in policies ==> after.slaacEnabled == policies[before.name].slaac
  }

  /** Applying policies changes nothing but the two flags, so names and
      indices stay distinct; with a willing kernel the flags are the saved ones. */
  lemma {:induction false} PoliciesHold(
    w: Oracle, k: KernelState, policies: map<string, Policy>, infos: seq<InterfaceInfo>)
    ensures var r := PoliciesApplied(w, k, policies, infos);
            && |r.infos| == |infos| && r.kernel.addrs == k.addrs
            && (forall i :: 0 <= i < |infos| ==> PolicyHolds(policies, infos[i], r.infos[i]))
            && (forall i :: 0 <= i < |infos| ==> SlaacHolds(w, policies, infos[i], r.infos[i]))
  {
    if infos != [] {
      var (init, n) := (infos[..|infos| - 1], |infos| - 1);
      PoliciesHold(w, k, policies, init);
      OnePolicyHolds(w, PoliciesApplied(w, k, policies, init).kernel, policies, infos[n]);
    }
  }

  lemma OnePolicyHolds(w: Oracle, k: KernelState, policies: map<string, Policy>, info: InterfaceInfo)
    ensures var (after, kernel) := PolicedOne(w, k, policies, info);
            && kernel.addrs == k.addrs && PolicyHolds(policies, info, after) && SlaacHolds(w, policies, info, after)
  {
  }

  // -------------------------------------------------------------- main properties

  /** A change never touches another interface in the kernel. */
  lemma ChangeElsewhere(w: Oracle, d: Disk, s: State, c: LinkChange)
    ensures forall a: Assigned :: c.name !in s.tables.interfaces || a.index != s.tables.interfaces[c.name].id ==>
              (a in s.kernel.addrs <==> a in ModLinked(w, d, s, c).state.kernel.addrs)
  {
    if c.name in s.tables.interfaces {
      var info := s.tables.interfaces[c.name];
      var first := Modified(w, s.kernel, info.id, Change(true, c.ipv4), Addresses(true, info.ipv4Addrs));
      ModifiedElsewhere(w, s.kernel, info.id, true, c.ipv4, info.ipv4Addrs);
      ModifiedElsewhere(w, first.kernel, info.id, false, c.ipv6, info.ipv6Addrs);
    }
  }

  function WithSlaac(entry: InterfaceInfo, c: LinkChange): InterfaceInfo {
    if c.slaac.Replace? then entry.(slaacEnabled := c.slaac.value) else entry
  }

  function WithDhcp(entry: InterfaceInfo, c: LinkChange): InterfaceInfo {
    if c.dhcpv4.Replace? then entry.(dhcpv4Enabled := c.dhcpv4.value) else entry
  }

  function Flagged(entry: InterfaceInfo, c: LinkChange): InterfaceInfo {
    WithDhcp(WithSlaac(entry, c), c)
  }

  lemma SlaacAfter(s: State, c: LinkChange)
    requires Named(s.tables) && c.name in s.tables.interfaces
    ensures var (t, entry) := (SlaacFlagSet(s, c), WithSlaac(s.tables.interfaces[c.name], c));
            Named(t.tables) && t.feed == s.feed && t.tables.interfaces == s.tables.interfaces[c.name := entry]
  {
    if c.slaac.Replace? {
      EntriesAre(s.tables, SetSlaac(c.name, c.slaac.value));
    }
  }

  lemma DhcpAfter(s: State, c: LinkChange)
    requires Named(s.tables) && c.name in s.tables.interfaces
    ensures var (t, entry) := (DhcpFlagSet(s, c), WithDhcp(s.tables.interfaces[c.name], c));
            && Named(t.tables) && t.tables.interfaces == s.tables.interfaces[c.name := entry]
            && t.feed == s.feed + (if entry == s.tables.interfaces[c.name] then [] else [InterfaceChanged(entry)])
  {
    if c.dhcpv4.Replace? {
      EntriesAre(s.tables, SetDhcp(c.name, c.dhcpv4.value));
    }
  }

  /** The entry has its flags as set, and only a new DHCP flag is told. */
  lemma FlagsAfter(s: State, c: LinkChange)
    requires Named(s.tables) && c.name in s.tables.interfaces
    ensures var (t, entry) := (FlagsSet(s, c), Flagged(s.tables.interfaces[c.name], c));
            && Named(t.tables) && t.tables.interfaces == s.tables.interfaces[c.name := entry]
            && t.feed == s.feed + (if entry.dhcpv4Enabled == s.tables.interfaces[c.name].dhcpv4Enabled then []
                                   else [InterfaceChanged(entry)])
  {
    SlaacAfter(s, c);
    DhcpAfter(SlaacFlagSet(s, c), c);
  }

  /** The kernel takes every command of the change. */
  predicate CommandsSucceed(w: Oracle, s: State, c: LinkChange) {
    c.name in s.tables.interfaces && Commands(w, s.kernel, s.tables.interfaces[c.name], c).ok
  }

  predicate FlagsStay(s: State, c: LinkChange) {
    c.name in s.tables.interfaces ==> Flagged(s.tables.interfaces[c.name], c) == s.tables.interfaces[c.name]
  }

  /** A change that fails saves no policy. It leaves entries and feed alone
      exactly when it failed before the policy was to be saved, or sets the
      flags as they were: a failing save comes after both. */
  lemma FailedChangeInvisibleIff(w: Oracle, d: Disk, s: State, c: LinkChange)
    requires Named(s.tables) && ModLinked(w, d, s, c).result.Failure?
    ensures ModLinked(w, d, s, c).state.policies == s.policies
    ensures var t := ModLinked(w, d, s, c).state;
            t.tables.interfaces == s.tables.interfaces && t.feed == s.feed <==>
            !CommandsSucceed(w, s, c) || FlagsStay(s, c)
  {
    if CommandsSucceed(w, s, c) {
      var (entry, r) := (s.tables.interfaces[c.name], Commands(w, s.kernel, s.tables.interfaces[c.name], c));
      FlagsAfter(s.(kernel := r.kernel), c);
      SetEntryIff(s.tables.interfaces, c.name, Flagged(entry, c));
    }
  }

  lemma FlagsKeepTable(s: State, c: LinkChange)
    requires Exact(s.tables) && c.name in s.tables.interfaces && FlagsStay(s, c)
    ensures FlagsSet(s, c).tables == s.tables
  {
    InsertSame(s.tables, c.name);
    assert SlaacFlagSet(s, c).tables == s.tables;
  }

  /** With exact indices that goes for the whole table. */
  lemma FailedChangeKeepsTable(w: Oracle, d: Disk, s: State, c: LinkChange)
    requires Exact(s.tables) && ModLinked(w, d, s, c).result.Failure?
    requires !CommandsSucceed(w, s, c) || FlagsStay(s, c)
    ensures ModLinked(w, d, s, c).state.tables == s.tables
  {
    if CommandsSucceed(w, s, c) {
      FlagsKeepTable(s.(kernel := Commands(w, s.kernel, s.tables.interfaces[c.name], c).kernel), c);
    }
  }

  /** A configuration that cannot be saved: the answer is an error, and DHCP is
      on all the same, as the subscribers are told. */
  lemma FailedSaveExample(entry: InterfaceInfo, s: State, c: LinkChange)
    requires entry.name == "em0" && !entry.dhcpv4Enabled
    requires s == State(Inserted(NO_TABLES, entry), KernelState({}, {}, {}, 0), [], map[], 0)
    requires c == LinkChange("em0", NoChange, NoChange, NoChange, NoChange, Replace(true))
    ensures var (w, d) := ((k: nat) => true, (k: nat) => false);
            var r := ModLinked(w, d, s, c);
            && r.result == Failure(SaveFailed) && r.state.policies == map[]
            && "em0" in r.state.tables.interfaces && r.state.tables.interfaces["em0"].dhcpv4Enabled
            && r.state.feed == [InterfaceChanged(entry.(dhcpv4Enabled := true))]
  {
    assert s.tables.interfaces == map["em0" := entry];
    FlagsAfter(s, c);
  }

  lemma AddressesLeaveFlags(w: Oracle, k: KernelState, info: InterfaceInfo, c: LinkChange)
    ensures var r := AddressesModified(w, k, info, c).kernel; r.up == k.up && r.slaac == k.slaac
  {
    var first := Modified(w, k, info.id, Change(true, c.ipv4), Addresses(true, info.ipv4Addrs));
    ModifiedWithin(w, k, info.id, true, c.ipv4, info.ipv4Addrs);
    ModifiedWithin(w, first.kernel, info.id, false, c.ipv6, info.ipv6Addrs);
  }

  /** Its commands set the link up or down and SLAAC on or off, of its own
      interface and last of all. */
  lemma CommandsFlags(w: Oracle, k: KernelState, info: InterfaceInfo, c: LinkChange)
    ensures var r := Commands(w, k, info, c);
            && (!r.ok ==> r.kernel.slaac == k.slaac)
            && (r.ok ==>
                  && (forall n :: n in r.kernel.up <==>
                        if n == c.name && c.operState.Replace? then c.operState.value else n in k.up)
                  && (forall n :: n in r.kernel.slaac <==>
                        if n == c.name && c.slaac.Replace? then c.slaac.value else n in k.slaac))
            && (forall n :: n != c.name ==> (n in r.kernel.up <==> n in k.up))
  {
    AddressesLeaveFlags(w, k, info, c);
  }

  /** The SLAAC flag of every entry is what the kernel does. */
  ghost predicate ShowsSlaac(s: State) {
    forall n :: n in s.tables.interfaces ==> (s.tables.interfaces[n].slaacEnabled <==> n in s.kernel.slaac)
  }

  lemma FlagsShowSlaac(s: State, k: KernelState, c: LinkChange)
    requires Named(s.tables) && c.name in s.tables.interfaces && ShowsSlaac(s)
    requires forall n :: n in k.slaac <==>
               if n == c.name && c.slaac.Replace? then c.slaac.value else n in s.kernel.slaac
    ensures ShowsSlaac(FlagsSet(s.(kernel := k), c))
  {
    FlagsAfter(s.(kernel := k), c);
  }

  /** No change makes the table wrong about SLAAC, whichever command fails. */
  lemma ChangeShowsSlaac(w: Oracle, d: Disk, s: State, c: LinkChange)
    requires Named(s.tables) && ShowsSlaac(s)
    ensures ShowsSlaac(ModLinked(w, d, s, c).state)
  {
    if c.name in s.tables.interfaces {
      var r := Commands(w, s.kernel, s.tables.interfaces[c.name], c);
      CommandsFlags(w, s.kernel, s.tables.interfaces[c.name], c);
      if r.ok {
        FlagsShowSlaac(s, r.kernel, c);
      }
    }
  }

  /** Nor do saved policies that the kernel does not take. */
  lemma {:induction false} PoliciesShowSlaac(
    w: Oracle, k: KernelState, policies: map<string, Policy>, infos: seq<InterfaceInfo>)
    requires DistinctInfos(infos)
    requires forall i :: 0 <= i < |infos| ==> (infos[i].slaacEnabled <==> infos[i].name in k.slaac)
    ensures var r := PoliciesApplied(w, k, policies, infos);
            && |r.infos| == |infos|
            && (forall i :: 0 <= i < |infos| ==>
                  r.infos[i].name == infos[i].name && (r.infos[i].slaacEnabled <==> infos[i].name in r.kernel.slaac))
            && (forall n :: (forall i :: 0 <= i < |infos| ==> infos[i].name != n) ==>
                  (n in r.kernel.slaac <==> n in k.slaac))
  {
    if infos != [] {
      PoliciesShowSlaac(w, k, policies, infos[..|infos| - 1]);
    }
  }

  /** A change that goes through was possible in both families, and takes its
      step in each whatever the other one is. A willing kernel refuses nothing
      that is possible, and then only saving a policy can fail. */
  lemma ChangeMeans(w: Oracle, d: Disk, s: State, c: LinkChange)
    requires c.name in s.tables.interfaces
    ensures var (r, info) := (ModLinked(w, d, s, c), s.tables.interfaces[c.name]);
            var (v4, v6) := (Held(s.kernel.addrs, info.id, true), Held(s.kernel.addrs, info.id, false));
            && (r.result.Success? ==>
                  && Possible(v4, c.ipv4, info.ipv4Addrs) && Possible(v6, c.ipv6, info.ipv6Addrs)
                  && Held(r.state.kernel.addrs, info.id, true) == Stepped(v4, c.ipv4, info.ipv4Addrs)
                  && Held(r.state.kernel.addrs, info.id, false) == Stepped(v6, c.ipv6, info.ipv6Addrs))
            && (Willing(w) && Possible(v4, c.ipv4, info.ipv4Addrs) && Possible(v6, c.ipv6, info.ipv6Addrs) ==>
                  CommandsSucceed(w, s, c))
            && (r.result.Success? <==>
                  CommandsSucceed(w, s, c) && (c.slaac.Replace? || c.dhcpv4.Replace? ==> d(s.uses)))
  {
    var (k, info) := (s.kernel, s.tables.interfaces[c.name]);
    var first := Modified(w, k, info.id, Change(true, c.ipv4), Addresses(true, info.ipv4Addrs));
    ModifiedMeans(w, k, info.id, true, c.ipv4, info.ipv4Addrs);
    ModifiedElsewhere(w, k, info.id, true, c.ipv4, info.ipv4Addrs);
    HeldElsewhere(k.addrs, first.kernel.addrs, info.id, false);
    if first.ok {
      var second := Modified(w, first.kernel, info.id, Change(false, c.ipv6), Addresses(false, info.ipv6Addrs));
      ModifiedMeans(w, first.kernel, info.id, false, c.ipv6, info.ipv6Addrs);
      ModifiedElsewhere(w, first.kernel, info.id, false, c.ipv6, info.ipv6Addrs);
      HeldElsewhere(first.kernel.addrs, second.kernel.addrs, info.id, true);
    }
  }

  /** The flags of a change that went through are saved, and come back with
      every refresh that can load them, until they are changed again. */
  lemma SavedFlagsReturn(w: Oracle, d: Disk, s: State, c: LinkChange, loaded: bool, k: KernelState,
                         snapshot: seq<InterfaceInfo>, i: nat)
    requires ModLinked(w, d, s, c).result.Success?
    requires i < |snapshot| && snapshot[i].name == c.name
    ensures var infos := Restored(w, loaded, k, ModLinked(w, d, s, c).state.policies, snapshot).infos;
            if !loaded then infos == snapshot else
            && |infos| == |snapshot|
            && (c.dhcpv4.Replace? ==> infos[i].dhcpv4Enabled == c.dhcpv4.value)
            && (c.slaac.Replace? && Willing(w) ==> infos[i].slaacEnabled == c.slaac.value)
    // what the change does not mention stays saved, here and elsewhere
    ensures var policies := ModLinked(w, d, s, c).state.policies;
            && (!c.dhcpv4.Replace? ==> PolicyAt(policies, c.name).dhcpv4 == PolicyAt(s.policies, c.name).dhcpv4)
            && (!c.slaac.Replace? ==> PolicyAt(policies, c.name).slaac == PolicyAt(s.policies, c.name).slaac)
            && forall n :: n != c.name ==> PolicyAt(policies, n) == PolicyAt(s.policies, n)
    // what was never saved is saved as DHCP and no SLAAC
    ensures c.name !in s.policies && (c.slaac.Replace? || c.dhcpv4.Replace?) ==>
              var saved := ModLinked(w, d, s, c).state.policies;
              && c.name in saved
              && (saved[c.name].dhcpv4 <==> c.dhcpv4.Replace? ==> c.dhcpv4.value)
              && (saved[c.name].slaac <==> c.slaac.Replace? && c.slaac.value)
  {
    var policies := ModLinked(w, d, s, c).state.policies;
    PoliciesHold(w, k, policies, snapshot);
    var infos := PoliciesApplied(w, k, policies, snapshot).infos;
    assert PolicyHolds(policies, snapshot[i], infos[i]) && SlaacHolds(w, policies, snapshot[i], infos[i]);
  }

  // ----------------------------------------------------------------------- the actor

  class Manager {
    const table: Table
    const modifier: NetlinkModifier
    const disk: Disk
    var feed: seq<Notice>
    var policies: map<string, Policy>
    var uses: nat

    constructor (table: Table, modifier: NetlinkModifier, disk: Disk)
      ensures this.table == table && this.modifier == modifier && this.disk == disk
      ensures feed == [] && policies == map[] && uses == 0
    {
      this.table, this.modifier, this.disk := table, modifier, disk;
      feed, policies, uses := [], map[], 0;
    }

    ghost function View(): State
      reads this, table, modifier
    {
      State(table.View(), modifier.View(), feed, policies, uses)
    }

    method InterfaceAddedReport(info: InterfaceInfo)
      modifies this, table
      ensures View() == Reported(old(View()), Added(info))
      ensures table.interfaces == old(table.interfaces)[info.name := info]
      ensures feed == old(feed) + [InterfaceAdded(info)]
      ensures old(Exact(View().tables)) ==> (Exact(View().tables) <==> old(Safe(View().tables, Added(info))))
    {
      if Exact(View().tables) {
        StepExactIff(View().tables, Added(info));
      }
      table.Insert(info);
      feed := feed + [InterfaceAdded(info)];
    }

    /** No one is told that a link is gone. */
    method InterfaceRemovedReport(info: InterfaceInfo)
      modifies this, table
      ensures View() == Reported(old(View()), Gone(info.name))
      ensures table.interfaces == old(table.interfaces) - {info.name} && feed == old(feed)
      ensures old(Exact(View().tables)) ==> (Exact(View().tables) <==> old(Safe(View().tables, Gone(info.name))))
    {
      if Exact(View().tables) {
        StepExactIff(View().tables, Gone(info.name));
      }
      var _ := table.Remove(info.name);
      assert feed == feed + [];
    }

    method InterfaceChangedReport(reported: InterfaceInfo)
      modifies this, table
      ensures View() == Reported(old(View()), Changed(reported))
      ensures reported.name in table.interfaces
      ensures feed == old(feed) + [InterfaceChanged(table.interfaces[reported.name])]
      ensures old(Exact(View().tables)) ==> (Exact(View().tables) <==> old(Safe(View().tables, Changed(reported))))
    {
      if Exact(View().tables) {
        StepExactIff(View().tables, Changed(reported));
      }
      var info := reported;
      var current := table.Get(info.name);
      if current.Some? {
        if current.value.state == Unmanaged {
          info := info.(state := Unmanaged);
        } else if current.value.interfaceType == Wlan {
          info := info.(state := current.value.state);
        }
        info := info.(gatewayIpv4 := current.value.gatewayIpv4, gatewayIpv6 := current.value.gatewayIpv6);
        info := info.(dhcpv4Enabled := current.value.dhcpv4Enabled, slaacEnabled := current.value.slaacEnabled);
      }
      assert info == Carried(table.interfaces, reported);
      UpdateAndTell(info);
    }

    method UpdateAndTell(info: InterfaceInfo)
      modifies this`feed, table
      ensures View() == old(View()).(tables := Updated(old(View().tables), info),
                                     feed := old(feed) + [InterfaceChanged(info)])
      ensures table.interfaces == old(table.interfaces)[info.name := info]
    {
      UpdatedEntries(View().tables, info);
      var _ := table.Update(info);
      feed := feed + [InterfaceChanged(info)];
    }

    method UpdateExternalInterfaceState(name: string, state: ConnectionState) returns (r: Result<(), InterfaceError>)
      requires Named(View().tables)
      modifies this, table
      ensures r == if name in old(table.interfaces) then Success(()) else Failure(NotFound)
      ensures View() == Reported(old(View()), ExternalState(name, state))
      ensures r.Success? ==>
                var info := old(table.interfaces)[name].(state := state);
                table.interfaces == old(table.interfaces)[name := info] && feed == old(feed) + [InterfaceChanged(info)]
      ensures old(Exact(View().tables)) ==> Exact(View().tables)
    {
      if Exact(View().tables) {
        FlagStepExact(View().tables, ExternalState(name, state));
      }
      var found := table.Get(name);
      if found.None? {
        assert feed == feed + [];
        return Failure(NotFound);
      }
      UpdateAndTell(found.value.(state := state));
      r := Success(());
    }

    method MarkAsUnManaged(name: string) returns (r: Result<(), InterfaceError>)
      requires Named(View().tables)
      modifies this, table
      ensures r == if name in old(table.interfaces) then Success(()) else Failure(NotFound)
      ensures View() == Reported(old(View()), ExternalState(name, Unmanaged))
      ensures r.Success? ==> name in table.interfaces && table.interfaces[name].state == Unmanaged
      ensures old(Exact(View().tables)) ==> Exact(View().tables)
    {
      r := UpdateExternalInterfaceState(name, Unmanaged);
    }

    method StoreGateway(name: string, gateway: Option<Prefixed>, told: bool)
      requires Named(View().tables) && name in table.interfaces
      modifies this, table
      ensures View() == Reported(old(View()), SetGateway(name, gateway, told))
    {
      var info := table.interfaces[name].(gatewayIpv4 := gateway);
      table.Insert(info);
      feed := feed + if told then [InterfaceChanged(info)] else [];
    }

    method Readdress(index: nat, was: Option<Prefixed>, to: Option<Prefixed>) returns (ok: bool)
      modifies modifier
      ensures Reply(ok, modifier.View()) == Readdressed(modifier.willing, old(modifier.View()), index, was, to)
    {
      ok := true;
      if was.Some? {
        ok := modifier.DelAddress(index, V4(was.value));
      }
      if ok && to.Some? {
        ok := modifier.AddAddress(index, V4(to.value));
      }
    }

    method DhcpV4Set(name: string, was: Option<Lease>, now: Option<Lease>) returns (r: Result<(), InterfaceError>)
      requires Named(View().tables)
      modifies this, table, modifier
      ensures Outcome(r, View()) == LeaseSet(modifier.willing, old(View()), name, was, now)
      ensures r == Failure(NotFound) <==> name !in old(table.interfaces)
      // the gateway is the new lease's router
      ensures r.Success? ==> name in table.interfaces && forall router: u32 ::
                now.Some? && now.value.router == Some(router) && !(was.Some? && was.value.router == Some(router)) ==>
                  table.interfaces[name].gatewayIpv4 == Some(Prefixed(router, 32))
      ensures r.Success? && (now.None? || now.value.router.None?) && was.Some? && was.value.router.Some? ==>
                table.interfaces[name].gatewayIpv4 == None
    {
      var (oldIp, newIp) := (LeaseAddress(was), LeaseAddress(now));
      var (oldGateway, newGateway) := (LeaseGateway(was), LeaseGateway(now));
      var found := table.Get(name);
      if found.None? {
        return Failure(NotFound);
      }
      var id := found.value.id;
      var ok := modifier.Tell();
      if !ok {
        return Failure(CommandFailed);
      }
      if oldGateway != newGateway {
        StoreGateway(name, newGateway, oldIp == newIp);
      }
      if oldIp != newIp {
        ok := Readdress(id, oldIp, newIp);
      }
      r := ResultOf(ok);
    }

    method StoreSlaac(name: string, enabled: bool)
      requires Named(View().tables) && name in table.interfaces
      modifies table
      ensures View() == Reported(old(View()), SetSlaac(name, enabled))
    {
      table.Insert(table.interfaces[name].(slaacEnabled := enabled));
      assert feed == feed + [];
    }

    method StoreDhcp(name: string, enabled: bool)
      requires Named(View().tables) && name in table.interfaces
      modifies this, table
      ensures View() == Reported(old(View()), SetDhcp(name, enabled))
    {
      var info := table.interfaces[name];
      if info.dhcpv4Enabled != enabled {
        info := info.(dhcpv4Enabled := enabled);
        table.Insert(info);
        feed := feed + [InterfaceChanged(info)];
      } else {
        assert feed == feed + [];
      }
    }

    /** The flags, once every command has gone through. */
    method SetFlags(c: LinkChange)
      requires Named(View().tables) && c.name in table.interfaces
      modifies this, table
      ensures View() == FlagsSet(old(View()), c)
    {
      SlaacAfter(View(), c);
      if c.slaac.Replace? {
        StoreSlaac(c.name, c.slaac.value);
      }
      if c.dhcpv4.Replace? {
        StoreDhcp(c.name, c.dhcpv4.value);
      }
    }

    method PersistPolicy(c: LinkChange) returns (r: Result<(), InterfaceError>)
      modifies this`policies, this`uses
      ensures Outcome(r, View()) == PolicySaved(disk, old(View()), c)
    {
      if !c.slaac.Replace? && !c.dhcpv4.Replace? {
        return Success(());
      }
      var p := PolicyAt(policies, c.name);
      if c.slaac.Replace? {
        p := p.(slaac := c.slaac.value);
      }
      if c.dhcpv4.Replace? {
        p := p.(dhcpv4 := c.dhcpv4.value);
      }
      var saved := disk(uses);
      uses := uses + 1;
      if !saved {
        return Failure(SaveFailed);
      }
      policies := policies[c.name := p];
      r := Success(());
    }

    method ModLink(c: LinkChange) returns (r: Result<(), InterfaceError>)
      requires Named(View().tables)
      modifies this, table, modifier
      ensures Outcome(r, View()) == ModLinked(modifier.willing, disk, old(View()), c)
      ensures r == Failure(NotFound) <==> c.name !in old(table.interfaces)
      ensures r == Failure(SaveFailed) ==> CommandsSucceed(modifier.willing, old(View()), c)
    {
      var found := table.Get(c.name);
      if found.None? {
        return Failure(NotFound);
      }
      var ok := RunCommands(found.value, c);
      if !ok {
        return Failure(CommandFailed);
      }
      SetFlags(c);
      r := PersistPolicy(c);
    }

    method RunCommands(info: InterfaceInfo, c: LinkChange) returns (ok: bool)
      modifies modifier
      ensures Reply(ok, modifier.View()) == Commands(modifier.willing, old(modifier.View()), info, c)
    {
      ok := modifier.ModIp(info.id, Change(true, c.ipv4), Addresses(true, info.ipv4Addrs));
      if ok {
        ok := modifier.ModIp(info.id, Change(false, c.ipv6), Addresses(false, info.ipv6Addrs));
      }
      if ok && c.operState.Replace? {
        ok := modifier.SetLinkStatus(c.name, c.operState.value);
      }
      if ok && c.slaac.Replace? {
        ok := modifier.SetSlaacState(c.name, c.slaac.value);
      }
    }

    /** A configuration that cannot be loaded leaves the snapshot as it is. */
    method ApplySavedPolicies(snapshot: seq<InterfaceInfo>) returns (infos: seq<InterfaceInfo>)
      modifies this`uses, modifier
      ensures uses == old(uses) + 1
      ensures Policed(infos, modifier.View())
              == Restored(modifier.willing, disk(old(uses)), old(modifier.View()), policies, snapshot)
    {
      var loaded := disk(uses);
      uses := uses + 1;
      if !loaded {
        return snapshot;
      }
      infos := [];
      for i := 0 to |snapshot|
        invariant uses == old(uses) + 1
        invariant Policed(infos, modifier.View())
                  == PoliciesApplied(modifier.willing, old(modifier.View()), policies, snapshot[..i])
      {
        assert snapshot[..i + 1][..i] == snapshot[..i];
        var info := snapshot[i];
        if info.name in policies {
          var policy := policies[info.name];
          var slaac := info.slaacEnabled;
          info := info.(dhcpv4Enabled := policy.dhcpv4);
          if slaac != policy.slaac {
            var ok := modifier.SetSlaacState(info.name, policy.slaac);
            if ok {
              info := info.(slaacEnabled := policy.slaac);
            }
          }
        }
        infos := infos + [info];
      }
      assert snapshot[..|snapshot|] == snapshot;
    }

    /** The snapshot replaces the table; what differs is announced. */
    method ReplaceTable(infos: seq<InterfaceInfo>)
      modifies table
      ensures table.View() == InsertedAll(NO_TABLES, infos)
    {
      table.Clear();
      for i := 0 to |infos|
        invariant table.View() == InsertedAll(NO_TABLES, infos[..i])
      {
        assert infos[..i + 1][..i] == infos[..i];
        table.Insert(infos[i]);
      }
      assert infos[..|infos|] == infos;
    }

    method RefreshInterfaces(snapshot: seq<InterfaceInfo>)
      returns (infos: seq<InterfaceInfo>, ghost lost: seq<InterfaceInfo>, ghost gained: seq<InterfaceInfo>)
      requires DistinctInfos(snapshot)
      modifies this, table, modifier
      ensures Policed(infos, modifier.View())
              == Restored(modifier.willing, disk(old(uses)), old(modifier.View()), policies, snapshot)
      ensures table.View() == InsertedAll(NO_TABLES, infos) && policies == old(policies)
      ensures feed == old(feed) + (Removals(lost) + Additions(gained))
      ensures forall info :: info in lost <==> info in old(table.interfaces).Values - table.interfaces.Values
      ensures forall info :: info in gained <==> info in table.interfaces.Values - old(table.interfaces).Values
    {
      var before := table.interfaces.Values;
      infos := ApplySavedPolicies(snapshot);
      StillDistinct(modifier.willing, disk(old(uses)), old(modifier.View()), policies, snapshot);
      ReplaceTable(infos);
      ValuesAre(infos);
      ghost var tables := table.View();
      assert tables.interfaces.Values == set info | info in infos;
      lost, gained := AnnounceDifference(before, set info | info in infos);
      assert table.View() == tables;
    }

    method AnnounceDifference(before: set<InterfaceInfo>, after: set<InterfaceInfo>)
      returns (ghost lost: seq<InterfaceInfo>, ghost gained: seq<InterfaceInfo>)
      modifies this`feed
      ensures feed == old(feed) + (Removals(lost) + Additions(gained))
      ensures forall info :: info in lost <==> info in before - after
      ensures forall info :: info in gained <==> info in after - before
    {
      lost := Announce(before - after, false);
      gained := Announce(after - before, true);
      assert feed == old(feed) + (Removals(lost) + Additions(gained));
    }

    /** Tell the subscribers of each interface, in any order. */
    method Announce(infos: set<InterfaceInfo>, added: bool) returns (ghost told: seq<InterfaceInfo>)
      modifies this`feed
      ensures feed == old(feed) + if added then Additions(told) else Removals(told)
      ensures forall info :: info in told <==> info in infos
      ensures |told| == |infos|
    {
      var left := infos;
      told := [];
      while left != {}
        invariant left <= infos && |told| + |left| == |infos|
        invariant forall info :: info in told <==> info in infos - left
        invariant feed == old(feed) + if added then Additions(told) else Removals(told)
        decreases |left|
      {
        var info :| info in left;
        feed := feed + [if added then InterfaceAdded(info) else InterfaceRemoved(info)];
        assert Additions(told + [info]) == Additions(told) + [InterfaceAdded(info)];
        assert Removals(told + [info]) == Removals(told) + [InterfaceRemoved(info)];
        told := told + [info];
        left := left - {info};
      }
    }
  }

  /** A refresh from a snapshot that is right about SLAAC leaves a table that
      is. */
  lemma RefreshShowsSlaac(w: Oracle, loaded: bool, k: KernelState, policies: map<string, Policy>,
                          snapshot: seq<InterfaceInfo>)
    requires DistinctInfos(snapshot)
    requires forall i :: 0 <= i < |snapshot| ==> (snapshot[i].slaacEnabled <==> snapshot[i].name in k.slaac)
    ensures var r := Restored(w, loaded, k, policies, snapshot);
            forall n :: n in InsertedAll(NO_TABLES, r.infos).interfaces ==>
              (InsertedAll(NO_TABLES, r.infos).interfaces[n].slaacEnabled <==> n in r.kernel.slaac)
  {
    var r := Restored(w, loaded, k, policies, snapshot);
    PoliciesShowSlaac(w, k, policies, snapshot);
    InsertedAllInterfaces(r.infos);
    ByNameHolds(r.infos);
  }

  lemma StillDistinct(w: Oracle, loaded: bool, k: KernelState, policies: map<string, Policy>,
                      snapshot: seq<InterfaceInfo>)
    requires DistinctInfos(snapshot)
    ensures DistinctInfos(Restored(w, loaded, k, policies, snapshot).infos)
  {
    if loaded {
      PoliciesHold(w, k, policies, snapshot);
      var infos := PoliciesApplied(w, k, policies, snapshot).infos;
      forall i, j | 0 <= i < j < |infos| ensures infos[i].name != infos[j].name && infos[i].id != infos[j].id {
        assert PolicyHolds(policies, snapshot[i], infos[i]) && PolicyHolds(policies, snapshot[j], infos[j]);
      }
    }
  }

  lemma ValuesAre(infos: seq<InterfaceInfo>)
    requires DistinctInfos(infos)
    ensures InsertedAll(NO_TABLES, infos).interfaces.Values == set info | info in infos
    ensures Keyed(InsertedAll(NO_TABLES, infos).interfaces)
  {
    InsertedAllInterfaces(infos);
    ByNameHolds(infos);
    forall info | info in infos ensures info in ByName(infos).Values {
      var i :| 0 <= i < |infos| && infos[i] == info;
      ByNameFinds(infos, i);
      assert ByName(infos)[info.name] == info;
    }
  }
}
