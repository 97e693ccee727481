/** What the interface manager's events do to its table, and what its
    subscribers hear of them (network-daemon/src/interface/mod.rs). */
module InterfaceEvents {
  import opened Prelude
  import opened InterfaceTable

  datatype Notice =
    | InterfaceAdded(info: InterfaceInfo)
    | InterfaceRemoved(info: InterfaceInfo)
    | InterfaceChanged(info: InterfaceInfo)

  // ------------------------------------------------------------- table events

  /** Ways in which the manager changes its table. Reports of a deleted link
      take an entry out, a refresh replaces them all; a gateway is set with or
      without telling the subscribers. */
  datatype TableEvent =
    | Added(info: InterfaceInfo)
    | Gone(name: string)
    | Changed(info: InterfaceInfo)
    | ExternalState(name: string, state: ConnectionState)
    | SetSlaac(name: string, enabled: bool)
    | SetDhcp(name: string, enabled: bool)
    | SetGateway(name: string, gateway: Option<Prefixed>, told: bool)
    | Refreshed(infos: seq<InterfaceInfo>)

  /** A kernel report keeps what the daemon manages itself. */
  function Carried(entries: map<string, InterfaceInfo>, info: InterfaceInfo): InterfaceInfo {
    if info.name !in entries then info
    else
      var current := entries[info.name];
      info.(state := if current.state == Unmanaged then Unmanaged
                     else if current.interfaceType == Wlan then current.state
                     else info.state,
            gatewayIpv4 := current.gatewayIpv4,
            gatewayIpv6 := current.gatewayIpv6,
            dhcpv4Enabled := current.dhcpv4Enabled,
            slaacEnabled := current.slaacEnabled)
  }

  function InsertedAll(t: Tables, infos: seq<InterfaceInfo>): Tables {
    if infos == [] then t else Inserted(InsertedAll(t, infos[..|infos| - 1]), infos[|infos| - 1])
  }

  function After(t: Tables, e: TableEvent): Tables {
    match e
    case Added(info) => Inserted(t, info)
    case Gone(name) => Removed(t, name)
    case Changed(info) => Updated(t, Carried(t.interfaces, info))
    case ExternalState(name, state) =>
      if name in t.interfaces then Updated(t, t.interfaces[name].(state := state)) else t
    case SetSlaac(name, enabled) =>
      if name in t.interfaces then Inserted(t, t.interfaces[name].(slaacEnabled := enabled)) else t
    case SetDhcp(name, enabled) =>
      if name in t.interfaces && t.interfaces[name].dhcpv4Enabled != enabled
      then Inserted(t, t.interfaces[name].(dhcpv4Enabled := enabled)) else t
    case SetGateway(name, gateway, _) =>
      if name in t.interfaces then Inserted(t, t.interfaces[name].(gatewayIpv4 := gateway)) else t
    case Refreshed(infos) => InsertedAll(NO_TABLES, infos)
  }

  predicate DistinctInfos(infos: seq<InterfaceInfo>) {
    forall i, j :: 0 <= i < j < |infos| ==> infos[i].name != infos[j].name && infos[i].id != infos[j].id
  }

  /** Events that leave every index exact. */
  predicate Safe(t: Tables, e: TableEvent) {
    match e
    case Added(info) => Fits(t, info)
    case Changed(info) => IndexFree(t, info)
    case Refreshed(infos) => DistinctInfos(infos)
    case _ => true
  }

  /** What a list of entries leaves when inserted in order. */
  function ByName(infos: seq<InterfaceInfo>): map<string, InterfaceInfo> {
    if infos == [] then map[] else ByName(infos[..|infos| - 1])[infos[|infos| - 1].name := infos[|infos| - 1]]
  }

  lemma {:induction false} InsertedAllInterfaces(infos: seq<InterfaceInfo>)
    ensures InsertedAll(NO_TABLES, infos).interfaces == ByName(infos)
  {
    if infos != [] {
      InsertedAllInterfaces(infos[..|infos| - 1]);
    }
  }

  lemma {:induction false} ByNameHolds(infos: seq<InterfaceInfo>)
    ensures forall n :: n in ByName(infos) ==> ByName(infos)[n] in infos && ByName(infos)[n].name == n
  {
    if infos != [] {
      var (init, last) := (infos[..|infos| - 1], infos[|infos| - 1]);
      ByNameHolds(init);
      assert forall info :: info in init ==> info in infos;
    }
  }

  lemma {:induction false} ByNameFinds(infos: seq<InterfaceInfo>, i: nat)
    requires DistinctInfos(infos) && i < |infos|
    ensures infos[i].name in ByName(infos) && ByName(infos)[infos[i].name] == infos[i]
  {
    if i < |infos| - 1 {
      ByNameFinds(infos[..|infos| - 1], i);
    }
  }

  lemma FreeAfter(infos: seq<InterfaceInfo>)
    requires DistinctInfos(infos) && infos != []
    ensures var (init, last) := (infos[..|infos| - 1], infos[|infos| - 1]);
            forall n :: n in ByName(init) ==> n != last.name && ByName(init)[n].id != last.id
  {
    var (init, last) := (infos[..|infos| - 1], infos[|infos| - 1]);
    ByNameHolds(init);
    forall n | n in ByName(init) ensures n != last.name && ByName(init)[n].id != last.id {
      var i :| 0 <= i < |init| && init[i] == ByName(init)[n];
      assert infos[i] == init[i];
    }
  }

  lemma {:induction false} InsertedAllExact(infos: seq<InterfaceInfo>)
    requires DistinctInfos(infos)
    ensures Exact(InsertedAll(NO_TABLES, infos))
  {
    if infos == [] {
      assert Exact(NO_TABLES);
    } else {
      var (init, last) := (infos[..|infos| - 1], infos[|infos| - 1]);
      InsertedAllExact(init);
      InsertedAllInterfaces(init);
      FreeAfter(infos);
      var t := InsertedAll(NO_TABLES, init);
      assert Fits(t, last);
      InsertExactIff(t, last);
    }
  }

  /** An entry with the index, type, parent and state of the stored one. */
  predicate SameShape(entry: InterfaceInfo, info: InterfaceInfo) {
    && info.name == entry.name && info.id == entry.id && info.interfaceType == entry.interfaceType
    && info.state == entry.state && info.parent == entry.parent
  }

  lemma SameShapeExact(t: Tables, name: string, info: InterfaceInfo)
    requires Exact(t) && name in t.interfaces && SameShape(t.interfaces[name], info)
    ensures Exact(Inserted(t, info))
  {
    OwnIndexFree(t, name);
    InsertExactIff(t, info);
  }

  lemma OwnIndexFree(t: Tables, name: string)
    requires Named(t) && IndexExact(t) && name in t.interfaces
    ensures forall info: InterfaceInfo :: info.name == name && info.id == t.interfaces[name].id ==> IndexFree(t, info)
  {
  }

  lemma NewStateExact(t: Tables, name: string, state: ConnectionState)
    requires Exact(t) && name in t.interfaces
    ensures Exact(Updated(t, t.interfaces[name].(state := state)))
  {
    OwnIndexFree(t, name);
    UpdateExactIff(t, t.interfaces[name].(state := state));
  }

  /** Only an addition or a change report can make an index inexact, and it
      does so exactly when it is not safe. */
  lemma StepExactIff(t: Tables, e: TableEvent)
    requires Exact(t)
    requires e.Refreshed? ==> DistinctInfos(e.infos)
    ensures Exact(After(t, e)) <==> Safe(t, e)
  {
    match e
    case Added(info) => InsertExactIff(t, info);
    case Gone(name) => RemoveExact(t, name);
    case Changed(info) => UpdateExactIff(t, Carried(t.interfaces, info));
    case Refreshed(infos) => InsertedAllExact(infos);
    case _ => FlagStepExact(t, e);
  }

  lemma FlagStepExact(t: Tables, e: TableEvent)
    requires Exact(t) && (e.ExternalState? || e.SetSlaac? || e.SetDhcp? || e.SetGateway?)
    ensures Exact(After(t, e))
  {
    if e.name in t.interfaces {
      var entry := t.interfaces[e.name];
      match e
      case ExternalState(name, state) => NewStateExact(t, name, state);
      case SetSlaac(name, enabled) => SameShapeExact(t, name, entry.(slaacEnabled := enabled));
      case SetDhcp(name, enabled) => SameShapeExact(t, name, entry.(dhcpv4Enabled := enabled));
      case SetGateway(name, gateway, _) => SameShapeExact(t, name, entry.(gatewayIpv4 := gateway));
    }
  }

  lemma {:induction false} InsertedAllCovers(t: Tables, infos: seq<InterfaceInfo>)
    requires Covered(t)
    ensures Covered(InsertedAll(t, infos))
  {
    if infos != [] {
      InsertedAllCovers(t, infos[..|infos| - 1]);
      InsertCovers(InsertedAll(t, infos[..|infos| - 1]), infos[|infos| - 1]);
    }
  }

  lemma UpdateCovers(t: Tables, info: InterfaceInfo)
    requires Covered(t)
    ensures Covered(Updated(t, info))
  {
    RemoveCovers(t, info.name);
    InsertCovers(Removed(t, info.name), info);
  }

  lemma StepCovers(t: Tables, e: TableEvent)
    requires Covered(t)
    ensures Covered(After(t, e))
  {
    match e
    case Added(info) => InsertCovers(t, info);
    case Gone(name) => RemoveCovers(t, name);
    case Changed(info) => UpdateCovers(t, Carried(t.interfaces, info));
    case ExternalState(name, state) =>
      if name in t.interfaces { UpdateCovers(t, t.interfaces[name].(state := state)); }
    case SetSlaac(name, enabled) =>
      if name in t.interfaces { InsertCovers(t, t.interfaces[name].(slaacEnabled := enabled)); }
    case SetDhcp(name, enabled) =>
      if name in t.interfaces { InsertCovers(t, t.interfaces[name].(dhcpv4Enabled := enabled)); }
    case SetGateway(name, gateway, _) =>
      if name in t.interfaces { InsertCovers(t, t.interfaces[name].(gatewayIpv4 := gateway)); }
    case Refreshed(infos) => InsertedAllCovers(NO_TABLES, infos);
  }

  function RunTable(t: Tables, events: seq<TableEvent>): Tables {
    if events == [] then t else After(RunTable(t, events[..|events| - 1]), events[|events| - 1])
  }

  predicate SafeRun(t: Tables, events: seq<TableEvent>) {
    events == []
    || (SafeRun(t, events[..|events| - 1]) && Safe(RunTable(t, events[..|events| - 1]), events[|events| - 1]))
  }

  /** Every run of safe events keeps all indices exact. */
  lemma {:induction false} RunExact(t: Tables, events: seq<TableEvent>)
    requires Exact(t) && SafeRun(t, events)
    ensures Exact(RunTable(t, events))
  {
    if events != [] {
      RunExact(t, events[..|events| - 1]);
      StepExactIff(RunTable(t, events[..|events| - 1]), events[|events| - 1]);
    }
  }

  /** Every run at all keeps each interface listed under its own type, parent
      and state. */
  lemma {:induction false} RunCovers(t: Tables, events: seq<TableEvent>)
    requires Covered(t)
    ensures Covered(RunTable(t, events))
  {
    if events != [] {
      RunCovers(t, events[..|events| - 1]);
      StepCovers(RunTable(t, events[..|events| - 1]), events[|events| - 1]);
    }
  }

  // -------------------------------------------------------- what subscribers hear

  /** The entries after an event. */
  function EntriesAfter(entries: map<string, InterfaceInfo>, e: TableEvent): map<string, InterfaceInfo> {
    match e
    case Added(info) => entries[info.name := info]
    case Gone(name) => entries - {name}
    case Changed(info) => entries[info.name := Carried(entries, info)]
    case ExternalState(name, state) =>
      if name in entries then entries[name := entries[name].(state := state)] else entries
    case SetSlaac(name, enabled) =>
      if name in entries then entries[name := entries[name].(slaacEnabled := enabled)] else entries
    case SetDhcp(name, enabled) =>
      if name in entries then entries[name := entries[name].(dhcpv4Enabled := enabled)] else entries
    case SetGateway(name, gateway, _) =>
      if name in entries then entries[name := entries[name].(gatewayIpv4 := gateway)] else entries
    case Refreshed(infos) => ByName(infos)
  }

  lemma UpdatedEntries(t: Tables, info: InterfaceInfo)
    ensures Updated(t, info).interfaces == t.interfaces[info.name := info]
  {
  }

  lemma EntriesAre(t: Tables, e: TableEvent)
    requires Named(t)
    ensures After(t, e).interfaces == EntriesAfter(t.interfaces, e)
  {
    match e
    case Changed(info) => UpdatedEntries(t, Carried(t.interfaces, info));
    case ExternalState(name, state) =>
      if name in t.interfaces { UpdatedEntries(t, t.interfaces[name].(state := state)); }
    case SetDhcp(name, enabled) =>
      if name in t.interfaces && t.interfaces[name].dhcpv4Enabled == enabled {
        assert t.interfaces[name].(dhcpv4Enabled := enabled) == t.interfaces[name];
      }
    case Refreshed(infos) => InsertedAllInterfaces(infos);
    case _ =>
  }

  /** The entries after a run of kernel reports. */
  function ReportedAll(entries: map<string, InterfaceInfo>, infos: seq<InterfaceInfo>): map<string, InterfaceInfo> {
    if infos == [] then entries
    else
      var (before, info) := (ReportedAll(entries, infos[..|infos| - 1]), infos[|infos| - 1]);
      before[info.name := Carried(before, info)]
  }

  function Reports(infos: seq<InterfaceInfo>): seq<TableEvent> {
    seq(|infos|, i requires 0 <= i < |infos| => Changed(infos[i]))
  }

  lemma {:induction false} ReportsRun(t: Tables, infos: seq<InterfaceInfo>)
    requires Named(t)
    ensures Named(RunTable(t, Reports(infos)))
    ensures RunTable(t, Reports(infos)).interfaces == ReportedAll(t.interfaces, infos)
  {
    if infos != [] {
      var n := |infos| - 1;
      ReportsRun(t, infos[..n]);
      assert Reports(infos)[..n] == Reports(infos[..n]);
      EntriesAre(RunTable(t, Reports(infos[..n])), Changed(infos[n]));
    }
  }

  predicate StaysWlan(infos: seq<InterfaceInfo>, name: string) {
    forall i :: 0 <= i < |infos| && infos[i].name == name ==> infos[i].interfaceType == Wlan
  }

  /** What the daemon manages itself survives any run of kernel reports: the
      gateways, both flags, and the state of an unmanaged or wireless
      interface. */
  lemma {:induction false} ReportsKeepManaged(
    entries: map<string, InterfaceInfo>, infos: seq<InterfaceInfo>, name: string)
    requires name in entries
    ensures name in ReportedAll(entries, infos)
    ensures var (was, now) := (entries[name], ReportedAll(entries, infos)[name]);
            && now.gatewayIpv4 == was.gatewayIpv4 && now.gatewayIpv6 == was.gatewayIpv6
            && now.dhcpv4Enabled == was.dhcpv4Enabled && now.slaacEnabled == was.slaacEnabled
            && (was.state == Unmanaged ==> now.state == Unmanaged)
            && (was.interfaceType == Wlan && StaysWlan(infos, name) ==>
                  now.interfaceType == Wlan && now.state == was.state)
  {
    if infos != [] {
      ReportsKeepManaged(entries, infos[..|infos| - 1], name);
    }
  }

  /** All else is as the interface's last report has it; also its state, unless
      the entry before was unmanaged or wireless. */
  lemma {:induction false} LastReportShows(entries: map<string, InterfaceInfo>, infos: seq<InterfaceInfo>, k: nat)
    requires k < |infos|
    requires forall j :: k < j < |infos| ==> infos[j].name != infos[k].name
    ensures infos[k].name in ReportedAll(entries, infos)
    ensures var (info, now) := (infos[k], ReportedAll(entries, infos)[infos[k].name]);
            && now.id == info.id && now.interfaceType == info.interfaceType && now.parent == info.parent
            && now.ipv4Addrs == info.ipv4Addrs && now.ipv6Addrs == info.ipv6Addrs
    ensures var (before, info, now) := (ReportedAll(entries, infos[..k]), infos[k],
                                        ReportedAll(entries, infos)[infos[k].name]);
            if info.name !in before then now == info
            else if before[info.name].state == Unmanaged then now.state == Unmanaged
            else if before[info.name].interfaceType == Wlan then now.state == before[info.name].state
            else now.state == info.state
  {
    if k < |infos| - 1 {
      LastReportShows(entries, infos[..|infos| - 1], k);
      assert infos[..|infos| - 1][..k] == infos[..k];
    }
  }

  function Notices(entries: map<string, InterfaceInfo>, e: TableEvent): seq<Notice> {
    match e
    case Added(info) => [InterfaceAdded(info)]
    case Changed(info) => [InterfaceChanged(Carried(entries, info))]
    case ExternalState(name, state) =>
      if name in entries then [InterfaceChanged(entries[name].(state := state))] else []
    case SetDhcp(name, enabled) =>
      if name in entries && entries[name].dhcpv4Enabled != enabled
      then [InterfaceChanged(entries[name].(dhcpv4Enabled := enabled))] else []
    case SetGateway(name, gateway, told) =>
      if told && name in entries then [InterfaceChanged(entries[name].(gatewayIpv4 := gateway))] else []
    case _ => []
  }

  /** What is announced is the entry then in the table: as added when the kernel
      reports an addition, as changed otherwise. Reports are always announced. */
  lemma NoticesShow(t: Tables, e: TableEvent)
    requires Named(t) && !e.Refreshed?
    ensures var (told, after) := (Notices(t.interfaces, e), After(t, e).interfaces);
            && |told| <= 1
            && (forall n :: n in told ==>
                  && n.info.name in after && n.info == after[n.info.name]
                  && (n.InterfaceAdded? <==> e.Added?) && (n.InterfaceChanged? <==> !e.Added?))
            && (e.Added? || e.Changed? ==> told != [] && told[0].info.name == e.info.name)
  {
    EntriesAre(t, e);
  }

  /** What a subscriber keeps that remembers the last entry under each name. */
  function Heeded(mirror: map<string, InterfaceInfo>, notice: Notice): map<string, InterfaceInfo> {
    match notice
    case InterfaceRemoved(info) => mirror - {info.name}
    case InterfaceAdded(info) => mirror[info.name := info]
    case InterfaceChanged(info) => mirror[info.name := info]
  }

  function Mirrored(mirror: map<string, InterfaceInfo>, notices: seq<Notice>): map<string, InterfaceInfo> {
    if notices == [] then mirror
    else Heeded(Mirrored(mirror, notices[..|notices| - 1]), notices[|notices| - 1])
  }

  lemma MirroredOne(mirror: map<string, InterfaceInfo>, notice: Notice)
    ensures Mirrored(mirror, [notice]) == Heeded(mirror, notice)
  {
  }

  /** Changes that subscribers are told of, or that are none. */
  predicate Heard(entries: map<string, InterfaceInfo>, e: TableEvent)
    requires !e.Refreshed?
  {
    match e
    case Gone(name) => name !in entries
    case SetSlaac(name, enabled) => name in entries ==> entries[name].slaacEnabled == enabled
    case SetGateway(name, gateway, told) =>
      told || (name in entries ==> entries[name].gatewayIpv4 == gateway)
    case _ => true
  }

  lemma SetEntryIff(entries: map<string, InterfaceInfo>, name: string, info: InterfaceInfo)
    requires name in entries
    ensures entries[name := info] == entries <==> info == entries[name]
  {
  }

  /** A mirror of the table stays one exactly when the change is announced:
      the end of a link reported by the kernel never is. */
  lemma MirrorStaysIff(t: Tables, e: TableEvent)
    requires Named(t) && !e.Refreshed?
    ensures Mirrored(t.interfaces, Notices(t.interfaces, e)) == After(t, e).interfaces <==> Heard(t.interfaces, e)
  {
    EntriesAre(t, e);
    var entries := t.interfaces;
    if Notices(entries, e) != [] {
      MirroredOne(entries, Notices(entries, e)[0]);
    }
    match e
    case SetSlaac(name, enabled) =>
      if name in entries { SetEntryIff(entries, name, entries[name].(slaacEnabled := enabled)); }
    case SetDhcp(name, enabled) =>
      if name in entries { SetEntryIff(entries, name, entries[name].(dhcpv4Enabled := enabled)); }
    case SetGateway(name, gateway, told) =>
      if name in entries { SetEntryIff(entries, name, entries[name].(gatewayIpv4 := gateway)); }
    case _ =>
  }

  /** The end of em0 is reported: the table is empty, the mirror is not. */
  lemma StaleMirrorExample(info: InterfaceInfo, t: Tables)
    requires info.name == "em0" && t == Inserted(NO_TABLES, info)
    ensures After(t, Gone("em0")).interfaces == map[]
    ensures Mirrored(t.interfaces, Notices(t.interfaces, Gone("em0"))) == map["em0" := info]
  {
    assert t.interfaces == map["em0" := info];
  }

  function At<V>(m: map<string, V>, name: string): Option<V> {
    if name in m then Some(m[name]) else None
  }

  function Removals(infos: seq<InterfaceInfo>): seq<Notice> {
    seq(|infos|, i requires 0 <= i < |infos| => InterfaceRemoved(infos[i]))
  }

  function Additions(infos: seq<InterfaceInfo>): seq<Notice> {
    seq(|infos|, i requires 0 <= i < |infos| => InterfaceAdded(infos[i]))
  }

  lemma {:induction false} MirroredConcat(m: map<string, InterfaceInfo>, xs: seq<Notice>, ys: seq<Notice>)
    ensures Mirrored(m, xs + ys) == Mirrored(Mirrored(m, xs), ys)
  {
    if ys == [] {
      assert xs + ys == xs;
    } else {
      assert (xs + ys)[..|xs + ys| - 1] == xs + ys[..|ys| - 1];
      MirroredConcat(m, xs, ys[..|ys| - 1]);
    }
  }

  lemma {:induction false} RemovalsAt(m: map<string, InterfaceInfo>, infos: seq<InterfaceInfo>, name: string)
    ensures At(Mirrored(m, Removals(infos)), name)
            == if exists i :: 0 <= i < |infos| && infos[i].name == name then None else At(m, name)
  {
    if infos != [] {
      assert Removals(infos)[..|infos| - 1] == Removals(infos[..|infos| - 1]);
      RemovalsAt(m, infos[..|infos| - 1], name);
    }
  }

  lemma {:induction false} AdditionsAt(m: map<string, InterfaceInfo>, infos: seq<InterfaceInfo>, info: InterfaceInfo)
    requires forall i :: 0 <= i < |infos| && infos[i].name == info.name ==> infos[i] == info
    ensures At(Mirrored(m, Additions(infos)), info.name) == if info in infos then Some(info) else At(m, info.name)
  {
    if infos != [] {
      assert Additions(infos)[..|infos| - 1] == Additions(infos[..|infos| - 1]);
      AdditionsAt(m, infos[..|infos| - 1], info);
      assert infos == infos[..|infos| - 1] + [infos[|infos| - 1]];
    }
  }

  lemma {:induction false} AdditionsElsewhere(m: map<string, InterfaceInfo>, infos: seq<InterfaceInfo>, name: string)
    requires forall i :: 0 <= i < |infos| ==> infos[i].name != name
    ensures At(Mirrored(m, Additions(infos)), name) == At(m, name)
  {
    if infos != [] {
      assert Additions(infos)[..|infos| - 1] == Additions(infos[..|infos| - 1]);
      AdditionsElsewhere(m, infos[..|infos| - 1], name);
    }
  }

  predicate Keyed(m: map<string, InterfaceInfo>) {
    forall n :: n in m ==> m[n].name == n
  }

  /** The announcements of a refresh, the lost entries before the gained ones
      but otherwise in any order, bring every mirror up to date on exactly the
      names whose entry changed, and leave it alone elsewhere. */
  lemma RefreshAt(m: map<string, InterfaceInfo>, before: map<string, InterfaceInfo>, after: map<string, InterfaceInfo>,
                  lost: seq<InterfaceInfo>, gained: seq<InterfaceInfo>, name: string)
    requires Keyed(before) && Keyed(after)
    requires forall info :: info in lost <==> info in before.Values - after.Values
    requires forall info :: info in gained <==> info in after.Values - before.Values
    ensures At(Mirrored(m, Removals(lost) + Additions(gained)), name)
            == if At(before, name) == At(after, name) then At(m, name) else At(after, name)
  {
    MirroredConcat(m, Removals(lost), Additions(gained));
    var middle := Mirrored(m, Removals(lost));
    RemovalsAt(m, lost, name);
    var differs := name in before && At(before, name) != At(after, name);
    assert (exists i :: 0 <= i < |lost| && lost[i].name == name) <==> differs by {
      if i :| 0 <= i < |lost| && lost[i].name == name {
        assert lost[i] in lost;
      }
      if name in before && At(before, name) != At(after, name) {
        assert before[name] in lost;
      }
    }
    forall i | 0 <= i < |gained| && gained[i].name == name ensures name in after && gained[i] == after[name] {
      assert gained[i] in gained;
    }
    if name in after {
      AdditionsAt(middle, gained, after[name]);
      assert after[name] in gained <==> At(before, name) != At(after, name);
    } else {
      AdditionsElsewhere(middle, gained, name);
    }
  }

  /** So a mirror of the old table becomes a mirror of the new one. */
  lemma RefreshMirrors(before: map<string, InterfaceInfo>, after: map<string, InterfaceInfo>,
                       lost: seq<InterfaceInfo>, gained: seq<InterfaceInfo>)
    requires Keyed(before) && Keyed(after)
    requires forall info :: info in lost <==> info in before.Values - after.Values
    requires forall info :: info in gained <==> info in after.Values - before.Values
    ensures Mirrored(before, Removals(lost) + Additions(gained)) == after
  {
    var mirror := Mirrored(before, Removals(lost) + Additions(gained));
    forall n ensures At(mirror, n) == At(after, n) {
      RefreshAt(before, before, after, lost, gained, n);
    }
    forall n ensures n in mirror <==> n in after {
      assert At(mirror, n) == At(after, n);
    }
    forall n | n in mirror ensures mirror[n] == after[n] {
      assert At(mirror, n) == At(after, n);
    }
  }
}
