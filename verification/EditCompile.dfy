/** From an edited connection to the daemon's actions and what they leave
    behind (network-manager-tui/src/app.rs, network-daemon/src/interface/mod.rs). */
module EditCompile {
  import opened Prelude
  import opened InterfaceTable
  import opened InterfaceEvents
  import opened KernelAddresses
  import opened InterfaceManager

  datatype IpMode = Automatic | Manual | Ignore

  // ------------------------------------------------------------------- compiling

  /** Entered addresses, `None` where the text is not one. */
  function Values(entries: seq<Option<Prefixed>>, width: nat): Result<seq<Prefixed>, string> {
    if entries == [] then Success([])
    else
      var init := Values(entries[..|entries| - 1], width);
      var last := entries[|entries| - 1];
      if init.Failure? then init
      else if last.None? then Failure("invalid address")
      else if last.value.prefixLen > width then Failure("prefix out of range")
      else Success(init.value + [last.value])
  }

  predicate Entered(entries: seq<Option<Prefixed>>, width: nat) {
    forall i :: 0 <= i < |entries| ==> entries[i].Some? && entries[i].value.prefixLen <= width
  }

  lemma {:induction false} ValuesIff(entries: seq<Option<Prefixed>>, width: nat)
    ensures Values(entries, width).Success? <==> Entered(entries, width)
    ensures Values(entries, width).Success? ==>
              |Values(entries, width).value| == |entries|
              && forall i :: 0 <= i < |entries| ==> entries[i] == Some(Values(entries, width).value[i])
  {
    if entries != [] {
      ValuesIff(entries[..|entries| - 1], width);
      assert Entered(entries, width) ==> Entered(entries[..|entries| - 1], width);
    }
  }

  function ClearThenAppend(values: seq<Prefixed>): seq<Modification<Prefixed>> {
    [Clear] + seq(|values|, i requires 0 <= i < |values| => Append(values[i]))
  }

  function Listing(entries: seq<Option<Prefixed>>, width: nat): Result<seq<Modification<Prefixed>>, string> {
    var values := Values(entries, width);
    if values.Failure? then Failure(values.error)
    else if values.value == [] then Failure("at least one address is required in Manual mode")
    else Success(ClearThenAppend(values.value))
  }

  datatype Editor = Editor(
    ipv4Mode: IpMode, ipv6Mode: IpMode, slaac: bool,
    ipv4Addresses: seq<Option<Prefixed>>, ipv6Addresses: seq<Option<Prefixed>>)
  {
    function Ipv4Modifications(): Result<seq<Modification<Prefixed>>, string> {
      match ipv4Mode
      case Automatic => Success([Clear])
      case Ignore => Success([Clear])
      case Manual => Listing(ipv4Addresses, 32)
    }

    function Ipv6Modifications(): Result<seq<Modification<Prefixed>>, string> {
      match ipv6Mode
      case Automatic => Success([NoChange])
      case Ignore => Success([Clear])
      case Manual => Listing(ipv6Addresses, 128)
    }

    function InterfaceActions(name: string): Result<seq<LinkChange>, string> {
      var ipv4, ipv6 := Ipv4Modifications(), Ipv6Modifications();
      if ipv4.Failure? then Failure(ipv4.error)
      else if ipv6.Failure? then Failure(ipv6.error)
      else Success(Zipped(name, ipv4.value, ipv6.value, slaac, ipv4Mode == Automatic))
    }
  }

  function ModificationAt(ms: seq<Modification<Prefixed>>, i: nat): Modification<Prefixed> {
    if i < |ms| then ms[i] else NoChange
  }

  function Action(name: string, ipv4: seq<Modification<Prefixed>>, ipv6: seq<Modification<Prefixed>>,
                  slaac: bool, dhcpv4: bool, i: nat): LinkChange {
    LinkChange(name, ModificationAt(ipv4, i), ModificationAt(ipv6, i), NoChange,
               if i == 0 then Replace(slaac) else NoChange, if i == 0 then Replace(dhcpv4) else NoChange)
  }

  function Zipped(name: string, ipv4: seq<Modification<Prefixed>>, ipv6: seq<Modification<Prefixed>>,
                  slaac: bool, dhcpv4: bool): seq<LinkChange> {
    var count := Max(|ipv4|, |ipv6|);
    seq(count, i requires 0 <= i < count => Action(name, ipv4, ipv6, slaac, dhcpv4, i))
  }

  /** Editing fails exactly when a family in manual mode has no address or a
      wrong one. */
  lemma CompilesIff(e: Editor, name: string)
    ensures e.InterfaceActions(name).Success? <==>
            && (e.ipv4Mode.Manual? ==> e.ipv4Addresses != [] && Entered(e.ipv4Addresses, 32))
            && (e.ipv6Mode.Manual? ==> e.ipv6Addresses != [] && Entered(e.ipv6Addresses, 128))
  {
    ValuesIff(e.ipv4Addresses, 32);
    ValuesIff(e.ipv6Addresses, 128);
  }

  // ---------------------------------------------------------- the plan of a family

  /** What one family is meant to end with: nothing is done, or the addresses
      are replaced by a list. */
  datatype Plan = Leave | Become(values: seq<Prefixed>)

  function Modifications(p: Plan): seq<Modification<Prefixed>> {
    match p case Leave => [NoChange] case Become(values) => ClearThenAppend(values)
  }

  function Wanted(mode: IpMode, automatic: Plan, values: Result<seq<Prefixed>, string>): Plan {
    match mode
    case Automatic => automatic
    case Ignore => Become([])
    case Manual => if values.Success? then Become(values.value) else Leave
  }

  function PlanV4(e: Editor): Plan {
    Wanted(e.ipv4Mode, Become([]), Values(e.ipv4Addresses, 32))
  }

  function PlanV6(e: Editor): Plan {
    Wanted(e.ipv6Mode, Leave, Values(e.ipv6Addresses, 128))
  }

  lemma CompilesToPlans(e: Editor, name: string)
    requires e.InterfaceActions(name).Success?
    ensures e.InterfaceActions(name).value
            == Zipped(name, Modifications(PlanV4(e)), Modifications(PlanV6(e)), e.slaac, e.ipv4Mode == Automatic)
  {
  }

  /** What a family holds after `n` actions. */
  function After(held: set<Prefixed>, listed: seq<Prefixed>, p: Plan, n: nat): set<Prefixed> {
    if p.Leave? || n == 0 then held
    else held - Set(listed) + Set(p.values[..if n - 1 <= |p.values| then n - 1 else |p.values|])
  }

  /** When all its actions can be carried out. */
  predicate Feasible(held: set<Prefixed>, listed: seq<Prefixed>, p: Plan) {
    p.Become? ==>
      && NoDuplicates(listed) && Set(listed) <= held
      && NoDuplicates(p.values) && Set(p.values) !! held - Set(listed)
  }

  lemma SetOfPrefix(values: seq<Prefixed>, i: nat)
    requires i < |values|
    ensures Set(values[..i + 1]) == Set(values[..i]) + {values[i]}
    ensures NoDuplicates(values) ==> values[i] !in Set(values[..i])
    ensures NoDuplicates(values[..i]) && values[i] !in Set(values[..i]) ==> NoDuplicates(values[..i + 1])
  {
    var (before, now) := (values[..i], values[..i + 1]);
    assert now == before + [values[i]];
    assert forall j :: 0 <= j < i ==> before[j] in Set(before);
  }

  /** Each action takes the family from one stage of its plan to the next. */
  lemma StageStep(held: set<Prefixed>, listed: seq<Prefixed>, current: seq<Prefixed>, p: Plan, n: nat)
    requires n == 0 ==> current == listed
    ensures var (m, h) := (ModificationAt(Modifications(p), n), After(held, listed, p, n));
            && Stepped(h, m, current) == After(held, listed, p, n + 1)
            && (Feasible(held, listed, p) ==> Possible(h, m, current))
  {
    if p.Become? {
      if n == 0 {
        assert Set(p.values[..0]) == {};
      } else if n <= |p.values| {
        assert ModificationAt(Modifications(p), n) == Append(p.values[n - 1]);
        SetOfPrefix(p.values, n - 1);
        assert p.values[n - 1] in Set(p.values);
      } else {
        assert ModificationAt(Modifications(p), n) == NoChange;
      }
    }
  }

  function Upto(p: Plan, n: nat): seq<Prefixed>
    requires p.Become?
  {
    p.values[..if n == 0 then 0 else if n - 1 <= |p.values| then n - 1 else |p.values|]
  }

  /** The first `n` actions can be carried out. */
  predicate FeasibleTo(held: set<Prefixed>, listed: seq<Prefixed>, p: Plan, n: nat) {
    p.Become? && n > 0 ==> Feasible(held, listed, Become(Upto(p, n)))
  }

  lemma FeasibleStep(held: set<Prefixed>, listed: seq<Prefixed>, current: seq<Prefixed>, p: Plan, n: nat)
    requires FeasibleTo(held, listed, p, n) && (n == 0 ==> current == listed)
    requires Possible(After(held, listed, p, n), ModificationAt(Modifications(p), n), current)
    ensures FeasibleTo(held, listed, p, n + 1)
  {
    if p.Become? {
      if n == 0 {
        assert Upto(p, 1) == [];
      } else if n <= |p.values| {
        var value := p.values[n - 1];
        assert ModificationAt(Modifications(p), n) == Append(value);
        assert value !in held - Set(listed) && value !in Set(p.values[..n - 1]);
        SetOfPrefix(p.values, n - 1);
      } else {
        assert Upto(p, n + 1) == Upto(p, n);
      }
    }
  }

  // ------------------------------------------------------------------ running it

  /** Between actions the manager may report on any interface, as long as this
      one keeps its index and flags. */
  ghost predicate Drifted(a: State, b: State, name: string) {
    && b.kernel == a.kernel.(calls := b.kernel.calls) && a.policies == b.policies
    && Named(b.tables) && name in a.tables.interfaces && name in b.tables.interfaces
    && var (x, y) := (a.tables.interfaces[name], b.tables.interfaces[name]);
       x.id == y.id && x.slaacEnabled == y.slaacEnabled && x.dhcpv4Enabled == y.dhcpv4Enabled
  }

  function Latest(s: State, states: seq<State>): State {
    if states == [] then s else states[|states| - 1]
  }

  /** The first actions went through one after the other, and these states
      followed. */
  ghost predicate Trace(w: Oracle, d: Disk, s: State, actions: seq<LinkChange>, states: seq<State>, name: string)
    requires |states| <= |actions|
    decreases |states|
  {
    states == []
    || (var (init, n) := (states[..|states| - 1], |states| - 1);
        Trace(w, d, s, actions, init, name) && WentThrough(w, d, Latest(s, init), actions[n], states[n], name))
  }

  ghost predicate WentThrough(w: Oracle, d: Disk, before: State, c: LinkChange, after: State, name: string) {
    ModLinked(w, d, before, c).result.Success? && Drifted(ModLinked(w, d, before, c).state, after, name)
  }

  datatype Aim = Aim(name: string, v4: Plan, v6: Plan, slaac: bool, dhcpv4: bool)

  function Actions(a: Aim): seq<LinkChange> {
    Zipped(a.name, Modifications(a.v4), Modifications(a.v6), a.slaac, a.dhcpv4)
  }

  /** The state after `n` actions: each family at its own stage, the flags set
      by the first action. */
  predicate Reached(s: State, a: Aim, n: nat, t: State)
    requires a.name in s.tables.interfaces
  {
    var entry := s.tables.interfaces[a.name];
    && Named(t.tables) && a.name in t.tables.interfaces && t.tables.interfaces[a.name].id == entry.id
    && Held(t.kernel.addrs, entry.id, true)
       == After(Held(s.kernel.addrs, entry.id, true), entry.ipv4Addrs, a.v4, n)
    && Held(t.kernel.addrs, entry.id, false)
       == After(Held(s.kernel.addrs, entry.id, false), entry.ipv6Addrs, a.v6, n)
    && t.kernel.up == s.kernel.up
    && (n > 0 ==>
          && (a.name in t.kernel.slaac <==> a.slaac)
          && t.tables.interfaces[a.name].slaacEnabled == a.slaac
          && t.tables.interfaces[a.name].dhcpv4Enabled == a.dhcpv4
          && t.policies == s.policies[a.name := Policy(a.slaac, a.dhcpv4)])
  }

  lemma ReachedNext(w: Oracle, d: Disk, s: State, a: Aim, n: nat, before: State, after: State)
    requires a.name in s.tables.interfaces && n < |Actions(a)|
    requires Reached(s, a, n, before) && (n == 0 ==> before == s)
    requires WentThrough(w, d, before, Actions(a)[n], after, a.name)
    ensures Reached(s, a, n + 1, after)
  {
    var (entry, current, c) := (s.tables.interfaces[a.name], before.tables.interfaces[a.name], Actions(a)[n]);
    ChangeMeans(w, d, before, c);
    StageStep(Held(s.kernel.addrs, entry.id, true), entry.ipv4Addrs, current.ipv4Addrs, a.v4, n);
    StageStep(Held(s.kernel.addrs, entry.id, false), entry.ipv6Addrs, current.ipv6Addrs, a.v6, n);
    KernelFlagsReached(w, d, before, c);
    FlagsReached(w, d, before, c);
  }

  lemma KernelFlagsReached(w: Oracle, d: Disk, s: State, c: LinkChange)
    requires c.name in s.tables.interfaces && ModLinked(w, d, s, c).result.Success?
    ensures var k := ModLinked(w, d, s, c).state.kernel;
            && (!c.operState.Replace? ==> k.up == s.kernel.up)
            && (c.name in k.slaac <==> if c.slaac.Replace? then c.slaac.value else c.name in s.kernel.slaac)
  {
    CommandsFlags(w, s.kernel, s.tables.interfaces[c.name], c);
  }

  lemma FlagsReached(w: Oracle, d: Disk, s: State, c: LinkChange)
    requires Named(s.tables) && c.name in s.tables.interfaces && ModLinked(w, d, s, c).result.Success?
    ensures var (r, entry) := (ModLinked(w, d, s, c).state, s.tables.interfaces[c.name]);
            && r.policies == Persisted(s.policies, c)
            && c.name in r.tables.interfaces && r.tables.interfaces[c.name].id == entry.id
            && r.tables.interfaces[c.name].slaacEnabled == Flagged(entry, c).slaacEnabled
            && r.tables.interfaces[c.name].dhcpv4Enabled == Flagged(entry, c).dhcpv4Enabled
  {
    FlagsAfter(s.(kernel := Commands(w, s.kernel, s.tables.interfaces[c.name], c).kernel), c);
  }

  lemma {:induction false} TraceReaches(w: Oracle, d: Disk, s: State, a: Aim, states: seq<State>)
    requires Named(s.tables) && a.name in s.tables.interfaces && |states| <= |Actions(a)|
    requires Trace(w, d, s, Actions(a), states, a.name)
    ensures Reached(s, a, |states|, Latest(s, states))
    decreases |states|
  {
    if states != [] {
      var (init, n) := (states[..|states| - 1], |states| - 1);
      TraceReaches(w, d, s, a, init);
      ReachedNext(w, d, s, a, n, Latest(s, init), states[n]);
    }
  }

  // ------------------------------------------------------------------ the results

  /** The whole plan carried out: each family holds what it had and was not
      listed, and its new list, however long the other family's list is. */
  lemma EditMeans(w: Oracle, d: Disk, s: State, a: Aim, states: seq<State>)
    requires Named(s.tables) && a.name in s.tables.interfaces && |states| == |Actions(a)|
    requires Trace(w, d, s, Actions(a), states, a.name)
    ensures var (entry, t) := (s.tables.interfaces[a.name], states[|states| - 1]);
            var (v4, v6) := (Held(s.kernel.addrs, entry.id, true), Held(s.kernel.addrs, entry.id, false));
            && Held(t.kernel.addrs, entry.id, true)
               == (if a.v4.Leave? then v4 else v4 - Set(entry.ipv4Addrs) + Set(a.v4.values))
            && Held(t.kernel.addrs, entry.id, false)
               == (if a.v6.Leave? then v6 else v6 - Set(entry.ipv6Addrs) + Set(a.v6.values))
            && a.name in t.tables.interfaces
            && t.tables.interfaces[a.name].slaacEnabled == a.slaac
            && t.tables.interfaces[a.name].dhcpv4Enabled == a.dhcpv4
            && t.policies == s.policies[a.name := Policy(a.slaac, a.dhcpv4)]
            && t.kernel.up == s.kernel.up && (a.name in t.kernel.slaac <==> a.slaac)
  {
    TraceReaches(w, d, s, a, states);
    if a.v4.Become? { assert a.v4.values[..|a.v4.values|] == a.v4.values; }
    if a.v6.Become? { assert a.v6.values[..|a.v6.values|] == a.v6.values; }
  }

  /** While the plans are feasible and the kernel has no reasons of its own, no
      action fails; the first one saves the policy, the others save nothing. */
  lemma EditProceeds(w: Oracle, d: Disk, s: State, a: Aim, states: seq<State>)
    requires Named(s.tables) && a.name in s.tables.interfaces && |states| < |Actions(a)|
    requires Trace(w, d, s, Actions(a), states, a.name) && Willing(w) && d(s.uses)
    requires var entry := s.tables.interfaces[a.name];
             && Feasible(Held(s.kernel.addrs, entry.id, true), entry.ipv4Addrs, a.v4)
             && Feasible(Held(s.kernel.addrs, entry.id, false), entry.ipv6Addrs, a.v6)
    ensures ModLinked(w, d, Latest(s, states), Actions(a)[|states|]).result.Success?
  {
    var (entry, before, n) := (s.tables.interfaces[a.name], Latest(s, states), |states|);
    TraceReaches(w, d, s, a, states);
    var current := before.tables.interfaces[a.name];
    StageStep(Held(s.kernel.addrs, entry.id, true), entry.ipv4Addrs, current.ipv4Addrs, a.v4, n);
    StageStep(Held(s.kernel.addrs, entry.id, false), entry.ipv6Addrs, current.ipv6Addrs, a.v6, n);
    ChangeMeans(w, d, before, Actions(a)[n]);
  }

  function PlanOf(a: Aim, v4: bool): Plan {
    if v4 then a.v4 else a.v6
  }

  function ListedIn(entry: InterfaceInfo, v4: bool): seq<Prefixed> {
    if v4 then entry.ipv4Addrs else entry.ipv6Addrs
  }

  function ModificationIn(c: LinkChange, v4: bool): Modification<Prefixed> {
    if v4 then c.ipv4 else c.ipv6
  }

  lemma ActionIs(a: Aim, v4: bool, n: nat)
    requires n < |Actions(a)|
    ensures ModificationIn(Actions(a)[n], v4) == ModificationAt(Modifications(PlanOf(a, v4)), n)
    ensures |Modifications(PlanOf(a, v4))| <= |Actions(a)|
  {
  }

  /** Each action that went through was possible at its stage. */
  lemma LatestPossible(w: Oracle, d: Disk, s: State, a: Aim, states: seq<State>, v4: bool)
    requires Named(s.tables) && a.name in s.tables.interfaces && 0 < |states| <= |Actions(a)|
    requires Trace(w, d, s, Actions(a), states, a.name)
    ensures var (entry, n, before) := (s.tables.interfaces[a.name], |states| - 1, Latest(s, states[..|states| - 1]));
            && a.name in before.tables.interfaces
            && Possible(After(Held(s.kernel.addrs, entry.id, v4), ListedIn(entry, v4), PlanOf(a, v4), n),
                        ModificationAt(Modifications(PlanOf(a, v4)), n),
                        ListedIn(before.tables.interfaces[a.name], v4))
  {
    var (init, n) := (states[..|states| - 1], |states| - 1);
    TraceReaches(w, d, s, a, init);
    ChangeMeans(w, d, Latest(s, init), Actions(a)[n]);
    ActionIs(a, v4, n);
  }

  /** And a plan is feasible as far as it went through, in either family. */
  lemma {:induction false} TraceFeasible(w: Oracle, d: Disk, s: State, a: Aim, states: seq<State>, v4: bool)
    requires Named(s.tables) && a.name in s.tables.interfaces && |states| <= |Actions(a)|
    requires Trace(w, d, s, Actions(a), states, a.name)
    ensures var entry := s.tables.interfaces[a.name];
            FeasibleTo(Held(s.kernel.addrs, entry.id, v4), ListedIn(entry, v4), PlanOf(a, v4), |states|)
    decreases |states|
  {
    if states != [] {
      var (init, entry) := (states[..|states| - 1], s.tables.interfaces[a.name]);
      TraceFeasible(w, d, s, a, init, v4);
      LatestPossible(w, d, s, a, states, v4);
      FeasibleStep(Held(s.kernel.addrs, entry.id, v4), ListedIn(entry, v4),
                   ListedIn(Latest(s, init).tables.interfaces[a.name], v4), PlanOf(a, v4), |init|);
    }
  }

  /** Actions that all went through had the policy of the first one saved. */
  lemma EditNeedsSave(w: Oracle, d: Disk, s: State, a: Aim, states: seq<State>)
    requires Named(s.tables) && a.name in s.tables.interfaces && |states| == |Actions(a)|
    requires Trace(w, d, s, Actions(a), states, a.name)
    ensures d(s.uses)
  {
    TracePrefix(w, d, s, Actions(a), states, a.name);
    ChangeMeans(w, d, s, Actions(a)[0]);
  }

  lemma {:induction false} TracePrefix(w: Oracle, d: Disk, s: State, actions: seq<LinkChange>, states: seq<State>,
                                       name: string)
    requires 0 < |states| <= |actions| && Trace(w, d, s, actions, states, name)
    ensures WentThrough(w, d, s, actions[0], states[0], name)
    decreases |states|
  {
    if |states| > 1 {
      TracePrefix(w, d, s, actions, states[..|states| - 1], name);
    }
  }

  lemma EditNeedsFeasible(w: Oracle, d: Disk, s: State, a: Aim, states: seq<State>, v4: bool)
    requires Named(s.tables) && a.name in s.tables.interfaces && |states| == |Actions(a)|
    requires Trace(w, d, s, Actions(a), states, a.name)
    ensures var entry := s.tables.interfaces[a.name];
            Feasible(Held(s.kernel.addrs, entry.id, v4), ListedIn(entry, v4), PlanOf(a, v4))
  {
    var entry := s.tables.interfaces[a.name];
    TraceFeasible(w, d, s, a, states, v4);
    ActionIs(a, v4, 0);
    FeasibleAtEnd(Held(s.kernel.addrs, entry.id, v4), ListedIn(entry, v4), PlanOf(a, v4), |states|);
  }

  lemma FeasibleAtEnd(held: set<Prefixed>, listed: seq<Prefixed>, p: Plan, n: nat)
    requires FeasibleTo(held, listed, p, n) && n >= |Modifications(p)|
    ensures Feasible(held, listed, p)
  {
    if p.Become? {
      assert Upto(p, n) == p.values;
    }
  }

  /** The family ends with exactly the list just when the table knew all of
      the kernel's addresses as the first action came. */
  lemma ExactlyTheListIff(held: set<Prefixed>, listed: seq<Prefixed>, values: seq<Prefixed>)
    requires Feasible(held, listed, Become(values))
    ensures held - Set(listed) + Set(values) == Set(values) <==> held == Set(listed)
  {
    var rest := held - Set(listed);
    if rest + Set(values) == Set(values) {
      assert rest <= rest + Set(values);
      assert rest == {};
      assert held <= Set(listed) + rest;
    }
  }

  lemma ValuesSet(entries: seq<Option<Prefixed>>, width: nat, p: Prefixed)
    requires Values(entries, width).Success?
    ensures p in Set(Values(entries, width).value) <==> Some(p) in entries
  {
  }

  lemma PlanSets(e: Editor, p: Prefixed)
    requires e.ipv4Mode.Manual? ==> Values(e.ipv4Addresses, 32).Success?
    requires e.ipv6Mode.Manual? ==> Values(e.ipv6Addresses, 128).Success?
    ensures PlanV4(e).Become?
    ensures p in Set(PlanV4(e).values) <==> e.ipv4Mode.Manual? && Some(p) in e.ipv4Addresses
    ensures PlanV6(e).Leave? <==> e.ipv6Mode.Automatic?
    ensures PlanV6(e).Become? ==> (p in Set(PlanV6(e).values) <==> e.ipv6Mode.Manual? && Some(p) in e.ipv6Addresses)
  {
    if e.ipv4Mode.Manual? { ValuesSet(e.ipv4Addresses, 32, p); }
    if e.ipv6Mode.Manual? { ValuesSet(e.ipv6Addresses, 128, p); }
  }

  /** The editor's own case, from its fields to the kernel: with a table that
      knows the kernel's addresses, IPv4 ends with the manual list or nothing,
      IPv6 with the manual list, nothing, or what it had; SLAAC is on in table and
      kernel or off in both, and the link stays up or down. */
  lemma EditorMeans(w: Oracle, d: Disk, s: State, e: Editor, name: string, states: seq<State>)
    requires Named(s.tables) && name in s.tables.interfaces
    requires e.InterfaceActions(name).Success? && |states| == |e.InterfaceActions(name).value|
    requires Trace(w, d, s, e.InterfaceActions(name).value, states, name)
    requires Held(s.kernel.addrs, s.tables.interfaces[name].id, true) == Set(s.tables.interfaces[name].ipv4Addrs)
    requires Held(s.kernel.addrs, s.tables.interfaces[name].id, false) == Set(s.tables.interfaces[name].ipv6Addrs)
    ensures |states| > 0
    ensures var (id, t) := (s.tables.interfaces[name].id, states[|states| - 1]);
            && (forall p :: p in Held(t.kernel.addrs, id, true) <==> e.ipv4Mode.Manual? && Some(p) in e.ipv4Addresses)
            && (forall p :: p in Held(t.kernel.addrs, id, false) <==>
                  if e.ipv6Mode.Automatic? then p in Held(s.kernel.addrs, id, false)
                  else e.ipv6Mode.Manual? && Some(p) in e.ipv6Addresses)
            && t.tables.interfaces[name].dhcpv4Enabled == (e.ipv4Mode == Automatic)
            && t.tables.interfaces[name].slaacEnabled == e.slaac && (name in t.kernel.slaac <==> e.slaac)
            && t.policies == s.policies[name := Policy(e.slaac, e.ipv4Mode == Automatic)]
            && t.kernel.up == s.kernel.up
  {
    CompilesToPlans(e, name);
    var a := Aim(name, PlanV4(e), PlanV6(e), e.slaac, e.ipv4Mode == Automatic);
    EditMeans(w, d, s, a, states);
    var (id, t) := (s.tables.interfaces[name].id, states[|states| - 1]);
    forall p
      ensures p in Held(t.kernel.addrs, id, true) <==> e.ipv4Mode.Manual? && Some(p) in e.ipv4Addresses
      ensures p in Held(t.kernel.addrs, id, false) <==>
                if e.ipv6Mode.Automatic? then p in Held(s.kernel.addrs, id, false)
                else e.ipv6Mode.Manual? && Some(p) in e.ipv6Addresses
    {
      PlanSets(e, p);
    }
  }

  // --------------------------------------------------------- sending the actions

  method SendAction(manager: Manager, c: LinkChange) returns (r: Result<(), InterfaceError>)
    requires Named(manager.View().tables) && c.name in manager.table.interfaces
    modifies manager, manager.table, manager.modifier
    ensures r.Success? ==>
              && WentThrough(manager.modifier.willing, manager.disk, old(manager.View()), c, manager.View(), c.name)
              && Named(manager.View().tables) && c.name in manager.table.interfaces
    ensures Outcome(r, manager.View()) == ModLinked(manager.modifier.willing, manager.disk, old(manager.View()), c)
  {
    ghost var s := manager.View();
    r := manager.ModLink(c);
    if r.Success? {
      FlagsNamed(manager.modifier.willing, manager.disk, s, c);
    }
  }

  /** The actions go to the manager one by one, up to the first that fails. */
  method SendActions(manager: Manager, name: string, actions: seq<LinkChange>)
    returns (r: Result<(), InterfaceError>, ghost states: seq<State>)
    requires Named(manager.View().tables) && name in manager.table.interfaces
    requires forall c :: c in actions ==> c.name == name
    modifies manager, manager.table, manager.modifier
    ensures |states| <= |actions|
    ensures Trace(manager.modifier.willing, manager.disk, old(manager.View()), actions, states, name)
    ensures r.Success? <==> |states| == |actions|
    ensures r.Success? ==> manager.View() == Latest(old(manager.View()), states)
    ensures r.Failure? ==>
              Outcome(r, manager.View())
              == ModLinked(manager.modifier.willing, manager.disk, Latest(old(manager.View()), states),
                           actions[|states|])
  {
    ghost var s := manager.View();
    states := [];
    r := Success(());
    for i := 0 to |actions|
      invariant |states| == i && r.Success?
      invariant manager.View() == Latest(s, states)
      invariant Named(manager.View().tables) && name in manager.table.interfaces
      invariant Trace(manager.modifier.willing, manager.disk, s, actions, states, name)
    {
      assert actions[i] in actions;
      r := SendAction(manager, actions[i]);
      if r.Failure? {
        return;
      }
      assert (states + [manager.View()])[..i] == states;
      states := states + [manager.View()];
    }
  }

  lemma FlagsNamed(w: Oracle, d: Disk, s: State, c: LinkChange)
    requires Named(s.tables) && c.name in s.tables.interfaces && ModLinked(w, d, s, c).result.Success?
    ensures WentThrough(w, d, s, c, ModLinked(w, d, s, c).state, c.name)
    ensures Named(ModLinked(w, d, s, c).state.tables)
    ensures c.name in ModLinked(w, d, s, c).state.tables.interfaces
  {
    FlagsAfter(s.(kernel := Commands(w, s.kernel, s.tables.interfaces[c.name], c).kernel), c);
  }
}
