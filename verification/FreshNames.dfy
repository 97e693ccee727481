/** Unused interface names: the next one that a prefix offers, and those of
    automatically created WLAN interfaces (network-manager-tui/src/app.rs,
    network-daemon/src/interface/mod.rs). */
module FreshNames {
  import opened Prelude
  import opened InterfaceTable
  import opened LinkRestore

  // --------------------------------------------------------- decimal printing

  function Digit(n: nat): char
    requires n < 10
  {
    '0' + n as char
  }

  function Decimal(n: nat): (s: string)
    ensures s != ""
  {
    if n < 10 then [Digit(n)] else Decimal(n / 10) + [Digit(n % 10)]
  }

  function Value(s: string): int {
    if s == "" then 0 else 10 * Value(s[..|s| - 1]) + (s[|s| - 1] as int - '0' as int)
  }

  lemma {:induction false} DecimalValue(n: nat)
    ensures Value(Decimal(n)) == n
  {
    if n >= 10 {
      DecimalValue(n / 10);
      assert Decimal(n)[..|Decimal(n)| - 1] == Decimal(n / 10);
    } else {
      assert Decimal(n)[..0] == "";
    }
  }

  /** Decimal digits without a leading zero; with `DecimalValue` there is only
      one such numeral of each number. */
  lemma {:induction false} DecimalShape(n: nat)
    ensures forall i :: 0 <= i < |Decimal(n)| ==> '0' <= Decimal(n)[i] <= '9'
    ensures Decimal(n)[0] == '0' <==> n == 0
    ensures n == 0 ==> |Decimal(n)| == 1
  {
    if n >= 10 {
      DecimalShape(n / 10);
    }
  }

  function Name(prefix: string, index: nat): string {
    prefix + Decimal(index)
  }

  lemma NameInjective(prefix: string, i: nat, j: nat)
    requires Name(prefix, i) == Name(prefix, j)
    ensures i == j
  {
    assert Decimal(i) == Name(prefix, i)[|prefix|..] == Decimal(j);
    DecimalValue(i);
    DecimalValue(j);
  }

  // ------------------------------------------------------------- pigeonhole

  /** So many names under a prefix cannot all be taken by fewer interfaces. */
  lemma {:induction false} Pigeonhole(prefix: string, k: nat, names: set<string>)
    requires forall j: nat :: j < k ==> Name(prefix, j) in names
    ensures k <= |names|
  {
    if k > 0 {
      var last := Name(prefix, k - 1);
      forall j: nat | j < k - 1 ensures Name(prefix, j) in names - {last} {
        if Name(prefix, j) == last {
          NameInjective(prefix, j, k - 1);
        }
      }
      Pigeonhole(prefix, k - 1, names - {last});
    }
  }

  function NameSet(interfaces: seq<string>): (names: set<string>)
    ensures |names| <= |interfaces|
    ensures forall n :: n in names <==> n in interfaces
  {
    if interfaces == [] then {}
    else
      var (rest, last) := (NameSet(interfaces[..|interfaces| - 1]), interfaces[|interfaces| - 1]);
      assert interfaces == interfaces[..|interfaces| - 1] + [last];
      rest + {last}
  }

  /** The least index whose name is free. */
  ghost predicate Least(prefix: string, names: set<string>, index: nat) {
    Name(prefix, index) !in names && forall j: nat :: j < index ==> Name(prefix, j) in names
  }

  method NextInterfaceName(prefix: string, interfaces: seq<string>) returns (name: string, ghost index: nat)
    ensures name == Name(prefix, index) && name !in interfaces
    ensures Least(prefix, NameSet(interfaces), index)
    ensures index <= |interfaces|
  {
    var i := 0;
    while true
      invariant forall j: nat :: j < i ==> Name(prefix, j) in NameSet(interfaces)
      invariant i <= |interfaces|
      decreases |interfaces| - i
    {
      name := Name(prefix, i);
      if name !in interfaces {
        return name, i;
      }
      i := i + 1;
      Pigeonhole(prefix, i, NameSet(interfaces));
    }
  }

  // ---------------------------------------------------------- automatic WLANs

  /** What the configuration says of a device or interface. */
  datatype Settings = Settings(createWlan: bool, wlan: bool, creation: Option<LinkOptions>)

  function WlanParents(interfaces: set<InterfaceInfo>): set<string> {
    set i | i in interfaces && i.interfaceType == InterfaceType.Wlan && i.parent.Some? :: i.parent.value
  }

  function ConfiguredParents(config: map<string, Settings>): set<string> {
    set n | n in config && config[n].creation.Some? && config[n].creation.value.Wlan? :: config[n].creation.value.parent
  }

  predicate Eligible(parent: string, interfaces: set<InterfaceInfo>, config: map<string, Settings>) {
    && parent !in WlanParents(interfaces) && parent !in ConfiguredParents(config)
    && (parent in config ==> config[parent].createWlan && !config[parent].wlan)
  }

  function AllEligible(devices: seq<string>, interfaces: set<InterfaceInfo>, config: map<string, Settings>)
    : seq<string>
  {
    if devices == [] then []
    else
      var rest := AllEligible(devices[..|devices| - 1], interfaces, config);
      var last := devices[|devices| - 1];
      if Eligible(last, interfaces, config) then rest + [last] else rest
  }

  lemma EligibleIff(d: string, interfaces: set<InterfaceInfo>, config: map<string, Settings>)
    ensures !Eligible(d, interfaces, config) <==>
            || (exists i :: i in interfaces && i.interfaceType == InterfaceType.Wlan && i.parent == Some(d))
            || (exists n :: n in config && config[n].creation == Some(LinkOptions.Wlan(d)))
            || (d in config && (!config[d].createWlan || config[d].wlan))
  {
    if d in ConfiguredParents(config) {
      var n :| n in config && config[n].creation.Some? && config[n].creation.value.Wlan?
               && config[n].creation.value.parent == d;
      assert config[n].creation == Some(LinkOptions.Wlan(d));
    }
  }

  const WLAN := "wlan"

  datatype Try = Try(parent: string, index: nat)

  function Parents(tries: seq<Try>): seq<string> {
    seq(|tries|, i requires 0 <= i < |tries| => tries[i].parent)
  }

  /** The names that the first `k` tries have taken. */
  function Taken(names: set<string>, tries: seq<Try>): set<string> {
    if tries == [] then names
    else Taken(names, tries[..|tries| - 1]) + {Name(WLAN, tries[|tries| - 1].index)}
  }

  /** Each try has the least index whose name neither an interface nor an
      earlier try has, and an index above all earlier ones. */
  ghost predicate Numbered(names: set<string>, tries: seq<Try>) {
    tries == []
    || (var (init, last) := (tries[..|tries| - 1], tries[|tries| - 1]);
        && Numbered(names, init) && Least(WLAN, Taken(names, init), last.index)
        && (init != [] ==> init[|init| - 1].index < last.index))
  }

  lemma {:induction false} TakenHolds(names: set<string>, tries: seq<Try>, i: nat)
    requires i < |tries|
    ensures names <= Taken(names, tries) && Name(WLAN, tries[i].index) in Taken(names, tries)
  {
    if i < |tries| - 1 {
      TakenHolds(names, tries[..|tries| - 1], i);
    } else {
      NamesTaken(names, tries);
    }
  }

  lemma {:induction false} NamesTaken(names: set<string>, tries: seq<Try>)
    ensures names <= Taken(names, tries)
  {
    if tries != [] {
      NamesTaken(names, tries[..|tries| - 1]);
    }
  }

  lemma {:induction false} NumberedNew(names: set<string>, tries: seq<Try>, i: nat)
    requires Numbered(names, tries) && i < |tries|
    ensures Name(WLAN, tries[i].index) !in names
  {
    var init := tries[..|tries| - 1];
    if i < |init| {
      NumberedNew(names, init, i);
    } else {
      NamesTaken(names, init);
    }
  }

  lemma {:induction false} NumberedGrows(names: set<string>, tries: seq<Try>, i: nat, j: nat)
    requires Numbered(names, tries) && i < j < |tries|
    ensures tries[i].index < tries[j].index && Name(WLAN, tries[i].index) != Name(WLAN, tries[j].index)
  {
    var init := tries[..|tries| - 1];
    if j < |init| {
      NumberedGrows(names, init, i, j);
    } else {
      TakenHolds(names, init, i);
      if i < |init| - 1 {
        NumberedGrows(names, init, i, |init| - 1);
      }
    }
  }

  /** So the names are new and pairwise different, and the indices grow. */
  lemma NumberedApart(names: set<string>, tries: seq<Try>)
    requires Numbered(names, tries)
    ensures forall i :: 0 <= i < |tries| ==> Name(WLAN, tries[i].index) !in names
    ensures forall i, j :: 0 <= i < j < |tries| ==>
              tries[i].index < tries[j].index && Name(WLAN, tries[i].index) != Name(WLAN, tries[j].index)
  {
    forall i | 0 <= i < |tries| ensures Name(WLAN, tries[i].index) !in names {
      NumberedNew(names, tries, i);
    }
    forall i, j | 0 <= i < j < |tries|
      ensures tries[i].index < tries[j].index && Name(WLAN, tries[i].index) != Name(WLAN, tries[j].index)
    {
      NumberedGrows(names, tries, i, j);
    }
  }

  /** A device is left alone if a WLAN interface is on it, a configured one is
      to be, or the configuration says so; any other is tried as often as it is
      listed. */
  lemma {:induction false} EligibleOnce(
    devices: seq<string>, interfaces: set<InterfaceInfo>, config: map<string, Settings>, d: string)
    ensures multiset(AllEligible(devices, interfaces, config))[d]
            == if || (exists i :: i in interfaces && i.interfaceType == InterfaceType.Wlan && i.parent == Some(d))
                  || (exists n :: n in config && config[n].creation == Some(LinkOptions.Wlan(d)))
                  || (d in config && (!config[d].createWlan || config[d].wlan))
               then 0 else multiset(devices)[d]
  {
    EligibleIff(d, interfaces, config);
    if devices != [] {
      EligibleOnce(devices[..|devices| - 1], interfaces, config, d);
      assert devices == devices[..|devices| - 1] + [devices[|devices| - 1]];
    }
  }

  function NamesOf(interfaces: set<InterfaceInfo>): set<string> {
    set i | i in interfaces :: i.name
  }

  /** The next free name after the ones counted past. */
  method NextFree(names: set<string>, next: nat) returns (index: nat)
    requires forall j: nat :: j < next ==> Name(WLAN, j) in names
    ensures index >= next && Least(WLAN, names, index)
  {
    index := next;
    Pigeonhole(WLAN, index, names);
    while Name(WLAN, index) in names
      invariant index >= next && index <= |names|
      invariant forall j: nat :: j < index ==> Name(WLAN, j) in names
      decreases |names| - index
    {
      index := index + 1;
      Pigeonhole(WLAN, index, names);
    }
  }

  /** Each try made its interface exactly when the kernel could create a WLAN of
      that name on that device, beside what there was before it. */
  ghost predicate Served(can: Rule, start: set<string>, tries: seq<Try>, present: set<string>) {
    forall i :: 0 <= i < |tries| ==>
      var name := "wlan" + Decimal(tries[i].index);
      name in present <==> can(Link(name, LinkOptions.Wlan(tries[i].parent)), present * Taken(start, tries[..i]))
  }

  /** With the kernel's actual rule every device tried that exists and has a
      proper name gets its interface. */
  lemma WlansServed(devices: set<string>, start: set<string>, tries: seq<Try>, present: set<string>, i: nat)
    requires Served(ByParameters(devices), start, tries, present) && i < |tries|
    ensures "wlan" + Decimal(tries[i].index) in present <==> Proper(tries[i].parent) && tries[i].parent in devices
  {
    var (name, before) := ("wlan" + Decimal(tries[i].index), present * Taken(start, tries[..i]));
    DecimalShape(tries[i].index);
    ParametersIff(devices, Link(name, LinkOptions.Wlan(tries[i].parent)), before);
    assert name in present <==> ByParameters(devices)(Link(name, LinkOptions.Wlan(tries[i].parent)), before);
  }

  /** How the creation stands: every name counted past is taken. */
  ghost predicate Underway(
    can: Rule, start: set<string>, tries: seq<Try>, names: set<string>, next: nat, present: set<string>)
  {
    && Numbered(start, tries) && names == Taken(start, tries) && start <= present <= names
    && Served(can, start, tries, present)
    && (forall j: nat :: j < next ==> Name(WLAN, j) in names)
    && (tries != [] ==> tries[|tries| - 1].index < next)
  }

  method TryParent(kernel: LinkKernel, names: set<string>, next: nat, parent: string,
                   ghost start: set<string>, ghost tries: seq<Try>)
    returns (index: nat, ok: bool, ghost after: seq<Try>)
    requires Underway(kernel.can, start, tries, names, next, kernel.present)
    modifies kernel
    ensures Underway(kernel.can, start, after, names + {Name(WLAN, index)}, index + 1, kernel.present)
    ensures |after| == |tries| + 1 && Parents(after) == Parents(tries) + [parent]
    ensures old(kernel.present) <= kernel.present && (ok <==> kernel.present != old(kernel.present))
    ensures kernel.attempts == old(kernel.attempts) + 1
  {
    index := NextFree(names, next);
    after := tries + [Try(parent, index)];
    ghost var before := kernel.present;
    ok := kernel.CreateLink(Link(Name(WLAN, index), LinkOptions.Wlan(parent)));
    UnderwayNext(kernel.can, start, tries, names, next, before, Try(parent, index), kernel.present);
  }

  lemma EligibleNext(devices: seq<string>, interfaces: set<InterfaceInfo>, config: map<string, Settings>, i: nat)
    requires i < |devices|
    ensures AllEligible(devices[..i + 1], interfaces, config)
            == AllEligible(devices[..i], interfaces, config)
               + if Eligible(devices[i], interfaces, config) then [devices[i]] else []
  {
    assert devices[..i + 1][..i] == devices[..i];
  }

  /** `None` for a configuration or a device list that could not be read. */
  method CreateAutoWlans(kernel: LinkKernel, interfaces: set<InterfaceInfo>, config: Option<map<string, Settings>>,
                         found: Option<seq<string>>)
    returns (created: bool, ghost tries: seq<Try>)
    requires kernel.present == NamesOf(interfaces)
    modifies kernel
    ensures config.None? || found.None? ==> tries == []
    ensures config.Some? && found.Some? ==> Parents(tries) == AllEligible(found.value, interfaces, config.value)
    ensures Numbered(NamesOf(interfaces), tries)
    ensures created <==> kernel.present != old(kernel.present)
    ensures kernel.attempts == old(kernel.attempts) + |tries|
    ensures old(kernel.present) <= kernel.present <= Taken(NamesOf(interfaces), tries)
    ensures Served(kernel.can, NamesOf(interfaces), tries, kernel.present)
    ensures forall i, n :: i in interfaces && 0 <= n < |tries| ==> i.name != "wlan" + Decimal(tries[n].index)
  {
    created, tries := false, [];
    if config.Some? && found.Some? {
      created, tries := TryAll(kernel, interfaces, config.value, found.value);
    }
    NumberedApart(NamesOf(interfaces), tries);
  }

  method TryAll(kernel: LinkKernel, interfaces: set<InterfaceInfo>, config: map<string, Settings>, devices: seq<string>)
    returns (created: bool, ghost tries: seq<Try>)
    requires kernel.present == NamesOf(interfaces)
    modifies kernel
    ensures Parents(tries) == AllEligible(devices, interfaces, config)
    ensures Numbered(NamesOf(interfaces), tries)
    ensures old(kernel.present) <= kernel.present <= Taken(NamesOf(interfaces), tries)
    ensures Served(kernel.can, NamesOf(interfaces), tries, kernel.present)
    ensures created <==> kernel.present != old(kernel.present)
    ensures kernel.attempts == old(kernel.attempts) + |tries|
  {
    created, tries := false, [];
    var existing, configured := WlanParents(interfaces), ConfiguredParents(config);
    var (names, next) := (NamesOf(interfaces), 0);
    ghost var start := names;
    for i := 0 to |devices|
      invariant Parents(tries) == AllEligible(devices[..i], interfaces, config)
      invariant Underway(kernel.can, start, tries, names, next, kernel.present)
      invariant created <==> kernel.present != start
      invariant kernel.attempts == old(kernel.attempts) + |tries|
    {
      var parent := devices[i];
      EligibleNext(devices, interfaces, config, i);
      if parent in existing || parent in configured {
        continue;
      }
      if parent in config && (!config[parent].createWlan || config[parent].wlan) {
        continue;
      }
      var index, ok, after := TryParent(kernel, names, next, parent, start, tries);
      names, next, tries := names + {Name(WLAN, index)}, index + 1, after;
      created := created || ok;
    }
    assert devices[..|devices|] == devices;
  }

  lemma {:induction false} TakenEarlier(names: set<string>, tries: seq<Try>, i: nat)
    requires i <= |tries|
    ensures Taken(names, tries[..i]) <= Taken(names, tries)
  {
    if i < |tries| {
      var init := tries[..|tries| - 1];
      TakenEarlier(names, init, i);
      assert init[..i] == tries[..i];
    } else {
      assert tries[..i] == tries;
    }
  }

  lemma ServedMore(can: Rule, start: set<string>, tries: seq<Try>, before: set<string>, t: Try, present: set<string>)
    requires Served(can, start, tries, before) && before <= Taken(start, tries)
    requires Name(WLAN, t.index) !in Taken(start, tries)
    requires var link := Link(Name(WLAN, t.index), LinkOptions.Wlan(t.parent));
             present == if can(link, before) then before + {link.name} else before
    ensures Served(can, start, tries + [t], present)
  {
    var more := tries + [t];
    forall i | 0 <= i < |more|
      ensures var name := "wlan" + Decimal(more[i].index);
              name in present <==> can(Link(name, LinkOptions.Wlan(more[i].parent)), present * Taken(start, more[..i]))
    {
      assert more[..i] == if i < |tries| then tries[..i] else tries;
      if i < |tries| {
        TakenEarlier(start, tries, i);
        TakenHolds(start, tries, i);
        assert present * Taken(start, tries[..i]) == before * Taken(start, tries[..i]);
      } else {
        assert present * Taken(start, tries) == before;
      }
    }
  }

  lemma UnderwayNext(can: Rule, start: set<string>, tries: seq<Try>, names: set<string>, next: nat,
                     before: set<string>, t: Try, present: set<string>)
    requires Underway(can, start, tries, names, next, before)
    requires next <= t.index && Least(WLAN, names, t.index)
    requires var link := Link(Name(WLAN, t.index), LinkOptions.Wlan(t.parent));
             present == if can(link, before) then before + {link.name} else before
    ensures Underway(can, start, tries + [t], names + {Name(WLAN, t.index)}, t.index + 1, present)
  {
    TryMore(start, tries, t);
    ServedMore(can, start, tries, before, t, present);
  }

  lemma TryMore(names: set<string>, tries: seq<Try>, t: Try)
    requires Numbered(names, tries) && Least(WLAN, Taken(names, tries), t.index)
    requires tries != [] ==> tries[|tries| - 1].index < t.index
    ensures Numbered(names, tries + [t])
    ensures Taken(names, tries + [t]) == Taken(names, tries) + {Name(WLAN, t.index)}
  {
    assert (tries + [t])[..|tries|] == tries;
  }
}
