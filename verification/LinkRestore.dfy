/** Recreating persisted logical links that depend on one another
    (network-daemon/src/interface/mod.rs, network-daemon/src/interface/ifconfig.rs). */
module LinkRestore {
  import Text

  datatype LinkOptions =
    | Wlan(parent: string)
    | Bridge(members: seq<string>)
    | Lagg(members: seq<string>)
    | Vlan(parent: string, tag: nat)

  datatype Link = Link(name: string, options: LinkOptions)

  /** Which links the kernel can create next to the interfaces present. */
  type Rule = (Link, set<string>) -> bool

  /** More interfaces never make a link impossible. */
  ghost predicate Monotone(can: Rule) {
    forall link, a: set<string>, b: set<string> :: a <= b && can(link, a) ==> can(link, b)
  }

  // ------------------------------------------------------------- the actual rule

  predicate ValidName(name: string) {
    name != "" && forall i :: 0 <= i < |name| ==> !Text.IsWhitespace(name[i]) && !IsControl(name[i])
  }

  predicate IsControl(c: char) {
    c as int < 0x20 || 0x7F <= c as int <= 0x9F
  }

  predicate ValidLink(link: Link) {
    && ValidName(link.name)
    && match link.options
       case Wlan(parent) => ValidName(parent)
       case Bridge(members) => forall m :: m in members ==> ValidName(m)
       case Lagg(members) => forall m :: m in members ==> ValidName(m)
       case Vlan(parent, tag) => ValidName(parent) && 1 <= tag <= 4094
  }

  /** The interfaces a link is attached to. */
  function Needs(options: LinkOptions): set<string> {
    match options
    case Wlan(_) => {}
    case Bridge(members) => set m | m in members
    case Lagg(members) => set m | m in members
    case Vlan(parent, _) => {parent}
  }

  /** A wireless parent is a device, not an interface. */
  function ByParameters(devices: set<string>): Rule {
    (link: Link, present: set<string>) =>
      ValidLink(link) && Needs(link.options) <= present
      && (link.options.Wlan? ==> link.options.parent in devices)
  }

  lemma ParametersAreMonotone(devices: set<string>)
    ensures Monotone(ByParameters(devices))
  {
  }

  // -------------------------------------------------------------- least fixpoint

  ghost predicate Closed(s: set<string>, links: seq<Link>, can: Rule) {
    forall link :: link in links && can(link, s) ==> link.name in s
  }

  /** The interfaces that exist once every link that can be created has been. */
  ghost predicate Least(s: set<string>, start: set<string>, links: seq<Link>, can: Rule) {
    && start <= s && Closed(s, links, can)
    && forall t: set<string> :: start <= t && Closed(t, links, can) ==> s <= t
  }

  /** The outcome does not depend on the order of the configuration. */
  lemma LeastUnique(s: set<string>, t: set<string>, start: set<string>, links: seq<Link>, others: seq<Link>, can: Rule)
    requires Least(s, start, links, can) && Least(t, start, others, can)
    requires forall link :: link in links <==> link in others
    ensures s == t
  {
  }

  /** Links that wait for one another are never created. */
  lemma CyclesStayOut(s: set<string>, start: set<string>, links: seq<Link>, devices: set<string>, cycle: set<string>)
    requires Least(s, start, links, ByParameters(devices))
    requires cycle !! start
    requires forall link :: link in links && link.name in cycle ==> Needs(link.options) * cycle != {}
    ensures cycle !! s
  {
    var (can, t) := (ByParameters(devices), s - cycle);
    forall link | link in links && can(link, t) ensures link.name in t {
      assert can(link, s);
      assert Needs(link.options) * cycle == {};
    }
    assert Closed(t, links, can);
  }

  /** With the kernel's actual rule: a configured link that was not there is
      created just when its names and tag are in order, its parent or members
      are there in the end and, for a WLAN, its device exists. */
  lemma RestoredIff(s: set<string>, start: set<string>, links: seq<Link>, devices: set<string>, link: Link)
    requires Least(s, start, links, ByParameters(devices)) && DistinctNames(links)
    requires link in links && link.name !in start
    ensures link.name in s <==>
            && Proper(link.name)
            && match link.options
               case Wlan(parent) => Proper(parent) && parent in devices
               case Bridge(members) => forall m :: m in members ==> Proper(m) && m in s
               case Lagg(members) => forall m :: m in members ==> Proper(m) && m in s
               case Vlan(parent, tag) => Proper(parent) && 1 <= tag <= 4094 && parent in s
  {
    var can := ByParameters(devices);
    ParametersIff(devices, link, s);
    if link.name in s && !can(link, s) {
      var t := s - {link.name};
      forall other | other in links && can(other, t) ensures other.name in t {
        assert can(other, s);
        SameLink(links, link, other);
      }
      assert Closed(t, links, can);
    }
  }

  /** Neither empty nor holding white space or a control character. */
  predicate Proper(name: string) {
    && name != ""
    && forall c :: c in name ==> !Text.IsWhitespace(c) && c as int >= 0x20 && !(0x7F <= c as int < 0xA0)
  }

  lemma ProperIff(name: string)
    ensures ValidName(name) <==> Proper(name)
  {
    if ValidName(name) {
      forall c | c in name ensures !Text.IsWhitespace(c) && !IsControl(c) {
        var i :| 0 <= i < |name| && name[i] == c;
      }
    }
  }

  lemma ParametersIff(devices: set<string>, link: Link, s: set<string>)
    ensures ByParameters(devices)(link, s) <==>
            && Proper(link.name)
            && match link.options
               case Wlan(parent) => Proper(parent) && parent in devices
               case Bridge(members) => forall m :: m in members ==> Proper(m) && m in s
               case Lagg(members) => forall m :: m in members ==> Proper(m) && m in s
               case Vlan(parent, tag) => Proper(parent) && 1 <= tag <= 4094 && parent in s
  {
    forall name ensures ValidName(name) <==> Proper(name) {
      ProperIff(name);
    }
    assert link.options.Wlan? ==> Needs(link.options) <= s;
  }

  lemma SameLink(links: seq<Link>, a: Link, b: Link)
    requires DistinctNames(links) && a in links && b in links
    ensures a.name == b.name ==> a == b
  {
  }

  predicate DistinctNames(links: seq<Link>) {
    forall i, j :: 0 <= i < j < |links| ==> links[i].name != links[j].name
  }

  /** How many of the links are not there yet. */
  function Missing(links: seq<Link>, names: set<string>): (n: nat)
    ensures n <= |links|
  {
    if links == [] then 0
    else Missing(links[..|links| - 1], names) + if links[|links| - 1].name in names then 0 else 1
  }

  function Triangle(n: nat): nat {
    n * (n + 1) / 2
  }

  lemma TriangleNext(n: nat)
    ensures Triangle(n + 1) == Triangle(n) + n + 1
  {
    assert (n + 1) * (n + 2) == n * (n + 1) + 2 * (n + 1);
  }

  lemma {:induction false} TriangleStep(m: nat, n: nat)
    requires m < n
    ensures Triangle(m) + n <= Triangle(n)
  {
    TriangleNext(n - 1);
    if m < n - 1 {
      TriangleStep(m, n - 1);
    }
  }

  lemma {:induction false} MissingAll(links: seq<Link>, names: set<string>)
    requires forall i :: 0 <= i < |links| ==> links[i].name !in names
    ensures Missing(links, names) == |links|
  {
    if links != [] {
      MissingAll(links[..|links| - 1], names);
    }
  }

  // ------------------------------------------------------------------ the kernel

  /** The names created since position `from` of the log: each once, and they
      are just what `present` has beyond `start`. */
  ghost predicate CreatedOnce(log: seq<string>, from: nat, start: set<string>, present: set<string>) {
    && from <= |log| && start <= present
    && (forall i, j :: from <= i < j < |log| ==> log[i] != log[j])
    && (forall x :: x in log[from..] <==> x in present - start)
  }

  lemma CreateOneMore(log: seq<string>, from: nat, start: set<string>, present: set<string>, name: string)
    requires CreatedOnce(log, from, start, present) && name !in present
    ensures CreatedOnce(log + [name], from, start, present + {name})
  {
    var after := log + [name];
    assert after[from..] == log[from..] + [name];
    forall i | from <= i < |log| ensures log[i] != name {
      assert log[i] == log[from..][i - from] && log[i] in log[from..];
    }
  }

  class LinkKernel {
    const can: Rule
    var present: set<string>
    var attempts: nat
    var log: seq<string>

    /** A failed creation leaves nothing behind. */
    method CreateLink(link: Link) returns (ok: bool)
      modifies this
      ensures ok == (link.name !in old(present) && can(link, old(present)))
      ensures present == if ok then old(present) + {link.name} else old(present)
      ensures log == if ok then old(log) + [link.name] else old(log)
      ensures attempts == old(attempts) + 1
    {
      attempts := attempts + 1;
      ok := link.name !in present && can(link, present);
      if ok {
        present := present + {link.name};
        log := log + [link.name];
      }
    }
  }

  // -------------------------------------------------------------------- the loop

  method Create(kernel: LinkKernel, link: Link, ghost start: set<string>, ghost from: nat) returns (ok: bool)
    requires CreatedOnce(kernel.log, from, start, kernel.present)
    modifies kernel
    ensures ok == (link.name !in old(kernel.present) && kernel.can(link, old(kernel.present)))
    ensures kernel.present == if ok then old(kernel.present) + {link.name} else old(kernel.present)
    ensures kernel.attempts == old(kernel.attempts) + 1
    ensures CreatedOnce(kernel.log, from, start, kernel.present)
  {
    ghost var (log, present) := (kernel.log, kernel.present);
    ok := kernel.CreateLink(link);
    if ok {
      CreateOneMore(log, from, start, present, link.name);
    }
  }

  /** What is created had to be. */
  ghost predicate Forced(known: set<string>, pending: seq<Link>, can: Rule, names: set<string>) {
    forall t: set<string> :: known <= t && Closed(t, pending, can) ==> names <= t
  }

  /** Links put off: pending ones that are not there. */
  ghost predicate PutOff(pending: seq<Link>, names: set<string>, deferred: seq<Link>) {
    DistinctNames(deferred) && forall link :: link in deferred ==> link in pending && link.name !in names
  }

  /** How a pass stands after its first `i` links. */
  ghost predicate Partway(known: set<string>, pending: seq<Link>, can: Rule, i: nat,
                          names: set<string>, deferred: seq<Link>)
    requires i <= |pending|
  {
    && known <= names && Forced(known, pending, can, names) && PutOff(pending[..i], names, deferred)
    && (forall j :: 0 <= j < i ==> pending[j] in deferred || pending[j].name in names)
    && (forall j :: i <= j < |pending| && pending[j].name in names ==> pending[j].name in known)
    && (names == known ==> forall link :: link in deferred ==> !can(link, names))
  }

  lemma PassSkips(known: set<string>, pending: seq<Link>, can: Rule, i: nat, names: set<string>, deferred: seq<Link>)
    requires i < |pending| && Partway(known, pending, can, i, names, deferred) && pending[i].name in names
    ensures Partway(known, pending, can, i + 1, names, deferred)
  {
    assert pending[..i + 1] == pending[..i] + [pending[i]];
  }

  lemma PassCreates(known: set<string>, pending: seq<Link>, can: Rule, i: nat, names: set<string>, deferred: seq<Link>)
    requires DistinctNames(pending) && Monotone(can)
    requires i < |pending| && Partway(known, pending, can, i, names, deferred)
    requires pending[i].name !in names && can(pending[i], names)
    ensures Partway(known, pending, can, i + 1, names + {pending[i].name}, deferred)
  {
    var (link, more) := (pending[i], names + {pending[i].name});
    assert pending[..i + 1] == pending[..i] + [link];
    forall t: set<string> | known <= t && Closed(t, pending, can) ensures more <= t {
      assert names <= t && can(link, t);
    }
    forall d | d in deferred ensures d.name != link.name {
      var j :| 0 <= j < i && pending[j] == d;
    }
  }

  lemma PassDefers(known: set<string>, pending: seq<Link>, can: Rule, i: nat, names: set<string>, deferred: seq<Link>)
    requires DistinctNames(pending) && i < |pending| && Partway(known, pending, can, i, names, deferred)
    requires pending[i].name !in names && !can(pending[i], names)
    ensures Partway(known, pending, can, i + 1, names, deferred + [pending[i]])
  {
    var (link, more) := (pending[i], deferred + [pending[i]]);
    assert pending[..i + 1] == pending[..i] + [link];
    assert forall d :: d in more <==> d in deferred || d == link;
    forall d | d in deferred ensures d.name != link.name {
      var j :| 0 <= j < i && pending[j] == d;
    }
  }

  /** One pass over the pending links. */
  method Round(kernel: LinkKernel, known: set<string>, pending: seq<Link>, ghost start: set<string>, ghost from: nat)
    returns (names: set<string>, deferred: seq<Link>, progress: bool)
    requires known == kernel.present && DistinctNames(pending) && Monotone(kernel.can)
    requires CreatedOnce(kernel.log, from, start, kernel.present)
    modifies kernel
    ensures names == kernel.present && old(kernel.present) <= kernel.present
    ensures CreatedOnce(kernel.log, from, start, kernel.present)
    ensures Forced(known, pending, kernel.can, kernel.present)
    ensures progress <==> kernel.present != known
    ensures PutOff(pending, names, deferred)
    ensures forall link :: link in pending ==> link in deferred || link.name in names
    ensures !progress ==> forall link :: link in deferred ==> !kernel.can(link, names)
    ensures kernel.attempts <= old(kernel.attempts) + Missing(pending, known)
    ensures |deferred| + (if progress then 1 else 0) <= Missing(pending, known)
  {
    names, deferred, progress := known, [], false;
    for i := 0 to |pending|
      invariant names == kernel.present && (progress <==> names != known)
      invariant CreatedOnce(kernel.log, from, start, kernel.present)
      invariant Partway(known, pending, kernel.can, i, names, deferred)
      invariant kernel.attempts <= old(kernel.attempts) + Missing(pending[..i], known)
      invariant |deferred| + (if progress then 1 else 0) <= Missing(pending[..i], known)
    {
      var link := pending[i];
      assert pending[..i + 1][..i] == pending[..i];
      if link.name in names {
        PassSkips(known, pending, kernel.can, i, names, deferred);
        continue;
      }
      assert link.name !in known;
      var ok := Create(kernel, link, start, from);
      if ok {
        PassCreates(known, pending, kernel.can, i, names, deferred);
        names, progress := names + {link.name}, true;
      } else {
        PassDefers(known, pending, kernel.can, i, names, deferred);
        deferred := deferred + [link];
      }
    }
    assert pending[..|pending|] == pending;
  }

  method CreateConfiguredLinks(kernel: LinkKernel, interfaces: set<string>, config: seq<Link>) returns (created: bool)
    requires interfaces == kernel.present && DistinctNames(config) && Monotone(kernel.can)
    modifies kernel
    ensures Least(kernel.present, old(kernel.present), config, kernel.can)
    ensures created <==> kernel.present != old(kernel.present)
    ensures CreatedOnce(kernel.log, |old(kernel.log)|, old(kernel.present), kernel.present)
    ensures kernel.attempts <= old(kernel.attempts) + Triangle(Missing(config, interfaces))
  {
    var names := interfaces;
    created := false;
    var pending := config;
    var stop := false;
    ghost var from := |kernel.log|;
    while !stop
      invariant names == kernel.present && interfaces <= names
      invariant CreatedOnce(kernel.log, from, interfaces, kernel.present)
      invariant created <==> names != interfaces
      invariant DistinctNames(pending)
      invariant forall link :: link in pending ==> link in config
      invariant forall link :: link in config ==> link in pending || link.name in names
      invariant forall t: set<string> :: interfaces <= t && Closed(t, config, kernel.can) ==> names <= t
      invariant kernel.attempts + (if stop then 0 else Triangle(Missing(pending, names)))
                <= old(kernel.attempts) + Triangle(Missing(config, interfaces))
      invariant stop ==> Closed(names, config, kernel.can)
      decreases !stop, Missing(pending, names)
    {
      ghost var before, todo := names, Missing(pending, names);
      var deferred, progress;
      names, deferred, progress := Round(kernel, names, pending, interfaces, from);
      forall t: set<string> | interfaces <= t && Closed(t, config, kernel.can) ensures names <= t {
        assert before <= t && Closed(t, pending, kernel.can);
      }
      MissingAll(deferred, names);
      created := created || progress;
      if deferred == [] || !progress {
        stop := true;
        if todo > 0 { TriangleStep(0, todo); }
      } else {
        TriangleStep(|deferred|, todo);
      }
      pending := deferred;
    }
  }
}
