/** Interface addresses, link status and SLAAC in the kernel, and the commands
    that change them (network-daemon/src/netlink/modifier.rs,
    network-daemon/src/interface/ifconfig.rs, network-daemon/src/interface/mod.rs). */
module KernelAddresses {
  import opened Prelude
  import opened InterfaceTable

  datatype Address = V4(v4: Prefixed) | V6(v6: Prefixed)

  datatype Assigned = Assigned(index: nat, address: Address)

  datatype Modification<+T> = Append(value: T) | Remove(value: T) | Replace(value: T) | Clear | NoChange

  /** Which commands, by their number, go through when they can: a command may
      also fail for reasons of its own. */
  type Oracle = nat -> bool

  ghost predicate Willing(w: Oracle) {
    forall k: nat :: w(k)
  }

  /** The addresses, the interfaces that are up and those that take router
      advertisements; and how many commands there have been. */
  datatype KernelState = KernelState(addrs: set<Assigned>, up: set<string>, slaac: set<string>, calls: nat)

  datatype Reply = Reply(ok: bool, kernel: KernelState)

  function Commanded(w: Oracle, k: KernelState, able: bool, addrs: set<Assigned>): Reply {
    if w(k.calls) && able then Reply(true, k.(addrs := addrs, calls := k.calls + 1))
    else Reply(false, k.(calls := k.calls + 1))
  }

  /** Only an address that is there can be deleted. */
  function AddressDeleted(w: Oracle, k: KernelState, a: Assigned): Reply {
    Commanded(w, k, a in k.addrs, k.addrs - {a})
  }

  /** Adding is exclusive. */
  function AddressAdded(w: Oracle, k: KernelState, a: Assigned): Reply {
    Commanded(w, k, a !in k.addrs, k.addrs + {a})
  }

  /** Opening a socket changes nothing. */
  function Told(w: Oracle, k: KernelState): Reply {
    Commanded(w, k, true, k.addrs)
  }

  function Flag(flagged: set<string>, name: string, on: bool): set<string> {
    if on then flagged + {name} else flagged - {name}
  }

  function LinkSet(w: Oracle, k: KernelState, name: string, up: bool): Reply {
    var r := Told(w, k);
    if r.ok then Reply(true, r.kernel.(up := Flag(k.up, name, up))) else r
  }

  function SlaacSet(w: Oracle, k: KernelState, name: string, on: bool): Reply {
    var r := Told(w, k);
    if r.ok then Reply(true, r.kernel.(slaac := Flag(k.slaac, name, on))) else r
  }

  /** Deletions in turn up to the first that fails. */
  function DeletedAll(w: Oracle, k: KernelState, index: nat, list: seq<Address>): Reply
    decreases |list|
  {
    if list == [] then Reply(true, k)
    else
      var first := AddressDeleted(w, k, Assigned(index, list[0]));
      if first.ok then DeletedAll(w, first.kernel, index, list[1..]) else first
  }

  /** The socket is opened first, whatever is to be done with it. */
  function Modified(w: Oracle, k: KernelState, index: nat, m: Modification<Address>, current: seq<Address>): Reply {
    var socket := Told(w, k);
    if socket.ok then Applied(w, socket.kernel, index, m, current) else socket
  }

  function Applied(w: Oracle, k: KernelState, index: nat, m: Modification<Address>, current: seq<Address>): Reply {
    match m
    case Remove(a) => AddressDeleted(w, k, Assigned(index, a))
    case Append(a) => AddressAdded(w, k, Assigned(index, a))
    case Clear => DeletedAll(w, k, index, current)
    case Replace(a) =>
      var cleared := DeletedAll(w, k, index, current);
      if cleared.ok then AddressAdded(w, cleared.kernel, Assigned(index, a)) else cleared
    case NoChange => Reply(true, k)
  }

  // ------------------------------------------------------- what the commands do

  function On(index: nat, list: seq<Address>): set<Assigned> {
    set a | a in list :: Assigned(index, a)
  }

  /** Deleting a list that goes through takes out just its addresses, and they
      were all there, each listed once. */
  lemma {:induction false} DeletedAllEffect(w: Oracle, k: KernelState, index: nat, list: seq<Address>)
    ensures var r := DeletedAll(w, k, index, list);
            r.ok ==> r.kernel.addrs == k.addrs - On(index, list) && On(index, list) <= k.addrs && NoDuplicates(list)
    decreases |list|
  {
    if list != [] {
      var (head, rest) := (Assigned(index, list[0]), list[1..]);
      var first := AddressDeleted(w, k, head);
      if first.ok {
        DeletedAllEffect(w, first.kernel, index, rest);
        assert list == [list[0]] + rest;
        assert On(index, list) == {head} + On(index, rest);
        if DeletedAll(w, k, index, list).ok {
          assert head !in On(index, rest);
          assert forall j :: 0 < j < |list| ==>
            list[j] == rest[j - 1] && Assigned(index, rest[j - 1]) in On(index, rest);
        }
      }
    }
  }

  /** If the kernel has no reasons of its own, that is all it takes. */
  lemma {:induction false} DeletedAllSucceeds(w: Oracle, k: KernelState, index: nat, list: seq<Address>)
    requires Willing(w) && On(index, list) <= k.addrs && NoDuplicates(list)
    ensures DeletedAll(w, k, index, list).ok
    decreases |list|
  {
    if list != [] {
      var (head, rest) := (Assigned(index, list[0]), list[1..]);
      assert list[0] in list;
      assert head in On(index, list);
      var first := AddressDeleted(w, k, head);
      forall x | x in On(index, rest) ensures x in first.kernel.addrs {
        var i :| 0 <= i < |rest| && x == Assigned(index, rest[i]);
        assert list[i + 1] == rest[i] && list[i + 1] in list;
        assert x in On(index, list);
      }
      DeletedAllSucceeds(w, first.kernel, index, rest);
    }
  }

  // ------------------------------------------------- one interface and family

  function Make(v4: bool, p: Prefixed): Address {
    if v4 then V4(p) else V6(p)
  }

  function Prefix(a: Address): Prefixed {
    match a case V4(p) => p case V6(p) => p
  }

  function Addresses(v4: bool, list: seq<Prefixed>): seq<Address> {
    seq(|list|, i requires 0 <= i < |list| => Make(v4, list[i]))
  }

  function Change(v4: bool, m: Modification<Prefixed>): Modification<Address> {
    match m
    case Append(p) => Append(Make(v4, p))
    case Remove(p) => Remove(Make(v4, p))
    case Replace(p) => Replace(Make(v4, p))
    case Clear => Clear
    case NoChange => NoChange
  }

  /** The addresses that an interface has in one family. */
  function Held(addrs: set<Assigned>, index: nat, v4: bool): set<Prefixed> {
    set a | a in addrs && a.index == index && a.address.V4? == v4 :: Prefix(a.address)
  }

  lemma HeldIff(addrs: set<Assigned>, index: nat, v4: bool, p: Prefixed)
    ensures p in Held(addrs, index, v4) <==> Assigned(index, Make(v4, p)) in addrs
  {
  }

  lemma HeldAfter(addrs: set<Assigned>, index: nat, v4: bool, p: Prefixed)
    ensures Held(addrs - {Assigned(index, Make(v4, p))}, index, v4) == Held(addrs, index, v4) - {p}
    ensures Held(addrs + {Assigned(index, Make(v4, p))}, index, v4) == Held(addrs, index, v4) + {p}
  {
  }

  lemma HeldElsewhere(addrs: set<Assigned>, others: set<Assigned>, index: nat, v4: bool)
    requires forall a: Assigned :: a.index == index && a.address.V4? == v4 ==> (a in addrs <==> a in others)
    ensures Held(addrs, index, v4) == Held(others, index, v4)
  {
  }

  function Set<T>(list: seq<T>): set<T> {
    set x | x in list
  }

  /** What a modification makes of the addresses of its family. */
  function Stepped(held: set<Prefixed>, m: Modification<Prefixed>, listed: seq<Prefixed>): set<Prefixed> {
    match m
    case Append(p) => held + {p}
    case Remove(p) => held - {p}
    case Replace(p) => held - Set(listed) + {p}
    case Clear => held - Set(listed)
    case NoChange => held
  }

  /** What it needs of them. */
  predicate Possible(held: set<Prefixed>, m: Modification<Prefixed>, listed: seq<Prefixed>) {
    match m
    case Append(p) => p !in held
    case Remove(p) => p in held
    case Replace(p) => NoDuplicates(listed) && Set(listed) <= held && p !in held - Set(listed)
    case Clear => NoDuplicates(listed) && Set(listed) <= held
    case NoChange => true
  }

  lemma {:induction false} OtherFamily(w: Oracle, k: KernelState, index: nat, v4: bool, listed: seq<Prefixed>)
    ensures forall a: Assigned :: a.index != index || a.address.V4? != v4 ==>
              (a in k.addrs <==> a in DeletedAll(w, k, index, Addresses(v4, listed)).kernel.addrs)
    decreases |listed|
  {
    if listed != [] {
      var list := Addresses(v4, listed);
      assert list[1..] == Addresses(v4, listed[1..]);
      var first := AddressDeleted(w, k, Assigned(index, list[0]));
      if first.ok {
        OtherFamily(w, first.kernel, index, v4, listed[1..]);
      }
    }
  }

  /** A modification concerns one family of one interface. */
  lemma ModifiedElsewhere(w: Oracle, k: KernelState, index: nat, v4: bool, m: Modification<Prefixed>,
                          listed: seq<Prefixed>)
    ensures forall a: Assigned :: a.index != index || a.address.V4? != v4 ==>
              (a in k.addrs <==> a in Modified(w, k, index, Change(v4, m), Addresses(v4, listed)).kernel.addrs)
  {
    OtherFamily(w, Told(w, k).kernel, index, v4, listed);
  }

  lemma OnAddresses(index: nat, v4: bool, listed: seq<Prefixed>, p: Prefixed)
    ensures p in listed <==> Assigned(index, Make(v4, p)) in On(index, Addresses(v4, listed))
  {
    var list := Addresses(v4, listed);
    if i :| 0 <= i < |listed| && listed[i] == p {
      assert list[i] == Make(v4, p) && list[i] in list;
    }
    if Assigned(index, Make(v4, p)) in On(index, list) {
      var i :| 0 <= i < |list| && list[i] == Make(v4, p);
      assert Prefix(list[i]) == listed[i];
    }
  }

  lemma ClearedHeld(addrs: set<Assigned>, index: nat, v4: bool, listed: seq<Prefixed>)
    ensures Held(addrs - On(index, Addresses(v4, listed)), index, v4) == Held(addrs, index, v4) - Set(listed)
    ensures On(index, Addresses(v4, listed)) <= addrs <==> Set(listed) <= Held(addrs, index, v4)
  {
    var on := On(index, Addresses(v4, listed));
    forall p ensures p in Held(addrs - on, index, v4) <==> p in Held(addrs, index, v4) - Set(listed) {
      HeldIff(addrs - on, index, v4, p);
      HeldIff(addrs, index, v4, p);
      OnAddresses(index, v4, listed, p);
    }
    forall p | p in listed ensures p in Held(addrs, index, v4) <==> Assigned(index, Make(v4, p)) in addrs {
      HeldIff(addrs, index, v4, p);
    }
    if on <= addrs {
      forall p | p in listed ensures p in Held(addrs, index, v4) {
        OnAddresses(index, v4, listed, p);
      }
    }
    if Set(listed) <= Held(addrs, index, v4) {
      forall a | a in on ensures a in addrs {
        var i :| 0 <= i < |listed| && a == Assigned(index, Make(v4, listed[i]));
        assert listed[i] in Set(listed);
      }
    }
  }

  lemma DuplicatesSame(v4: bool, listed: seq<Prefixed>)
    ensures NoDuplicates(Addresses(v4, listed)) <==> NoDuplicates(listed)
  {
    var list := Addresses(v4, listed);
    forall i, j | 0 <= i < j < |list| ensures list[i] != list[j] <==> listed[i] != listed[j] {
      assert Prefix(list[i]) == listed[i] && Prefix(list[j]) == listed[j];
    }
  }

  /** The meaning of a modification: when it goes through, it was possible and
      made its step; a kernel with no reasons of its own refuses none that is
      possible. */
  lemma ModifiedMeans(w: Oracle, k: KernelState, index: nat, v4: bool, m: Modification<Prefixed>,
                      listed: seq<Prefixed>)
    ensures var (r, held) := (Modified(w, k, index, Change(v4, m), Addresses(v4, listed)), Held(k.addrs, index, v4));
            && (r.ok ==> Possible(held, m, listed) && Held(r.kernel.addrs, index, v4) == Stepped(held, m, listed))
            && (Willing(w) && Possible(held, m, listed) ==> r.ok)
  {
    AppliedMeans(w, Told(w, k).kernel, index, v4, m, listed);
  }

  lemma AppliedMeans(w: Oracle, k: KernelState, index: nat, v4: bool, m: Modification<Prefixed>,
                     listed: seq<Prefixed>)
    ensures var (r, held) := (Applied(w, k, index, Change(v4, m), Addresses(v4, listed)), Held(k.addrs, index, v4));
            && (r.ok ==> Possible(held, m, listed) && Held(r.kernel.addrs, index, v4) == Stepped(held, m, listed))
            && (Willing(w) && Possible(held, m, listed) ==> r.ok)
  {
    var list := Addresses(v4, listed);
    match m
    case Append(p) =>
      HeldIff(k.addrs, index, v4, p);
      HeldAfter(k.addrs, index, v4, p);
    case Remove(p) =>
      HeldIff(k.addrs, index, v4, p);
      HeldAfter(k.addrs, index, v4, p);
    case Clear =>
      ClearMeans(w, k, index, v4, listed);
    case Replace(p) =>
      ClearMeans(w, k, index, v4, listed);
      var cleared := DeletedAll(w, k, index, list).kernel.addrs;
      HeldIff(cleared, index, v4, p);
      HeldAfter(cleared, index, v4, p);
    case NoChange =>
  }

  /** Deletions add nothing and take nothing that is not listed, whether they go
      through or stop midway. */
  lemma {:induction false} DeletedAllWithin(w: Oracle, k: KernelState, index: nat, list: seq<Address>)
    ensures var r := DeletedAll(w, k, index, list).kernel;
            r.addrs <= k.addrs <= r.addrs + On(index, list) && r.up == k.up && r.slaac == k.slaac
    decreases |list|
  {
    if list != [] {
      var first := AddressDeleted(w, k, Assigned(index, list[0]));
      assert list == [list[0]] + list[1..];
      assert On(index, list) == {Assigned(index, list[0])} + On(index, list[1..]);
      if first.ok {
        DeletedAllWithin(w, first.kernel, index, list[1..]);
      }
    }
  }

  /** Also one that fails midway adds nothing, and takes only what it names:
      the address removed, or those listed. Without a socket it does nothing. */
  lemma ModifiedWithin(w: Oracle, k: KernelState, index: nat, v4: bool, m: Modification<Prefixed>,
                       listed: seq<Prefixed>)
    ensures var r := Modified(w, k, index, Change(v4, m), Addresses(v4, listed));
            var (before, after) := (Held(k.addrs, index, v4), Held(r.kernel.addrs, index, v4));
            && (forall p :: p in after && p !in before ==> r.ok && (m == Append(p) || m == Replace(p)))
            && (forall p :: p in before && p !in after ==>
                  m == Remove(p) || ((m.Clear? || m.Replace?) && p in listed))
            && r.kernel.up == k.up && r.kernel.slaac == k.slaac
            && (!w(k.calls) ==> !r.ok && r.kernel.addrs == k.addrs)
  {
    var (socket, list) := (Told(w, k).kernel, Addresses(v4, listed));
    DeletedAllWithin(w, socket, index, list);
    var r := Modified(w, k, index, Change(v4, m), list).kernel;
    forall p
      ensures p in Held(k.addrs, index, v4) <==> Assigned(index, Make(v4, p)) in k.addrs
      ensures p in Held(r.addrs, index, v4) <==> Assigned(index, Make(v4, p)) in r.addrs
      ensures p in listed <==> Assigned(index, Make(v4, p)) in On(index, list)
    {
      HeldIff(k.addrs, index, v4, p);
      HeldIff(r.addrs, index, v4, p);
      OnAddresses(index, v4, listed, p);
    }
  }

  lemma ClearMeans(w: Oracle, k: KernelState, index: nat, v4: bool, listed: seq<Prefixed>)
    ensures var (r, held) := (DeletedAll(w, k, index, Addresses(v4, listed)), Held(k.addrs, index, v4));
            && (r.ok ==> NoDuplicates(listed) && Set(listed) <= held
                         && Held(r.kernel.addrs, index, v4) == held - Set(listed))
            && (Willing(w) && NoDuplicates(listed) && Set(listed) <= held ==> r.ok)
  {
    var list := Addresses(v4, listed);
    DeletedAllEffect(w, k, index, list);
    ClearedHeld(k.addrs, index, v4, listed);
    DuplicatesSame(v4, listed);
    if Willing(w) && NoDuplicates(listed) && Set(listed) <= Held(k.addrs, index, v4) {
      DeletedAllSucceeds(w, k, index, list);
    }
  }

  // ---------------------------------------------------------- the netlink socket

  class NetlinkModifier {
    const willing: Oracle
    var addrs: set<Assigned>
    var up: set<string>
    var slaac: set<string>
    var calls: nat

    constructor (willing: Oracle, addrs: set<Assigned>, up: set<string>, slaac: set<string>)
      ensures this.willing == willing && View() == KernelState(addrs, up, slaac, 0)
    {
      this.willing := willing;
      this.addrs, this.up, this.slaac, calls := addrs, up, slaac, 0;
    }

    function View(): KernelState
      reads this
    {
      KernelState(addrs, up, slaac, calls)
    }

    method DelAddress(index: nat, a: Address) returns (ok: bool)
      modifies this
      ensures Reply(ok, View()) == AddressDeleted(willing, old(View()), Assigned(index, a))
      ensures View() == old(View()).(addrs := addrs, calls := old(calls) + 1)
      ensures ok ==> Assigned(index, a) !in addrs && addrs + {Assigned(index, a)} == old(addrs)
      ensures !ok ==> addrs == old(addrs) && (Assigned(index, a) in addrs ==> !willing(old(calls)))
    {
      ok := willing(calls) && Assigned(index, a) in addrs;
      calls := calls + 1;
      if ok {
        addrs := addrs - {Assigned(index, a)};
      }
    }

    method AddAddress(index: nat, a: Address) returns (ok: bool)
      modifies this
      ensures Reply(ok, View()) == AddressAdded(willing, old(View()), Assigned(index, a))
      ensures View() == old(View()).(addrs := addrs, calls := old(calls) + 1)
      ensures ok ==> Assigned(index, a) in addrs && addrs - {Assigned(index, a)} == old(addrs)
      ensures !ok ==> addrs == old(addrs) && (Assigned(index, a) !in addrs ==> !willing(old(calls)))
    {
      ok := willing(calls) && Assigned(index, a) !in addrs;
      calls := calls + 1;
      if ok {
        addrs := addrs + {Assigned(index, a)};
      }
    }

    method Tell() returns (ok: bool)
      modifies this
      ensures Reply(ok, View()) == Told(willing, old(View()))
    {
      ok := willing(calls);
      calls := calls + 1;
    }

    method SetLinkStatus(name: string, on: bool) returns (ok: bool)
      modifies this
      ensures Reply(ok, View()) == LinkSet(willing, old(View()), name, on)
      ensures View() == old(View()).(up := up, calls := old(calls) + 1)
      ensures forall n :: n in up <==> if ok && n == name then on else n in old(up)
    {
      ok := Tell();
      if ok {
        up := Flag(up, name, on);
      }
    }

    method SetSlaacState(name: string, on: bool) returns (ok: bool)
      modifies this
      ensures Reply(ok, View()) == SlaacSet(willing, old(View()), name, on)
      ensures View() == old(View()).(slaac := slaac, calls := old(calls) + 1)
      ensures forall n :: n in slaac <==> if ok && n == name then on else n in old(slaac)
    {
      ok := Tell();
      if ok {
        slaac := Flag(slaac, name, on);
      }
    }

    method DelAddresses(index: nat, list: seq<Address>) returns (ok: bool)
      modifies this
      ensures Reply(ok, View()) == DeletedAll(willing, old(View()), index, list)
    {
      ok := true;
      for i := 0 to |list|
        invariant ok
        invariant DeletedAll(willing, View(), index, list[i..]) == DeletedAll(willing, old(View()), index, list)
      {
        assert list[i..][1..] == list[i + 1..];
        ok := DelAddress(index, list[i]);
        if !ok {
          return;
        }
      }
    }

    method ModIp(index: nat, m: Modification<Address>, current: seq<Address>) returns (ok: bool)
      modifies this
      ensures Reply(ok, View()) == Modified(willing, old(View()), index, m, current)
    {
      ok := Tell();
      if !ok {
        return;
      }
      match m {
        case Remove(a) => ok := DelAddress(index, a);
        case Append(a) => ok := AddAddress(index, a);
        case Clear => ok := DelAddresses(index, current);
        case Replace(a) =>
          ok := DelAddresses(index, current);
          if ok {
            ok := AddAddress(index, a);
          }
        case NoChange => ok := true;
      }
    }
  }
}
