/** The DHCPv4 client and the watchdog of its lease
    (network-daemon/src/dhcp/client.rs, network-daemon/src/dhcp/lease.rs). */
module DhcpClient {
  import opened Prelude
  import opened Lease
  import opened Attempt
  import opened LeaseTimers

  // ------------------------------------------------------------ one exchange

  datatype MessageKind = Offer | Ack | Nak | OtherKind

  datatype Message = Message(xid: nat, kind: MessageKind, yiaddr: u32, serverId: Option<u32>, opts: seq<DhcpOption>)

  /** What the socket yields: a message, or an error or its end. */
  datatype Incoming = Received(message: Message) | Broken

  datatype ClientError = SocketError | TransactionFailed | ServerRejected | InvalidResponse

  predicate Accepts(m: Message, xid: nat, wanted: MessageKind) {
    m.xid == xid && m.kind == wanted
  }

  /** Only a request may be refused. */
  predicate Refuses(m: Message, xid: nat, wanted: MessageKind) {
    m.xid == xid && m.kind == Nak && wanted == Ack
  }

  predicate Decisive(i: Incoming, xid: nat, wanted: MessageKind) {
    i.Broken? || Accepts(i.message, xid, wanted) || Refuses(i.message, xid, wanted)
  }

  type Reading = Flow<Message, ClientError>

  function Decision(i: Incoming, xid: nat, wanted: MessageKind): Reading {
    if i.Broken? then Continue
    else if Accepts(i.message, xid, wanted) then Break(Success(i.message))
    else if Refuses(i.message, xid, wanted) then Break(Failure(ServerRejected))
    else Continue
  }

  /** What a window full of messages comes to; running dry is a timeout. */
  function Verdict(window: seq<Incoming>, xid: nat, wanted: MessageKind): Reading {
    if window == [] then Continue
    else if Decisive(window[0], xid, wanted) then Decision(window[0], xid, wanted)
    else Verdict(window[1..], xid, wanted)
  }

  /** The first decisive message decides, whatever stands around it. */
  lemma {:induction false} FirstDecisiveDecides(window: seq<Incoming>, xid: nat, wanted: MessageKind, i: nat)
    requires i < |window| && Decisive(window[i], xid, wanted)
    requires forall j :: 0 <= j < i ==> !Decisive(window[j], xid, wanted)
    ensures Verdict(window, xid, wanted) == Decision(window[i], xid, wanted)
  {
    if i > 0 {
      FirstDecisiveDecides(window[1..], xid, wanted, i - 1);
    }
  }

  lemma {:induction false} VerdictIsReceived(window: seq<Incoming>, xid: nat, wanted: MessageKind)
    ensures var v := Verdict(window, xid, wanted);
            && (v.Break? && v.result.Success? ==>
                  Received(v.result.value) in window && v.result.value.xid == xid && v.result.value.kind == wanted)
            && (v.Break? && v.result.Failure? ==>
                  v.result.error == ServerRejected && wanted == Ack
                  && exists m :: Received(m) in window && m.xid == xid && m.kind == Nak)
  {
    if window != [] && !Decisive(window[0], xid, wanted) {
      VerdictIsReceived(window[1..], xid, wanted);
      assert forall x :: x in window[1..] ==> x in window;
    } else if window != [] && window[0].Received? {
      assert window[0] == Received(window[0].message);
    }
  }

  method ReadWindow(window: seq<Incoming>, xid: nat, wanted: MessageKind) returns (r: Reading)
    ensures r == Verdict(window, xid, wanted)
  {
    for i := 0 to |window|
      invariant Verdict(window[i..], xid, wanted) == Verdict(window, xid, wanted)
    {
      assert window[i..][1..] == window[i + 1..];
      match window[i] {
        case Broken => return Continue;
        case Received(m) =>
          if m.xid == xid {
            if m.kind == wanted {
              return Break(Success(m));
            } else if m.kind == Nak && wanted == Ack {
              return Break(Failure(ServerRejected));
            }
          }
      }
    }
    r := Continue;
  }

  /** What the network does during one exchange: whether the first packet goes
      out, what comes in during each window, whether each repeat goes out. */
  datatype Traffic = Traffic(xid: nat, sent: bool, windows: nat -> seq<Incoming>, resent: nat -> bool)

  const FIVE_SECONDS: nat := 5_000_000_000

  /** What each window comes to. */
  function Readings(t: Traffic, wanted: MessageKind): nat -> Reading {
    (k: nat) => Verdict(t.windows(k), t.xid, wanted)
  }

  function Exchanged(t: Traffic, wanted: MessageKind): Result<Message, ClientError> {
    if !t.sent then Failure(SocketError)
    else
      var first := FirstBreak(Readings(t, wanted), t.resent, 0, 3);
      if first.Some? then first.value else Failure(TransactionFailed)
  }

  /** Three windows of five, ten and twenty seconds, up to the one that decides. */
  method Exchange(t: Traffic, wanted: MessageKind) returns (r: Result<Message, ClientError>, waited: nat)
    ensures r == Exchanged(t, wanted)
    ensures forall k: nat, i: nat :: Decides(t, wanted, k, i) ==>
              waited == (if k == 0 then 5 else if k == 1 then 15 else 35) * 1_000_000_000
    ensures t.sent && t.resent(0) && t.resent(1) && (forall k: nat, i: nat :: !Decides(t, wanted, k, i)) ==>
              waited == 35_000_000_000
    ensures waited <= 35_000_000_000
  {
    waited := 0;
    if !t.sent {
      return Failure(SocketError), 0;
    }
    WindowIs(FIVE_SECONDS, 3);
    assert Pow2(3) == 8 by { assert Pow2(2) == 4 by { assert Pow2(1) == 2; } }
    var outcome, attempts, retries, windows :=
      Attempt.Attempt(Some(FIVE_SECONDS), 3, Readings(t, wanted), t.resent);
    AttemptsUsed(t, wanted, attempts);
    FewWindows(attempts);
    waited := windows;
    match outcome
    case Done(m) => r := Success(m);
    case Critical(e) => r := Failure(e);
    case _ => r := Failure(TransactionFailed);
  }

  lemma FewWindows(k: nat)
    requires 0 < k <= 3
    ensures Total(FIVE_SECONDS, k) == (if k == 1 then 5 else if k == 2 then 15 else 35) * 1_000_000_000
  {
    TotalIs(FIVE_SECONDS, k);
    assert Pow2(3) == 8 by { assert Pow2(2) == 4 by { assert Pow2(1) == 2; } }
  }

  /** The attempts end with the window that decides. */
  lemma AttemptsUsed(t: Traffic, wanted: MessageKind, attempts: nat)
    requires t.sent && 0 < attempts <= 3
    requires forall i :: 0 <= i < attempts - 1 ==> Passed(Readings(t, wanted), t.resent, i)
    requires Readings(t, wanted)(attempts - 1).Continue? ==> attempts == 3 || !t.resent(attempts - 1)
    ensures forall k: nat, i: nat :: Decides(t, wanted, k, i) ==> attempts == k + 1
    ensures t.resent(0) && t.resent(1) && (forall k: nat, i: nat :: !Decides(t, wanted, k, i)) ==> attempts == 3
  {
    var a: nat := attempts - 1;
    forall k: nat, i: nat | Decides(t, wanted, k, i) ensures attempts == k + 1 {
      assert forall m: nat :: m < k ==> Passed(Readings(t, wanted), t.resent, m) by {
        forall m: nat | m < k ensures Passed(Readings(t, wanted), t.resent, m) {
          PassesIff(t.windows(m), t.xid, wanted);
        }
      }
      FirstDecisiveDecides(t.windows(k), t.xid, wanted, i);
      assert a < k ==> Passed(Readings(t, wanted), t.resent, a);
      assert k < a ==> Passed(Readings(t, wanted), t.resent, k);
    }
    if t.resent(0) && t.resent(1) && (forall k: nat, i: nat :: !Decides(t, wanted, k, i)) && attempts < 3 {
      forall m: nat | m < a ensures Passes(t.windows(m), t.xid, wanted) && t.resent(m) {
        assert Passed(Readings(t, wanted), t.resent, m);
        PassesIff(t.windows(m), t.xid, wanted);
      }
      var k, i := SomethingDecides(t, wanted, a);
      assert false;
    }
  }

  // --------------------------------------------- what an exchange comes to, by its traffic

  /** A message of another transaction, or one that neither accepts nor refuses
      what was sent. */
  predicate PassedOver(i: Incoming, xid: nat, wanted: MessageKind) {
    i.Received? && (i.message.xid != xid || (i.message.kind != wanted && !(i.message.kind == Nak && wanted == Ack)))
  }

  /** A window that decides nothing: all is passed over, or all up to an error
      of the socket. */
  ghost predicate Passes(window: seq<Incoming>, xid: nat, wanted: MessageKind) {
    forall i :: 0 <= i < |window| && FirstOf(window, xid, wanted, i) ==> window[i].Broken?
  }

  ghost predicate FirstOf(window: seq<Incoming>, xid: nat, wanted: MessageKind, i: nat)
    requires i < |window|
  {
    !PassedOver(window[i], xid, wanted) && forall j :: 0 <= j < i ==> PassedOver(window[j], xid, wanted)
  }

  /** Message `i` of window `k` is the first to decide. */
  ghost predicate Decides(t: Traffic, wanted: MessageKind, k: nat, i: nat) {
    && t.sent && k < 3 && i < |t.windows(k)| && t.windows(k)[i].Received?
    && FirstOf(t.windows(k), t.xid, wanted, i)
    && (forall m: nat :: m < k ==> Passes(t.windows(m), t.xid, wanted) && t.resent(m))
  }

  lemma {:induction false} PassesIff(window: seq<Incoming>, xid: nat, wanted: MessageKind)
    ensures Passes(window, xid, wanted) <==> Verdict(window, xid, wanted) == Continue
  {
    if i :| 0 <= i < |window| && Decisive(window[i], xid, wanted) {
      var n := FirstDecisive(window, xid, wanted, i);
      assert FirstOf(window, xid, wanted, n);
      FirstDecisiveDecides(window, xid, wanted, n);
    } else {
      NoneDecides(window, xid, wanted);
    }
  }

  lemma {:induction false} FirstDecisive(window: seq<Incoming>, xid: nat, wanted: MessageKind, i: nat) returns (n: nat)
    requires i < |window| && Decisive(window[i], xid, wanted)
    ensures n <= i && Decisive(window[n], xid, wanted)
    ensures forall j :: 0 <= j < n ==> !Decisive(window[j], xid, wanted)
  {
    n := i;
    if j :| 0 <= j < i && Decisive(window[j], xid, wanted) {
      n := FirstDecisive(window, xid, wanted, j);
    }
  }

  lemma {:induction false} NoneDecides(window: seq<Incoming>, xid: nat, wanted: MessageKind)
    requires forall i :: 0 <= i < |window| ==> !Decisive(window[i], xid, wanted)
    ensures Verdict(window, xid, wanted) == Continue
  {
    if window != [] {
      NoneDecides(window[1..], xid, wanted);
    }
  }

  /** The first deciding message of three windows decides the exchange. */
  lemma {:induction false} DecidingDecides(t: Traffic, wanted: MessageKind, k: nat, i: nat, from: nat)
    requires Decides(t, wanted, k, i) && from <= k
    ensures FirstBreak(Readings(t, wanted), t.resent, from, 3)
            == Some(if t.windows(k)[i].message.kind == wanted then Success(t.windows(k)[i].message)
                    else Failure(ServerRejected))
    decreases k - from
  {
    if from < k {
      PassesIff(t.windows(from), t.xid, wanted);
      DecidingDecides(t, wanted, k, i, from + 1);
    } else {
      FirstDecisiveDecides(t.windows(k), t.xid, wanted, i);
    }
  }

  /** And without one nothing does. */
  lemma {:induction false} SomethingDecides(t: Traffic, wanted: MessageKind, from: nat) returns (k: nat, i: nat)
    requires t.sent && from <= 3 && FirstBreak(Readings(t, wanted), t.resent, from, 3).Some?
    requires forall m: nat :: m < from ==> Passes(t.windows(m), t.xid, wanted) && t.resent(m)
    ensures Decides(t, wanted, k, i)
    decreases 3 - from
  {
    PassesIff(t.windows(from), t.xid, wanted);
    if Passes(t.windows(from), t.xid, wanted) {
      k, i := SomethingDecides(t, wanted, from + 1);
    } else {
      k := from;
      i :| 0 <= i < |t.windows(k)| && FirstOf(t.windows(k), t.xid, wanted, i) && !t.windows(k)[i].Broken?;
    }
  }

  /** An exchange is what its deciding message says. */
  lemma DecidedExchange(t: Traffic, wanted: MessageKind, k: nat, i: nat)
    requires Decides(t, wanted, k, i)
    ensures var m := t.windows(k)[i].message;
            && m.xid == t.xid && (m.kind == wanted || (m.kind == Nak && wanted == Ack))
            && Exchanged(t, wanted) == if m.kind == wanted then Success(m) else Failure(ServerRejected)
  {
    DecidingDecides(t, wanted, k, i, 0);
  }

  /** And it fails when nothing decides. */
  lemma UndecidedExchange(t: Traffic, wanted: MessageKind)
    requires forall k: nat, i: nat :: !Decides(t, wanted, k, i)
    ensures Exchanged(t, wanted) == Failure(if t.sent then TransactionFailed else SocketError)
  {
    if t.sent && FirstBreak(Readings(t, wanted), t.resent, 0, 3).Some? {
      var k, i := SomethingDecides(t, wanted, 0);
      assert false;
    }
  }

  /** The first deciding message of the acknowledgement windows is a refusal. */
  ghost predicate RefusedIn(t: Traffic) {
    exists k: nat, i: nat :: Decides(t, Ack, k, i) && t.windows(k)[i].message.kind == Nak
  }

  /** The first deciding message of the offer windows names a server. */
  ghost predicate ServerIn(t: Traffic) {
    exists k: nat, i: nat :: Decides(t, Offer, k, i) && t.windows(k)[i].message.serverId.Some?
  }

  lemma RefusedIff(t: Traffic)
    ensures Exchanged(t, Ack) == Failure(ServerRejected) <==> RefusedIn(t)
  {
    if k: nat, i: nat :| Decides(t, Ack, k, i) {
      DecidedExchange(t, Ack, k, i);
      if m: nat, j: nat :| Decides(t, Ack, m, j) && t.windows(m)[j].message.kind == Nak {
        DecidedExchange(t, Ack, m, j);
      }
    } else {
      UndecidedExchange(t, Ack);
    }
  }

  lemma ServerIff(t: Traffic)
    ensures Exchanged(t, Offer).Success? && Exchanged(t, Offer).value.serverId.Some? <==> ServerIn(t)
  {
    if k: nat, i: nat :| Decides(t, Offer, k, i) {
      DecidedExchange(t, Offer, k, i);
      if m: nat, j: nat :| Decides(t, Offer, m, j) && t.windows(m)[j].message.serverId.Some? {
        DecidedExchange(t, Offer, m, j);
      }
    } else {
      UndecidedExchange(t, Offer);
    }
  }

  // ------------------------------------------------- requesting and extending

  /** A request is two exchanges, for an offer and for its acknowledgement. */
  datatype Requesting = Requesting(offer: Traffic, ack: Traffic)

  /** What a message may contain: see `Options`. */
  ghost predicate WellFormed(t: Traffic) {
    forall k: nat, i :: 0 <= i < |t.windows(k)| && t.windows(k)[i].Received? ==> Options(t.windows(k)[i].message.opts)
  }

  function Leased(assignedIp: u32, serverId: u32, opts: seq<DhcpOption>): Result<Lease, ClientError>
    requires Routed(opts)
  {
    var built := BuilderOf(assignedIp, serverId, FieldsIn(opts)).Build();
    if built.Success? then Success(built.value) else Failure(InvalidResponse)
  }

  lemma {:induction false} ExchangedIsReceived(t: Traffic, wanted: MessageKind, k: nat)
    requires k <= 3
    ensures var r := FirstBreak(Readings(t, wanted), t.resent, k, 3);
            && (r.Some? && r.value.Success? ==>
                  Accepts(r.value.value, t.xid, wanted)
                  && exists j: nat :: Received(r.value.value) in t.windows(j))
            && (r.Some? && r.value.Failure? ==> r.value.error == ServerRejected && wanted == Ack)
    decreases 3 - k
  {
    if k < 3 {
      VerdictIsReceived(t.windows(k), t.xid, wanted);
      ExchangedIsReceived(t, wanted, k + 1);
    }
  }

  lemma ExchangedOptions(t: Traffic, wanted: MessageKind)
    requires WellFormed(t)
    ensures var r := Exchanged(t, wanted);
            && (r.Success? ==> Options(r.value.opts) && Accepts(r.value, t.xid, wanted))
            && (r.Failure? && r.error == ServerRejected ==> wanted == Ack)
  {
    ExchangedIsReceived(t, wanted, 0);
    if Exchanged(t, wanted).Success? {
      var m := Exchanged(t, wanted).value;
      var j: nat :| Received(m) in t.windows(j);
      var i :| 0 <= i < |t.windows(j)| && t.windows(j)[i] == Received(m);
    }
  }

  ghost function Requested(q: Requesting): Result<Lease, ClientError>
    requires WellFormed(q.ack)
  {
    ExchangedOptions(q.ack, Ack);
    var offer := Exchanged(q.offer, Offer);
    if offer.Failure? then Failure(offer.error)
    else if offer.value.serverId.None? then Failure(InvalidResponse)
    else
      var ack := Exchanged(q.ack, Ack);
      if ack.Failure? then Failure(ack.error)
      else Leased(ack.value.yiaddr, offer.value.serverId.value, ack.value.opts)
  }

  ghost function Extended(lease: Lease, t: Traffic): Result<Lease, ClientError>
    requires WellFormed(t)
  {
    ExchangedOptions(t, Ack);
    var ack := Exchanged(t, Ack);
    if ack.Failure? then Failure(ack.error) else Success(Overlaid(lease, FieldsIn(ack.value.opts)))
  }

  method Request(q: Requesting) returns (r: Result<Lease, ClientError>)
    requires WellFormed(q.ack)
    ensures r == Requested(q)
  {
    ExchangedOptions(q.ack, Ack);
    var offer, _ := Exchange(q.offer, Offer);
    if offer.Failure? {
      return Failure(offer.error);
    }
    if offer.value.serverId.None? {
      return Failure(InvalidResponse);
    }
    var ack, _ := Exchange(q.ack, Ack);
    if ack.Failure? {
      return Failure(ack.error);
    }
    var built := RequestedLease(ack.value.yiaddr, offer.value.serverId.value, ack.value.opts);
    r := if built.Success? then Success(built.value) else Failure(InvalidResponse);
  }

  /** Renewing and rebinding differ only in where the packet goes. */
  method Extend(lease: Lease, t: Traffic) returns (r: Result<Lease, ClientError>)
    requires WellFormed(t)
    ensures r == Extended(lease, t)
  {
    ExchangedOptions(t, Ack);
    var ack, _ := Exchange(t, Ack);
    if ack.Failure? {
      return Failure(ack.error);
    }
    var extended := RenewedLease(lease, ack.value.opts);
    r := Success(extended);
  }

  /** An extension keeps the address and the server. */
  lemma ExtensionKeepsAddress(lease: Lease, t: Traffic)
    requires WellFormed(t) && Extended(lease, t).Success?
    ensures Extended(lease, t).value.assignedIp == lease.assignedIp
    ensures Extended(lease, t).value.serverId == lease.serverId
  {
  }

  /** The messages that decide a request make this lease of it: the server is
      the offer's, all else the acknowledgement's. */
  ghost predicate Grants(q: Requesting, l: Lease) {
    exists k: nat, i: nat, n: nat, j: nat ::
      && Decides(q.offer, Offer, k, i) && q.offer.windows(k)[i].message.serverId == Some(l.serverId)
      && Acknowledges(q.ack, n, j)
      && q.ack.windows(n)[j].message.yiaddr == l.assignedIp && Granted(q.ack.windows(n)[j].message.opts, l)
  }

  /** Message `j` of window `n` decides, and does so by an acknowledgement. */
  ghost predicate Acknowledges(t: Traffic, n: nat, j: nat) {
    Decides(t, Ack, n, j) && t.windows(n)[j].message.kind == Ack
  }

  lemma RequestedIff(q: Requesting, l: Lease)
    requires WellFormed(q.ack)
    ensures Requested(q) == Success(l) <==> Grants(q, l)
  {
    if Requested(q) == Success(l) {
      RequestedGrants(q, l);
    }
    if k: nat, i: nat, n: nat, j: nat :|
      && Decides(q.offer, Offer, k, i) && q.offer.windows(k)[i].message.serverId == Some(l.serverId)
      && Acknowledges(q.ack, n, j)
      && q.ack.windows(n)[j].message.yiaddr == l.assignedIp && Granted(q.ack.windows(n)[j].message.opts, l)
    {
      DecidedExchange(q.offer, Offer, k, i);
      DecidedExchange(q.ack, Ack, n, j);
      GrantedIff(l.assignedIp, l.serverId, q.ack.windows(n)[j].message.opts, l);
    }
  }

  lemma RequestedGrants(q: Requesting, l: Lease)
    requires WellFormed(q.ack) && Requested(q) == Success(l)
    ensures Grants(q, l)
  {
    var k, i := DecidedBy(q.offer, Offer);
    var n, j := DecidedBy(q.ack, Ack);
    GrantedIff(q.ack.windows(n)[j].message.yiaddr, q.offer.windows(k)[i].message.serverId.value,
               q.ack.windows(n)[j].message.opts, l);
    assert Acknowledges(q.ack, n, j);
  }

  lemma DecidedBy(t: Traffic, wanted: MessageKind) returns (k: nat, i: nat)
    requires Exchanged(t, wanted).Success?
    ensures Decides(t, wanted, k, i) && t.windows(k)[i].message.kind == wanted
    ensures Exchanged(t, wanted).value == t.windows(k)[i].message
  {
    if m: nat, j: nat :| Decides(t, wanted, m, j) {
      DecidedExchange(t, wanted, m, j);
      k, i := m, j;
    } else {
      UndecidedExchange(t, wanted);
      assert false;
    }
  }

  /** After an extension of a lease with ordered timers by an acknowledgement
      that names a lease time and no timers, a prompt clock lets the expiry come
      on time exactly when the lease reaches to the old T2, or ends with T1. */
  lemma ExtendedExpiryIff(lease: Lease, opts: seq<DhcpOption>, start: int, es: seq<Emission>)
    requires Options(opts) && OrderedTimers(lease) && NamesOnlyLeaseTime(FieldsIn(opts))
    requires var l := Overlaid(lease, FieldsIn(opts));
             var d := LeaseTimers.Started(start, l.renewalTime, l.rebindingTime, l.leaseTime);
             Stream(d, 0, start, es) && Prompt(d, 0, start, es)
    ensures es != []
    ensures var time := FieldsIn(opts).leaseTime.value;
            es[|es| - 1].time == start + time <==> lease.rebindingTime <= time || lease.renewalTime == time
  {
    var l := Overlaid(lease, FieldsIn(opts));
    ExpiryOnTimeIff(start, l.renewalTime, l.rebindingTime, l.leaseTime, es);
  }

  // ------------------------------------------------------------ lease events

  datatype LeaseEvent = Renewal | Rebinding | LeaseExpired

  datatype Notification = Notification(was: Option<Lease>, now: Option<Lease>)

  datatype Answer = Times(renewal: u32, rebinding: u32, lease: u32) | Rejected | Failed | Crashed

  /** What comes of an event: the answer, the lease then held and what is
      told to the manager. */
  datatype Handling = Handling(answer: Answer, lease: Option<Lease>, notices: seq<Notification>)

  function Kept(held: Option<Lease>, answer: Answer): Handling {
    Handling(answer, held, [])
  }

  function Replaced(held: Option<Lease>, lease: Lease): Handling {
    Handling(Times(lease.renewalTime, lease.rebindingTime, lease.leaseTime), Some(lease),
             [Notification(held, Some(lease))])
  }

  function Lost(held: Option<Lease>): Handling {
    Handling(Rejected, None, [Notification(held, None)])
  }

  /** Anew after a refusal: a second refusal doubles a timeout that is already
      the longest there is. */
  function Anew(held: Option<Lease>, reply: Result<Lease, ClientError>): Handling {
    match reply
    case Success(lease) => Replaced(held, lease)
    case Failure(ServerRejected) => Kept(held, Crashed)
    case Failure(_) => Lost(held)
  }

  /** What comes of how the extension and, if need be, a request went. */
  function Answered(held: Option<Lease>, extension: Result<Lease, ClientError>,
                    request: Result<Lease, ClientError>): Handling
  {
    match extension
    case Success(lease) => Replaced(held, lease)
    case Failure(ServerRejected) => Anew(held, request)
    case Failure(_) => Kept(held, Failed)
  }

  /** The end of a lease counts as a refusal. */
  ghost function Handled(held: Option<Lease>, event: LeaseEvent, t: Traffic, q: Requesting): Handling
    requires WellFormed(t) && WellFormed(q.ack)
  {
    if event.LeaseExpired? then Answered(held, Failure(ServerRejected), Requested(q))
    else if held.None? then Kept(held, Crashed)
    else Answered(held, Extended(held.value, t), Requested(q))
  }

  function FlowOf(reply: Result<Lease, ClientError>): Flow<Lease, ClientError> {
    if reply.Failure? && reply.error == ServerRejected then Continue else Break(reply)
  }

  class Client {
    var lease: Option<Lease>
    var notices: seq<Notification>
    var crashed: bool

    constructor ()
      ensures lease == None && notices == [] && !crashed
    {
      lease, notices, crashed := None, [], false;
    }

    /** The first lease, without which the client does not start. */
    method Start(q: Requesting) returns (ok: bool)
      requires lease == None && notices == [] && WellFormed(q.ack)
      modifies this
      ensures ok == Requested(q).Success?
      ensures ok ==> lease == Some(Requested(q).value) && notices == [Notification(None, lease)]
      ensures !ok ==> lease == None && notices == []
      ensures crashed == old(crashed)
    {
      var r := Request(q);
      ok := r.Success?;
      if ok {
        lease := Some(r.value);
        notices := [Notification(None, lease)];
      }
    }

    method Apply(h: Handling)
      modifies this
      ensures lease == h.lease && notices == old(notices) + h.notices
      ensures crashed == (old(crashed) || h.answer == Crashed)
    {
      lease, notices, crashed := h.lease, notices + h.notices, crashed || h.answer == Crashed;
    }

    /** Up to three requests, each of which may be refused. */
    method RequestAnew(requests: nat -> Result<Lease, ClientError>) returns (h: Handling)
      ensures h == Anew(lease, requests(0))
    {
      var outcome, attempts, _, _ := Attempt.Attempt(None, 3, (k: nat) => FlowOf(requests(k)), (k: nat) => true);
      NoTimeoutAllowsOne(attempts);
      match outcome
      case Done(lease) => h := Replaced(this.lease, lease);
      case Panicked => h := Kept(lease, Crashed);
      case _ => h := Lost(lease);
    }

    method Handle(event: LeaseEvent, t: Traffic, q: Requesting) returns (answer: Answer)
      requires WellFormed(t) && WellFormed(q.ack)
      modifies this
      ensures var h := Handled(old(lease), event, t, q);
              && answer == h.answer && lease == h.lease && notices == old(notices) + h.notices
              && crashed == (old(crashed) || answer == Crashed)
    {
      var reply: Result<Lease, ClientError> := Failure(ServerRejected);
      var h;
      if event.LeaseExpired? {
        var anew := Request(q);
        h := RequestAnew((k: nat) => anew);
      } else if lease.None? {
        h := Kept(lease, Crashed);
      } else {
        reply := Extend(lease.value, t);
        if reply.Success? {
          h := Replaced(lease, reply.value);
        } else if reply.error == ServerRejected {
          var anew := Request(q);
          h := RequestAnew((k: nat) => anew);
        } else {
          h := Kept(lease, Failed);
        }
      }
      Apply(h);
      answer := h.answer;
    }
  }

  // -------------------------------------------------------- the notifications

  /** Each notification starts where the one before ended, and the last one
      ends with the lease held. */
  predicate Chain(notices: seq<Notification>, lease: Option<Lease>) {
    if notices == [] then lease.None?
    else
      var last := notices[|notices| - 1];
      last.now == lease && Chain(notices[..|notices| - 1], last.was)
  }

  lemma ChainGrows(notices: seq<Notification>, lease: Option<Lease>, h: Handling)
    requires Chain(notices, lease)
    requires h.notices == [] ==> h.lease == lease
    requires h.notices != [] ==> h.notices == [Notification(lease, h.lease)]
    ensures Chain(notices + h.notices, h.lease)
  {
    if h.notices == [] {
      assert notices + h.notices == notices;
    } else {
      assert (notices + h.notices)[..|notices + h.notices| - 1] == notices;
    }
  }

  /** Every event keeps the chain; a failed extension and a crash say nothing
      and keep the lease; only a rejection loses it. */
  lemma HandledKeepsChain(notices: seq<Notification>, held: Option<Lease>, event: LeaseEvent, t: Traffic, q: Requesting)
    requires WellFormed(t) && WellFormed(q.ack)
    requires Chain(notices, held)
    ensures var h := Handled(held, event, t, q);
            Chain(notices + h.notices, h.lease) && Sensible(held, h)
  {
    if event.LeaseExpired? {
      AnsweredSensible(held, Failure(ServerRejected), Requested(q));
    } else if held.Some? {
      AnsweredSensible(held, Extended(held.value, t), Requested(q));
    }
    ChainGrows(notices, held, Handled(held, event, t, q));
  }

  lemma AnsweredSensible(held: Option<Lease>, extension: Result<Lease, ClientError>,
                         request: Result<Lease, ClientError>)
    ensures var h := Answered(held, extension, request);
            && Sensible(held, h) && (h.notices == [] ==> h.lease == held)
            && (h.notices != [] ==> h.notices == [Notification(held, h.lease)])
  {
  }

  predicate Sensible(held: Option<Lease>, h: Handling) {
    && (h.answer.Failed? || h.answer.Crashed? ==> h.lease == held && h.notices == [])
    && (h.answer.Rejected? ==> h.lease == None)
    && (h.answer.Times? ==> h.lease.Some?)
  }

  /** A request that is refused: an offer names a server, which then refuses. */
  ghost predicate RequestRefused(q: Requesting) {
    ServerIn(q.offer) && RefusedIn(q.ack)
  }

  lemma RequestRefusedIff(q: Requesting)
    requires WellFormed(q.ack)
    ensures Requested(q) == Failure(ServerRejected) <==> RequestRefused(q)
  {
    ServerIff(q.offer);
    RefusedIff(q.ack);
    OfferNeverRefuses(q.offer);
  }

  lemma OfferNeverRefuses(t: Traffic)
    ensures Exchanged(t, Offer) != Failure(ServerRejected)
  {
    ExchangedIsReceived(t, Offer, 0);
  }

  // ------------------------------------------------ what an event comes to, by its traffic

  function TimesOf(l: Lease): Answer {
    Times(l.renewalTime, l.rebindingTime, l.leaseTime)
  }

  /** With a lease held and an event before its end: an acknowledgement extends
      it, and an exchange that nothing decides leaves all as it was. */
  lemma ExtendingIs(held: Lease, event: LeaseEvent, t: Traffic, q: Requesting)
    requires WellFormed(t) && WellFormed(q.ack) && !event.LeaseExpired?
    ensures forall k: nat, i: nat :: Acknowledges(t, k, i) ==>
              var h := Handled(Some(held), event, t, q);
              && h.lease.Some? && Renewed(held, t.windows(k)[i].message.opts, h.lease.value)
              && h == Handling(TimesOf(h.lease.value), h.lease, [Notification(Some(held), h.lease)])
    ensures (forall k: nat, i: nat :: !Decides(t, Ack, k, i)) ==>
              Handled(Some(held), event, t, q) == Handling(Failed, Some(held), [])
  {
    forall k: nat, i: nat | Acknowledges(t, k, i)
      ensures var h := Handled(Some(held), event, t, q);
              && h.lease.Some? && Renewed(held, t.windows(k)[i].message.opts, h.lease.value)
              && h == Handling(TimesOf(h.lease.value), h.lease, [Notification(Some(held), h.lease)])
    {
      DecidedExchange(t, Ack, k, i);
      RenewedIff(held, t.windows(k)[i].message.opts, Overlaid(held, FieldsIn(t.windows(k)[i].message.opts)));
    }
    if forall k: nat, i: nat :: !Decides(t, Ack, k, i) {
      UndecidedExchange(t, Ack);
    }
  }

  /** At the end of a lease, or when its extension is refused, a lease is
      requested anew: one that is granted replaces it, a refusal crashes the
      client, and any other failure loses it. */
  lemma AnewIs(held: Option<Lease>, event: LeaseEvent, t: Traffic, q: Requesting, l: Lease)
    requires WellFormed(t) && WellFormed(q.ack)
    requires event.LeaseExpired? || (held.Some? && RefusedIn(t))
    ensures var h := Handled(held, event, t, q);
            && (Grants(q, l) ==> h == Handling(TimesOf(l), Some(l), [Notification(held, Some(l))]))
            && (RequestRefused(q) ==> h == Handling(Crashed, held, []))
            && (!RequestRefused(q) && (forall m :: !Grants(q, m)) ==>
                  h == Handling(Rejected, None, [Notification(held, None)]))
  {
    RefusedIff(t);
    RequestRefusedIff(q);
    RequestedIff(q, l);
    if Requested(q).Success? {
      RequestedIff(q, Requested(q).value);
    }
  }

  /** So a lease is lost just when it ends or its extension is refused, and the
      request that follows is neither granted nor refused. */
  lemma LostIff(held: Lease, event: LeaseEvent, t: Traffic, q: Requesting)
    requires WellFormed(t) && WellFormed(q.ack)
    ensures Handled(Some(held), event, t, q).lease.None? <==>
            && (event.LeaseExpired? || RefusedIn(t))
            && !RequestRefused(q) && forall l :: !Grants(q, l)
  {
    if event.LeaseExpired? || RefusedIn(t) {
      AnewIs(Some(held), event, t, q, held);
      if l :| Grants(q, l) {
        AnewIs(Some(held), event, t, q, l);
      }
    } else {
      ExtendingIs(held, event, t, q);
      if k: nat, i: nat :| Decides(t, Ack, k, i) {
        DecidedExchange(t, Ack, k, i);
        assert Acknowledges(t, k, i);
      }
    }
  }

  /** Which traffic crashes the client: a refusal of the request that follows a
      refused extension or the end of a lease. The one without a lease has none
      to extend. */
  lemma CrashesIff(held: Option<Lease>, event: LeaseEvent, t: Traffic, q: Requesting)
    requires WellFormed(t) && WellFormed(q.ack)
    ensures Handled(held, event, t, q).answer == Crashed <==>
            if event.LeaseExpired? then RequestRefused(q)
            else held.None? || (RefusedIn(t) && RequestRefused(q))
  {
    RefusedIff(t);
    RequestRefusedIff(q);
  }

  /** One server that offers and then refuses everything does it. */
  lemma CrashExample(held: Lease, t: Traffic, q: Requesting)
    requires t == Traffic(1, true, (k: nat) => [Received(Message(1, Nak, 0, None, []))], (k: nat) => true)
    requires q.offer == Traffic(2, true, (k: nat) => [Received(Message(2, Offer, 7, Some(9), []))], (k: nat) => true)
    requires q.ack == Traffic(2, true, (k: nat) => [Received(Message(2, Nak, 0, None, []))], (k: nat) => true)
    ensures WellFormed(t) && WellFormed(q.ack)
    ensures Handled(Some(held), LeaseEvent.Renewal, t, q).answer == Crashed
  {
    assert Decides(t, Ack, 0, 0) && Decides(q.offer, Offer, 0, 0) && Decides(q.ack, Ack, 0, 0);
    CrashesIff(Some(held), LeaseEvent.Renewal, t, q);
  }

  // ------------------------------------------------------------- the watchdog

  function EventOf(stage: nat): LeaseEvent
    requires stage < 3
  {
    if stage == 0 then LeaseEvent.Renewal else if stage == 1 then LeaseEvent.Rebinding else LeaseExpired
  }

  class Watchdog {
    const client: Client
    var deadlines: Deadlines
    var stage: nat
    var alive: bool
    var start: int

    /** The deadlines are those of the lease held, counted from `start`, and
        one of them is still to come. */
    ghost predicate Guards()
      reads this, client
    {
      && client.lease.Some?
      && deadlines == LeaseTimers.Started(start, client.lease.value.renewalTime, client.lease.value.rebindingTime,
                                          client.lease.value.leaseTime)
      && stage < 3
    }

    constructor (client: Client, now: int)
      requires client.lease.Some?
      ensures this.client == client && alive && Guards() && fresh(this)
    {
      this.client := client;
      var lease := client.lease.value;
      start, stage, alive := now, 0, true;
      deadlines := LeaseTimers.Started(now, lease.renewalTime, lease.rebindingTime, lease.leaseTime);
    }

    /** The stream of deadlines yields a stage at `now`; the client has handled
        it by `done`. */
    method TimerEvent(now: int, done: int, t: Traffic, q: Requesting)
      requires alive && Guards() && !client.crashed && WellFormed(t) && WellFormed(q.ack)
      requires deadlines.At(stage) <= now <= done
      modifies this, client
      // a lease is guarded for as long as it is held
      ensures alive && !client.crashed ==> Guards()
      ensures !alive ==> client.lease.None?
      ensures client.lease.Some? && !client.crashed ==> alive
      // the client handles the latest event that is due; an answer with new
      // times starts them over, any other leaves the later stages to come
      ensures var l := old(client.lease).value;
              var e := if now >= old(start) + l.leaseTime then LeaseExpired
                       else if now >= old(start) + l.rebindingTime then LeaseEvent.Rebinding
                       else LeaseEvent.Renewal;
              var h := Handled(Some(l), e, t, q);
              && client.lease == h.lease && client.notices == old(client.notices) + h.notices
              && client.crashed == (h.answer == Crashed)
              && (h.answer.Times? ==> start == done && stage == 0)
              && (!h.answer.Times? ==>
                    start == old(start) && stage == if e.LeaseExpired? then 3 else if e.Rebinding? then 2 else 1)
    {
      var next := NextStage(deadlines, stage, now);
      var i := next.value.0;
      assert EventOf(i) == if now >= deadlines.At(2) then LeaseExpired
                           else if now >= deadlines.At(1) then LeaseEvent.Rebinding
                           else LeaseEvent.Renewal;
      stage := next.value.1;
      var answer := client.Handle(EventOf(i), t, q);
      match answer
      case Times(renewal, rebinding, lease) =>
        start, stage := done, 0;
        deadlines := LeaseTimers.Started(done, renewal, rebinding, lease);
      case Rejected => alive := false;
      case _ =>
    }
  }
}
