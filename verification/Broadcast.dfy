/** A message to every subscriber (libnetwork-daemon/src/utils/broadcast.rs). */
module Broadcast {
  import opened Prelude

  /** A subscription: open while its receiver lives, with all it was sent. */
  datatype Channel<T> = Channel(open: bool, delivered: seq<T>)

  /** The queue of senders and the channels behind them, numbered as they were
      subscribed. */
  datatype State<T> = State(senders: seq<nat>, channels: seq<Channel<T>>)

  /** Every sender is queued once, and no open channel is missing. */
  predicate Valid<T>(s: State<T>) {
    && NoDuplicates(s.senders)
    && (forall i :: 0 <= i < |s.senders| ==> s.senders[i] < |s.channels|)
    && (forall id: nat :: id < |s.channels| && s.channels[id].open ==> id in s.senders)
  }

  /** The queued senders whose channel is open, in their order. */
  function Live<T>(senders: seq<nat>, channels: seq<Channel<T>>): seq<nat> {
    if senders == [] then []
    else
      var rest := Live(senders[1..], channels);
      if senders[0] < |channels| && channels[senders[0]].open then [senders[0]] + rest else rest
  }

  function Given<T>(c: Channel<T>, message: T): Channel<T> {
    if c.open then c.(delivered := c.delivered + [message]) else c
  }

  /** One more message in each of the open channels whose sender is queued. */
  function Sent<T>(senders: seq<nat>, channels: seq<Channel<T>>, message: T): seq<Channel<T>> {
    seq(|channels|, id requires 0 <= id < |channels| =>
      if id in senders then Given(channels[id], message) else channels[id])
  }

  lemma {:induction false} LiveIff<T>(senders: seq<nat>, channels: seq<Channel<T>>, id: nat)
    ensures id in Live(senders, channels) <==> id in senders && id < |channels| && channels[id].open
  {
    if senders != [] {
      LiveIff(senders[1..], channels, id);
    }
  }

  lemma {:induction false} LiveDistinct<T>(senders: seq<nat>, channels: seq<Channel<T>>)
    requires NoDuplicates(senders)
    ensures NoDuplicates(Live(senders, channels)) && |Live(senders, channels)| <= |senders|
  {
    if senders != [] {
      LiveDistinct(senders[1..], channels);
      LiveIff(senders[1..], channels, senders[0]);
    }
  }

  lemma {:induction false} LiveSame<T>(senders: seq<nat>, channels: seq<Channel<T>>, others: seq<Channel<T>>)
    requires |channels| == |others| && forall id :: 0 <= id < |channels| ==> channels[id].open == others[id].open
    ensures Live(senders, channels) == Live(senders, others)
  {
    if senders != [] {
      LiveSame(senders[1..], channels, others);
    }
  }

  /** The first in the queue is served: it goes to the end if it lives. */
  function Served<T>(s: State<T>, message: T): State<T>
    requires s.senders != [] && s.senders[0] < |s.channels|
  {
    var (sender, rest) := (s.senders[0], s.senders[1..]);
    if s.channels[sender].open
    then State(rest + [sender], s.channels[sender := Given(s.channels[sender], message)])
    else State(rest, s.channels)
  }

  predicate Queued<T>(s: State<T>) {
    forall i :: 0 <= i < |s.senders| ==> s.senders[i] < |s.channels|
  }

  /** The first `num` in the queue are served one after the other. */
  function Passed<T>(s: State<T>, message: T, num: nat): State<T>
    requires num <= |s.senders| && Queued(s)
    decreases num
  {
    if num == 0 then s else Passed(Served(s, message), message, num - 1)
  }

  lemma SentFirst<T>(senders: seq<nat>, channels: seq<Channel<T>>, message: T)
    requires senders != [] && NoDuplicates(senders) && senders[0] < |channels|
    ensures Sent(senders, channels, message)
            == Sent(senders[1..], channels[senders[0] := Given(channels[senders[0]], message)], message)
  {
  }

  /** Serving all that are queued is sending to the live and dropping the dead. */
  lemma {:induction false} PassIsBroadcast<T>(todo: seq<nat>, done: seq<nat>, channels: seq<Channel<T>>, message: T)
    requires NoDuplicates(todo) && Queued(State(todo + done, channels))
    ensures Passed(State(todo + done, channels), message, |todo|)
            == State(done + Live(todo, channels), Sent(todo, channels, message))
    decreases |todo|
  {
    var s := State(todo + done, channels);
    if todo == [] {
      assert todo + done == done && done + [] == done;
      assert Sent(todo, channels, message) == channels;
    } else {
      var (x, rest) := (todo[0], todo[1..]);
      assert s.senders[0] == x && s.senders[1..] == rest + done;
      var given := channels[x := Given(channels[x], message)];
      LiveSame(rest, channels, given);
      SentFirst(todo, channels, message);
      var more := if channels[x].open then done + [x] else done;
      assert rest + done + [x] == rest + (done + [x]);
      assert given == if channels[x].open then given else channels;
      assert Served(s, message) == State(rest + more, given);
      PassIsBroadcast(rest, more, given, message);
      assert done + [x] + Live(rest, channels) == done + ([x] + Live(rest, channels));
    }
  }

  // -------------------------------------------------------------------- the class

  class Broadcaster<T> {
    var senders: seq<nat>
    var channels: seq<Channel<T>>

    function View(): State<T>
      reads this
    {
      State(senders, channels)
    }

    constructor ()
      ensures View() == State([], []) && Valid(View())
    {
      senders, channels := [], [];
    }

    method Subscribe() returns (id: nat)
      requires Valid(View())
      modifies this
      ensures View() == Subscribed(old(View())) && Valid(View())
      ensures id == |old(channels)|
    {
      id := |channels|;
      SubscribeKeepsValid(View());
      channels := channels + [Channel(true, [])];
      senders := senders + [id];
    }

    /** Every live subscriber gets the message once, the dead ones are dropped,
        the others keep their order. */
    method Broadcast(message: T) returns (count: nat)
      requires Valid(View())
      modifies this
      ensures View() == Broadcasted(old(View()), message) && Valid(View())
      ensures count == |senders|
    {
      var num: nat := |senders|;
      count := 0;
      while num > 0
        invariant num <= |senders| == num + count && Queued(View())
        invariant Passed(View(), message, num) == Passed(old(View()), message, |old(senders)|)
      {
        var sender := senders[0];
        senders := senders[1..];
        if channels[sender].open {
          channels := channels[sender := Given(channels[sender], message)];
          senders := senders + [sender];
          count := count + 1;
        }
        num := num - 1;
      }
      assert old(senders) + [] == old(senders);
      PassIsBroadcast(old(senders), [], old(channels), message);
      BroadcastKeepsValid(old(View()), message);
    }
  }

  // ------------------------------------------------------------------ whole runs

  function Subscribed<T>(s: State<T>): State<T> {
    State(s.senders + [|s.channels|], s.channels + [Channel(true, [])])
  }

  function Broadcasted<T>(s: State<T>, message: T): State<T> {
    State(Live(s.senders, s.channels), Sent(s.senders, s.channels, message))
  }

  /** The receiver of a subscription goes away. */
  function Closed<T>(s: State<T>, id: nat): State<T> {
    if id < |s.channels| then s.(channels := s.channels[id := s.channels[id].(open := false)]) else s
  }

  lemma SubscribeKeepsValid<T>(s: State<T>)
    requires Valid(s)
    ensures Valid(Subscribed(s))
  {
  }

  lemma BroadcastKeepsValid<T>(s: State<T>, message: T)
    requires Valid(s)
    ensures Valid(Broadcasted(s, message))
  {
    var t := Broadcasted(s, message);
    LiveDistinct(s.senders, s.channels);
    forall i | 0 <= i < |t.senders| ensures t.senders[i] < |t.channels| {
      LiveIff(s.senders, s.channels, t.senders[i]);
    }
    forall id: nat | id < |t.channels| && t.channels[id].open ensures id in t.senders {
      LiveIff(s.senders, s.channels, id);
    }
  }

  datatype Op<T> = Subscribe | Broadcast(message: T) | Close(id: nat)

  function Run<T>(ops: seq<Op<T>>): State<T> {
    if ops == [] then State([], [])
    else
      var s := Run(ops[..|ops| - 1]);
      match ops[|ops| - 1]
      case Subscribe => Subscribed(s)
      case Broadcast(message) => Broadcasted(s, message)
      case Close(id) => Closed(s, id)
  }

  /** How many have subscribed. */
  function Subscriptions<T>(ops: seq<Op<T>>): nat {
    if ops == [] then 0
    else Subscriptions(ops[..|ops| - 1]) + if ops[|ops| - 1].Subscribe? then 1 else 0
  }

  /** What subscriber `id` ought to have: all that was broadcast after it
      subscribed and before it went away. */
  function Due<T>(ops: seq<Op<T>>, id: nat): Channel<T> {
    if ops == [] then Channel(false, [])
    else
      var (init, op) := (ops[..|ops| - 1], ops[|ops| - 1]);
      var c := Due(init, id);
      match op
      case Subscribe => if Subscriptions(init) == id then Channel(true, []) else c
      case Broadcast(message) => if c.open then Channel(true, c.delivered + [message]) else c
      case Close(other) => if other == id then Channel(false, c.delivered) else c
  }

  /** Not before it subscribes. */
  lemma {:induction false} NothingDue<T>(ops: seq<Op<T>>, id: nat)
    requires Subscriptions(ops) <= id
    ensures Due(ops, id) == Channel(false, [])
  {
    if ops != [] {
      NothingDue(ops[..|ops| - 1], id);
    }
  }

  /** However often dead senders are dropped and live ones go round the queue,
      each subscriber has exactly what is due to it. */
  lemma {:induction false} EachHasItsDue<T>(ops: seq<Op<T>>)
    ensures Valid(Run(ops)) && |Run(ops).channels| == Subscriptions(ops)
    ensures forall id: nat :: id < Subscriptions(ops) ==> Run(ops).channels[id] == Due(ops, id)
  {
    if ops != [] {
      var (init, op) := (ops[..|ops| - 1], ops[|ops| - 1]);
      EachHasItsDue(init);
      var s := Run(init);
      match op {
        case Subscribe =>
          SubscribeKeepsValid(s);
          NothingDue(init, Subscriptions(init));
        case Broadcast(message) =>
          BroadcastKeepsValid(s, message);
        case Close(id) =>
      }
    }
  }
}
