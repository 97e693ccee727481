/** The renewal, rebinding and expiry timers of a lease
    (network-daemon/src/dhcp/lease.rs; section 4.4.5 of RFC 2131). */
module LeaseTimers {
  import opened Prelude

  /** The three deadlines: renewal (T1), rebinding (T2), end of the lease. */
  datatype Deadlines = Deadlines(renewal: int, rebinding: int, lease: int)
  {
    function At(i: nat): int
      requires i < 3
    {
      if i == 0 then renewal else if i == 1 then rebinding else lease
    }
  }

  /** The deadlines of timers started at `start`. */
  function Started(start: int, t1: nat, t2: nat, lease: nat): Deadlines {
    Deadlines(start + t1, start + t2, start + lease)
  }

  /** The last stage that is due. */
  predicate LatestDue(d: Deadlines, now: int, i: nat) {
    i < 3 && now >= d.At(i) && forall j: nat :: i < j < 3 ==> now < d.At(j)
  }

  /** One step of the stream: it slept until stage `state` and woke at `now`. */
  method NextStage(d: Deadlines, state: nat, now: int) returns (r: Option<(nat, nat)>)
    requires state < 3 ==> now >= d.At(state)
    ensures r.None? <==> state >= 3
    ensures r.Some? ==> r.value.1 == r.value.0 + 1 && state <= r.value.0 && LatestDue(d, now, r.value.0)
  {
    if state >= 3 {
      return None;
    }
    var idx := 3;
    while idx > 0
      invariant state < idx <= 3
      invariant forall j: nat :: idx <= j < 3 ==> now < d.At(j)
    {
      idx := idx - 1;
      if now >= d.At(idx) {
        return Some((idx, idx + 1));
      }
    }
  }

  datatype Emission = Emission(stage: nat, time: int)

  /** The events of a stream that is left alone, from stage `state` on, with
      any clock that does not run backwards. */
  ghost predicate Stream(d: Deadlines, state: nat, now: int, es: seq<Emission>)
    decreases |es|
  {
    if state >= 3 then es == []
    else
      && es != []
      && es[0].time >= now && es[0].time >= d.At(state)
      && state <= es[0].stage && LatestDue(d, es[0].time, es[0].stage)
      && Stream(d, es[0].stage + 1, es[0].time, es[1..])
  }

  /** A clock that wakes sleepers as soon as their deadline has come. */
  ghost predicate Prompt(d: Deadlines, state: nat, now: int, es: seq<Emission>)
    requires Stream(d, state, now, es)
    decreases |es|
  {
    state < 3 ==>
      && es[0].time == (if now >= d.At(state) then now else d.At(state))
      && Prompt(d, es[0].stage + 1, es[0].time, es[1..])
  }

  /** Whatever T1, T2 and the lease time are, ordered or not, a stream emits at
      most the stages left, in increasing order, each due when it is emitted
      with all later ones still ahead, and it ends with the expiry. */
  lemma {:induction false} StagesInOrder(d: Deadlines, state: nat, now: int, es: seq<Emission>)
    requires state < 3 && Stream(d, state, now, es)
    ensures 1 <= |es| <= 3 - state
    ensures forall i :: 0 <= i < |es| ==> state <= es[i].stage && LatestDue(d, es[i].time, es[i].stage)
    ensures forall i, j :: 0 <= i < j < |es| ==> es[i].stage < es[j].stage && es[i].time <= es[j].time
    ensures forall i :: 0 <= i < |es| ==> es[i].time >= now
    ensures es[|es| - 1].stage == 2
    decreases |es|
  {
    if es[0].stage < 2 {
      var rest := es[1..];
      StagesInOrder(d, es[0].stage + 1, es[0].time, rest);
      assert forall i :: 0 < i < |es| ==> es[i] == rest[i - 1];
    }
  }

  /** When a prompt clock lets the expiry come: waiting for a T1 or T2 that
      lies beyond the end of the lease delays it. */
  lemma ExpiryTime(d: Deadlines, now: int, es: seq<Emission>)
    requires now <= d.renewal && now <= d.rebinding && now <= d.lease
    requires Stream(d, 0, now, es) && Prompt(d, 0, now, es)
    ensures es != []
    ensures es[|es| - 1].time == if d.renewal >= d.lease then d.renewal else Max(d.rebinding, d.lease)
  {
    StagesInOrder(d, 0, now, es);
    var rest := es[1..];
    if es[0].stage == 0 {
      StagesInOrder(d, 1, es[0].time, rest);
      if rest[0].stage == 1 {
        StagesInOrder(d, 2, rest[0].time, rest[1..]);
        assert |es| == 3;
        assert Prompt(d, 2, rest[0].time, rest[1..]);
        assert es[2] == rest[1..][0];
      } else {
        assert |es| == 2;
      }
    } else if es[0].stage == 1 {
      StagesInOrder(d, 2, es[0].time, rest);
      assert |es| == 2;
    }
  }

  /** The expiry is on time exactly when neither timer makes the stream sleep
      past the end of the lease. */
  lemma ExpiryOnTimeIff(start: int, t1: nat, t2: nat, lease: nat, es: seq<Emission>)
    requires var d := Started(start, t1, t2, lease); Stream(d, 0, start, es) && Prompt(d, 0, start, es)
    ensures es != []
    ensures es[|es| - 1].time == start + lease <==> t1 == lease || (t1 < lease && t2 <= lease)
  {
    ExpiryTime(Started(start, t1, t2, lease), start, es);
  }

  /** A lease of ten minutes with a T1 of half an hour: the expiry comes after
      half an hour, as the only event. */
  lemma LateExpiryExample()
    ensures var (d, es) := (Started(0, 1800, 3150, 600), [Emission(2, 1800)]);
            Stream(d, 0, 0, es) && Prompt(d, 0, 0, es)
  {
    var (d, es) := (Started(0, 1800, 3150, 600), [Emission(2, 1800)]);
    assert es[1..] == [];
    assert Stream(d, 3, 1800, es[1..]);
  }

  /** With T1 <= T2 <= lease and a prompt clock, every event comes exactly at
      its own deadline. */
  lemma {:induction false} OrderedTimersArePunctual(d: Deadlines, state: nat, now: int, es: seq<Emission>)
    requires d.renewal <= d.rebinding <= d.lease
    requires Stream(d, state, now, es) && Prompt(d, state, now, es)
    requires state < 3 ==> now <= d.At(state)
    ensures forall i :: 0 <= i < |es| ==> es[i].stage < 3 && es[i].time == d.At(es[i].stage)
    decreases |es|
  {
    if state < 3 {
      OrderedTimersArePunctual(d, es[0].stage + 1, es[0].time, es[1..]);
      forall i | 0 <= i < |es| ensures es[i].stage < 3 && es[i].time == d.At(es[i].stage) {
        if i > 0 {
          assert es[i] == es[1..][i - 1];
        }
      }
    }
  }
}
