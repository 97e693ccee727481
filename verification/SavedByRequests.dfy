/** What a restart brings back, by the requests that clients have made and by
    nothing else (network-daemon/src/daemon/client.rs,
    network-daemon/src/daemon/service.rs). */
module SavedByRequests {
  import opened Prelude
  import opened KnownNetworks
  import opened NetworkStore
  import opened PersistedProfiles
  import opened Restart
  import opened RestartRuns

  // --------------------------------------------------------------- the requests alone

  predicate Adds(e: WorldEvent, mac: Mac, slot: Slot) {
    e.Request? && e.mac == mac && e.event.Add? && e.event.args.slot == slot
  }

  predicate Drops(e: WorldEvent, mac: Mac, slot: Slot) {
    && e.Request? && e.mac == mac && e.event.Remove?
    && e.event.ssid == slot.ssid && e.event.bssid == slot.bssid
    && (e.event.security.Some? ==> e.event.security.value == slot.security)
  }

  function Said(a: AddArgs, password: bool): Option<string> {
    if password then a.password else a.identity
  }

  /** The addition at `i` is the last request about the profile. */
  ghost predicate LastAdds(events: seq<WorldEvent>, mac: Mac, slot: Slot, i: nat) {
    && i < |events| && Adds(events[i], mac, slot)
    && forall j :: i < j < |events| ==> !Adds(events[j], mac, slot) && !Drops(events[j], mac, slot)
  }

  /** The addition at `i` is the last to give a secret, this one, with no
      removal since. */
  ghost predicate LastSays(
    events: seq<WorldEvent>, mac: Mac, slot: Slot, password: bool, secret: string, i: nat)
  {
    && i < |events| && Adds(events[i], mac, slot) && Said(events[i].event.args, password) == Some(secret)
    && forall j :: i < j < |events| ==>
         && !Drops(events[j], mac, slot)
         && (Adds(events[j], mac, slot) ==> Said(events[j].event.args, password).None?)
  }

  /** A restart brings the profile back just when the last request about it was
      an addition: as that one had it, with each secret as last given since the
      profile was last removed. */
  ghost predicate Remembered(back: Profiles, past: seq<WorldEvent>, mac: Mac, slot: Slot) {
    && (slot in back <==> exists i: nat :: LastAdds(past, mac, slot, i))
    && (forall i: nat :: LastAdds(past, mac, slot, i) ==>
          slot in back && Stored(back[slot], past[i].event.args, slot))
    && (slot in back ==> forall psk: bool, secret ::
          Secret(back[slot], psk) == Some(secret) <==> exists i: nat :: LastSays(past, mac, slot, psk, secret, i))
  }

  /** All of a profile but its secrets. */
  predicate Stored(k: Known, a: AddArgs, slot: Slot) {
    && k.id == None && k.priority == 0 && k.hidden == a.hidden && k.autoconnect == a.autoconnect
    && k.state == (if a.autoconnect then Enabled else Disabled)
    && k.ssid == slot.ssid && k.security == slot.security && k.bssid == slot.bssid
  }

  function Secret(k: Known, password: bool): Option<string> {
    if password then k.password else k.identity
  }

  // ------------------------------------------------------------- the image they leave

  function ImageOf(events: seq<WorldEvent>): Image {
    if events == [] then map[] else ImageAfter(ImageOf(events[..|events| - 1]), events[|events| - 1])
  }

  /** One request, seen from one profile. */
  lemma OneRequest(image: Image, e: WorldEvent, mac: Mac, slot: Slot)
    ensures var (o, after) := (Owner(Some(mac), slot), ImageAfter(image, e));
            if Adds(e, mac, slot) then
              var a := e.event.args;
              && o in after && Stored(after[o], a, slot)
              && forall psk: bool :: Secret(after[o], psk) ==
                   if Said(a, psk).Some? then Said(a, psk) else if o in image then Secret(image[o], psk) else None
            else if Drops(e, mac, slot) then o !in after
            else (o in after <==> o in image) && (o in image ==> after[o] == image[o])
  {
    if Adds(e, mac, slot) {
      MergedSecrets(image, Some(mac), e.event.args);
    }
  }

  lemma {:induction false} PresentIff(events: seq<WorldEvent>, mac: Mac, slot: Slot)
    ensures Owner(Some(mac), slot) in ImageOf(events) <==> exists i: nat :: LastAdds(events, mac, slot, i)
  {
    if events != [] {
      var (init, e, n) := (events[..|events| - 1], events[|events| - 1], |events| - 1);
      PresentIff(init, mac, slot);
      OneRequest(ImageOf(init), e, mac, slot);
      if Adds(e, mac, slot) {
        assert LastAdds(events, mac, slot, n);
      } else if !Drops(e, mac, slot) {
        forall i: nat ensures LastAdds(events, mac, slot, i) <==> LastAdds(init, mac, slot, i) {
        }
      }
    }
  }

  lemma {:induction false} LastAddsDecides(events: seq<WorldEvent>, mac: Mac, slot: Slot, i: nat)
    requires LastAdds(events, mac, slot, i)
    ensures var o := Owner(Some(mac), slot);
            o in ImageOf(events) && Stored(ImageOf(events)[o], events[i].event.args, slot)
  {
    var init := events[..|events| - 1];
    OneRequest(ImageOf(init), events[|events| - 1], mac, slot);
    if i < |init| {
      LastAddsDecides(init, mac, slot, i);
    }
  }

  lemma {:induction false} SecretIff(events: seq<WorldEvent>, mac: Mac, slot: Slot, psk: bool, secret: string)
    ensures var o := Owner(Some(mac), slot);
            o in ImageOf(events) && Secret(ImageOf(events)[o], psk) == Some(secret) <==>
            exists i: nat :: LastSays(events, mac, slot, psk, secret, i)
  {
    if events != [] {
      var (init, e, n) := (events[..|events| - 1], events[|events| - 1], |events| - 1);
      OneRequest(ImageOf(init), e, mac, slot);
      SecretIff(init, mac, slot, psk, secret);
      if Adds(e, mac, slot) && Said(e.event.args, psk).Some? {
        assert Said(e.event.args, psk) == Some(secret) ==> LastSays(events, mac, slot, psk, secret, n);
      } else if !Drops(e, mac, slot) {
        forall i: nat
          ensures LastSays(events, mac, slot, psk, secret, i) <==> LastSays(init, mac, slot, psk, secret, i)
        {
        }
      }
    }
  }

  lemma ImageRemembers(past: seq<WorldEvent>, mac: Mac, slot: Slot)
    ensures Remembered(Scope(ImageOf(past), Some(mac)), past, mac, slot)
  {
    var (o, back) := (Owner(Some(mac), slot), Scope(ImageOf(past), Some(mac)));
    assert slot in back <==> o in ImageOf(past);
    PresentIff(past, mac, slot);
    forall i: nat | LastAdds(past, mac, slot, i) ensures slot in back && Stored(back[slot], past[i].event.args, slot) {
      LastAddsDecides(past, mac, slot, i);
    }
    forall psk: bool, secret | slot in back
      ensures Secret(back[slot], psk) == Some(secret) <==> exists i: nat :: LastSays(past, mac, slot, psk, secret, i)
    {
      SecretIff(past, mac, slot, psk, secret);
    }
  }

  // ------------------------------------------------------------------------ any run

  ghost predicate AnyRun(worlds: seq<World>, events: seq<WorldEvent>) {
    && |worlds| == |events| + 1 && worlds[0] == World(map[], Disk([], map[]))
    && forall i :: 0 <= i < |events| ==> WorldStep(worlds[i], events[i], worlds[i + 1])
  }

  /** The disk goes by the requests, whatever the backends make of them. */
  lemma {:induction false} DiskIsImage(worlds: seq<World>, events: seq<WorldEvent>, i: nat)
    requires AnyRun(worlds, events) && i <= |events|
    ensures Holds(worlds[i].disk, ImageOf(events[..i]))
    ensures forall o :: o in ImageOf(events[..i]) ==> o.mac.Some?
  {
    if i > 0 {
      DiskIsImage(worlds, events, i - 1);
      assert events[..i][..i - 1] == events[..i - 1];
      DiskStep(worlds[i - 1], ImageOf(events[..i - 1]), events[i - 1], worlds[i]);
    }
  }

  lemma DiskStep(w: World, image: Image, e: WorldEvent, v: World)
    requires Holds(w.disk, image) && WorldStep(w, e, v)
    requires forall o :: o in image ==> o.mac.Some?
    ensures Holds(v.disk, ImageAfter(image, e)) && forall o :: o in ImageAfter(image, e) ==> o.mac.Some?
  {
    match e
    case Request(mac, Add(a)) => AddHolds(w.disk, image, mac, a);
    case Request(mac, Remove(ssid, bssid, security)) => RemoveHolds(w.disk, image, mac, ssid, bssid, security);
    case _ =>
  }

  /** After any run, careful or not, and whatever commands have failed. */
  lemma RestartRemembers(worlds: seq<World>, events: seq<WorldEvent>, i: nat, mac: Mac, slot: Slot,
                         cs: seq<Credential>)
    requires AnyRun(worlds, events) && i <= |events| && Lists(cs, worlds[i].disk.rows)
    ensures Remembered(Rebuilt(worlds[i].disk.networks, cs, Some(mac)), events[..i], mac, slot)
  {
    DiskIsImage(worlds, events, i);
    RebuiltIsScope(worlds[i].disk, ImageOf(events[..i]), cs, Some(mac));
    SourceIsOwn(ImageOf(events[..i]), mac);
    ImageRemembers(events[..i], mac, slot);
  }
}
