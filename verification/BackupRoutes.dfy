/** Gateways and networks of each interface, kept for the day another one
    goes away (network-daemon/src/route/backup.rs). */
module BackupRoutes {
  import opened Prelude
  import opened Buckets

  /** The relation behind the two nested maps: what each interface has. */
  datatype Backup<I> = Backup(gateways: map<nat, I>, nets: map<nat, set<I>>)

  function Inserted<I>(b: Backup<I>, id: nat, gateway: I, nets: seq<I>): Backup<I> {
    Backup(b.gateways[id := gateway],
           if nets == [] then b.nets else b.nets[id := Bucket(b.nets, id) + Elements(nets)])
  }

  function Elements<I>(nets: seq<I>): set<I> {
    set n | n in nets
  }

  function Removed<I>(b: Backup<I>, id: nat): Backup<I> {
    Backup(b.gateways - {id}, b.nets - {id})
  }

  /** Insertion is union with the interface's pairs; it never replaces them. */
  lemma InsertIsUnion<I>(b: Backup<I>, id: nat, gateway: I, nets: seq<I>, i: nat, n: I)
    ensures n in Bucket(Inserted(b, id, gateway, nets).nets, i) <==> n in Bucket(b.nets, i) || (i == id && n in nets)
  {
  }

  lemma InsertOneMore<I>(b: Backup<I>, id: nat, gateway: I, nets: seq<I>, net: I)
    ensures Inserted(b, id, gateway, nets + [net])
            == Backup(b.gateways[id := gateway], Enlisted(Inserted(b, id, gateway, nets).nets, id, net))
  {
    assert Elements(nets + [net]) == Elements(nets) + {net};
    if nets == [] {
      assert Elements(nets + [net]) == {net};
    } else {
      assert Bucket(b.nets, id) + Elements(nets) + {net} == Bucket(b.nets, id) + (Elements(nets) + {net});
    }
  }

  /** Removal takes exactly the interface's own pairs. */
  lemma RemoveIsExact<I>(b: Backup<I>, id: nat, i: nat, n: I)
    ensures n in Bucket(Removed(b, id).nets, i) <==> n in Bucket(b.nets, i) && i != id
  {
  }

  /** What holds in every run: no bucket is empty and whoever has networks has
      a gateway. */
  predicate Sound<I>(b: Backup<I>) {
    NoEmpty(b.nets) && b.nets.Keys <= b.gateways.Keys
  }

  lemma InsertKeepsSound<I>(b: Backup<I>, id: nat, gateway: I, nets: seq<I>)
    requires Sound(b)
    ensures Sound(Inserted(b, id, gateway, nets))
  {
    if nets != [] {
      assert nets[0] in Inserted(b, id, gateway, nets).nets[id];
    }
  }

  /** The interfaces recorded for a network. */
  function Outputs<I>(b: Backup<I>, net: I): set<nat> {
    set i | i in b.nets && net in b.nets[i]
  }

  /** The second map is the converse of the first. */
  ghost predicate Converse<I(!new)>(nets: map<nat, set<I>>, ids: map<I, set<nat>>) {
    NoEmpty(ids) && forall i: nat, n :: i in Bucket(ids, n) <==> n in Bucket(nets, i)
  }

  class Table<I(!new,==)> {
    var gateways: map<nat, I>
    var idToNet: map<nat, set<I>>
    var netToId: map<I, set<nat>>

    ghost function View(): Backup<I>
      reads this
    {
      Backup(gateways, idToNet)
    }

    ghost predicate Valid()
      reads this
    {
      Sound(View()) && Converse(idToNet, netToId)
    }

    constructor ()
      ensures Valid() && View() == Backup(map[], map[])
    {
      gateways, idToNet, netToId := map[], map[], map[];
    }

    method Insert(id: nat, gateway: I, nets: seq<I>)
      requires Valid()
      modifies this
      ensures Valid() && View() == Inserted(old(View()), id, gateway, nets)
    {
      gateways := gateways[id := gateway];
      ghost var b := Backup(old(gateways), idToNet);
      for k := 0 to |nets|
        invariant Valid() && View() == Inserted(b, id, gateway, nets[..k])
      {
        InsertOneMore(b, id, gateway, nets[..k], nets[k]);
        assert nets[..k + 1] == nets[..k] + [nets[k]];
        InsertOne(id, nets[k]);
      }
      assert nets[..|nets|] == nets;
    }

    method InsertOne(id: nat, net: I)
      requires Valid() && id in gateways
      modifies this
      ensures Valid() && gateways == old(gateways) && idToNet == Enlisted(old(idToNet), id, net)
    {
      netToId := Enlisted(netToId, net, id);
      idToNet := Enlisted(idToNet, id, net);
      EnlistedIn(old(netToId), net, id);
      EnlistedIn(old(idToNet), id, net);
    }

    method Remove(id: nat)
      requires Valid()
      modifies this
      ensures Valid() && View() == Removed(old(View()), id)
    {
      gateways := gateways - {id};
      if id in idToNet {
        var nets := idToNet[id];
        ghost var (before, ids) := (idToNet, netToId);
        idToNet := idToNet - {id};
        var left := nets;
        while left != {}
          invariant left <= nets
          invariant gateways == old(gateways) - {id} && idToNet == before - {id}
          invariant NoEmpty(netToId)
          invariant forall i: nat, n ::
            i in Bucket(netToId, n) <==> i in Bucket(ids, n) && !(i == id && n in nets - left)
          decreases |left|
        {
          var net :| net in left;
          CutIn(netToId, net, id);
          netToId := Cut(netToId, net, id);
          left := left - {net};
        }
        forall i: nat, n ensures i in Bucket(netToId, n) <==> n in Bucket(idToNet, i) {
          assert i in Bucket(ids, n) <==> n in Bucket(before, i);
        }
      }
    }

    /** The relational image of a network, or nothing when it is empty. */
    function NetOutputs(net: I): (r: Option<set<nat>>)
      reads this
      ensures Valid() ==> r == if Outputs(View(), net) == {} then None else Some(Outputs(View(), net))
    {
      assert Valid() ==> Bucket(netToId, net) == Outputs(View(), net) by {
        if Valid() {
          ImageIsBucket(View(), netToId, net);
        }
      }
      if net in netToId then Some(netToId[net]) else None
    }

    /** Some gateway, if there is any. */
    method FirstGateway() returns (r: Option<(I, nat)>)
      ensures r.None? <==> gateways == map[]
      ensures r.Some? ==> r.value.1 in gateways && gateways[r.value.1] == r.value.0
    {
      if gateways == map[] {
        return None;
      }
      var id :| id in gateways;
      r := Some((gateways[id], id));
    }
  }

  lemma ImageIsBucket<I(!new)>(b: Backup<I>, ids: map<I, set<nat>>, net: I)
    requires Converse(b.nets, ids)
    ensures Bucket(ids, net) == Outputs(b, net)
  {
    forall i: nat ensures i in Bucket(ids, net) <==> i in Outputs(b, net) {
      assert i in Bucket(ids, net) <==> net in Bucket(b.nets, i);
    }
  }
}
