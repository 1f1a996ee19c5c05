/**
 * The flooding broadcast node (3b-maelstrom-broadcast/main.go).
 *
 * The node keeps the message ids it has seen in a list. A broadcast of an
 * unseen id is forwarded to every neighbour except the sender and then
 * recorded; a broadcast of a seen id is only acknowledged. A topology
 * message replaces the neighbour list with this node's entry.
 *
 * Sending is not modelled: Broadcast returns the neighbours it would send
 * the message to, in order.
 */
module FloodBroadcast {
  import opened Wrappers

  /** The neighbours an unseen message from `src` is forwarded to: all but `src`, in order. */
  function Forwards(nbrs: seq<string>, src: string): seq<string>
    decreases |nbrs|
  {
    if nbrs == [] then []
    else
      var last := nbrs[|nbrs| - 1];
      Forwards(nbrs[..|nbrs| - 1], src) + (if last == src then [] else [last])
  }

  /** A neighbour is forwarded to exactly when it is listed and is not the sender. */
  lemma {:induction false} ForwardsMembers(nbrs: seq<string>, src: string, n: string)
    ensures n in Forwards(nbrs, src) <==> n in nbrs && n != src
    decreases |nbrs|
  {
    if nbrs != [] {
      var init := nbrs[..|nbrs| - 1];
      ForwardsMembers(init, src, n);
      assert nbrs == init + [nbrs[|nbrs| - 1]];
    }
  }

  /** Forwarding keeps the neighbours' order: it distributes over concatenation. */
  lemma {:induction false} ForwardsAppend(a: seq<string>, b: seq<string>, src: string)
    ensures Forwards(a + b, src) == Forwards(a, src) + Forwards(b, src)
    decreases |b|
  {
    if b == [] {
      assert a + b == a;
    } else {
      var init := b[..|b| - 1];
      ForwardsAppend(a, init, src);
      assert (a + b)[..|a + b| - 1] == a + init;
    }
  }

  /** The sender is never sent its own message, and nothing is sent twice to a neighbour listed once. */
  lemma {:induction false} ForwardsDistinct(nbrs: seq<string>, src: string)
    requires Distinct(nbrs)
    ensures Distinct(Forwards(nbrs, src)) && src !in Forwards(nbrs, src)
    decreases |nbrs|
  {
    ForwardsMembers(nbrs, src, src);
    if nbrs != [] {
      var init := nbrs[..|nbrs| - 1];
      var last := nbrs[|nbrs| - 1];
      ForwardsDistinct(init, src);
      ForwardsMembers(init, src, last);
      assert last !in init;
    }
  }

  /** The seen list after a broadcast of `msgId`: recorded once, on first sight. */
  function Record(msgIds: seq<int>, msgId: int): seq<int>
  {
    if msgId in msgIds then msgIds else msgIds + [msgId]
  }

  /**
   * Recording keeps the list free of duplicates, adds exactly `msgId` to the
   * set of seen ids, and keeps the earlier entries in place.
   */
  lemma RecordSpec(msgIds: seq<int>, msgId: int)
    ensures Distinct(msgIds) ==> Distinct(Record(msgIds, msgId))
    ensures Elems(Record(msgIds, msgId)) == Elems(msgIds) + {msgId}
    ensures Record(msgIds, msgId)[..|msgIds|] == msgIds
  {
    if msgId !in msgIds {
      ElemsSnoc(msgIds, msgId);
      assert (msgIds + [msgId])[..|msgIds|] == msgIds;
    } else {
      assert Elems(msgIds) + {msgId} == Elems(msgIds);
    }
  }

  /** The seen list after broadcasts of `ms`, in order. */
  function RecordAll(msgIds: seq<int>, ms: seq<int>): seq<int>
    decreases |ms|
  {
    if ms == [] then msgIds else RecordAll(Record(msgIds, ms[0]), ms[1..])
  }

  /**
   * Over any run of broadcasts the seen list stays free of duplicates and
   * holds exactly the ids seen before and the ids broadcast.
   */
  lemma {:induction false} RecordAllSpec(msgIds: seq<int>, ms: seq<int>)
    requires Distinct(msgIds)
    ensures Distinct(RecordAll(msgIds, ms))
    ensures Elems(RecordAll(msgIds, ms)) == Elems(msgIds) + Elems(ms)
    decreases |ms|
  {
    if ms != [] {
      RecordSpec(msgIds, ms[0]);
      RecordAllSpec(Record(msgIds, ms[0]), ms[1..]);
      ElemsCons(ms);
    }
  }

  /** The node's state: the seen list and the neighbour list of the last topology. */
  class Server {
    var msgIds: seq<int>
    var nbrs: seq<string>

    constructor ()
      ensures msgIds == [] && nbrs == []
    {
      msgIds := [];
      nbrs := [];
    }

    /** seen: a scan of the list. */
    method Seen(i: int) returns (b: bool)
      ensures b <==> i in msgIds
    {
      for k := 0 to |msgIds|
        invariant i !in msgIds[..k]
      {
        if msgIds[k] == i {
          return true;
        }
        assert msgIds[..k + 1] == msgIds[..k] + [msgIds[k]];
      }
      assert msgIds[..|msgIds|] == msgIds;
      return false;
    }

    /** add: append at the end. */
    method Add(i: int)
      modifies this
      ensures msgIds == old(msgIds) + [i]
      ensures nbrs == old(nbrs)
    {
      msgIds := msgIds + [i];
    }

    /** Msgs: the seen list as it is, in arrival order. */
    method Msgs() returns (r: seq<int>)
      ensures r == msgIds
    {
      r := msgIds;
    }

    /**
     * The broadcast handler: for an id not seen yet, the neighbours other
     * than the sender, in order, and the id is recorded; for a seen id,
     * no one and no change.
     */
    method Broadcast(src: string, msgId: int) returns (forward: seq<string>)
      modifies this
      ensures msgIds == Record(old(msgIds), msgId)
      ensures forward == if msgId in old(msgIds) then [] else Forwards(nbrs, src)
      ensures nbrs == old(nbrs)
    {
      forward := [];
      var seen := Seen(msgId);
      if !seen {
        for k := 0 to |nbrs|
          invariant forward == Forwards(nbrs[..k], src)
          invariant msgIds == old(msgIds) && nbrs == old(nbrs)
        {
          var nbr := nbrs[k];
          assert nbrs[..k + 1][..k] == nbrs[..k];
          if nbr == src {
            continue;
          }
          forward := forward + [nbr];
        }
        assert nbrs[..|nbrs|] == nbrs;
        Add(msgId);
      }
    }

    /**
     * The topology handler: the neighbour list becomes this node's entry,
     * copied in order. An absent entry fails the type assertion.
     */
    method Topology(topology: map<string, seq<string>>, self: string)
      requires self in topology
      modifies this
      ensures nbrs == topology[self]
      ensures msgIds == old(msgIds)
    {
      var entry := topology[self];
      var a := new string[|entry|];
      for i := 0 to |entry|
        invariant a[..i] == entry[..i]
        invariant unchanged(this)
      {
        a[i] := entry[i];
      }
      nbrs := a[..];
    }
  }

  /** Two deliveries of one message: the first is forwarded and recorded, the second is dropped. */
  method DuplicateExample() returns (first: seq<string>, second: seq<string>, seen: seq<int>)
    ensures first == ["n2", "n3"] && second == [] && seen == [7]
  {
    var server := new Server();
    server.Topology(map["n1" := ["n0", "n2", "n3"]], "n1");
    first := server.Broadcast("n0", 7);
    assert ["n0", "n2", "n3"][..2] == ["n0", "n2"];
    assert ["n0", "n2"][..1] == ["n0"];
    assert ["n0"][..0] == [];
    second := server.Broadcast("n2", 7);
    seen := server.Msgs();
  }
}
