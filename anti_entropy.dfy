/**
 * The anti-entropy broadcast server (3c-maelstrom-broadcast/server/server.go).
 *
 * A node keeps the set of message ids it knows, its neighbour list, and for
 * every neighbour the set of ids it believes that neighbour already holds.
 * Clients add ids with broadcast and fetch them with read; a periodic tick
 * sends every neighbour the ids it is not yet believed to hold; a peer that
 * receives such a gossip merges the ids and replies with the ids it believes
 * the sender still lacks; the sender's response callback records that the
 * neighbour now holds what was sent and merges the ids of the response.
 *
 * The transitions are pure functions over `State`; the class `Server` holds
 * the same three fields and is proved against them.
 */
module AntiEntropy {
  import opened Wrappers

  /** The server's state: `ids`, `nbrs` and `nbrIds` of the Go `Server`. */
  datatype State = State(ids: set<int>, nbrs: seq<string>, nbrIds: map<string, set<int>>)

  /** One gossip RPC issued by a tick: the neighbour and the ids in its body. */
  datatype GossipRpc = GossipRpc(dest: string, ids: seq<int>)

  /** The state of a freshly constructed server: no ids, no topology yet (nil slice, nil map). */
  const Initial := State({}, [], map[])

  /** The knowledge table has exactly one entry per current neighbour. */
  predicate Valid(s: State)
  {
    s.nbrIds.Keys == Elems(s.nbrs)
  }

  /** What the node believes `n` holds; a missing entry reads as Go reads a nil map, empty. */
  function Known(s: State, n: string): set<int>
  {
    if n in s.nbrIds then s.nbrIds[n] else {}
  }

  /** The ids the node holds that it does not believe `n` holds. */
  function Delta(s: State, n: string): set<int>
  {
    s.ids - Known(s, n)
  }

  /**
   * Adding `ids` to `n`'s entry writes into the entry's Go map; with no entry
   * that map is nil and the first write panics, so an entry is needed unless
   * there is nothing to write.
   */
  predicate Writable(s: State, n: string, ids: seq<int>)
  {
    n in s.nbrIds || ids == []
  }

  /** `n`'s entry with `ids` added (no change when there is no entry). */
  function Mark(nbrIds: map<string, set<int>>, n: string, ids: set<int>): map<string, set<int>>
  {
    if n in nbrIds then nbrIds[n := nbrIds[n] + ids] else nbrIds
  }

  /** broadcast: insert one id. */
  function Broadcast(s: State, id: int): State
  {
    s.(ids := s.ids + {id})
  }

  /** This node's entry of a topology map; a missing entry is a nil slice. */
  function NeighboursOf(topology: map<string, seq<string>>, self: string): seq<string>
  {
    if self in topology then topology[self] else []
  }

  /** topology: install the neighbours and give each an empty knowledge entry. */
  function InstallTopology(s: State, self: string, topology: map<string, seq<string>>): State
  {
    var nbrs := NeighboursOf(topology, self);
    s.(nbrs := nbrs, nbrIds := map n | n in nbrs :: {})
  }

  /** gossip from `src`: every received id goes into `ids` and into `src`'s entry. */
  function ReceiveGossip(s: State, src: string, received: seq<int>): State
    requires Writable(s, src, received)
  {
    s.(ids := s.ids + Elems(received), nbrIds := Mark(s.nbrIds, src, Elems(received)))
  }

  /** The ids of the gossip reply: the delta towards `src`, taken after the merge. */
  function GossipReply(s: State, src: string, received: seq<int>): set<int>
    requires Writable(s, src, received)
  {
    Delta(ReceiveGossip(s, src, received), src)
  }

  /** The RPCs one tick issues for the neighbours `nbrs`, in their order: one per non-empty delta. */
  function PlannedFor(s: State, nbrs: seq<string>): seq<(string, set<int>)>
    decreases |nbrs|
  {
    if nbrs == [] then []
    else
      var n := nbrs[|nbrs| - 1];
      var rest := PlannedFor(s, nbrs[..|nbrs| - 1]);
      if Delta(s, n) == {} then rest else rest + [(n, Delta(s, n))]
  }

  /** The RPCs one tick issues. */
  function Planned(s: State): seq<(string, set<int>)>
  {
    PlannedFor(s, s.nbrs)
  }

  /**
   * The response callback for a gossip sent to `nbr` carrying `sent`:
   * `sent` is marked known for `nbr` before the body is decoded; then, if the
   * body decodes, the ids it lists join `ids` (and not `nbr`'s entry).
   */
  function ReceiveAck(s: State, nbr: string, sent: seq<int>, response: Option<seq<int>>): State
    requires Writable(s, nbr, sent)
  {
    var marked := Mark(s.nbrIds, nbr, Elems(sent));
    match response
    case None => s.(nbrIds := marked)
    case Some(ids) => s.(nbrIds := marked, ids := s.ids + Elems(ids))
  }

  /** One call of a handler, of the tick's callback, or of topology installation. */
  datatype Event =
    | BroadcastEvent(id: int)
    | TopologyEvent(self: string, topology: map<string, seq<string>>)
    | GossipEvent(src: string, received: seq<int>)
    | AckEvent(nbr: string, sent: seq<int>, response: Option<seq<int>>)

  /** The state after one event; `None` where the Go code would panic on a nil map. */
  function Step(s: State, e: Event): Option<State>
  {
    match e
    case BroadcastEvent(id) => Some(Broadcast(s, id))
    case TopologyEvent(self, topology) => Some(InstallTopology(s, self, topology))
    case GossipEvent(src, received) =>
      if Writable(s, src, received) then Some(ReceiveGossip(s, src, received)) else None
    case AckEvent(nbr, sent, response) =>
      if Writable(s, nbr, sent) then Some(ReceiveAck(s, nbr, sent, response)) else None
  }

  /** The state after a sequence of events, or `None` if one of them panics. */
  function Run(s: State, es: seq<Event>): Option<State>
    decreases |es|
  {
    if es == [] then Some(s)
    else
      match Step(s, es[0])
      case None => None
      case Some(t) => Run(t, es[1..])
  }

  predicate IsTopology(e: Event)
  {
    e.TopologyEvent?
  }

  /** Every entry of `a` is still an entry of `b` and has only grown. */
  predicate KnowledgeGrows(a: map<string, set<int>>, b: map<string, set<int>>)
  {
    forall n :: n in a ==> n in b && a[n] <= b[n]
  }

  // ---------------------------------------------------------------------
  // Properties of the transitions
  // ---------------------------------------------------------------------

  /** Broadcast adds the id; broadcasting a known id changes nothing. */
  lemma BroadcastIdempotent(s: State, id: int)
    ensures Broadcast(s, id).ids == s.ids + {id}
    ensures Broadcast(s, id).nbrs == s.nbrs && Broadcast(s, id).nbrIds == s.nbrIds
    ensures id in s.ids ==> Broadcast(s, id) == s
  {
  }

  /**
   * Topology installs this node's entry (or nothing), gives every neighbour an
   * empty entry, drops every other entry, and keeps the ids. Self-loops are not
   * filtered: if `self` lists itself, it gets an entry too.
   */
  lemma TopologyResets(s: State, self: string, topology: map<string, seq<string>>)
    ensures var t := InstallTopology(s, self, topology);
      && Valid(t)
      && t.ids == s.ids
      && t.nbrs == (if self in topology then topology[self] else [])
      && (forall n :: n in t.nbrs <==> n in t.nbrIds)
      && (forall n :: Known(t, n) == {})
      && (self in topology && self in topology[self] ==> self in t.nbrIds)
  {
    var t := InstallTopology(s, self, topology);
    forall n
      ensures Known(t, n) == {}
    {
    }
  }

  /** A gossip puts every received id into `ids` and, when `src` has an entry, into that entry. */
  lemma GossipMerges(s: State, src: string, received: seq<int>)
    requires Writable(s, src, received)
    ensures var t := ReceiveGossip(s, src, received);
      && t.ids == s.ids + Elems(received)
      && Known(t, src) == Known(s, src) + Elems(received)
      && (forall n :: n != src ==> Known(t, n) == Known(s, n))
      && t.nbrs == s.nbrs
  {
  }

  /** The reply never carries an id just received, and is exactly the post-merge delta. */
  lemma GossipReplyExcludesReceived(s: State, src: string, received: seq<int>)
    requires Writable(s, src, received)
    ensures var r := GossipReply(s, src, received);
      && (forall x :: x in received ==> x !in r)
      && r == (s.ids + Elems(received)) - (Known(s, src) + Elems(received))
      && r <= s.ids
  {
  }

  /** The callback marks `sent` for `nbr`, adds the response ids to `ids` only, and nothing else moves. */
  lemma AckMarksSent(s: State, nbr: string, sent: seq<int>, response: Option<seq<int>>)
    requires Writable(s, nbr, sent)
    ensures var t := ReceiveAck(s, nbr, sent, response);
      && (nbr in s.nbrIds ==> Elems(sent) <= Known(t, nbr))
      && Known(t, nbr) == Known(s, nbr) + Elems(sent)
      && (forall n :: n != nbr ==> Known(t, n) == Known(s, n))
      && t.ids == (if response.Some? then s.ids + Elems(response.value) else s.ids)
      && t.nbrs == s.nbrs
  {
  }

  /** No single event removes an id, and only topology installation shrinks knowledge. */
  lemma StepGrows(s: State, e: Event)
    requires Step(s, e).Some?
    ensures s.ids <= Step(s, e).value.ids
    ensures !IsTopology(e) ==> KnowledgeGrows(s.nbrIds, Step(s, e).value.nbrIds)
    ensures Valid(s) ==> Valid(Step(s, e).value)
  {
    match e
    case BroadcastEvent(id) =>
    case TopologyEvent(self, topology) => TopologyResets(s, self, topology);
    case GossipEvent(src, received) =>
    case AckEvent(nbr, sent, response) =>
  }

  /**
   * Over any run of events: `ids` only grows, the one-entry-per-neighbour
   * invariant is kept, and without a topology installation every entry only grows.
   */
  lemma {:induction false} RunGrows(s: State, es: seq<Event>)
    requires Run(s, es).Some?
    decreases |es|
    ensures s.ids <= Run(s, es).value.ids
    ensures Valid(s) ==> Valid(Run(s, es).value)
    ensures (forall i :: 0 <= i < |es| ==> !IsTopology(es[i])) ==> KnowledgeGrows(s.nbrIds, Run(s, es).value.nbrIds)
  {
    if es != [] {
      StepGrows(s, es[0]);
      var t := Step(s, es[0]).value;
      RunGrows(t, es[1..]);
      if forall i :: 0 <= i < |es| ==> !IsTopology(es[i]) {
        assert forall i :: 0 <= i < |es[1..]| ==> !IsTopology(es[1..][i]) by {
          forall i | 0 <= i < |es[1..]|
            ensures !IsTopology(es[1..][i])
          {
            assert es[1..][i] == es[i + 1];
          }
        }
      }
    }
  }

  /** Every RPC a tick plans goes to a listed neighbour and carries exactly that neighbour's non-empty delta. */
  lemma {:induction false} PlannedSound(s: State, nbrs: seq<string>)
    ensures |PlannedFor(s, nbrs)| <= |nbrs|
    ensures forall i :: 0 <= i < |PlannedFor(s, nbrs)| ==>
      var (n, d) := PlannedFor(s, nbrs)[i]; n in nbrs && d == Delta(s, n) && d != {}
  {
    if nbrs != [] {
      var init := nbrs[..|nbrs| - 1];
      PlannedSound(s, init);
      assert forall n :: n in init ==> n in nbrs;
    }
  }

  /** A neighbour receives an RPC in a tick if and only if its delta is non-empty. */
  lemma {:induction false} PlannedComplete(s: State, nbrs: seq<string>, n: string)
    ensures (exists i :: 0 <= i < |PlannedFor(s, nbrs)| && PlannedFor(s, nbrs)[i].0 == n)
        <==> (n in nbrs && Delta(s, n) != {})
  {
    PlannedSound(s, nbrs);
    if nbrs != [] {
      var init := nbrs[..|nbrs| - 1];
      var last := nbrs[|nbrs| - 1];
      PlannedComplete(s, init, n);
      assert nbrs == init + [last];
      var p := PlannedFor(s, nbrs);
      var q := PlannedFor(s, init);
      if n in nbrs && Delta(s, n) != {} {
        if n == last {
          assert p[|p| - 1].0 == n;
        } else {
          assert n in init;
          var i :| 0 <= i < |q| && q[i].0 == n;
          assert p[i] == q[i];
        }
      }
    }
  }

  /**
   * Self-loops are not filtered: when this node's topology entry lists the
   * node itself and it holds any id, the next tick plans a gossip RPC to itself.
   */
  lemma SelfLoopGossiped(s: State, self: string, topology: map<string, seq<string>>)
    requires self in topology && self in topology[self] && s.ids != {}
    ensures var t := InstallTopology(s, self, topology);
      exists i :: 0 <= i < |Planned(t)| && Planned(t)[i].0 == self
  {
    var t := InstallTopology(s, self, topology);
    TopologyResets(s, self, topology);
    assert Delta(t, self) == s.ids;
    PlannedComplete(t, t.nbrs, self);
    assert Planned(t) == PlannedFor(t, t.nbrs);
  }

  /**
   * Delta minimality: once the callback for a tick's RPC to `n` has marked the
   * ids sent, the neighbour's delta holds only response ids that it was not
   * already believed to hold; in particular with no response ids (or only ids
   * already recorded) the next tick sends `n` nothing. The response ids are
   * not marked known, so the next tick sends them back to the neighbour that
   * supplied them.
   */
  lemma AckClosesDelta(s: State, n: string, sent: seq<int>, response: Option<seq<int>>)
    requires n in s.nbrIds
    requires Delta(s, n) <= Elems(sent)
    ensures var t := ReceiveAck(s, n, sent, response);
      Delta(t, n) == (if response.Some? then Elems(response.value) - Known(s, n) - Elems(sent) else {})
    ensures var t := ReceiveAck(s, n, sent, response);
      (response.None? || Elems(response.value) <= s.ids) ==>
        forall i :: 0 <= i < |Planned(t)| ==> Planned(t)[i].0 != n
  {
    var t := ReceiveAck(s, n, sent, response);
    assert Known(t, n) == Known(s, n) + Elems(sent);
    if response.None? || Elems(response.value) <= s.ids {
      assert Delta(t, n) == {};
      PlannedComplete(t, t.nbrs, n);
      assert Planned(t) == PlannedFor(t, t.nbrs);
    }
  }

  /**
   * One push-pull exchange between nodes `a` and `b` that list each other,
   * when neither node's knowledge of the other overstates what the other
   * holds: `a` sends its delta, `b` merges it and replies with its own delta,
   * and `a`'s callback receives that reply. Afterwards both hold the union of
   * their ids, and neither knowledge entry overstates.
   */
  lemma PushPullExchange(a: State, an: string, b: State, bn: string, sent: seq<int>, reply: seq<int>)
    requires bn in a.nbrIds && an in b.nbrIds
    requires Known(a, bn) <= b.ids && Known(b, an) <= a.ids
    requires Elems(sent) == Delta(a, bn)
    requires Elems(reply) == GossipReply(b, an, sent)
    ensures var b' := ReceiveGossip(b, an, sent);
      var a' := ReceiveAck(a, bn, sent, Some(reply));
      && a'.ids == a.ids + b.ids
      && b'.ids == a.ids + b.ids
      && Known(a', bn) <= b'.ids
      && Known(b', an) <= a'.ids
  {
    var b' := ReceiveGossip(b, an, sent);
    var a' := ReceiveAck(a, bn, sent, Some(reply));
    assert Elems(reply) == b'.ids - (Known(b, an) + Elems(sent));
    assert Known(a', bn) == Known(a, bn) + Elems(sent);
    assert Known(b', an) == Known(b, an) + Elems(sent);
  }

  // ---------------------------------------------------------------------
  // The server object
  // ---------------------------------------------------------------------

  class Server {
    var ids: set<int>
    var nbrs: seq<string>
    var nbrIds: map<string, set<int>>

    /** The fields as a `State`. */
    function Abs(): State
      reads this
    {
      State(ids, nbrs, nbrIds)
    }

    /** New: an empty id set, and neither neighbours nor knowledge yet. */
    constructor ()
      ensures Abs() == Initial && Valid(Abs())
    {
      ids := {};
      nbrs := [];
      nbrIds := map[];
    }

    /** HandleBroadcast with the decoded `message` field. */
    method HandleBroadcast(id: int)
      modifies this
      ensures Abs() == Broadcast(old(Abs()), id)
      ensures Valid(old(Abs())) ==> Valid(Abs())
    {
      ids := ids + {id};
    }

    /** HandleRead: the ids, each exactly once, copied into a slice of length |ids|. */
    method HandleRead() returns (r: seq<int>)
      ensures |r| == |ids| && Elems(r) == ids && Distinct(r)
    {
      var a := new int[|ids|];
      var rest := ids;
      var i := 0;
      while rest != {}
        invariant rest <= ids
        invariant i + |rest| == |ids|
        invariant Elems(a[..i]) == ids - rest
        invariant Distinct(a[..i])
        decreases |rest|
      {
        ghost var w := Pick(rest);
        var key :| key in rest;
        ghost var done := a[..i];
        a[i] := key;
        assert a[..i + 1] == done + [key];
        ElemsSnoc(done, key);
        rest := rest - {key};
        i := i + 1;
      }
      r := a[..i];
      assert a[..] == r;
    }

    /** HandleTopology with the decoded topology map and this node's id. */
    method HandleTopology(self: string, topology: map<string, seq<string>>)
      modifies this
      ensures Abs() == InstallTopology(old(Abs()), self, topology)
      ensures Valid(Abs())
    {
      var entry := if self in topology then topology[self] else [];
      var copy := new string[|entry|];
      for i := 0 to |entry|
        invariant copy[..i] == entry[..i]
        invariant unchanged(this)
      {
        copy[i] := entry[i];
      }
      var installed := copy[..];
      var table: map<string, set<int>> := map[];
      for i := 0 to |installed|
        invariant table == map n | n in installed[..i] :: {}
        invariant unchanged(this)
      {
        assert installed[..i + 1] == installed[..i] + [installed[i]];
        ElemsSnoc(installed[..i], installed[i]);
        table := table[installed[i] := {}];
      }
      assert installed[..|installed|] == installed;
      assert installed == entry by {
        assert copy[..] == copy[..|entry|];
        assert entry[..|entry|] == entry;
      }
      nbrs := installed;
      nbrIds := table;
      assert nbrs == NeighboursOf(topology, self);
      assert nbrIds == map n | n in NeighboursOf(topology, self) :: {};
    }

    /** The ids this node holds that are not in `known`, each once (the loops of lines 141-146 and 172-176). */
    method Missing(known: set<int>) returns (r: seq<int>)
      ensures Elems(r) == ids - known && Distinct(r)
    {
      r := [];
      var rest := ids;
      while rest != {}
        invariant rest <= ids
        invariant Elems(r) == (ids - rest) - known
        invariant Distinct(r)
        decreases |rest|
      {
        ghost var w := Pick(rest);
        var id :| id in rest;
        if id !in known {
          ElemsSnoc(r, id);
          r := r + [id];
        }
        rest := rest - {id};
      }
    }

    /** HandleGossip from `src` with the decoded id list; returns the ids of the reply. */
    method HandleGossip(src: string, received: seq<int>) returns (reply: seq<int>)
      requires Writable(Abs(), src, received)
      modifies this
      ensures Abs() == ReceiveGossip(old(Abs()), src, received)
      ensures Elems(reply) == GossipReply(old(Abs()), src, received) && Distinct(reply)
      ensures Valid(old(Abs())) ==> Valid(Abs())
    {
      ghost var s := Abs();
      var known := if src in nbrIds then nbrIds[src] else {};
      for i := 0 to |received|
        invariant known == Known(s, src) + Elems(received[..i])
        invariant ids == s.ids + Elems(received[..i])
        invariant nbrIds == Mark(s.nbrIds, src, Elems(received[..i]))
        invariant nbrs == s.nbrs
      {
        ElemsPrefix(received, i);
        known := known + {received[i]};
        nbrIds := nbrIds[src := known];
        ids := ids + {received[i]};
      }
      assert received[..|received|] == received;
      reply := Missing(known);
    }

    /** One tick of Gossip: the RPCs it issues, one per neighbour whose delta is non-empty. */
    method GossipTick() returns (sends: seq<GossipRpc>)
      ensures |sends| == |Planned(Abs())|
      ensures forall i :: 0 <= i < |sends| ==>
        sends[i].dest == Planned(Abs())[i].0 && Elems(sends[i].ids) == Planned(Abs())[i].1 && Distinct(sends[i].ids)
    {
      sends := [];
      for k := 0 to |nbrs|
        invariant |sends| == |PlannedFor(Abs(), nbrs[..k])|
        invariant forall i :: 0 <= i < |sends| ==>
          sends[i].dest == PlannedFor(Abs(), nbrs[..k])[i].0 &&
          Elems(sends[i].ids) == PlannedFor(Abs(), nbrs[..k])[i].1 && Distinct(sends[i].ids)
      {
        var nbr := nbrs[k];
        var known := if nbr in nbrIds then nbrIds[nbr] else {};
        var newIds := Missing(known);
        assert nbrs[..k + 1][..k] == nbrs[..k];
        assert nbrs[..k + 1][k] == nbr;
        if |newIds| > 0 {
          assert newIds[0] in Delta(Abs(), nbr);
          sends := sends + [GossipRpc(nbr, newIds)];
        } else {
          assert Elems(newIds) == {};
        }
      }
      assert nbrs[..|nbrs|] == nbrs;
    }

    /** The callback returned by gossip(nbr, sent), run on a response whose body decodes to `response` (or fails to). */
    method OnGossipResponse(nbr: string, sent: seq<int>, response: Option<seq<int>>) returns (ok: bool)
      requires Writable(Abs(), nbr, sent)
      modifies this
      ensures Abs() == ReceiveAck(old(Abs()), nbr, sent, response)
      ensures ok <==> response.Some?
      ensures Valid(old(Abs())) ==> Valid(Abs())
    {
      ghost var s := Abs();
      assert Elems(sent[..0]) == {};
      assert Mark(s.nbrIds, nbr, {}) == s.nbrIds by {
        if nbr in s.nbrIds {
          assert s.nbrIds[nbr] + {} == s.nbrIds[nbr];
        }
      }
      for i := 0 to |sent|
        invariant nbrIds == Mark(s.nbrIds, nbr, Elems(sent[..i]))
        invariant ids == s.ids && nbrs == s.nbrs
      {
        ElemsPrefix(sent, i);
        assert nbr in s.nbrIds;
        nbrIds := nbrIds[nbr := nbrIds[nbr] + {sent[i]}];
        assert nbrIds == s.nbrIds[nbr := s.nbrIds[nbr] + Elems(sent[..i]) + {sent[i]}];
        assert s.nbrIds[nbr] + Elems(sent[..i]) + {sent[i]} == s.nbrIds[nbr] + Elems(sent[..i + 1]);
      }
      assert sent[..|sent|] == sent;
      if response.None? {
        return false;
      }
      var messages := response.value;
      var newIds := [];
      for i := 0 to |messages|
        invariant Elems(newIds) == Elems(messages[..i]) - ids
        invariant ids == s.ids && nbrs == s.nbrs && nbrIds == Mark(s.nbrIds, nbr, Elems(sent))
      {
        ElemsPrefix(messages, i);
        if messages[i] !in ids {
          ElemsSnoc(newIds, messages[i]);
          newIds := newIds + [messages[i]];
        }
      }
      assert messages[..|messages|] == messages;
      ghost var before := ids;
      for i := 0 to |newIds|
        invariant ids == before + Elems(newIds[..i])
        invariant nbrIds == Mark(s.nbrIds, nbr, Elems(sent)) && nbrs == s.nbrs
      {
        ElemsPrefix(newIds, i);
        ids := ids + {newIds[i]};
      }
      assert newIds[..|newIds|] == newIds;
      ok := true;
    }
  }
}
