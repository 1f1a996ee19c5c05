/**
 * The cached grow-only counter (4-maelstrom-counter-alt/server/server.go).
 *
 * Every node writes its own running total to a sequentially consistent
 * key/value store under its node id, and keeps a local cache of every
 * node's total. An add bumps only this node's entry; a periodic refresh
 * reads the other nodes' totals from the store and writes them into the
 * cache; a read is the sum of the cache.
 *
 * The store is not modelled: its reads are the `values` given to Refresh,
 * and its writes do nothing here.
 */
module CachedCounter {
  import opened Wrappers

  /** Go's `m[k]`: the zero value for a missing key. */
  function Get(m: map<string, int>, k: string): int
  {
    if k in m then m[k] else 0
  }

  /** The sum of all values of a map, in no particular order. */
  ghost function Total(m: map<string, int>): int
    decreases |m|
  {
    if m == map[] then 0
    else
      var k :| k in m;
      assert |m - {k}| < |m| by {
        assert (m - {k}).Keys == m.Keys - {k};
      }
      m[k] + Total(m - {k})
  }

  /** Any entry can be taken out of the sum first. */
  lemma {:induction false} TotalRemove(m: map<string, int>, k: string)
    requires k in m
    ensures Total(m) == m[k] + Total(m - {k})
    decreases |m|
  {
    var j :| j in m && Total(m) == m[j] + Total(m - {j});
    if j != k {
      assert (m - {j}).Keys == m.Keys - {j};
      assert (m - {k}).Keys == m.Keys - {k};
      TotalRemove(m - {j}, k);
      TotalRemove(m - {k}, j);
      assert m - {j} - {k} == m - {k} - {j};
    }
  }

  /** Adding `delta` to one entry (missing reads as 0) adds `delta` to the sum. */
  lemma AddRaisesTotal(m: map<string, int>, k: string, delta: int)
    ensures Total(m[k := Get(m, k) + delta]) == Total(m) + delta
  {
    var m' := m[k := Get(m, k) + delta];
    TotalRemove(m', k);
    if k in m {
      TotalRemove(m, k);
      assert m' - {k} == m - {k};
    } else {
      assert m' - {k} == m;
    }
  }

  /** A map whose values are all 0 sums to 0. */
  lemma {:induction false} ZeroTotal(m: map<string, int>)
    requires forall k :: k in m ==> m[k] == 0
    ensures Total(m) == 0
    decreases |m|
  {
    if m != map[] {
      ghost var w := Pick(m.Keys);
      var k :| k in m;
      TotalRemove(m, k);
      assert (m - {k}).Keys == m.Keys - {k};
      ZeroTotal(m - {k});
    }
  }

  /**
   * The values a refresh collects: every listed node other than `self`,
   * with the value read for it; a node listed twice keeps the later value.
   */
  function Fetched(self: string, nodeIds: seq<string>, values: seq<int>): map<string, int>
    requires |values| == |nodeIds|
    decreases |nodeIds|
  {
    if nodeIds == [] then map[]
    else
      var n := |nodeIds| - 1;
      var m := Fetched(self, nodeIds[..n], values[..n]);
      if nodeIds[n] == self then m else m[nodeIds[n] := values[n]]
  }

  /** A refresh collects exactly the listed nodes other than this one. */
  lemma {:induction false} FetchedKeys(self: string, nodeIds: seq<string>, values: seq<int>)
    requires |values| == |nodeIds|
    ensures Fetched(self, nodeIds, values).Keys == Elems(nodeIds) - {self}
    decreases |nodeIds|
  {
    if nodeIds != [] {
      var n := |nodeIds| - 1;
      FetchedKeys(self, nodeIds[..n], values[..n]);
      ElemsPrefix(nodeIds, n);
      assert nodeIds[..n + 1] == nodeIds;
    }
  }

  /** A collected node has the value read at its last place in the list. */
  lemma {:induction false} FetchedValue(self: string, nodeIds: seq<string>, values: seq<int>, i: int)
    requires |values| == |nodeIds| && 0 <= i < |nodeIds| && nodeIds[i] != self
    requires forall j :: i < j < |nodeIds| ==> nodeIds[j] != nodeIds[i]
    ensures nodeIds[i] in Fetched(self, nodeIds, values)
    ensures Fetched(self, nodeIds, values)[nodeIds[i]] == values[i]
    decreases |nodeIds|
  {
    var n := |nodeIds| - 1;
    if i < n {
      FetchedValue(self, nodeIds[..n], values[..n], i);
    }
  }

  /**
   * The cache after a refresh: the collected values written over the old
   * cache. This node's own entry, and every node not collected, keeps its
   * value.
   */
  lemma RefreshKeepsSelf(cache: map<string, int>, self: string, nodeIds: seq<string>, values: seq<int>, k: string)
    requires |values| == |nodeIds|
    requires k == self || k !in Elems(nodeIds)
    ensures k in cache + Fetched(self, nodeIds, values) <==> k in cache
    ensures Get(cache + Fetched(self, nodeIds, values), k) == Get(cache, k)
  {
    FetchedKeys(self, nodeIds, values);
  }

  /** One node of the counter, with its local cache of every node's total. */
  class Server {
    /** This node's id. */
    const self: string
    /** Whether Init has allocated the cache (before that it is Go's nil map). */
    var initialized: bool
    var cache: map<string, int>

    /** New: the cache is nil until Init. */
    constructor (self: string)
      ensures this.self == self && !initialized && cache == map[]
    {
      this.self := self;
      initialized := false;
      cache := map[];
    }

    /** Init: a zeroed cache holding 0 for every node of the cluster, and nothing else. */
    method Init(nodeIds: seq<string>)
      modifies this
      ensures initialized
      ensures cache.Keys == Elems(nodeIds)
      ensures forall k :: k in cache ==> cache[k] == 0
    {
      var zeroed: map<string, int> := map[];
      for i := 0 to |nodeIds|
        invariant zeroed.Keys == Elems(nodeIds[..i])
        invariant forall k :: k in zeroed ==> zeroed[k] == 0
      {
        ElemsPrefix(nodeIds, i);
        zeroed := zeroed[nodeIds[i] := 0];
      }
      assert nodeIds[..|nodeIds|] == nodeIds;
      cache := zeroed;
      initialized := true;
    }

    /**
     * HandleAdd: a non-zero delta is added to this node's entry (a missing
     * entry counts as 0); a zero delta changes nothing. Writing into the nil
     * cache before Init would panic.
     */
    method Add(delta: int)
      requires initialized || delta == 0
      modifies this
      ensures cache == if delta != 0 then old(cache)[self := Get(old(cache), self) + delta] else old(cache)
      ensures initialized == old(initialized)
    {
      if delta != 0 {
        cache := cache[self := Get(cache, self) + delta];
      }
    }

    /**
     * The merge step of RefreshCache: `values[i]` is what the store returned
     * for `nodeIds[i]` (0 when the read failed); this node's own id is
     * skipped. Writing into the nil cache before Init would panic.
     */
    method Refresh(nodeIds: seq<string>, values: seq<int>)
      requires |values| == |nodeIds|
      requires initialized || forall i :: 0 <= i < |nodeIds| ==> nodeIds[i] == self
      modifies this
      ensures cache == old(cache) + Fetched(self, nodeIds, values)
      ensures initialized == old(initialized)
    {
      var newValues: map<string, int> := map[];
      for i := 0 to |nodeIds|
        invariant newValues == Fetched(self, nodeIds[..i], values[..i])
      {
        assert nodeIds[..i + 1][..i] == nodeIds[..i];
        assert values[..i + 1][..i] == values[..i];
        var node := nodeIds[i];
        if node == self {
          continue;
        }
        newValues := newValues[node := values[i]];
      }
      assert nodeIds[..|nodeIds|] == nodeIds && values[..|values|] == values;
      cache := UpdateAll(cache, newValues);
    }

    /** getCounter: the sum of every cached total. */
    method Read() returns (sum: int)
      ensures sum == Total(cache)
    {
      sum := 0;
      var rest := cache;
      while rest != map[]
        invariant sum + Total(rest) == Total(cache)
        decreases |rest|
      {
        ghost var w := Pick(rest.Keys);
        var node :| node in rest;
        TotalRemove(rest, node);
        sum := sum + rest[node];
        assert (rest - {node}).Keys == rest.Keys - {node};
        rest := rest - {node};
      }
    }
  }

  /** After Init, the counter reads 0; after adds of 3 and 4 it reads 7. */
  method CounterExample() returns (initial: int, after: int)
    ensures initial == 0 && after == 7
  {
    var server := new Server("n0");
    server.Init(["n0", "n1"]);
    ZeroTotal(server.cache);
    initial := server.Read();
    ghost var c0 := server.cache;
    server.Add(3);
    AddRaisesTotal(c0, "n0", 3);
    ghost var c1 := server.cache;
    server.Add(4);
    AddRaisesTotal(c1, "n0", 4);
    after := server.Read();
  }
}
