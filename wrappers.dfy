/** Small helper types shared by the modules of this project. */
module Wrappers {

  /** A value that may be missing: a failed decode, an absent map entry. */
  datatype Option<+T> = None | Some(value: T)

  /** The elements of a list, as a set. */
  function Elems<T>(xs: seq<T>): set<T>
  {
    set x | x in xs
  }

  lemma ElemsSnoc<T>(xs: seq<T>, x: T)
    ensures Elems(xs + [x]) == Elems(xs) + {x}
  {
    assert forall y :: y in xs + [x] <==> y in xs || y == x;
  }

  /** A non-empty list's elements: its head and the elements of its tail. */
  lemma ElemsCons<T>(xs: seq<T>)
    requires |xs| > 0
    ensures Elems(xs) == {xs[0]} + Elems(xs[1..])
  {
    assert xs == [xs[0]] + xs[1..];
    assert forall y :: y in xs <==> y == xs[0] || y in xs[1..];
  }

  /** Extending a prefix by one element adds that element to its set. */
  lemma ElemsPrefix<T>(xs: seq<T>, i: int)
    requires 0 <= i < |xs|
    ensures Elems(xs[..i + 1]) == Elems(xs[..i]) + {xs[i]}
  {
    assert xs[..i + 1] == xs[..i] + [xs[i]];
    ElemsSnoc(xs[..i], xs[i]);
  }

  /** A non-empty set has an element; the witness lets `:|` pick one. */
  lemma Pick<T>(s: set<T>) returns (x: T)
    requires s != {}
    ensures x in s
  {
    if forall y :: y !in s {
      assert false;
    }
    x :| x in s;
  }

  /** Division facts for a value written in a base `d`: quotient `q`, remainder `r`. */
  lemma DivMod(q: int, r: int, d: int)
    requires 0 <= r < d
    ensures (q * d + r) / d == q && (q * d + r) % d == r
  {
    var x := q * d + r;
    assert x == (x / d) * d + x % d;
    var e := x / d - q;
    assert e * d == r - x % d;
  }

  /**
   * Go's `for k, v := range updates { m[k] = v }`: every entry of `updates`
   * is written over `m`, so updated keys take the new value and the other
   * keys keep theirs.
   */
  method UpdateAll(m: map<string, int>, updates: map<string, int>) returns (r: map<string, int>)
    ensures r == m + updates
  {
    r := m;
    var rest := updates.Keys;
    while rest != {}
      invariant rest <= updates.Keys
      invariant r == m + (updates - rest)
      decreases |rest|
    {
      ghost var w := Pick(rest);
      var key :| key in rest;
      r := r[key := updates[key]];
      rest := rest - {key};
    }
    assert updates - rest == updates;
  }

  /** No element occurs twice in the list. */
  predicate Distinct<T(==)>(xs: seq<T>)
  {
    forall i, j :: 0 <= i < j < |xs| ==> xs[i] != xs[j]
  }
}
