/**
 * Python's `collections.Counter`, as the taggers use it: a dictionary that
 * remembers the order in which its keys were first inserted and reads 0 for
 * a missing key, and the two scans that choose a maximum from it.
 */
module Counters {

  /** The keys in insertion order, and the count stored under each. */
  datatype Counter<K> = Counter(keys: seq<K>, count: map<K, nat>)

  /** The order lists every stored key once and nothing else. */
  ghost predicate Valid<K(!new)>(c: Counter<K>)
  {
    && (forall i, j :: 0 <= i < j < |c.keys| ==> c.keys[i] != c.keys[j])
    && (forall k :: k in c.count <==> k in c.keys)
  }

  function Empty<K(==, !new)>(): (c: Counter<K>)
    ensures Valid(c) && |c.keys| == 0
  {
    Counter([], map[])
  }

  /** `c[k]`: the count of `k`, 0 when `k` was never counted. */
  function Get<K(==, !new)>(c: Counter<K>, k: K): nat
  {
    if k in c.count then c.count[k] else 0
  }

  /** `c[k] += 1`: a new key goes to the end of the insertion order. */
  function Inc<K(==, !new)>(c: Counter<K>, k: K): (r: Counter<K>)
    ensures Valid(c) ==> Valid(r)
    ensures Get(r, k) == Get(c, k) + 1
    ensures forall k' :: k' != k ==> Get(r, k') == Get(c, k')
    ensures r.keys == if k in c.keys then c.keys else c.keys + [k]
  {
    Counter(if k in c.keys then c.keys else c.keys + [k], c.count[k := Get(c, k) + 1])
  }

  /** The Counter that `c[x] += 1` builds from an empty one, for each `x` of `xs` in turn. */
  function Tally<K(==, !new)>(xs: seq<K>): (c: Counter<K>)
    ensures forall k :: k in c.keys <==> k in xs
  {
    if |xs| == 0 then Empty() else Inc(Tally(xs[..|xs| - 1]), xs[|xs| - 1])
  }

  /** A Tally is a well-formed Counter. */
  lemma {:induction false} TallyValid<K(!new)>(xs: seq<K>)
    ensures Valid(Tally(xs))
  {
    if |xs| > 0 {
      var init, last := xs[..|xs| - 1], xs[|xs| - 1];
      assert xs == init + [last];
      TallyValid(init);
    }
  }

  lemma TallySnoc<K(!new)>(xs: seq<K>, x: K)
    ensures Tally(xs + [x]) == Inc(Tally(xs), x)
  {
    assert (xs + [x])[..|xs|] == xs;
  }

  /** Position of the first occurrence of `k` in `xs`. */
  function FirstIndex<K(==, !new)>(xs: seq<K>, k: K): (i: nat)
    requires k in xs
    ensures i < |xs| && xs[i] == k && k !in xs[..i]
  {
    if xs[0] == k then 0 else 1 + FirstIndex(xs[1..], k)
  }

  lemma FirstIndexSnoc<K(!new)>(xs: seq<K>, x: K, k: K)
    requires k in xs
    ensures FirstIndex(xs + [x], k) == FirstIndex(xs, k)
  {
    if xs[0] != k {
      assert (xs + [x])[1..] == xs[1..] + [x];
      FirstIndexSnoc(xs[1..], x, k);
    }
  }

  /** A Tally holds the number of occurrences of every element. */
  lemma {:induction false} TallyCounts<K(!new)>(xs: seq<K>)
    ensures forall k :: Get(Tally(xs), k) == multiset(xs)[k]
  {
    if |xs| > 0 {
      var init, last := xs[..|xs| - 1], xs[|xs| - 1];
      assert xs == init + [last];
      TallyCounts(init);
      assert multiset(xs) == multiset(init) + multiset{last};
    }
  }

  /** A Tally keeps its keys in the order of their first occurrence in `xs`. */
  lemma {:induction false} TallyOrder<K(!new)>(xs: seq<K>)
    ensures forall i, j :: 0 <= i < j < |Tally(xs).keys| ==>
      FirstIndex(xs, Tally(xs).keys[i]) < FirstIndex(xs, Tally(xs).keys[j])
  {
    if |xs| > 0 {
      var init, last := xs[..|xs| - 1], xs[|xs| - 1];
      assert xs == init + [last];
      TallyOrder(init);
      var c0, c := Tally(init), Tally(xs);
      assert c == Inc(c0, last);
      assert c.keys == if last in c0.keys then c0.keys else c0.keys + [last];
      assert forall k :: k in c0.keys <==> k in init;
      forall i, j | 0 <= i < j < |c.keys|
        ensures FirstIndex(xs, c.keys[i]) < FirstIndex(xs, c.keys[j])
      {
        assert c.keys[i] == c0.keys[i];
        assert c.keys[i] in init;
        FirstIndexSnoc(init, last, c.keys[i]);
        if j < |c0.keys| {
          FirstIndexSnoc(init, last, c.keys[j]);
        } else {
          assert c.keys[j] == last && last !in init;
          var f := FirstIndex(xs, last);
          assert f == |init|;
        }
      }
    }
  }

  lemma TallyOrderAt<K(!new)>(xs: seq<K>, i: nat, j: nat)
    requires i < j < |Tally(xs).keys|
    ensures FirstIndex(xs, Tally(xs).keys[i]) < FirstIndex(xs, Tally(xs).keys[j])
  {
    TallyOrder(xs);
  }

  /**
   * The argmax loop of the source: `best` starts at `floor`, the index at 0,
   * and an entry replaces them only when it is strictly greater.
   */
  function Scan(vals: seq<int>, floor: int): (r: (nat, int))
    ensures r.0 < |vals| || r.0 == 0
  {
    if |vals| == 0 then (0, floor)
    else
      var p := Scan(vals[..|vals| - 1], floor);
      if vals[|vals| - 1] > p.1 then (|vals| - 1, vals[|vals| - 1]) else p
  }

  lemma ScanSnoc(vals: seq<int>, floor: int, k: nat)
    requires k < |vals|
    ensures Scan(vals[..k + 1], floor) ==
      if vals[k] > Scan(vals[..k], floor).1 then (k, vals[k]) else Scan(vals[..k], floor)
  {
    assert vals[..k + 1][..k] == vals[..k];
  }

  /**
   * The scan ends on the first entry of greatest value when some entry beats
   * the floor, and on index 0 with the floor itself otherwise.
   */
  lemma {:induction false} ScanSpec(vals: seq<int>, floor: int)
    ensures Scan(vals, floor).1 >= floor
    ensures (Scan(vals, floor).1 > floor) <==> (exists k :: 0 <= k < |vals| && vals[k] > floor)
    ensures Scan(vals, floor).1 == floor ==> Scan(vals, floor).0 == 0
    ensures Scan(vals, floor).1 > floor ==> Scan(vals, floor).0 < |vals| && vals[Scan(vals, floor).0] == Scan(vals, floor).1
    ensures forall k :: 0 <= k < |vals| ==> vals[k] <= Scan(vals, floor).1
    ensures forall k :: 0 <= k < Scan(vals, floor).0 ==> vals[k] < Scan(vals, floor).1
  {
    if |vals| > 0 {
      var init := vals[..|vals| - 1];
      ScanSpec(init, floor);
      assert forall k :: 0 <= k < |init| ==> init[k] == vals[k];
    }
  }

  /**
   * `max(c, key=c.get)` over the first `n` keys: Python's `max` keeps the
   * first element and replaces it only by a strictly larger one. The result
   * is a position in `c.keys`.
   */
  function ArgMaxUpTo<K(==, !new)>(c: Counter<K>, n: nat): (i: nat)
    requires 0 < n <= |c.keys|
    ensures i < n
  {
    if n == 1 then 0
    else
      var i := ArgMaxUpTo(c, n - 1);
      if Get(c, c.keys[n - 1]) > Get(c, c.keys[i]) then n - 1 else i
  }

  /** `max(c, key=c.get)`: the position of the first key of greatest count. */
  function ArgMax<K(==, !new)>(c: Counter<K>): (i: nat)
    requires |c.keys| > 0
    ensures i < |c.keys|
  {
    ArgMaxUpTo(c, |c.keys|)
  }

  /** Among the first `n` keys, ArgMaxUpTo picks one of greatest count, and every key before it counts strictly less. */
  lemma {:induction false} ArgMaxUpToSpec<K(!new)>(c: Counter<K>, n: nat)
    requires 0 < n <= |c.keys|
    ensures forall j :: 0 <= j < n ==> Get(c, c.keys[j]) <= Get(c, c.keys[ArgMaxUpTo(c, n)])
    ensures forall j :: 0 <= j < ArgMaxUpTo(c, n) ==> Get(c, c.keys[j]) < Get(c, c.keys[ArgMaxUpTo(c, n)])
  {
    if n > 1 {
      ArgMaxUpToSpec(c, n - 1);
    }
  }

  /** ArgMax picks a key of greatest count, and every key before it counts strictly less. */
  lemma ArgMaxSpec<K(!new)>(c: Counter<K>)
    requires |c.keys| > 0
    ensures forall j :: 0 <= j < |c.keys| ==> Get(c, c.keys[j]) <= Get(c, c.keys[ArgMax(c)])
    ensures forall j :: 0 <= j < ArgMax(c) ==> Get(c, c.keys[j]) < Get(c, c.keys[ArgMax(c)])
  {
    ArgMaxUpToSpec(c, |c.keys|);
  }

  /** A key counting as much as the ArgMax key does not come before it. */
  lemma ArgMaxFirst<K(!new)>(c: Counter<K>, j: nat)
    requires j < |c.keys|
    requires Get(c, c.keys[j]) == Get(c, c.keys[ArgMax(c)])
    ensures ArgMax(c) <= j
  {
    ArgMaxSpec(c);
  }
}
