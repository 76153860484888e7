/**
 * The counting map: a hash map from keys to counts, grown one key at a time.
 * The map's hashing is not modelled; it is a Dafny `map`.
 */
module Counter {

  /** The count of `k`, an absent key counting 0 (`entry(k).or_insert(0)`). */
  function Get0<K>(m: map<K, nat>, k: K): nat
  {
    if k in m then m[k] else 0
  }

  /** The map after adding `amount` to the count of `k`. */
  function Bump<K>(m: map<K, nat>, k: K, amount: nat): (r: map<K, nat>)
    ensures r.Keys == m.Keys + {k}
    ensures r[k] == Get0(m, k) + amount
    ensures forall j :: j in m && j != k ==> r[j] == m[j]
  {
    m[k := Get0(m, k) + amount]
  }

  /** The counter that counting `items` in order builds: each item increments its key by 1. */
  function Tally<K>(items: seq<K>): map<K, nat>
  {
    if items == [] then map[]
    else Bump(Tally(items[..|items| - 1]), items[|items| - 1], 1)
  }

  /** A hash map with the counting operations. */
  class CountMap<K(==)> {
    var counts: map<K, nat>

    constructor ()
      ensures counts == map[]
    {
      counts := map[];
    }

    /** Adds `amount` to the count of `key`, inserting it at 0 first when absent. */
    method Increment(key: K, amount: nat)
      modifies this
      ensures counts == Bump(old(counts), key, amount)
      ensures counts.Keys == old(counts).Keys + {key}
      ensures counts[key] == Get0(old(counts), key) + amount
      ensures forall j :: j in old(counts) && j != key ==> counts[j] == old(counts)[j]
    {
      var target := Get0(counts, key);
      counts := counts[key := target + amount];
    }

    /** Counts the items of `items`, in order. */
    static method FromIter(items: seq<K>) returns (counter: CountMap<K>)
      ensures fresh(counter)
      ensures counter.counts == Tally(items)
    {
      counter := new CountMap();
      for i := 0 to |items|
        invariant counter.counts == Tally(items[..i])
      {
        assert items[..i + 1][..i] == items[..i];
        counter.Increment(items[i], 1);
      }
      assert items[..|items|] == items;
    }
  }

  /** The sum of the values of a map. */
  ghost function SumValues<K>(m: map<K, nat>): nat
    decreases |m|
  {
    if m == map[] then 0
    else
      var k :| k in m;
      m[k] + SumValues(m - {k})
  }

  /** The values of a map, with their multiplicities (`counter.values()`). */
  ghost function ValueBag<K>(m: map<K, nat>): multiset<nat>
    decreases |m|
  {
    if m == map[] then multiset{}
    else
      var k :| k in m;
      multiset{m[k]} + ValueBag(m - {k})
  }

  // ---- properties ----

  /** The sum does not depend on which key is taken out first. */
  lemma {:induction false} SumValuesRemove<K>(m: map<K, nat>, k: K)
    requires k in m
    ensures SumValues(m) == m[k] + SumValues(m - {k})
    decreases |m|
  {
    var j :| j in m && SumValues(m) == m[j] + SumValues(m - {j});
    if j != k {
      var mj, mk := m - {j}, m - {k};
      SumValuesRemove(mj, k);
      SumValuesRemove(mk, j);
      assert mj - {k} == mk - {j};
    }
  }

  /** The values do not depend on which key is taken out first. */
  lemma {:induction false} ValueBagRemove<K>(m: map<K, nat>, k: K)
    requires k in m
    ensures ValueBag(m) == multiset{m[k]} + ValueBag(m - {k})
    decreases |m|
  {
    var j :| j in m && ValueBag(m) == multiset{m[j]} + ValueBag(m - {j});
    if j != k {
      var mj, mk := m - {j}, m - {k};
      assert mj - {k} == mk - {j};
      calc {
        ValueBag(m);
        multiset{m[j]} + ValueBag(mj);
        { ValueBagRemove(mj, k); }
        multiset{m[j]} + (multiset{m[k]} + ValueBag(mj - {k}));
        multiset{m[k]} + (multiset{m[j]} + ValueBag(mk - {j}));
        { ValueBagRemove(mk, j); }
        multiset{m[k]} + ValueBag(mk);
      }
    }
  }

  /** The keys of `m` that map to `n`. */
  function KeysWith<K>(m: map<K, nat>, n: nat): set<K>
  {
    set k | k in m && m[k] == n
  }

  /** A map has one value per key. */
  lemma {:induction false} ValueBagSize<K>(m: map<K, nat>)
    ensures |ValueBag(m)| == |m|
    decreases |m|
  {
    if m != map[] {
      var k :| k in m;
      ValueBagRemove(m, k);
      ValueBagSize(m - {k});
      assert |m - {k}| == |m| - 1;
    }
  }

  /** Each count occurs among the values once per key that maps to it. */
  lemma {:induction false} ValueBagCount<K>(m: map<K, nat>, n: nat)
    ensures ValueBag(m)[n] == |KeysWith(m, n)|
    decreases |m|
  {
    if m != map[] {
      var k :| k in m;
      ValueBagRemove(m, k);
      var rest := m - {k};
      ValueBagCount(rest, n);
      assert ValueBag(m)[n] == multiset{m[k]}[n] + ValueBag(rest)[n];
      if m[k] == n {
        assert k !in KeysWith(rest, n);
        assert KeysWith(m, n) == KeysWith(rest, n) + {k};
      } else {
        assert KeysWith(m, n) == KeysWith(rest, n);
      }
    }
  }

  /** The values of a map: each count occurs once per key that maps to it, so one value per key. */
  lemma ValueBagMembers<K>(m: map<K, nat>)
    ensures |ValueBag(m)| == |m|
    ensures forall n :: ValueBag(m)[n] == |KeysWith(m, n)|
    ensures forall n :: n in ValueBag(m) <==> exists k :: k in m && m[k] == n
  {
    ValueBagSize(m);
    forall n ensures ValueBag(m)[n] == |KeysWith(m, n)| && (n in ValueBag(m) <==> exists k :: k in m && m[k] == n) {
      ValueBagCount(m, n);
      if exists k :: k in m && m[k] == n {
        var k :| k in m && m[k] == n;
        assert k in KeysWith(m, n);
      }
    }
  }

  lemma SumValuesBump<K>(m: map<K, nat>, k: K, amount: nat)
    ensures SumValues(Bump(m, k, amount)) == SumValues(m) + amount
  {
    var b := Bump(m, k, amount);
    SumValuesRemove(b, k);
    if k in m {
      SumValuesRemove(m, k);
      assert b - {k} == m - {k};
    } else {
      assert b - {k} == m;
    }
  }

  /** Counting maps each item to its number of occurrences; its keys are exactly the items. */
  lemma {:induction false} TallyOccurrences<K>(items: seq<K>)
    ensures forall k :: k in Tally(items) <==> k in items
    ensures forall k :: k in Tally(items) ==> Tally(items)[k] == multiset(items)[k]
    decreases |items|
  {
    if items != [] {
      var init, last := items[..|items| - 1], items[|items| - 1];
      TallyOccurrences(init);
      assert items == init + [last];
      assert multiset(items) == multiset(init) + multiset{last};
    }
  }

  /** Every count is at least 1. */
  lemma TallyPositive<K>(items: seq<K>)
    ensures forall k :: k in Tally(items) ==> Tally(items)[k] >= 1
  {
    TallyOccurrences(items);
  }

  /** The counts add up to the number of items. */
  lemma {:induction false} TallySum<K>(items: seq<K>)
    ensures SumValues(Tally(items)) == |items|
    decreases |items|
  {
    if items != [] {
      TallySum(items[..|items| - 1]);
      SumValuesBump(Tally(items[..|items| - 1]), items[|items| - 1], 1);
    }
  }

  /** Two maps whose keys are the items of two permutations of each other have the same keys. */
  lemma SameKeys<K>(a: map<K, nat>, b: map<K, nat>, items: seq<K>, other: seq<K>)
    requires multiset(items) == multiset(other)
    requires forall k :: k in a <==> k in items
    requires forall k :: k in b <==> k in other
    ensures a.Keys == b.Keys
  {
    forall k ensures k in a.Keys <==> k in b.Keys {
      assert k in items <==> k in multiset(items);
      assert k in other <==> k in multiset(other);
    }
  }

  /** The counter depends only on the multiset of items, not their order. */
  lemma TallyPermutation<K>(items: seq<K>, other: seq<K>)
    requires multiset(items) == multiset(other)
    ensures Tally(items) == Tally(other)
  {
    TallyOccurrences(items);
    TallyOccurrences(other);
    SameKeys(Tally(items), Tally(other), items, other);
  }
}
