/** Facts about sequences shared by the filters and the strategies. */
module Seqs {

  /** `a` can be obtained from `b` by deleting elements, keeping the order of the rest. */
  predicate IsSubsequence<T(==)>(a: seq<T>, b: seq<T>)
    decreases |b|
  {
    if b == [] then a == []
    else (a != [] && a[0] == b[0] && IsSubsequence(a[1..], b[1..])) || IsSubsequence(a, b[1..])
  }

  lemma {:induction false} SubsequenceReflexive<T>(a: seq<T>)
    ensures IsSubsequence(a, a)
    decreases |a|
  {
    if a != [] {
      SubsequenceReflexive(a[1..]);
    }
  }

  lemma {:induction false} SubsequenceLength<T>(a: seq<T>, b: seq<T>)
    requires IsSubsequence(a, b)
    ensures |a| <= |b|
    decreases |b|
  {
    if b != [] {
      if a != [] && a[0] == b[0] && IsSubsequence(a[1..], b[1..]) {
        SubsequenceLength(a[1..], b[1..]);
      } else {
        SubsequenceLength(a, b[1..]);
      }
    }
  }

  lemma {:induction false} SubsequenceTransitive<T>(a: seq<T>, b: seq<T>, c: seq<T>)
    requires IsSubsequence(a, b) && IsSubsequence(b, c)
    ensures IsSubsequence(a, c)
    decreases |c|
  {
    if c == [] {
      assert b == [] && a == [];
    } else if IsSubsequence(b, c[1..]) {
      SubsequenceTransitive(a, b, c[1..]);
    } else {
      assert b != [] && b[0] == c[0] && IsSubsequence(b[1..], c[1..]);
      if a != [] && a[0] == b[0] && IsSubsequence(a[1..], b[1..]) {
        SubsequenceTransitive(a[1..], b[1..], c[1..]);
      } else {
        assert IsSubsequence(a, b[1..]);
        SubsequenceTransitive(a, b[1..], c[1..]);
      }
    }
  }

  function Map<A, B>(f: A -> B, s: seq<A>): (r: seq<B>)
    ensures |r| == |s| && forall i :: 0 <= i < |s| ==> r[i] == f(s[i])
  {
    seq(|s|, i requires 0 <= i < |s| => f(s[i]))
  }

  /** Mapping distributes over concatenation; stated apart so that `MapSplit` stays cheap. */
  lemma MapConcat<A, B>(f: A -> B, a: seq<A>, b: seq<A>)
    ensures Map(f, a + b) == Map(f, a) + Map(f, b)
  {
  }

  /** Removing one occurrence of `t[j]` from a permutation of `[t[j]] + rest` leaves a permutation of `rest`. */
  lemma RemoveAt<A>(x: A, rest: seq<A>, t: seq<A>, j: nat)
    requires j < |t| && t[j] == x
    requires multiset([x] + rest) == multiset(t)
    ensures multiset(rest) == multiset(t[..j] + t[j + 1..])
  {
    assert t == t[..j] + [x] + t[j + 1..];
    calc {
      multiset(rest);
      multiset([x] + rest) - multiset{x};
      multiset(t) - multiset{x};
      multiset(t[..j] + [x] + t[j + 1..]) - multiset{x};
      multiset(t[..j] + t[j + 1..]);
    }
  }

  /** Some position of `t` holds the first element of any permutation `s` of it. */
  lemma IndexOfHead<A>(s: seq<A>, t: seq<A>) returns (j: nat)
    requires multiset(s) == multiset(t) && s != []
    ensures j < |t| && t[j] == s[0]
  {
    assert s[0] in multiset(s);
    j :| 0 <= j < |t| && t[j] == s[0];
  }

  lemma MapSplit<A, B>(f: A -> B, t: seq<A>, j: nat)
    requires j < |t|
    ensures multiset(Map(f, t)) == multiset{f(t[j])} + multiset(Map(f, t[..j] + t[j + 1..]))
  {
    assert t == t[..j] + [t[j]] + t[j + 1..];
    MapConcat(f, t[..j] + [t[j]], t[j + 1..]);
    MapConcat(f, t[..j], [t[j]]);
    MapConcat(f, t[..j], t[j + 1..]);
  }

  /** Mapping a function over two permutations of each other gives two permutations of each other. */
  lemma {:induction false} MapPermutation<A, B>(f: A -> B, s: seq<A>, t: seq<A>)
    requires multiset(s) == multiset(t)
    ensures multiset(Map(f, s)) == multiset(Map(f, t))
    decreases |s|
  {
    if s == [] {
      assert |t| == |multiset(t)| == 0;
    } else {
      var j := IndexOfHead(s, t);
      assert s == [s[0]] + s[1..];
      RemoveAt(s[0], s[1..], t, j);
      MapPermutation(f, s[1..], t[..j] + t[j + 1..]);
      MapSplit(f, s, 0);
      assert s[..0] + s[1..] == s[1..];
      MapSplit(f, t, j);
      assert multiset(Map(f, s)) == multiset{f(s[0])} + multiset(Map(f, s[1..]));
    }
  }
}
