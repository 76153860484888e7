/**
 * The entropy strategy. With at most two candidates left it guesses the first candidate;
 * otherwise it returns the first query of the full list whose partition of the candidates
 * (by the rule each candidate would produce) has the smallest score.
 *
 * The source scores a partition with f64 arithmetic (the sum of n * ln n over the group
 * sizes n). Here the score is a parameter: any function of the multiset of group sizes to
 * a float, a float being an ordered value or NaN.
 */
module Active {
  import opened Wrappers
  import opened Words
  import opened Rules
  import opened Counter
  import opened Seqs

  /** An f64 as far as comparison is concerned: an ordered value, or NaN. */
  datatype Float = Num(value: real) | NaN

  datatype Ordering = Less | Equal | Greater

  /** The score of one query. */
  datatype Entropy = Entropy(value: Float)

  /** f64 comparison: undefined when either side is NaN. */
  function PartialCmp(a: Entropy, b: Entropy): (o: Option<Ordering>)
    ensures o.None? <==> a.value.NaN? || b.value.NaN?
    ensures o == Some(Less) <==> a.value.Num? && b.value.Num? && a.value.value < b.value.value
    ensures o == Some(Equal) <==> a.value.Num? && b.value.Num? && a.value.value == b.value.value
    ensures o == Some(Greater) <==> a.value.Num? && b.value.Num? && a.value.value > b.value.value
  {
    if a.value.Num? && b.value.Num? then
      var x, y := a.value.value, b.value.value;
      Some(if x < y then Less else if x == y then Equal else Greater)
    else None
  }

  /** The total comparison: the f64 one, and Equal where that is undefined. */
  function Cmp(a: Entropy, b: Entropy): (o: Ordering)
    ensures PartialCmp(a, b).None? ==> o == Equal
    ensures a.value.NaN? || b.value.NaN? ==> o == Equal
    ensures a.value.Num? && b.value.Num? ==>
      (o == Less <==> a.value.value < b.value.value) &&
      (o == Equal <==> a.value.value == b.value.value) &&
      (o == Greater <==> a.value.value > b.value.value)
  {
    PartialCmp(a, b).GetOr(Equal)
  }

  predicate AllNum(keys: seq<Entropy>)
  {
    forall i :: 0 <= i < |keys| ==> keys[i].value.Num?
  }

  /** Position `i` holds the smallest key, and every earlier key is strictly larger. */
  predicate IsFirstMinimum(keys: seq<Entropy>, i: nat)
  {
    i < |keys| && AllNum(keys) &&
    (forall j :: 0 <= j < |keys| ==> keys[i].value.value <= keys[j].value.value) &&
    (forall j :: 0 <= j < i ==> keys[i].value.value < keys[j].value.value)
  }

  /** `min_by_key` as the fold it is: the running minimum gives way only to a key it
      compares Greater than, so ties keep the earlier position. */
  function MinIndex(keys: seq<Entropy>): (k: nat)
    requires |keys| > 0
    ensures k < |keys|
    ensures AllNum(keys) ==> IsFirstMinimum(keys, k)
    decreases |keys|
  {
    if |keys| == 1 then 0
    else
      var prev := MinIndex(keys[..|keys| - 1]);
      if Cmp(keys[prev], keys[|keys| - 1]) == Greater then |keys| - 1 else prev
  }

  /** The rule each word would give for `query`, in order. */
  function RulesFor(query: Word, words: seq<Word>): seq<Rule>
  {
    seq(|words|, i requires 0 <= i < |words| => QueryRule(query, words[i]))
  }

  /** The counter of rules: how many words give each rule for `query`. */
  function GroupCounts(query: Word, words: seq<Word>): map<Rule, nat>
  {
    Tally(RulesFor(query, words))
  }

  /** The score of a partition, from the values of its counter. */
  ghost function ExpectedEntropy(score: multiset<nat> -> Float, counts: map<Rule, nat>): Entropy
  {
    Entropy(score(ValueBag(counts)))
  }

  ghost function QueryEntropy(score: multiset<nat> -> Float, query: Word, words: seq<Word>): Entropy
  {
    ExpectedEntropy(score, GroupCounts(query, words))
  }

  /** The key `min_by_key` computes for each query. */
  ghost function Keys(score: multiset<nat> -> Float, queries: seq<Word>, words: seq<Word>): (keys: seq<Entropy>)
    ensures |keys| == |queries|
  {
    seq(|queries|, i requires 0 <= i < |queries| => QueryEntropy(score, queries[i], words))
  }

  /** The guess. The source panics when `validWords` is empty, or when more than two words
      are valid and `fullWordList` is empty; those are the preconditions. */
  ghost function SelectQuery(score: multiset<nat> -> Float, fullWordList: seq<Word>, validWords: seq<Word>): (r: Word)
    requires |validWords| > 0
    requires |validWords| > 2 ==> |fullWordList| > 0
    ensures |validWords| <= 2 ==> r == validWords[0] && r in validWords
    ensures |validWords| > 2 ==> r in fullWordList
    ensures |validWords| > 2 && AllNum(Keys(score, fullWordList, validWords)) ==>
      exists i :: 0 <= i < |fullWordList| && r == fullWordList[i] &&
        IsFirstMinimum(Keys(score, fullWordList, validWords), i)
  {
    if |validWords| <= 2 then validWords[0]
    else fullWordList[MinIndex(Keys(score, fullWordList, validWords))]
  }

  // ---- properties ----

  /** The groups of a query partition the words: every rule counted comes from some word,
      every count is at least 1, and the counts add up to the number of words. */
  lemma GroupsPartition(query: Word, words: seq<Word>)
    ensures forall r :: r in GroupCounts(query, words) <==> exists w :: w in words && r == QueryRule(query, w)
    ensures forall r :: r in GroupCounts(query, words) ==> GroupCounts(query, words)[r] >= 1
    ensures SumValues(GroupCounts(query, words)) == |words|
  {
    var rules := RulesFor(query, words);
    TallyOccurrences(rules);
    TallyPositive(rules);
    TallySum(rules);
    forall r ensures r in rules <==> exists w :: w in words && r == QueryRule(query, w) {
      if r in rules {
        var i :| 0 <= i < |rules| && rules[i] == r;
        assert words[i] in words;
      }
      if exists w :: w in words && r == QueryRule(query, w) {
        var w :| w in words && r == QueryRule(query, w);
        var i :| 0 <= i < |words| && words[i] == w;
        assert rules[i] == r;
      }
    }
  }

  /** The score of a query is the score of its group sizes: one size per distinct rule (a size
      occurs as often as there are rules whose group has that many words), each between 1 and
      the number of words. */
  lemma GroupSizes(score: multiset<nat> -> Float, query: Word, words: seq<Word>)
    ensures QueryEntropy(score, query, words) == Entropy(score(ValueBag(GroupCounts(query, words))))
    ensures |ValueBag(GroupCounts(query, words))| == |GroupCounts(query, words)|
    ensures forall n :: ValueBag(GroupCounts(query, words))[n] == |KeysWith(GroupCounts(query, words), n)|
    ensures forall n :: n in ValueBag(GroupCounts(query, words)) ==> 1 <= n <= |words|
  {
    var counts := GroupCounts(query, words);
    GroupsPartition(query, words);
    ValueBagMembers(counts);
    forall n | n in ValueBag(counts) ensures 1 <= n <= |words| {
      var r :| r in counts && counts[r] == n;
      SumValuesRemove(counts, r);
    }
  }

  /** A query's score does not depend on the order of the words. */
  lemma ScoreIgnoresOrder(score: multiset<nat> -> Float, query: Word, words: seq<Word>, other: seq<Word>)
    requires multiset(words) == multiset(other)
    ensures QueryEntropy(score, query, words) == QueryEntropy(score, query, other)
  {
    var f := (w: Word) => QueryRule(query, w);
    MapPermutation(f, words, other);
    assert RulesFor(query, words) == Map(f, words);
    assert RulesFor(query, other) == Map(f, other);
    TallyPermutation(RulesFor(query, words), RulesFor(query, other));
  }

  /** The scores of all queries do not depend on the order of the words. */
  lemma KeysIgnoreOrder(score: multiset<nat> -> Float, queries: seq<Word>, words: seq<Word>, other: seq<Word>)
    requires multiset(words) == multiset(other)
    ensures Keys(score, queries, words) == Keys(score, queries, other)
  {
    forall i | 0 <= i < |queries|
      ensures Keys(score, queries, words)[i] == Keys(score, queries, other)[i]
    {
      ScoreIgnoresOrder(score, queries[i], words, other);
    }
  }

  /** With more than two candidates, the guess does not depend on their order. */
  lemma SelectIgnoresOrder(score: multiset<nat> -> Float, fullWordList: seq<Word>, validWords: seq<Word>, other: seq<Word>)
    requires |validWords| > 2 && |fullWordList| > 0
    requires multiset(validWords) == multiset(other)
    ensures |other| == |validWords|
    ensures SelectQuery(score, fullWordList, validWords) == SelectQuery(score, fullWordList, other)
  {
    assert |other| == |multiset(other)| == |multiset(validWords)| == |validWords|;
    KeysIgnoreOrder(score, fullWordList, validWords, other);
  }
}
