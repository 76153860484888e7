/**
 * The older direct consistency test: whether `word` could be the answer after guessing
 * `query` against the answer `truth`, decided without building a rule.
 */
module Simulation {
  import opened Words
  import opened Seqs
  import Rules

  /** The number of positions the three-way zip visits. */
  function Span(query: Word, truth: Word, word: Word): nat
  {
    Rules.Min(Rules.Min(|word.letters|, |truth.letters|), |query.letters|)
  }

  /** The first test: some position where the guess was right but `word` differs there. */
  predicate GreenMissed(query: Word, truth: Word, word: Word)
  {
    exists i :: 0 <= i < Span(query, truth, word) &&
      truth.letters[i] == query.letters[i] && word.letters[i] != query.letters[i]
  }

  /** Whether the loop body rejects position `i`. */
  predicate Rejects(query: Word, truth: Word, word: Word, i: nat)
    requires i < Span(query, truth, word)
  {
    var w, t, q := word.letters[i], truth.letters[i], query.letters[i];
    t != q &&
      (if q in truth.letters then w == q || q !in word.letters else q in word.letters)
  }

  /** The `for` loop from position `i` on: false at the first rejected position. */
  function ScanFrom(query: Word, truth: Word, word: Word, i: nat): bool
    requires i <= Span(query, truth, word)
    decreases Span(query, truth, word) - i
  {
    if i == Span(query, truth, word) then true
    else if Rejects(query, truth, word, i) then false
    else ScanFrom(query, truth, word, i + 1)
  }

  function Check(query: Word, truth: Word, word: Word): bool
  {
    if GreenMissed(query, truth, word) then false else ScanFrom(query, truth, word, 0)
  }

  /** The words of `words` that pass `Check(query, truth, _)`. */
  function FilterWordList(query: Word, truth: Word, words: seq<Word>): (r: seq<Word>)
    ensures |r| <= |words|
    ensures forall w :: w in r <==> w in words && Check(query, truth, w)
  {
    if words == [] then []
    else
      var rest := FilterWordList(query, truth, words[1..]);
      if Check(query, truth, words[0]) then [words[0]] + rest else rest
  }

  // ---- properties ----

  /** What `word` must satisfy at position `i` to pass. */
  predicate PositionOk(query: Word, truth: Word, word: Word, i: nat)
    requires i < Span(query, truth, word)
  {
    var w, t, q := word.letters[i], truth.letters[i], query.letters[i];
    (t == q ==> w == q) &&
    (t != q && q in truth.letters ==> w != q && q in word.letters) &&
    (q !in truth.letters ==> q !in word.letters)
  }

  lemma {:induction false} ScanFromMeaning(query: Word, truth: Word, word: Word, i: nat)
    requires i <= Span(query, truth, word)
    ensures ScanFrom(query, truth, word, i) <==>
      forall k :: i <= k < Span(query, truth, word) ==> !Rejects(query, truth, word, k)
    decreases Span(query, truth, word) - i
  {
    if i < Span(query, truth, word) {
      ScanFromMeaning(query, truth, word, i + 1);
    }
  }

  /** The direct test accepts exactly the words that meet every position's requirement:
      the matched letters again, a present letter elsewhere and still present, an absent letter nowhere. */
  lemma CheckMeaning(query: Word, truth: Word, word: Word)
    ensures Check(query, truth, word) <==>
      forall i :: 0 <= i < Span(query, truth, word) ==> PositionOk(query, truth, word, i)
  {
    ScanFromMeaning(query, truth, word, 0);
    var n := Span(query, truth, word);
    if forall i :: 0 <= i < n ==> PositionOk(query, truth, word, i) {
      forall i | 0 <= i < n
        ensures !(truth.letters[i] == query.letters[i] && word.letters[i] != query.letters[i])
      {
        assert PositionOk(query, truth, word, i);
      }
      forall k | 0 <= k < n ensures !Rejects(query, truth, word, k) {
        assert PositionOk(query, truth, word, k);
      }
    }
    if Check(query, truth, word) {
      forall i | 0 <= i < n ensures PositionOk(query, truth, word, i) {
        assert !Rejects(query, truth, word, i);
      }
    }
  }

  /** The answer itself always passes. */
  lemma TruthPasses(query: Word, truth: Word)
    ensures Check(query, truth, truth)
  {
    CheckMeaning(query, truth, truth);
  }

  /** The direct test agrees with deriving the rule and checking against it. */
  lemma {:induction false} AgreesWithRule(query: Word, truth: Word, word: Word)
    requires |query.letters| == |truth.letters| == |word.letters|
    ensures Check(query, truth, word) == Rules.Check(Rules.QueryRule(query, truth), word)
  {
    CheckMeaning(query, truth, word);
    var r := Rules.QueryRule(query, truth);
    forall i | 0 <= i < |word.letters|
      ensures PositionOk(query, truth, word, i) <==> Rules.Holds(r.states[i], word.letters[i], word.letters)
    {
      assert r.states[i] == Rules.Outcome(query.letters[i], truth.letters[i], truth.letters);
    }
  }

  lemma {:induction false} FilterWordListIsSubsequence(query: Word, truth: Word, words: seq<Word>)
    ensures IsSubsequence(FilterWordList(query, truth, words), words)
    decreases |words|
  {
    if words != [] {
      FilterWordListIsSubsequence(query, truth, words[1..]);
      if !Check(query, truth, words[0]) {
        assert IsSubsequence(FilterWordList(query, truth, words), words[1..]);
      }
    }
  }

  /** A word that passes is kept as many times as it occurs; one that fails is dropped. */
  lemma {:induction false} FilterWordListCounts(query: Word, truth: Word, words: seq<Word>)
    ensures forall w :: multiset(FilterWordList(query, truth, words))[w] == if Check(query, truth, w) then multiset(words)[w] else 0
    decreases |words|
  {
    if words != [] {
      FilterWordListCounts(query, truth, words[1..]);
      assert words == [words[0]] + words[1..];
      assert multiset(words) == multiset{words[0]} + multiset(words[1..]);
    }
  }

  /** Filtering directly gives the same list as filtering by the derived rule. */
  lemma {:induction false} FilterWordListAgrees(query: Word, truth: Word, words: seq<Word>)
    requires |query.letters| == |truth.letters|
    requires forall w :: w in words ==> |w.letters| == |query.letters|
    ensures FilterWordList(query, truth, words) == Rules.Filter(Rules.QueryRule(query, truth), words)
    decreases |words|
  {
    if words != [] {
      AgreesWithRule(query, truth, words[0]);
      FilterWordListAgrees(query, truth, words[1..]);
    }
  }
}
