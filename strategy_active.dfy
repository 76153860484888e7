/**
 * The entropy strategy of the strategy module, parameterised by the allowed queries and
 * the possible answers. Its code is the same pipeline as the one in module Active
 * (short circuit, counter of rules, score, `min_by_key`), so it is defined by that one.
 */
module StrategyActive {
  import opened Words
  import Active

  ghost function SelectQuery(score: multiset<nat> -> Active.Float, allowedQueries: seq<Word>, possibleWords: seq<Word>): (r: Word)
    requires |possibleWords| > 0
    requires |possibleWords| > 2 ==> |allowedQueries| > 0
    ensures |possibleWords| <= 2 ==> r == possibleWords[0] && r in possibleWords
    ensures |possibleWords| > 2 ==> r in allowedQueries
    ensures |possibleWords| > 2 && Active.AllNum(Active.Keys(score, allowedQueries, possibleWords)) ==>
      exists i :: 0 <= i < |allowedQueries| && r == allowedQueries[i] &&
        Active.IsFirstMinimum(Active.Keys(score, allowedQueries, possibleWords), i)
  {
    Active.SelectQuery(score, allowedQueries, possibleWords)
  }
}
