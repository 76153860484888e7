/**
 * A game: a dictionary, an optional rule already known before the first guess, and the
 * round loop that asks a strategy for a guess, asks an interface for the feedback and
 * narrows the candidate list with it.
 *
 * The interface and the strategy are passed in as functions: the interface maps a guess to
 * its rule, the strategy maps the full dictionary and the current candidates to a guess.
 */
module Games {
  import opened Wrappers
  import opened Words
  import opened Seqs
  import Rules

  /** `Game::new` is this constructor: it keeps the dictionary and the first rule. */
  datatype Game = Game(words: seq<Word>, firstRule: Option<Rules.Rule>)

  /** How a run of `Play` ends: with the remaining candidate (if any), or by using up its rounds. */
  datatype Outcome = Finished(answer: Option<Word>) | OutOfRounds

  /** The simulated interface: the feedback for `query` when the answer is `truth`. The answer
      is consistent with it, and for words of one length it is all Green exactly for the answer. */
  function SimulatedRule(truth: Word, query: Word): (r: Rules.Rule)
    ensures Rules.Check(r, truth)
    ensures |r.states| == |query.letters|
    ensures |query.letters| == |truth.letters| ==> (Rules.AllGreen(r) <==> query == truth)
  {
    Rules.SelfConsistent(query, truth);
    if |query.letters| == |truth.letters| then
      Rules.AllGreenIffEqual(query, truth);
      Rules.QueryRule(query, truth)
    else
      Rules.QueryRule(query, truth)
  }

  /** The simulated interface as a function of the guess. */
  function Simulator(truth: Word): Word -> Rules.Rule
  {
    query => SimulatedRule(truth, query)
  }

  /** The candidates before the first round: the dictionary, narrowed by the first rule if there is one. */
  function StartList(game: Game): (r: seq<Word>)
    ensures IsSubsequence(r, game.words)
    ensures forall w :: w in r <==>
      w in game.words && (game.firstRule.Some? ==> Rules.Check(game.firstRule.value, w))
  {
    match game.firstRule
    case Some(rule) =>
      Rules.FilterIsSubsequence(rule, game.words);
      Rules.Filter(rule, game.words)
    case None =>
      SubsequenceReflexive(game.words);
      game.words
  }

  /** The candidates after `k` rounds of the loop; once at most one is left, nothing changes.
      The strategy always sees the full dictionary beside the current candidates. */
  function After(game: Game, feedback: Word -> Rules.Rule, select: (seq<Word>, seq<Word>) -> Word, k: nat): seq<Word>
  {
    if k == 0 then StartList(game)
    else
      var prev := After(game, feedback, select, k - 1);
      if |prev| > 1 then Rules.Filter(feedback(select(game.words, prev)), prev) else prev
  }

  /** The feedback received in round `k`. */
  function RuleAt(game: Game, feedback: Word -> Rules.Rule, select: (seq<Word>, seq<Word>) -> Word, k: nat): Rules.Rule
  {
    feedback(select(game.words, After(game, feedback, select, k)))
  }

  /** The first candidate, if any (`into_iter().next()`). */
  function Head(words: seq<Word>): (r: Option<Word>)
    ensures r.None? <==> words == []
    ensures r.Some? ==> r.value == words[0]
  {
    if words == [] then None else Some(words[0])
  }

  /** Plays rounds while more than one candidate is left, for at most `maxRounds` rounds.
      `rounds` is the number of rounds played. */
  method Play(game: Game, feedback: Word -> Rules.Rule, select: (seq<Word>, seq<Word>) -> Word, maxRounds: nat)
    returns (outcome: Outcome, rounds: nat)
    ensures rounds <= maxRounds
    ensures forall k :: 0 <= k < rounds ==> |After(game, feedback, select, k)| > 1
    ensures outcome.Finished? ==>
      |After(game, feedback, select, rounds)| <= 1 && outcome.answer == Head(After(game, feedback, select, rounds))
    ensures outcome.OutOfRounds? ==> rounds == maxRounds && |After(game, feedback, select, rounds)| > 1
  {
    var filtered;
    if game.firstRule.Some? {
      filtered := Rules.Filter(game.firstRule.value, game.words);
    } else {
      filtered := game.words;
    }
    rounds := 0;
    while |filtered| > 1 && rounds < maxRounds
      invariant rounds <= maxRounds
      invariant filtered == After(game, feedback, select, rounds)
      invariant forall k :: 0 <= k < rounds ==> |After(game, feedback, select, k)| > 1
    {
      PlayStep(game, feedback, select, rounds);
      var query := select(game.words, filtered);
      var rule := feedback(query);
      filtered := Rules.Filter(rule, filtered);
      rounds := rounds + 1;
    }
    if |filtered| > 1 {
      outcome := OutOfRounds;
    } else if filtered == [] {
      outcome := Finished(None);
    } else {
      outcome := Finished(Some(filtered[0]));
    }
  }

  /** One more round of `Play`'s loop: the rounds played so far grow by one, and the next
      candidates are the current ones filtered by the rule for the strategy's guess. */
  lemma PlayStep(game: Game, feedback: Word -> Rules.Rule, select: (seq<Word>, seq<Word>) -> Word, k: nat)
    requires forall j :: 0 <= j < k ==> |After(game, feedback, select, j)| > 1
    requires |After(game, feedback, select, k)| > 1
    ensures forall j :: 0 <= j < k + 1 ==> |After(game, feedback, select, j)| > 1
    ensures After(game, feedback, select, k + 1) ==
      Rules.Filter(feedback(select(game.words, After(game, feedback, select, k))), After(game, feedback, select, k))
  {
  }

  // ---- properties ----

  /** The first candidates are the whole dictionary without a first rule, and the dictionary
      filtered by it otherwise (so repeated words are kept, see `Rules.FilterCounts`). */
  lemma StartListCases(game: Game)
    ensures game.firstRule.None? ==> StartList(game) == game.words
    ensures game.firstRule.Some? ==> StartList(game) == Rules.Filter(game.firstRule.value, game.words)
  {
  }

  /** Each round keeps an order-preserving part of the previous candidates, so the list never grows. */
  lemma AfterShrinks(game: Game, feedback: Word -> Rules.Rule, select: (seq<Word>, seq<Word>) -> Word, k: nat)
    ensures IsSubsequence(After(game, feedback, select, k + 1), After(game, feedback, select, k))
    ensures |After(game, feedback, select, k + 1)| <= |After(game, feedback, select, k)|
  {
    var prev := After(game, feedback, select, k);
    if |prev| > 1 {
      Rules.FilterIsSubsequence(RuleAt(game, feedback, select, k), prev);
    } else {
      SubsequenceReflexive(prev);
    }
    SubsequenceLength(After(game, feedback, select, k + 1), prev);
  }

  /** Every candidate list is an order-preserving part of the starting list. */
  lemma {:induction false} AfterIsSubsequence(game: Game, feedback: Word -> Rules.Rule, select: (seq<Word>, seq<Word>) -> Word, k: nat)
    ensures IsSubsequence(After(game, feedback, select, k), StartList(game))
    decreases k
  {
    if k == 0 {
      SubsequenceReflexive(StartList(game));
    } else {
      AfterIsSubsequence(game, feedback, select, k - 1);
      AfterShrinks(game, feedback, select, k - 1);
      SubsequenceTransitive(After(game, feedback, select, k), After(game, feedback, select, k - 1), StartList(game));
    }
  }

  /** `w` passes every rule received in the first `k` rounds (a round is played only while
      more than one candidate is left). */
  predicate PassesRounds(game: Game, feedback: Word -> Rules.Rule, select: (seq<Word>, seq<Word>) -> Word, k: nat, w: Word)
  {
    forall j :: 0 <= j < k && |After(game, feedback, select, j)| > 1 ==> Rules.Check(RuleAt(game, feedback, select, j), w)
  }

  /** The candidates after `k` rounds are exactly the starting candidates that pass every rule
      received so far. */
  lemma {:induction false} AfterMembers(game: Game, feedback: Word -> Rules.Rule, select: (seq<Word>, seq<Word>) -> Word, k: nat, w: Word)
    ensures w in After(game, feedback, select, k) <==> w in StartList(game) && PassesRounds(game, feedback, select, k, w)
    decreases k
  {
    if k > 0 {
      AfterMembers(game, feedback, select, k - 1, w);
      var prev := After(game, feedback, select, k - 1);
      var last := |prev| > 1 ==> Rules.Check(RuleAt(game, feedback, select, k - 1), w);
      assert w in After(game, feedback, select, k) <==> w in prev && last;
      if PassesRounds(game, feedback, select, k, w) {
        assert |prev| > 1 ==> Rules.Check(RuleAt(game, feedback, select, k - 1), w);
      }
      if PassesRounds(game, feedback, select, k - 1, w) && last {
        forall j | 0 <= j < k && |After(game, feedback, select, j)| > 1
          ensures Rules.Check(RuleAt(game, feedback, select, j), w)
        {
          if j == k - 1 {
            assert last;
          }
        }
      }
    }
  }

  /** Every candidate is a word of the dictionary. */
  lemma CandidateInDictionary(game: Game, feedback: Word -> Rules.Rule, select: (seq<Word>, seq<Word>) -> Word, k: nat, w: Word)
    requires w in After(game, feedback, select, k)
    ensures w in game.words
  {
    AfterMembers(game, feedback, select, k, w);
  }

  /** While a round is still to be played the dictionary is not empty, so a strategy that needs a
      word of the dictionary to choose from always has one. */
  lemma DictionaryNonEmpty(game: Game, feedback: Word -> Rules.Rule, select: (seq<Word>, seq<Word>) -> Word, k: nat)
    requires |After(game, feedback, select, k)| > 1
    ensures |game.words| > 0
  {
    CandidateInDictionary(game, feedback, select, k, After(game, feedback, select, k)[0]);
  }

  /** With the simulated interface, the answer survives every round once it is a starting candidate. */
  lemma {:induction false} TruthSurvives(game: Game, truth: Word, select: (seq<Word>, seq<Word>) -> Word, k: nat)
    requires truth in StartList(game)
    ensures truth in After(game, Simulator(truth), select, k)
    decreases k
  {
    if k > 0 {
      TruthSurvives(game, truth, select, k - 1);
      var prev := After(game, Simulator(truth), select, k - 1);
      if |prev| > 1 {
        assert Rules.Check(Simulator(truth)(select(game.words, prev)), truth);
      }
    }
  }

  /** With the simulated interface, a finished game returns the answer: at most one candidate left
      means exactly the answer is left. */
  lemma SimulatedGameFindsTruth(game: Game, truth: Word, select: (seq<Word>, seq<Word>) -> Word, k: nat)
    requires truth in game.words
    requires game.firstRule.Some? ==> Rules.Check(game.firstRule.value, truth)
    requires |After(game, Simulator(truth), select, k)| <= 1
    ensures After(game, Simulator(truth), select, k) == [truth]
    ensures Head(After(game, Simulator(truth), select, k)) == Some(truth)
  {
    TruthSurvives(game, truth, select, k);
  }

  /** A word that passes the all-Green rule of `truth` and has its length is `truth`. */
  lemma PassesOwnRule(truth: Word, w: Word)
    requires |w.letters| == |truth.letters|
    requires Rules.Check(SimulatedRule(truth, truth), w)
    ensures w == truth
  {
    Rules.AllGreenIffEqual(truth, truth);
    Rules.QueryRuleTags(truth, truth);
    Rules.CheckAllGreen(SimulatedRule(truth, truth), w);
  }

  /** With the simulated interface, a round in which the strategy guesses the answer leaves only
      the answer among candidates of the answer's length. */
  lemma GuessingTruthEnds(game: Game, truth: Word, select: (seq<Word>, seq<Word>) -> Word, k: nat)
    requires truth in StartList(game)
    requires forall w :: w in game.words ==> |w.letters| == |truth.letters|
    requires k > 0 && |After(game, Simulator(truth), select, k - 1)| > 1
    requires select(game.words, After(game, Simulator(truth), select, k - 1)) == truth
    ensures truth in After(game, Simulator(truth), select, k)
    ensures forall w :: w in After(game, Simulator(truth), select, k) ==> w == truth
  {
    TruthSurvives(game, truth, select, k);
    var prev := After(game, Simulator(truth), select, k - 1);
    var rule := SimulatedRule(truth, truth);
    assert Simulator(truth)(truth) == rule;
    var next := After(game, Simulator(truth), select, k);
    forall w | w in next ensures w == truth {
      CandidateInDictionary(game, Simulator(truth), select, k, w);
      assert Rules.Check(rule, w);
      PassesOwnRule(truth, w);
    }
  }

  /** A dictionary that holds the answer twice never gets below two candidates when the strategy
      keeps guessing the answer: the round loop does not end on its own. */
  lemma {:induction false} RepeatedAnswerNeverFinishes(a: Word, k: nat)
    ensures After(Game([a, a], None), Simulator(a), (words: seq<Word>, candidates: seq<Word>) => a, k) == [a, a]
    decreases k
  {
    if k > 0 {
      RepeatedAnswerNeverFinishes(a, k - 1);
      assert Rules.Check(SimulatedRule(a, a), a);
      assert Rules.Filter(SimulatedRule(a, a), [a]) == [a];
    }
  }
}
