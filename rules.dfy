/**
 * Feedback rules: the per-position Gray/Yellow/Green outcome of one guess, how it is
 * derived from a guess and an answer or decoded from a '0'/'1'/'2' mask, and which
 * words are consistent with it.
 *
 * Duplicate letters follow the source's simplified rule: a guessed letter that is not
 * in its place is Yellow whenever it occurs anywhere in the answer, however many times
 * it was guessed; no occurrence of the answer is consumed.
 *
 * The source zips arrays of one compile-time length SIZE. The model zips sequences, so it
 * visits min(|query|, |word|) positions, and a derived rule has |query| positions, those
 * beyond the zip keeping the pre-filled Gray('a'); for words of one length (the only case
 * the source's types allow) this is every position.
 */
module Rules {
  import opened Wrappers
  import opened Words
  import opened Seqs

  /** One position's feedback, tagged with the guessed letter. */
  datatype State = Gray(letter: char) | Yellow(letter: char) | Green(letter: char)

  /** The feedback for one guess, one state per position. */
  datatype Rule = Rule(states: seq<State>)

  /** The value every position of a rule under construction starts with. */
  const Filler: State := Gray('a')

  function Min(a: nat, b: nat): nat
  {
    if a <= b then a else b
  }

  /** The state of one position of a guess: `q` guessed where the answer has `w`. */
  function Outcome(q: char, w: char, answer: seq<char>): State
  {
    if q == w then Green(q) else if q in answer then Yellow(q) else Gray(q)
  }

  /** The rule that guessing `query` against the answer `word` produces. */
  function QueryRule(query: Word, word: Word): (r: Rule)
  {
    Rule(seq(|query.letters|, i requires 0 <= i < |query.letters| =>
      if i < |word.letters| then Outcome(query.letters[i], word.letters[i], word.letters) else Filler))
  }

  /** Derives the rule position by position into a pre-filled array. */
  method FromQuery(query: Word, word: Word) returns (rule: Rule)
    ensures rule == QueryRule(query, word)
    ensures |rule.states| == |query.letters|
    ensures forall i :: 0 <= i < |query.letters| && i < |word.letters| ==>
      rule.states[i].letter == query.letters[i] &&
      (rule.states[i].Green? <==> query.letters[i] == word.letters[i]) &&
      (rule.states[i].Yellow? <==> query.letters[i] != word.letters[i] && query.letters[i] in word.letters) &&
      (rule.states[i].Gray? <==> query.letters[i] !in word.letters)
  {
    var states := new State[|query.letters|](_ => Filler);
    for i := 0 to Min(|query.letters|, |word.letters|)
      invariant forall k :: 0 <= k < i ==> states[k] == Outcome(query.letters[k], word.letters[k], word.letters)
      invariant forall k :: i <= k < states.Length ==> states[k] == Filler
    {
      var q, w := query.letters[i], word.letters[i];
      if q == w {
        states[i] := Green(q);
      } else if q in word.letters {
        states[i] := Yellow(q);
      } else {
        states[i] := Gray(q);
      }
    }
    rule := Rule(states[..]);
  }

  /** A mask code the decoder accepts. */
  predicate ValidCode(m: char)
  {
    m == '0' || m == '1' || m == '2'
  }

  function Decode(q: char, m: char): State
    requires ValidCode(m)
  {
    if m == '0' then Gray(q) else if m == '1' then Yellow(q) else Green(q)
  }

  /** The rule that a mask describes for `query`, or None where the decoder panics. */
  function MaskRule(query: Word, mask: Word): Option<Rule>
  {
    if exists i :: 0 <= i < Min(|query.letters|, |mask.letters|) && !ValidCode(mask.letters[i]) then None
    else Some(Rule(seq(|query.letters|, i requires 0 <= i < |query.letters| =>
      if i < |mask.letters| then Decode(query.letters[i], mask.letters[i]) else Filler)))
  }

  /** Decodes a mask position by position into a pre-filled array; None stands for the panic. */
  method FromMask(query: Word, mask: Word) returns (r: Option<Rule>)
    ensures r == MaskRule(query, mask)
    ensures r.None? <==> exists i :: 0 <= i < |query.letters| && i < |mask.letters| && !ValidCode(mask.letters[i])
  {
    var states := new State[|query.letters|](_ => Filler);
    for i := 0 to Min(|query.letters|, |mask.letters|)
      invariant forall k :: 0 <= k < i ==> ValidCode(mask.letters[k]) && states[k] == Decode(query.letters[k], mask.letters[k])
      invariant forall k :: i <= k < states.Length ==> states[k] == Filler
    {
      var q, m := query.letters[i], mask.letters[i];
      match m
      case '0' => states[i] := Gray(q);
      case '1' => states[i] := Yellow(q);
      case '2' => states[i] := Green(q);
      case _ =>
        assert !ValidCode(mask.letters[i]);
        return None;
    }
    assert MaskRule(query, mask).Some?;
    assert states[..] == MaskRule(query, mask).value.states;
    r := Some(Rule(states[..]));
  }

  /** Whether a candidate letter `c` of `word` (at the position of `s`) agrees with `s`. */
  predicate Holds(s: State, c: char, word: seq<char>)
  {
    match s
    case Gray(x) => x !in word
    case Yellow(x) => c != x && x in word
    case Green(x) => c == x
  }

  /** Whether `word` is consistent with `rule`. */
  predicate Check(rule: Rule, word: Word)
  {
    forall i :: 0 <= i < |rule.states| && i < |word.letters| ==> Holds(rule.states[i], word.letters[i], word.letters)
  }

  /** A guess of the answer's length that is not the answer fails its own rule: at a position
      where it differs, its letter is Yellow or Gray, and neither admits the guess itself. */
  lemma WrongGuessFails(query: Word, word: Word)
    requires |query.letters| == |word.letters| && query != word
    ensures !Check(QueryRule(query, word), query)
  {
    assert query.letters != word.letters;
    var i :| 0 <= i < |query.letters| && query.letters[i] != word.letters[i];
    assert !Holds(QueryRule(query, word).states[i], query.letters[i], query.letters);
  }

  /** An all-Green rule as long as the word admits exactly the word it is tagged with. */
  lemma CheckAllGreen(rule: Rule, word: Word)
    requires AllGreen(rule) && |word.letters| == |rule.states|
    ensures Check(rule, word) <==> word == Tags(rule)
  {
    if Check(rule, word) {
      forall i | 0 <= i < |word.letters| ensures word.letters[i] == Tags(rule).letters[i] {
        assert Holds(rule.states[i], word.letters[i], word.letters);
      }
    }
  }

  /** The words of `words` that are consistent with `rule`. */
  function Filter(rule: Rule, words: seq<Word>): (r: seq<Word>)
    ensures |r| <= |words|
    ensures forall w :: w in r <==> w in words && Check(rule, w)
  {
    if words == [] then []
    else
      var rest := Filter(rule, words[1..]);
      if Check(rule, words[0]) then [words[0]] + rest else rest
  }

  /** Every position of a rule is Green. */
  predicate AllGreen(rule: Rule)
  {
    forall i :: 0 <= i < |rule.states| ==> rule.states[i].Green?
  }

  /** The guessed letters a rule is tagged with. */
  function Tags(rule: Rule): Word
  {
    Word(seq(|rule.states|, i requires 0 <= i < |rule.states| => rule.states[i].letter))
  }

  /** The mask that describes a rule: '0' for Gray, '1' for Yellow, '2' for Green. */
  function Mask(rule: Rule): Word
  {
    Word(seq(|rule.states|, i requires 0 <= i < |rule.states| =>
      match rule.states[i]
      case Gray(_) => '0'
      case Yellow(_) => '1'
      case Green(_) => '2'))
  }

  // ---- properties ----

  /** A derived rule is tagged with the guessed letters, never the answer's. */
  lemma QueryRuleTags(query: Word, word: Word)
    requires |query.letters| == |word.letters|
    ensures Tags(QueryRule(query, word)) == query
  {
    assert Tags(QueryRule(query, word)).letters == query.letters;
  }

  /** The answer is always consistent with the rule it produces. */
  lemma SelfConsistent(query: Word, word: Word)
    ensures Check(QueryRule(query, word), word)
  {
    var r := QueryRule(query, word);
    forall i | 0 <= i < |r.states| && i < |word.letters|
      ensures Holds(r.states[i], word.letters[i], word.letters)
    {
      assert r.states[i] == Outcome(query.letters[i], word.letters[i], word.letters);
    }
  }

  /** A guess wins (every position Green) exactly when it is the answer. */
  lemma AllGreenIffEqual(query: Word, word: Word)
    requires |query.letters| == |word.letters|
    ensures AllGreen(QueryRule(query, word)) <==> query == word
  {
    var r := QueryRule(query, word);
    if AllGreen(r) {
      forall i | 0 <= i < |query.letters|
        ensures query.letters[i] == word.letters[i]
      {
        assert r.states[i] == Outcome(query.letters[i], word.letters[i], word.letters);
      }
      assert query.letters == word.letters;
    }
  }

  /** The worked example: guess "tares" against answer "crane". */
  lemma TaresAgainstCrane()
    ensures QueryRule(Word("tares"), Word("crane")) ==
      Rule([Gray('t'), Yellow('a'), Yellow('r'), Yellow('e'), Gray('s')])
  {
  }

  /** Decoding the mask of a rule, with the rule's own tags as the query, gives the rule back. */
  lemma MaskRoundTrip(rule: Rule)
    ensures MaskRule(Tags(rule), Mask(rule)) == Some(rule)
  {
    var q, m := Tags(rule), Mask(rule);
    forall i | 0 <= i < |rule.states|
      ensures ValidCode(m.letters[i]) && Decode(q.letters[i], m.letters[i]) == rule.states[i]
    {
    }
    assert MaskRule(q, m).Some?;
    assert MaskRule(q, m).value.states == rule.states;
  }

  /** So a mask read off the answer's feedback decodes to the rule derived from the answer. */
  lemma MaskOfQueryRule(query: Word, word: Word)
    requires |query.letters| == |word.letters|
    ensures MaskRule(query, Mask(QueryRule(query, word))) == Some(QueryRule(query, word))
  {
    QueryRuleTags(query, word);
    MaskRoundTrip(QueryRule(query, word));
  }

  /** Filtering keeps words in their input order. */
  lemma {:induction false} FilterIsSubsequence(rule: Rule, words: seq<Word>)
    ensures IsSubsequence(Filter(rule, words), words)
    decreases |words|
  {
    if words != [] {
      FilterIsSubsequence(rule, words[1..]);
      if !Check(rule, words[0]) {
        assert IsSubsequence(Filter(rule, words), words[1..]);
      }
    }
  }

  /** A word that passes is kept as many times as it occurs; one that fails is dropped. */
  lemma {:induction false} FilterCounts(rule: Rule, words: seq<Word>)
    ensures forall w :: multiset(Filter(rule, words))[w] == if Check(rule, w) then multiset(words)[w] else 0
    decreases |words|
  {
    if words != [] {
      FilterCounts(rule, words[1..]);
      assert words == [words[0]] + words[1..];
      assert multiset(words) == multiset{words[0]} + multiset(words[1..]);
    }
  }

  /** Filtering words that all pass changes nothing. */
  lemma {:induction false} FilterAllPass(rule: Rule, words: seq<Word>)
    requires forall w :: w in words ==> Check(rule, w)
    ensures Filter(rule, words) == words
    decreases |words|
  {
    if words != [] {
      FilterAllPass(rule, words[1..]);
    }
  }

  /** Filtering twice by the same rule is filtering once. */
  lemma FilterIdempotent(rule: Rule, words: seq<Word>)
    ensures Filter(rule, Filter(rule, words)) == Filter(rule, words)
  {
    FilterAllPass(rule, Filter(rule, words));
  }
}
