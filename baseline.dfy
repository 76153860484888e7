/**
 * The frequency baseline: count, for every position, how many candidate words have each
 * letter there; then build the guess position by position, taking the most frequent letter
 * not already used earlier in the guess (ties going to the alphabetically last letter,
 * as `max_by_key` keeps the last maximum).
 */
module Baseline {
  import opened Wrappers
  import opened Words

  /** The column of the count table a char is counted in: `(c as u8 - b'a') as usize`.
      `as u8` keeps the low 8 bits of the char's code point. */
  function Column(c: char): int
  {
    (c as int) % 256 - ('a' as int)
  }

  /** A char the counting loop can count without panicking (subtraction or index out of range):
      the low byte of its code is one of `a..z`. So `'A'` is not countable, and U+0161 counts as `a`. */
  predicate Countable(c: char)
  {
    0 <= Column(c) < 26
  }

  /** An upper-case letter and a dash are not countable; U+0161 is, in the column of `a`. */
  lemma CountableExamples()
    ensures !Countable('A') && !Countable('-')
    ensures Countable('\U{161}') && Column('\U{161}') == 0
  {
  }

  /** The `k`-th letter of 'a'..='z'. */
  function Letter(k: nat): char
    requires k < 26
  {
    (('a' as int) + k) as char
  }

  /** Words the counting loop accepts: SIZE letters, each countable. */
  predicate Countables(size: nat, words: seq<Word>)
  {
    forall w :: w in words ==> |w.letters| == size && forall c :: c in w.letters ==> Countable(c)
  }

  /** `count[n][k]`: how many of `words` have, at position `n`, a char counted in column `k`. */
  function ColumnCount(words: seq<Word>, n: nat, k: int): nat
  {
    if words == [] then 0
    else
      var last := words[|words| - 1];
      ColumnCount(words[..|words| - 1], n, k) + (if n < |last.letters| && Column(last.letters[n]) == k then 1 else 0)
  }

  /** Row `n` of the count table. */
  function Row(words: seq<Word>, n: nat): (row: seq<nat>)
    ensures |row| == 26
  {
    seq(26, k requires 0 <= k < 26 => ColumnCount(words, n, k))
  }

  /** `max_by_key` over the letters from the `k`-th on that are not in `used`, starting
      from the running maximum `best`: a later letter with a count at least as large wins. */
  function MaxFrom(row: seq<nat>, used: seq<char>, k: nat, best: Option<nat>): (r: Option<nat>)
    requires |row| == 26 && k <= 26
    requires best.Some? ==> best.value < 26
    ensures r.Some? ==> r.value < 26
    decreases 26 - k
  {
    if k == 26 then best
    else
      var next := if Letter(k) in used then best
                  else if best.None? || row[best.value] <= row[k] then Some(k)
                  else best;
      MaxFrom(row, used, k + 1, next)
  }

  /** The column of the letter picked for a position, or None where `unwrap` panics. */
  function BestLetter(row: seq<nat>, used: seq<char>): Option<nat>
    requires |row| == 26
  {
    MaxFrom(row, used, 0, None)
  }

  /** `b` is the letter `max_by_key` should pick among the letters before column `k`. */
  predicate IsLastMax(row: seq<nat>, used: seq<char>, k: nat, b: nat)
    requires |row| == 26 && k <= 26
  {
    b < k && Letter(b) !in used &&
    (forall j :: 0 <= j < k && Letter(j) !in used ==> row[j] <= row[b]) &&
    (forall j :: b < j < k && Letter(j) !in used ==> row[j] < row[b])
  }

  lemma {:induction false} MaxFromCorrect(row: seq<nat>, used: seq<char>, k: nat, best: Option<nat>)
    requires |row| == 26 && k <= 26
    requires best.None? ==> forall j :: 0 <= j < k ==> Letter(j) in used
    requires best.Some? ==> IsLastMax(row, used, k, best.value)
    ensures MaxFrom(row, used, k, best).None? <==> forall j :: 0 <= j < 26 ==> Letter(j) in used
    ensures MaxFrom(row, used, k, best).Some? ==> IsLastMax(row, used, 26, MaxFrom(row, used, k, best).value)
    decreases 26 - k
  {
    if k < 26 {
      var next := if Letter(k) in used then best
                  else if best.None? || row[best.value] <= row[k] then Some(k)
                  else best;
      MaxFromCorrect(row, used, k + 1, next);
    }
  }

  /** The picked letter is unused, has the largest count among the unused letters, and
      every later unused letter has a strictly smaller count; none is picked exactly when
      every letter is used. */
  lemma BestLetterCorrect(row: seq<nat>, used: seq<char>)
    requires |row| == 26
    ensures BestLetter(row, used).None? <==> forall j :: 0 <= j < 26 ==> Letter(j) in used
    ensures BestLetter(row, used).Some? ==> IsLastMax(row, used, 26, BestLetter(row, used).value)
  {
    MaxFromCorrect(row, used, 0, None);
  }

  /** The letters a..z are 26 distinct chars. */
  lemma {:induction false} LettersFromCard(k: nat)
    requires k <= 26
    ensures |set j: nat | k <= j < 26 :: Letter(j)| == 26 - k
    decreases 26 - k
  {
    if k < 26 {
      LettersFromCard(k + 1);
      var rest := set j: nat | k + 1 <= j < 26 :: Letter(j);
      assert (set j: nat | k <= j < 26 :: Letter(j)) == {Letter(k)} + rest;
      assert Letter(k) !in rest;
    }
  }

  lemma {:induction false} SetOfSeqCard(s: seq<char>)
    ensures |set c | c in s| <= |s|
    decreases |s|
  {
    if s != [] {
      SetOfSeqCard(s[1..]);
      assert (set c | c in s) == {s[0]} + (set c | c in s[1..]);
    }
  }

  lemma {:induction false} SubsetCard(a: set<char>, b: set<char>)
    requires a <= b
    ensures |a| <= |b|
    decreases |b|
  {
    if a != {} {
      var x :| x in a;
      SubsetCard(a - {x}, b - {x});
    }
  }

  /** Fewer than 26 used chars leave some letter unused. */
  lemma UnusedLetter(used: seq<char>)
    requires |used| < 26
    ensures exists j :: 0 <= j < 26 && Letter(j) !in used
  {
    if forall j :: 0 <= j < 26 ==> Letter(j) in used {
      var letters, chars := set j: nat | 0 <= j < 26 :: Letter(j), set c | c in used;
      LettersFromCard(0);
      SetOfSeqCard(used);
      assert letters <= chars;
      SubsetCard(letters, chars);
      assert false;
    }
  }

  /** The letter picked for one position, which exists while fewer than 26 letters are used. */
  function Pick(row: seq<nat>, used: seq<char>): (c: char)
    requires |row| == 26 && |used| < 26
    ensures BestLetter(row, used).Some? && c == Letter(BestLetter(row, used).value)
  {
    UnusedLetter(used);
    BestLetterCorrect(row, used);
    Letter(BestLetter(row, used).value)
  }

  /** The guess's first `n` letters. */
  function Greedy(words: seq<Word>, n: nat): (g: seq<char>)
    requires n <= 26
    ensures |g| == n
  {
    if n == 0 then [] else Greedy(words, n - 1) + [Pick(Row(words, n - 1), Greedy(words, n - 1))]
  }

  /** The first loop: the count table, `count[n][k]` for every position and column. */
  method CountLetters(size: nat, words: seq<Word>) returns (count: array2<nat>)
    requires Countables(size, words)
    ensures fresh(count) && count.Length0 == size && count.Length1 == 26
    ensures forall n, k :: 0 <= n < size && 0 <= k < 26 ==> count[n, k] == ColumnCount(words, n, k)
  {
    count := new nat[size, 26]((_, _) => 0);
    for i := 0 to |words|
      invariant forall n, k :: 0 <= n < size && 0 <= k < 26 ==> count[n, k] == ColumnCount(words[..i], n, k)
    {
      var word := words[i];
      assert words[..i + 1][..i] == words[..i];
      for n := 0 to size
        invariant forall n', k :: 0 <= n' < size && 0 <= k < 26 ==>
          count[n', k] == ColumnCount(words[..i], n', k) + (if n' < n && Column(word.letters[n']) == k then 1 else 0)
      {
        assert word in words && word.letters[n] in word.letters;
        var k := Column(word.letters[n]);
        count[n, k] := count[n, k] + 1;
      }
    }
    assert words[..|words|] == words;
  }

  /** The baseline guess. The first argument is ignored. The source panics on a char it
      cannot count, and when SIZE exceeds 26 (no unused letter is left); those are preconditions. */
  method SelectQuery(size: nat, fullWordList: seq<Word>, words: seq<Word>) returns (query: Word)
    requires size <= 26
    requires Countables(size, words)
    ensures query.letters == Greedy(words, size)
  {
    var count := CountLetters(size, words);
    var letters := new char[size](_ => 'a');
    for n := 0 to size
      invariant letters[..n] == Greedy(words, n)
      invariant forall n', k :: 0 <= n' < size && 0 <= k < 26 ==> count[n', k] == ColumnCount(words, n', k)
    {
      var row := seq(26, k requires 0 <= k < 26 reads count => count[n, k]);
      forall k | 0 <= k < 26 ensures row[k] == Row(words, n)[k] {
      }
      assert row == Row(words, n);
      var used := letters[..n];
      var c := Pick(row, used);
      letters[n] := c;
      assert letters[..n + 1] == used + [c];
    }
    assert letters[..] == letters[..size];
    query := Word(letters[..]);
  }

  // ---- properties ----

  /** Position `i` of the guess `g` holds the unused letter with the largest count there,
      ties going to the last such letter. */
  predicate PicksBest(words: seq<Word>, g: seq<char>, i: nat)
    requires i < |g| <= 26
  {
    exists b :: 0 <= b < 26 && g[i] == Letter(b) && IsLastMax(Row(words, i), g[..i], 26, b)
  }

  /** The next letter extends the guess by the best letter, distinct from all before it. */
  lemma GreedyStep(words: seq<Word>, n: nat)
    requires 0 < n <= 26
    ensures Greedy(words, n)[..n - 1] == Greedy(words, n - 1)
    ensures PicksBest(words, Greedy(words, n), n - 1)
    ensures Greedy(words, n)[n - 1] !in Greedy(words, n - 1)
  {
    var prefix := Greedy(words, n - 1);
    UnusedLetter(prefix);
    BestLetterCorrect(Row(words, n - 1), prefix);
    var b := BestLetter(Row(words, n - 1), prefix).value;
    var g := Greedy(words, n);
    assert g == prefix + [Letter(b)];
    assert g[..n - 1] == prefix;
  }

  /** The guess for `n` positions extends the guess for `n - 1`. This is the first fact
      `GreedyStep` states; `GreedyPrefix` uses this lemma instead, since the other facts of
      `GreedyStep` make each step of its induction too expensive to check. */
  lemma GreedyExtends(words: seq<Word>, n: nat)
    requires 0 < n <= 26
    ensures Greedy(words, n)[..n - 1] == Greedy(words, n - 1)
  {
    var g := Greedy(words, n);
    assert g == Greedy(words, n - 1) + [Pick(Row(words, n - 1), Greedy(words, n - 1))];
  }

  /** Stated apart so that `GreedyPrefix` only sees this one sequence fact. */
  lemma PrefixOfPrefix<T>(s: seq<T>, a: nat, b: nat)
    requires b <= a <= |s|
    ensures s[..a][..b] == s[..b]
  {
  }

  /** A shorter guess is a prefix of a longer one. */
  lemma {:induction false} GreedyPrefix(words: seq<Word>, n: nat, m: nat)
    requires m <= n <= 26
    ensures Greedy(words, n)[..m] == Greedy(words, m)
    decreases n
  {
    if m < n {
      GreedyPrefix(words, n - 1, m);
      GreedyExtends(words, n);
      PrefixOfPrefix(Greedy(words, n), n - 1, m);
    } else {
      var g := Greedy(words, n);
      assert g[..m] == g[..|g|] == g;
    }
  }

  /** Every letter of the guess is in a..z, no letter repeats, and each position picks the best letter. */
  lemma GreedyCorrect(words: seq<Word>, n: nat)
    requires n <= 26
    ensures forall i :: 0 <= i < n ==> 'a' <= Greedy(words, n)[i] <= 'z'
    ensures forall i, j :: 0 <= i < j < n ==> Greedy(words, n)[i] != Greedy(words, n)[j]
    ensures forall i :: 0 <= i < n ==> PicksBest(words, Greedy(words, n), i)
  {
    var g := Greedy(words, n);
    forall i | 0 <= i < n
      ensures 'a' <= g[i] <= 'z' && PicksBest(words, g, i)
      ensures g[i] !in g[..i]
    {
      GreedyPrefix(words, n, i + 1);
      GreedyPrefix(words, n, i);
      GreedyStep(words, i + 1);
      assert g[..i + 1][..i] == g[..i];
      assert g[i] == Greedy(words, i + 1)[i];
    }
    forall i, j | 0 <= i < j < n ensures g[i] != g[j] {
      assert g[i] == g[..j][i];
    }
  }

  /** Counting over a concatenation adds the counts. */
  lemma {:induction false} ColumnCountConcat(a: seq<Word>, b: seq<Word>, n: nat, k: int)
    ensures ColumnCount(a + b, n, k) == ColumnCount(a, n, k) + ColumnCount(b, n, k)
    decreases |b|
  {
    if b == [] {
      assert a + b == a;
    } else {
      var init := b[..|b| - 1];
      ColumnCountConcat(a, init, n, k);
      assert (a + b)[..|a + b| - 1] == a + init;
    }
  }

  /** The counts depend only on the multiset of words, not their order. */
  lemma {:induction false} ColumnCountPermutation(words: seq<Word>, other: seq<Word>, n: nat, k: int)
    requires multiset(words) == multiset(other)
    ensures ColumnCount(words, n, k) == ColumnCount(other, n, k)
    decreases |words|
  {
    if words == [] {
      assert |other| == |multiset(other)| == 0;
    } else {
      var x := words[|words| - 1];
      var init := words[..|words| - 1];
      assert words == init + [x];
      assert x in multiset(other);
      var j :| 0 <= j < |other| && other[j] == x;
      var rest := other[..j] + other[j + 1..];
      assert other == other[..j] + [x] + other[j + 1..];
      assert multiset(init) == multiset(words) - multiset{x};
      assert multiset(rest) == multiset(other) - multiset{x};
      ColumnCountPermutation(init, rest, n, k);
      ColumnCountConcat(other[..j] + [x], other[j + 1..], n, k);
      ColumnCountConcat(other[..j], [x], n, k);
      ColumnCountConcat(other[..j], other[j + 1..], n, k);
      ColumnCountConcat(init, [x], n, k);
    }
  }

  /** The guess does not depend on the order of the words. */
  lemma {:induction false} GreedyIgnoresOrder(words: seq<Word>, other: seq<Word>, n: nat)
    requires n <= 26
    requires multiset(words) == multiset(other)
    ensures Greedy(words, n) == Greedy(other, n)
  {
    if n > 0 {
      GreedyIgnoresOrder(words, other, n - 1);
      var m := n - 1;
      forall k | 0 <= k < 26 ensures Row(words, m)[k] == Row(other, m)[k] {
        ColumnCountPermutation(words, other, m, k);
      }
      assert Row(words, m) == Row(other, m);
    }
  }
}
