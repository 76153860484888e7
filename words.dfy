/**
 * The word value type: an ordered, fixed-length sequence of letters.
 * The source fixes the length as a compile-time parameter SIZE; here the length is
 * the `size` argument of the constructors and `|letters|` of a word.
 */
module Words {
  import opened Wrappers

  datatype Word = Word(letters: seq<char>)

  /** The condition `clone_from_slice` panics on: the input does not have SIZE chars. */
  datatype WordError = LengthMismatch(expected: nat, actual: nat)

  /** Rendering of a word: its letters in order, with no separators. */
  function Display(w: Word): (r: string)
    ensures |r| == |w.letters|
    ensures Parse(r, |w.letters|) == Success(w)
  {
    w.letters
  }

  /** What building a word of `size` letters from `s` yields. */
  function Parse(s: string, size: nat): Result<Word, WordError>
  {
    if |s| == size then Success(Word(s)) else Failure(LengthMismatch(size, |s|))
  }

  /** Builds a word by copying the chars of `s` into an array pre-filled with 'a'. */
  method FromString(s: string, size: nat) returns (r: Result<Word, WordError>)
    ensures r == Parse(s, size)
    ensures r.Success? <==> |s| == size
    ensures r.Success? ==> Display(r.value) == s
    ensures r.Failure? ==> r.error == LengthMismatch(size, |s|)
  {
    if |s| != size {
      return Failure(LengthMismatch(size, |s|));
    }
    var word := new char[size](_ => 'a');
    for i := 0 to size
      invariant word[..i] == s[..i]
    {
      word[i] := s[i];
    }
    assert word[..] == word[..size] == s[..size] == s;
    return Success(Word(word[..]));
  }

  /** `From<&str>`: delegates to `FromString`. */
  method FromStr(s: string, size: nat) returns (r: Result<Word, WordError>)
    ensures r == Parse(s, size)
  {
    r := FromString(s, size);
  }

  /** `From<String>`: delegates to `FromString`. */
  method FromOwned(s: string, size: nat) returns (r: Result<Word, WordError>)
    ensures r == Parse(s, size)
  {
    r := FromString(s, size);
  }

  /** Reading a string of the right length and rendering the word gives the string back. */
  lemma DisplayParse(s: string, size: nat)
    requires |s| == size
    ensures Parse(s, size).Success? && Display(Parse(s, size).value) == s
  {
  }
}
