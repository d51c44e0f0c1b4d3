/** The two tokenisers of the script: the question normaliser of `get_word_count` and
    `get_search_terms` (split on whitespace, lower-case, delete every character outside
    `[0-9a-z*]`) and `get_words` (the maximal runs of `[a-z]` in the lower-cased text). */
module Tokens {
  import opened Text

  /** The class `[0-9a-z*]` of `re.sub('[^0-9a-z*]', '', …)`. */
  predicate IsTokenChar(ch: char) {
    IsDigit(ch) || IsLowerLetter(ch) || ch == '*'
  }

  predicate NotSpace(ch: char) { !IsSpace(ch) }

  /** `text.split()`: the maximal runs of non-whitespace characters. */
  function Split(text: string): (r: seq<string>)
    ensures forall i :: 0 <= i < |r| ==> r[i] != [] && forall j :: 0 <= j < |r[i]| ==> !IsSpace(r[i][j])
  {
    Runs(text, NotSpace)
  }

  /** `re.sub('[^0-9a-z*]', '', fragment.lower())`. */
  function Normalize(fragment: string): (r: string)
    ensures |r| <= |fragment|
    ensures forall i :: 0 <= i < |r| ==> IsTokenChar(r[i])
  {
    Keep(Lower(fragment), IsTokenChar)
  }

  /** The normalised words of a question: one token per whitespace fragment, in order,
      empty tokens included. */
  function Tokenize(text: string): (r: seq<string>)
    ensures |r| == |Split(text)|
    ensures forall i :: 0 <= i < |r| ==> r[i] == Normalize(Split(text)[i])
    ensures forall i, j :: 0 <= i < |r| && 0 <= j < |r[i]| ==> IsTokenChar(r[i][j])
  {
    var fragments := Split(text);
    seq(|fragments|, i requires 0 <= i < |fragments| => Normalize(fragments[i]))
  }

  /** A fragment normalises to the empty token exactly when its lower-cased form has no
      character of `[0-9a-z*]`, as an all-punctuation fragment does. */
  lemma NormalizeEmpty(fragment: string)
    ensures Normalize(fragment) == "" <==>
            forall i :: 0 <= i < |fragment| ==> !IsTokenChar(LowerChar(fragment[i]))
  {
    KeepNone(Lower(fragment), IsTokenChar);
  }

  /** A fragment is left as it is exactly when it already consists of token characters. */
  lemma NormalizeFixpoint(fragment: string)
    ensures Normalize(fragment) == fragment <==>
            forall i :: 0 <= i < |fragment| ==> IsTokenChar(fragment[i])
  {
    if forall i :: 0 <= i < |fragment| ==> IsTokenChar(fragment[i]) {
      LowerNoUpper(fragment);
      KeepAll(fragment, IsTokenChar);
    }
  }

  /** Normalising twice is normalising once. */
  lemma NormalizeIdempotent(fragment: string)
    ensures Normalize(Normalize(fragment)) == Normalize(fragment)
  {
    NormalizeFixpoint(Normalize(fragment));
  }

  /** Splitting a space-joined list of non-empty, whitespace-free fragments gives them back. */
  lemma SplitJoin(fragments: seq<string>)
    requires forall i :: 0 <= i < |fragments| ==>
               fragments[i] != [] && forall j :: 0 <= j < |fragments[i]| ==> !IsSpace(fragments[i][j])
    ensures Split(Join(fragments, ' ')) == fragments
  {
    RunsOfJoin(fragments, ' ', NotSpace);
  }

  /** `get_words(text)`: `re.findall('[a-z]+', text.lower())`. */
  function GetWords(text: string): (r: seq<string>)
    ensures forall i :: 0 <= i < |r| ==> r[i] != [] && forall j :: 0 <= j < |r[i]| ==> IsLowerLetter(r[i][j])
  {
    Runs(Lower(text), IsLowerLetter)
  }

  /** The words hold every letter of the lower-cased text, in order, and nothing else. */
  lemma GetWordsLetters(text: string)
    ensures Concat(GetWords(text)) == Keep(Lower(text), IsLowerLetter)
  {
    RunsCoverKept(Lower(text), IsLowerLetter);
  }

  /** Words of lower-case letters joined by spaces are found again by `get_words`. */
  lemma GetWordsJoin(words: seq<string>)
    requires forall i :: 0 <= i < |words| ==>
               words[i] != [] && forall j :: 0 <= j < |words[i]| ==> IsLowerLetter(words[i][j])
    ensures GetWords(Join(words, ' ')) == words
  {
    JoinLetters(words);
    LowerNoUpper(Join(words, ' '));
    RunsOfJoin(words, ' ', IsLowerLetter);
  }

  /** A word of lower-case letters followed by any character that is not a letter is found
      whole, and the scan goes on after that character: the words are the maximal runs of
      letters. */
  lemma GetWordsSeparator(w: string, sep: char, rest: string)
    requires w != [] && forall j :: 0 <= j < |w| ==> IsLowerLetter(w[j])
    requires !IsLowerLetter(LowerChar(sep))
    ensures GetWords(w + [sep] + rest) == [w] + GetWords(rest)
  {
    LowerNoUpper(w);
    LowerAppend(w, [sep], rest);
    RunThenSeparator(w, LowerChar(sep), Lower(rest), IsLowerLetter);
  }

  lemma LowerAppend(w: string, m: string, rest: string)
    requires |m| == 1
    ensures Lower(w + m + rest) == Lower(w) + [LowerChar(m[0])] + Lower(rest)
  {
    var s := w + m + rest;
    assert forall i :: |w| < i < |s| ==> s[i] == rest[i - |w| - 1];
  }

  lemma {:induction false} JoinLetters(words: seq<string>)
    requires forall i :: 0 <= i < |words| ==>
               forall j :: 0 <= j < |words[i]| ==> IsLowerLetter(words[i][j])
    ensures forall k :: 0 <= k < |Join(words, ' ')| ==> !IsUpper(Join(words, ' ')[k])
  {
    if |words| > 1 {
      JoinLetters(words[1..]);
      var w, rest := words[0], Join(words[1..], ' ');
      assert Join(words, ' ') == w + [' '] + rest;
      forall k | 0 <= k < |Join(words, ' ')| ensures !IsUpper(Join(words, ' ')[k]) {
        if k < |w| {
          assert Join(words, ' ')[k] == w[k];
        } else if k > |w| {
          assert Join(words, ' ')[k] == rest[k - |w| - 1];
        }
      }
    }
  }
}
