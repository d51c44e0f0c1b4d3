/** `get_word_count`: the word-frequency model of the past questions. */
module Frequency {
  import opened Tokens
  import opened Counters

  /** What `f` gives for each element of `s`, one result after the other. */
  function FlatMap<A, B>(s: seq<A>, f: A -> seq<B>): seq<B> {
    if s == [] then [] else FlatMap(s[..|s| - 1], f) + f(s[|s| - 1])
  }

  /** The normalised tokens of all questions, question after question. */
  function AllTokens(questions: seq<string>): seq<string> {
    FlatMap(questions, Tokenize)
  }

  /** The number of whitespace fragments over all questions. */
  function FragmentCount(questions: seq<string>): nat {
    if questions == [] then 0
    else FragmentCount(questions[..|questions| - 1]) + |Split(questions[|questions| - 1])|
  }

  /** `get_word_count(questions)`: one increment per token of every question, duplicates
      and empty tokens included. The result is the Counter of all tokens, so each count
      is that token's number of occurrences, and the counts sum to the number of
      whitespace fragments. */
  method GetWordCount(questions: seq<string>) returns (wordCount: Counter)
    ensures wordCount == FromSeq(AllTokens(questions))
    ensures Valid(wordCount)
    ensures forall t :: Get(wordCount, t) == multiset(AllTokens(questions))[t]
    ensures Total(wordCount) == FragmentCount(questions)
  {
    wordCount := Empty;
    for i := 0 to |questions|
      invariant wordCount == FromSeq(AllTokens(questions[..i]))
    {
      var words := Tokenize(questions[i]);
      wordCount := CountWords(wordCount, words, AllTokens(questions[..i]));
      AllTokensSnoc(questions, i);
    }
    assert questions[..|questions|] == questions;
    AllTokensLength(questions);
    FromSeqValid(AllTokens(questions));
    FromSeqTotal(AllTokens(questions));
  }

  /** The inner loop of `get_word_count`: `word_count[word] += 1` for each word of one
      question, on a Counter that has counted `seen` so far. */
  method CountWords(wordCount: Counter, words: seq<string>, ghost seen: seq<string>) returns (r: Counter)
    requires wordCount == FromSeq(seen)
    ensures r == FromSeq(seen + words)
    ensures Valid(r)
  {
    r := wordCount;
    assert seen + words[..0] == seen;
    for j := 0 to |words|
      invariant r == FromSeq(seen + words[..j])
    {
      AppendSlice(seen, words, j);
      FromSeqSnoc(seen + words[..j], words[j]);
      r := Add(r, words[j]);
    }
    FromSeqValid(seen + words);
    assert words[..|words|] == words;
  }

  lemma AllTokensSnoc(questions: seq<string>, i: nat)
    requires i < |questions|
    ensures AllTokens(questions[..i + 1]) == AllTokens(questions[..i]) + Tokenize(questions[i])
  {
    assert questions[..i + 1] == questions[..i] + [questions[i]];
    FlatMapSnoc(questions[..i], questions[i], Tokenize);
  }

  /** Each question contributes one token per whitespace fragment. */
  lemma {:induction false} AllTokensLength(questions: seq<string>)
    ensures |AllTokens(questions)| == FragmentCount(questions)
  {
    if questions != [] {
      AllTokensLength(questions[..|questions| - 1]);
    }
  }

  lemma AppendSlice<T>(a: seq<T>, b: seq<T>, j: nat)
    requires j < |b|
    ensures a + b[..j + 1] == (a + b[..j]) + [b[j]]
  {
    assert b[..j + 1] == b[..j] + [b[j]];
  }

  lemma FlatMapSnoc<A, B>(s: seq<A>, x: A, f: A -> seq<B>)
    ensures FlatMap(s + [x], f) == FlatMap(s, f) + f(x)
  {
    assert (s + [x])[..|s|] == s;
  }

  lemma {:induction false} FlatMapAppend<A, B>(a: seq<A>, b: seq<A>, f: A -> seq<B>)
    decreases |b|
    ensures FlatMap(a + b, f) == FlatMap(a, f) + FlatMap(b, f)
  {
    if b == [] {
      assert a + b == a;
    } else {
      var init, last := b[..|b| - 1], b[|b| - 1];
      assert b == init + [last];
      calc {
        FlatMap(a + b, f);
      == { assert a + b == (a + init) + [last]; FlatMapSnoc(a + init, last, f); }
        FlatMap(a + init, f) + f(last);
      == { FlatMapAppend(a, init, f); }
        (FlatMap(a, f) + FlatMap(init, f)) + f(last);
      == { AppendAssoc(FlatMap(a, f), FlatMap(init, f), f(last)); }
        FlatMap(a, f) + (FlatMap(init, f) + f(last));
      == { FlatMapSnoc(init, last, f); }
        FlatMap(a, f) + FlatMap(b, f);
      }
    }
  }

  lemma AppendAssoc<T>(x: seq<T>, y: seq<T>, z: seq<T>)
    ensures (x + y) + z == x + (y + z)
  {
  }

  lemma RemoveOne<T>(init: seq<T>, left: seq<T>, right: seq<T>, x: T)
    requires multiset(init + [x]) == multiset(left + ([x] + right))
    ensures multiset(init) == multiset(left + right)
  {
    assert multiset(left + ([x] + right)) == multiset(left) + multiset([x]) + multiset(right);
    assert multiset(init + [x]) == multiset(init) + multiset([x]);
    assert multiset(left + right) == multiset(left) + multiset(right);
    assert forall y :: multiset(init)[y] == multiset(left + right)[y] by {
      forall y ensures multiset(init)[y] == multiset(left + right)[y] {
        assert multiset(init + [x])[y] == multiset(left + ([x] + right))[y];
      }
    }
  }

  /** The results, as a multiset, do not depend on the order of the elements. */
  lemma {:induction false} FlatMapReordered<A, B>(s1: seq<A>, s2: seq<A>, f: A -> seq<B>)
    requires multiset(s1) == multiset(s2)
    decreases |s1|
    ensures multiset(FlatMap(s1, f)) == multiset(FlatMap(s2, f))
  {
    if s1 != [] {
      var init, x := s1[..|s1| - 1], s1[|s1| - 1];
      assert s1 == init + [x];
      assert x in multiset(s1);
      assert x in multiset(s2);
      var k :| 0 <= k < |s2| && s2[k] == x;
      var left, right := s2[..k], s2[k + 1..];
      assert s2 == left + ([x] + right);
      RemoveOne(init, left, right, x);
      calc {
        multiset(FlatMap(s1, f));
      == { FlatMapSnoc(init, x, f); }
        multiset(FlatMap(init, f) + f(x));
      ==
        multiset(FlatMap(init, f)) + multiset(f(x));
      == { FlatMapReordered(init, left + right, f); }
        multiset(FlatMap(left + right, f)) + multiset(f(x));
      == { FlatMapSplit(left, x, right, f); }
        multiset(FlatMap(s2, f));
      }
    }
  }

  /** Taking `x` out of the middle takes its results out of the multiset of results. */
  lemma FlatMapSplit<A, B>(left: seq<A>, x: A, right: seq<A>, f: A -> seq<B>)
    ensures multiset(FlatMap(left + ([x] + right), f)) == multiset(FlatMap(left + right, f)) + multiset(f(x))
  {
    FlatMapAppend(left, [x] + right, f);
    FlatMapAppend([x], right, f);
    FlatMapAppend(left, right, f);
    assert FlatMap([x], f) == f(x) by {
      assert [x][..0] == [];
    }
  }

  /** The word counts do not depend on the order of the questions. */
  lemma WordCountReordered(qs1: seq<string>, qs2: seq<string>)
    requires multiset(qs1) == multiset(qs2)
    ensures FromSeq(AllTokens(qs1)).freq == FromSeq(AllTokens(qs2)).freq
  {
    FlatMapReordered(qs1, qs2, Tokenize);
    var t1, t2 := AllTokens(qs1), AllTokens(qs2);
    var c1, c2 := FromSeq(t1), FromSeq(t2);
    forall x ensures x in c1.freq <==> x in c2.freq {
      assert x in c1.freq <==> x in Dedup(t1);
      assert x in c2.freq <==> x in Dedup(t2);
      assert x in t1 <==> x in multiset(t1);
      assert x in t2 <==> x in multiset(t2);
    }
    forall x | x in c1.freq ensures c1.freq[x] == c2.freq[x] {
      assert Get(c1, x) == Get(c2, x);
    }
  }
}
