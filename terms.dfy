/** `get_search_terms`: the tokens of a new question that were rare in past questions. */
module SearchTerms {
  import opened Tokens
  import opened Counters

  /** A token is rare when past questions used it fewer than this many times. */
  const RareThreshold: nat := 20

  /** `[k for k, v in d.items() if v < RareThreshold]`, over the keys `ks` of `d` in order. */
  function RareKeys(ks: seq<string>, d: Counter): (r: seq<string>)
    ensures forall x :: x in r <==> x in ks && Get(d, x) < RareThreshold
    ensures Distinct(ks) ==> Distinct(r)
  {
    if ks == [] then []
    else
      var init, last := ks[..|ks| - 1], ks[|ks| - 1];
      var r0 := RareKeys(init, d);
      assert ks == init + [last];
      if Get(d, last) < RareThreshold then
        assert (r0 + [last])[..|r0|] == r0;
        r0 + [last]
      else r0
  }

  /** Filtering keeps the order of first occurrences. */
  lemma {:induction false} RareKeysOrder(ks: seq<string>, d: Counter, s: seq<string>)
    requires FirstOccurrenceOrder(ks, s)
    ensures FirstOccurrenceOrder(RareKeys(ks, d), s)
  {
    if ks != [] {
      var init, last := ks[..|ks| - 1], ks[|ks| - 1];
      OrderInit(ks, s);
      RareKeysOrder(init, d, s);
      var r0 := RareKeys(init, d);
      if Get(d, last) < RareThreshold {
        forall i | 0 <= i < |r0| ensures FirstIndex(s, r0[i]) < FirstIndex(s, last) {
          assert r0[i] in init;
          var p :| 0 <= p < |init| && init[p] == r0[i];
          assert ks[p] == r0[i];
        }
        OrderSnoc(r0, last, s);
      }
    }
  }

  /** One turn of the loop that fills `question_dict`. */
  lemma QuestionDictStep(words: seq<string>, i: nat, q: Counter, wordCount: Counter)
    requires i < |words|
    requires Valid(q) && q.keys == Dedup(words[..i])
    requires forall k :: Get(q, k) == if k in words[..i] then Get(wordCount, k) else 0
    ensures var q' := Put(q, words[i], Get(wordCount, words[i]));
            Valid(q') && q'.keys == Dedup(words[..i + 1]) &&
            forall k :: Get(q', k) == if k in words[..i + 1] then Get(wordCount, k) else 0
  {
    assert words[..i + 1] == words[..i] + [words[i]];
    PutValid(q, words[i], Get(wordCount, words[i]));
    PutKeys(words[..i], words[i], q, Get(wordCount, words[i]));
    PutCopies(words[..i], words[i], q, wordCount);
  }

  /** Recording a word keeps the keys those of a dict filled from the words so far. */
  lemma PutKeys(seen: seq<string>, w: string, q: Counter, v: nat)
    requires Valid(q) && q.keys == Dedup(seen)
    ensures Put(q, w, v).keys == Dedup(seen + [w])
  {
    DedupSnoc(seen, w);
    assert w in q.freq <==> w in seen;
  }

  /** Recording a word's count keeps every value the count of a word seen so far. */
  lemma PutCopies(seen: seq<string>, w: string, q: Counter, wordCount: Counter)
    requires forall k :: Get(q, k) == if k in seen then Get(wordCount, k) else 0
    ensures forall k :: Get(Put(q, w, Get(wordCount, w)), k) == if k in seen + [w] then Get(wordCount, k) else 0
  {
    forall k ensures Get(Put(q, w, Get(wordCount, w)), k) == if k in seen + [w] then Get(wordCount, k) else 0 {
      assert k in seen + [w] <==> k in seen || k == w;
    }
  }

  /** `get_search_terms(question, word_count)`: the distinct tokens of `question` that
      `wordCount` counts fewer than 20 times (a token it lacks counts 0), in the order of
      their first occurrence in the question. `wordCount` is only read. */
  method GetSearchTerms(question: string, wordCount: Counter) returns (terms: seq<string>)
    ensures forall t :: t in terms <==> t in Tokenize(question) && Get(wordCount, t) < RareThreshold
    ensures Distinct(terms)
    ensures FirstOccurrenceOrder(terms, Tokenize(question))
  {
    var words := Tokenize(question);
    var questionDict := Empty;
    for i := 0 to |words|
      invariant Valid(questionDict)
      invariant questionDict.keys == Dedup(words[..i])
      invariant forall k :: Get(questionDict, k) == if k in words[..i] then Get(wordCount, k) else 0
    {
      QuestionDictStep(words, i, questionDict, wordCount);
      questionDict := Put(questionDict, words[i], Get(wordCount, words[i]));
    }
    assert words[..|words|] == words;
    terms := RareKeys(questionDict.keys, questionDict);
    DedupOrder(words);
    RareKeysOrder(questionDict.keys, questionDict, words);
  }
}
