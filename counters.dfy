/** Python's `dict` from strings to counts, in the form `collections.Counter` gives it:
    insertion-ordered keys and a value per key. The script uses three of them: the word
    count of past questions, the per-question `question_dict`, and the per-page
    `Counter(link_words)`. */
module Counters {

  /** `keys` lists the keys in insertion order, the order in which `items()` and
      `values()` visit them; `freq` gives each key's value. */
  datatype Counter = Counter(keys: seq<string>, freq: map<string, nat>)

  /** No string occurs twice in `s`. */
  ghost predicate Distinct(s: seq<string>) {
    s == [] || (Distinct(s[..|s| - 1]) && s[|s| - 1] !in s[..|s| - 1])
  }

  /** No key is listed twice, and the listed keys are exactly the keys of `freq`. */
  ghost predicate Valid(c: Counter) {
    Distinct(c.keys) && forall k :: k in c.freq <==> k in c.keys
  }

  /** `Counter()` and `dict()`. */
  const Empty: Counter := Counter([], map[])

  /** `c[k]` on a Counter: a missing key reads as 0 and is not inserted. */
  function Get(c: Counter, k: string): nat {
    if k in c.freq then c.freq[k] else 0
  }

  /** `len(c)`. */
  function Size(c: Counter): nat {
    |c.keys|
  }

  /** `sum(c.values())`. */
  function Total(c: Counter): nat {
    SumOver(c.keys, c)
  }

  function SumOver(ks: seq<string>, c: Counter): nat {
    if ks == [] then 0 else SumOver(ks[..|ks| - 1], c) + Get(c, ks[|ks| - 1])
  }

  /** `c[k] = v`: a new key goes to the end of the iteration order, an existing key
      keeps its place; only the value at `k` changes. */
  function Put(c: Counter, k: string, v: nat): (r: Counter)
    ensures forall x :: Get(r, x) == if x == k then v else Get(c, x)
  {
    Counter(if k in c.freq then c.keys else c.keys + [k], c.freq[k := v])
  }

  /** `c[k] += 1`: the count of `k` grows by one, and every other count stays. */
  function Add(c: Counter, k: string): (r: Counter)
    ensures forall x :: Get(r, x) == Get(c, x) + if x == k then 1 else 0
  {
    Put(c, k, Get(c, k) + 1)
  }

  /** `c[k] = v` keeps the dict well formed, and the sum of its values changes by the
      difference between the new and the old value at `k`. */
  lemma PutValid(c: Counter, k: string, v: nat)
    requires Valid(c)
    ensures Valid(Put(c, k, v))
    ensures Total(Put(c, k, v)) + Get(c, k) == Total(c) + v
  {
    var r := Put(c, k, v);
    SumOverUpdate(c.keys, c, r, k);
    assert (c.keys + [k])[..|c.keys|] == c.keys;
  }

  /** `c[k] += 1` keeps the dict well formed and adds one to the sum of its values. */
  lemma AddValid(c: Counter, k: string)
    requires Valid(c)
    ensures Valid(Add(c, k))
    ensures Total(Add(c, k)) == Total(c) + 1
  {
    PutValid(c, k, Get(c, k) + 1);
  }

  /** Changing the value at one key changes a sum over distinct keys by that difference
      only when the key is among them. */
  lemma {:induction false} SumOverUpdate(ks: seq<string>, c: Counter, d: Counter, k: string)
    requires Distinct(ks)
    requires forall x :: x != k ==> Get(c, x) == Get(d, x)
    ensures SumOver(ks, d) + (if k in ks then Get(c, k) else 0)
         == SumOver(ks, c) + (if k in ks then Get(d, k) else 0)
  {
    if ks != [] {
      var init := ks[..|ks| - 1];
      SumOverUpdate(init, c, d, k);
      assert ks == init + [ks[|ks| - 1]];
      assert k == ks[|ks| - 1] ==> k !in init;
    }
  }

  lemma {:induction false} SumOverAtLeast(ks: seq<string>, c: Counter, k: string)
    requires k in ks
    ensures Get(c, k) <= SumOver(ks, c)
  {
    var init := ks[..|ks| - 1];
    if k != ks[|ks| - 1] {
      assert ks == init + [ks[|ks| - 1]];
      SumOverAtLeast(init, c, k);
    }
  }

  /** No count exceeds the sum of all counts. */
  lemma GetAtMostTotal(c: Counter, k: string)
    requires Valid(c)
    ensures Get(c, k) <= Total(c)
  {
    if k in c.keys {
      SumOverAtLeast(c.keys, c, k);
    }
  }

  /** Index of the first occurrence of `x` in `s`. */
  function FirstIndex(s: seq<string>, x: string): (r: nat)
    requires x in s
    ensures r < |s| && s[r] == x
    ensures forall j :: 0 <= j < r ==> s[j] != x
  {
    var init := s[..|s| - 1];
    if x in init then FirstIndex(init, x) else |s| - 1
  }

  /** Every element of `r` occurs in `s`, and `r` lists them in the order of their first
      occurrences in `s`. */
  ghost predicate FirstOccurrenceOrder(r: seq<string>, s: seq<string>) {
    (forall x :: x in r ==> x in s) &&
    forall i, j :: 0 <= i < j < |r| ==> FirstIndex(s, r[i]) < FirstIndex(s, r[j])
  }

  /** Dropping the last element keeps the order, and the last element comes after the others. */
  lemma OrderInit(r: seq<string>, s: seq<string>)
    requires r != [] && FirstOccurrenceOrder(r, s)
    ensures FirstOccurrenceOrder(r[..|r| - 1], s)
    ensures r[|r| - 1] in s
    ensures forall i :: 0 <= i < |r| - 1 ==> FirstIndex(s, r[i]) < FirstIndex(s, r[|r| - 1])
  {
    var init := r[..|r| - 1];
    assert forall i :: 0 <= i < |init| ==> init[i] == r[i];
    assert r[|r| - 1] in r;
  }

  /** An element whose first occurrence comes after those of all of `r` extends the order. */
  lemma OrderSnoc(r: seq<string>, x: string, s: seq<string>)
    requires FirstOccurrenceOrder(r, s) && x in s
    requires forall i :: 0 <= i < |r| ==> FirstIndex(s, r[i]) < FirstIndex(s, x)
    ensures FirstOccurrenceOrder(r + [x], s)
  {
    var r' := r + [x];
    assert forall i :: 0 <= i < |r| ==> r'[i] == r[i];
    forall y | y in r' ensures y in s {
      if y != x {
        assert y in r;
      }
    }
  }

  /** The distinct elements of `s`, as a dict filled from `s` lists its keys. */
  function Dedup(s: seq<string>): (r: seq<string>)
    ensures forall x :: x in r <==> x in s
  {
    if s == [] then []
    else
      var init, last := s[..|s| - 1], s[|s| - 1];
      var d := Dedup(init);
      assert s == init + [last];
      if last in d then d else d + [last]
  }

  /** A dict filled from `s` lists no key twice. */
  lemma {:induction false} DedupDistinct(s: seq<string>)
    ensures Distinct(Dedup(s))
  {
    if s != [] {
      var init, last := s[..|s| - 1], s[|s| - 1];
      DedupDistinct(init);
      assert s == init + [last];
    }
  }

  /** A dict filled from `s` lists its keys in the order of their first occurrence in `s`. */
  lemma {:induction false} DedupOrder(s: seq<string>)
    ensures FirstOccurrenceOrder(Dedup(s), s)
  {
    if s != [] {
      var init, last := s[..|s| - 1], s[|s| - 1];
      DedupOrder(init);
      assert s == init + [last];
      assert forall x :: x in init ==> FirstIndex(s, x) == FirstIndex(init, x) < |init|;
    }
  }

  /** A dict filled from `s` has no more keys than `s` has elements. */
  lemma {:induction false} DedupLength(s: seq<string>)
    ensures |Dedup(s)| <= |s|
  {
    if s != [] {
      DedupLength(s[..|s| - 1]);
    }
  }

  /** `Counter(ws)`: the keys are the distinct strings of `ws` in order of first
      occurrence, and the count of each string is its number of occurrences in `ws`. */
  function FromSeq(ws: seq<string>): (r: Counter)
    ensures forall x :: Get(r, x) == multiset(ws)[x]
  {
    Counter(Dedup(ws), Occurrences(ws))
  }

  /** Each string of `ws` mapped to its number of occurrences. */
  function Occurrences(ws: seq<string>): map<string, nat> {
    map x | x in ws :: multiset(ws)[x]
  }

  /** `Counter(ws)` is a well-formed dict. */
  lemma FromSeqValid(ws: seq<string>)
    ensures Valid(FromSeq(ws))
  {
    DedupDistinct(ws);
  }

  /** `len(Counter(ws))` is the number of distinct strings of `ws`, 0 exactly when `ws`
      is empty. */
  lemma FromSeqSize(ws: seq<string>)
    ensures Size(FromSeq(ws)) == |Dedup(ws)|
    ensures Size(FromSeq(ws)) == 0 <==> ws == []
  {
    assert ws != [] ==> ws[0] in Dedup(ws);
  }

  /** Counting one more string is `c[w] += 1` on the Counter of the strings before it:
      the way `Counter(ws)` fills itself, one string at a time. */
  lemma FromSeqSnoc(s: seq<string>, w: string)
    ensures FromSeq(s + [w]) == Add(FromSeq(s), w)
  {
    OccurrencesDomain(s, w);
    FromSeqShape(s, w);
  }

  lemma FromSeqShape(s: seq<string>, w: string)
    ensures FromSeq(s + [w]) ==
            Counter(if w in s then Dedup(s) else Dedup(s) + [w], Occurrences(s)[w := multiset(s)[w] + 1])
  {
    DedupSnoc(s, w);
    OccurrencesSnoc(s, w);
  }

  lemma OccurrencesDomain(s: seq<string>, w: string)
    ensures w in Occurrences(s) <==> w in s
  {
  }

  lemma DedupSnoc(s: seq<string>, w: string)
    ensures Dedup(s + [w]) == if w in s then Dedup(s) else Dedup(s) + [w]
  {
    assert (s + [w])[..|s|] == s;
  }

  lemma OccurrencesSnoc(s: seq<string>, w: string)
    ensures Occurrences(s + [w]) == Occurrences(s)[w := multiset(s)[w] + 1]
  {
    var f, g := Occurrences(s + [w]), Occurrences(s)[w := multiset(s)[w] + 1];
    assert multiset(s + [w]) == multiset(s) + multiset{w};
    forall x ensures x in f <==> x in g {
      assert x in s + [w] <==> x in s || x == w;
    }
    forall x | x in f ensures f[x] == g[x] {
      assert f[x] == multiset(s + [w])[x];
    }
  }

  /** The counts of `Counter(ws)` sum to `|ws|`. */
  lemma {:induction false} FromSeqTotal(ws: seq<string>)
    ensures Total(FromSeq(ws)) == |ws|
  {
    if ws != [] {
      var init := ws[..|ws| - 1];
      assert ws == init + [ws[|ws| - 1]];
      FromSeqTotal(init);
      FromSeqSnoc(init, ws[|ws| - 1]);
      FromSeqValid(init);
      AddValid(FromSeq(init), ws[|ws| - 1]);
    }
  }
}
