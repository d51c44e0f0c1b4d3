/** `prediction`: the answer whose scores, summed over the pages of the first three result
    links, are highest. */
module Prediction {
  import opened Wrappers
  import opened Text
  import opened Tokens
  import opened Counters
  import opened Scoring
  import opened Records

  /** Only this many result links are looked at. */
  const LinkCap: nat := 3

  /** `links[:3]`. */
  function Considered(links: seq<string>): (r: seq<string>)
    ensures |r| == if |links| < LinkCap then |links| else LinkCap
    ensures r == links[..|r|]
  {
    if |links| <= LinkCap then links else links[..LinkCap]
  }

  /** Links to `.html` pages are passed over without being fetched. */
  predicate Skipped(link: string) {
    EndsWith(link, ".html")
  }

  /** The three running sums, or the ZeroDivisionError `score` raises on a page without
      words, which nothing in the script catches. */
  datatype Tally = Sums(a: real, b: real, c: real) | DivisionByZero

  /** A fetch: `requests.get(link)`, the HTML parser and `get_words(str(soup))` together,
      giving the words of the page, or `None` for the ConnectionError or
      ContentDecodingError the `except` clause catches. */
  type Fetch = string -> Option<seq<string>>

  /** One page's scores, `word_count = Counter(link_words)`, added to the running sums; a
      divisor of 0 raises the error. */
  function AddPage(t: Tally, words: seq<string>, la: string, lb: string, lc: string): (r: Tally)
    requires t.Sums?
    ensures r.DivisionByZero? <==> words == []
    ensures r.Sums? ==> r.a > t.a && r.b > t.b && r.c > t.c
  {
    FromSeqSize(words);
    var counts := FromSeq(words);
    if Total(counts) + Size(counts) == 0 then DivisionByZero
    else Sums(t.a + Score(counts, la), t.b + Score(counts, lb), t.c + Score(counts, lc))
  }

  /** One turn of the loop of `prediction`: a skipped link, or one whose fetch fails, adds
      nothing. */
  function Step(t: Tally, link: string, fetch: Fetch, la: string, lb: string, lc: string): (r: Tally)
    ensures t.DivisionByZero? || Skipped(link) || fetch(link).None? ==> r == t
    ensures t.Sums? && r.Sums? ==> r.a >= t.a && r.b >= t.b && r.c >= t.c
    ensures r.DivisionByZero? ==> t.DivisionByZero? || (!Skipped(link) && fetch(link) == Some([]))
  {
    if t.DivisionByZero? || Skipped(link) || fetch(link).None? then t
    else AddPage(t, fetch(link).value, la, lb, lc)
  }

  /** A page without words raises the error; any other page adds its scores. */
  lemma AddPageIs(t: Tally, words: seq<string>, la: string, lb: string, lc: string)
    requires t.Sums?
    ensures var counts := FromSeq(words);
            AddPage(t, words, la, lb, lc) ==
              if words == [] then DivisionByZero
              else Sums(t.a + Score(counts, la), t.b + Score(counts, lb), t.c + Score(counts, lc))
  {
    FromSeqSize(words);
  }

  /** One turn of the loop of `prediction`, on the running sums `x`, `y`, `z`: a skipped
      link or a failed fetch changes nothing, a fetched page adds its scores, and a page
      whose divisor is 0 raises the error, reported as `crashed`. */
  method ScoreLink(x: real, y: real, z: real, link: string, fetch: Fetch, la: string, lb: string, lc: string)
    returns (crashed: bool, x': real, y': real, z': real)
    ensures (if crashed then DivisionByZero else Sums(x', y', z')) == Step(Sums(x, y, z), link, fetch, la, lb, lc)
  {
    if !Skipped(link) {
      var linkWords := fetch(link);
      if linkWords.Some? {
        StepFetched(Sums(x, y, z), link, fetch, la, lb, lc);
        crashed, x', y', z' := ScorePage(x, y, z, linkWords.value, la, lb, lc);
        return;
      }
    }
    StepPassed(Sums(x, y, z), link, fetch, la, lb, lc);
    crashed, x', y', z' := false, x, y, z;
  }

  /** The body of the `try` block once the page's words are known: `Counter(link_words)`
      and the three scores added, or the error when the divisor is 0. */
  method ScorePage(x: real, y: real, z: real, words: seq<string>, la: string, lb: string, lc: string)
    returns (crashed: bool, x': real, y': real, z': real)
    ensures (if crashed then DivisionByZero else Sums(x', y', z')) == AddPage(Sums(x, y, z), words, la, lb, lc)
  {
    var wordCount := FromSeq(words);
    if Total(wordCount) + Size(wordCount) == 0 {
      return true, x, y, z;
    }
    crashed := false;
    x' := x + Score(wordCount, la);
    y' := y + Score(wordCount, lb);
    z' := z + Score(wordCount, lc);
  }

  /** A skipped link, or one whose fetch fails, leaves the tally as it is. */
  lemma StepPassed(t: Tally, link: string, fetch: Fetch, la: string, lb: string, lc: string)
    requires Skipped(link) || fetch(link).None?
    ensures Step(t, link, fetch, la, lb, lc) == t
  {
  }

  /** On running sums, a fetched page is added. */
  lemma StepFetched(t: Tally, link: string, fetch: Fetch, la: string, lb: string, lc: string)
    requires t.Sums? && !Skipped(link) && fetch(link).Some?
    ensures Step(t, link, fetch, la, lb, lc) == AddPage(t, fetch(link).value, la, lb, lc)
  {
  }

  /** The loop of `prediction` over `links`, from sums of 0. */
  function Run(links: seq<string>, fetch: Fetch, la: string, lb: string, lc: string): (r: Tally)
    ensures r.Sums? ==> r.a >= 0.0 && r.b >= 0.0 && r.c >= 0.0
  {
    if links == [] then Sums(0.0, 0.0, 0.0)
    else Step(Run(links[..|links| - 1], fetch, la, lb, lc), links[|links| - 1], fetch, la, lb, lc)
  }

  lemma RunSnoc(links: seq<string>, i: nat, fetch: Fetch, la: string, lb: string, lc: string)
    requires i < |links|
    ensures Run(links[..i + 1], fetch, la, lb, lc) == Step(Run(links[..i], fetch, la, lb, lc), links[i], fetch, la, lb, lc)
  {
    assert links[..i + 1][..i] == links[..i];
  }

  /** `max(a, b, c)`. */
  function Max3(x: real, y: real, z: real): real {
    if x >= y && x >= z then x else if y >= z then y else z
  }

  /** The three-way comparison at the end of `prediction`: A when its sum is a maximum,
      else B when its sum is a maximum, else C. Ties go to the earlier label. */
  function Argmax(x: real, y: real, z: real): (r: Label)
    ensures r == A <==> x >= y && x >= z
    ensures r == B <==> y > x && y >= z
    ensures r == C <==> z > x && z > y
  {
    var m := Max3(x, y, z);
    if x == m then A else if y == m then B else C
  }

  /** The value `prediction` returns, or the error it raises. */
  datatype Outcome = Predicted(answer: Label) | Crashed

  function Decide(t: Tally): (r: Outcome)
    ensures r.Crashed? <==> t.DivisionByZero?
    ensures r.Predicted? ==>
              var s := if r.answer == A then t.a else if r.answer == B then t.b else t.c;
              s >= t.a && s >= t.b && s >= t.c
  {
    if t.DivisionByZero? then Crashed else Predicted(Argmax(t.a, t.b, t.c))
  }

  /** `prediction(row)` for answers `a`, `b`, `c` and the row's result links. */
  method Predict(a: string, b: string, c: string, links: seq<string>, fetch: Fetch)
    returns (o: Outcome)
    ensures o == Decide(Run(Considered(links), fetch, Lower(a), Lower(b), Lower(c)))
  {
    var la, lb, lc := Lower(a), Lower(b), Lower(c);
    var aScore, bScore, cScore := 0.0, 0.0, 0.0;
    var considered := Considered(links);
    for i := 0 to |considered|
      invariant Run(considered[..i], fetch, la, lb, lc) == Sums(aScore, bScore, cScore)
    {
      RunSnoc(considered, i, fetch, la, lb, lc);
      var crashed;
      crashed, aScore, bScore, cScore := ScoreLink(aScore, bScore, cScore, considered[i], fetch, la, lb, lc);
      if crashed {
        RunCrashStays(considered, i + 1, fetch, la, lb, lc);
        return Crashed;
      }
    }
    assert considered[..|considered|] == considered;
    o := Predicted(Argmax(aScore, bScore, cScore));
  }

  /** Once a page has raised the error, later links change nothing. */
  lemma {:induction false} RunCrashStays(links: seq<string>, k: nat, fetch: Fetch,
                                         la: string, lb: string, lc: string)
    requires k <= |links|
    requires Run(links[..k], fetch, la, lb, lc) == DivisionByZero
    decreases |links| - k
    ensures Run(links, fetch, la, lb, lc) == DivisionByZero
  {
    if k < |links| {
      RunSnoc(links, k, fetch, la, lb, lc);
      RunCrashStays(links, k + 1, fetch, la, lb, lc);
    } else {
      assert links[..k] == links;
    }
  }

  /** The words of the pages fetched for `links`, in order: one list per link that is
      neither skipped nor failed. */
  function Pages(links: seq<string>, fetch: Fetch): (r: seq<seq<string>>)
    ensures |r| <= |links|
  {
    if links == [] then [] else Pages(links[..|links| - 1], fetch) + Fetched(links[|links| - 1], fetch)
  }

  /** The words of one link's page, if it is fetched. */
  function Fetched(link: string, fetch: Fetch): (r: seq<seq<string>>)
    ensures |r| <= 1
  {
    if !Skipped(link) && fetch(link).Some? then [fetch(link).value] else []
  }

  predicate AllHaveWords(pages: seq<seq<string>>) {
    forall i :: 0 <= i < |pages| ==> pages[i] != []
  }

  /** The sum of one answer's scores over `pages`: at most one per page, and positive as
      soon as there is a page. */
  function SumScores(pages: seq<seq<string>>, answer: string): (r: real)
    requires AllHaveWords(pages)
    ensures 0.0 <= r <= |pages| as real
    ensures |pages| > 0 ==> r > 0.0
  {
    if pages == [] then 0.0
    else
      var init, last := pages[..|pages| - 1], pages[|pages| - 1];
      assert forall i :: 0 <= i < |init| ==> init[i] == pages[i];
      FromSeqValid(last);
      FromSeqSize(last);
      ScoreBounds(FromSeq(last), answer);
      SumScores(init, answer) + Score(FromSeq(last), answer)
  }

  /** The loop raises the error exactly when some fetched page has no word; otherwise each
      sum is that answer's scores added over the fetched pages. */
  lemma {:induction false} RunSums(links: seq<string>, fetch: Fetch, la: string, lb: string, lc: string)
    ensures var pages := Pages(links, fetch);
            Run(links, fetch, la, lb, lc) ==
              if AllHaveWords(pages) then Sums(SumScores(pages, la), SumScores(pages, lb), SumScores(pages, lc))
              else DivisionByZero
  {
    if links != [] {
      var init, link := links[..|links| - 1], links[|links| - 1];
      RunSums(init, fetch, la, lb, lc);
      var p0 := Pages(init, fetch);
      if Fetched(link, fetch) != [] {
        PageAdded(p0, fetch(link).value, Run(init, fetch, la, lb, lc), la, lb, lc);
      } else {
        assert Pages(links, fetch) == p0;
      }
    }
  }

  /** The induction step of `RunSums` for a fetched page. */
  lemma PageAdded(p0: seq<seq<string>>, words: seq<string>, t: Tally, la: string, lb: string, lc: string)
    requires t == if AllHaveWords(p0) then Sums(SumScores(p0, la), SumScores(p0, lb), SumScores(p0, lc))
                  else DivisionByZero
    ensures var p := p0 + [words];
            (if t.DivisionByZero? then t else AddPage(t, words, la, lb, lc)) ==
              if AllHaveWords(p) then Sums(SumScores(p, la), SumScores(p, lb), SumScores(p, lc))
              else DivisionByZero
  {
    AllHaveWordsSnoc(p0, words);
    if AllHaveWords(p0) && words != [] {
      PageAddedSums(p0, words, la, lb, lc);
    } else if AllHaveWords(p0) {
      AddPageIs(t, words, la, lb, lc);
    }
  }

  /** A page with words, after pages that all have words, adds its scores to the sums. */
  lemma PageAddedSums(p0: seq<seq<string>>, words: seq<string>, la: string, lb: string, lc: string)
    requires AllHaveWords(p0) && words != []
    ensures AllHaveWords(p0 + [words])
    ensures AddPage(Sums(SumScores(p0, la), SumScores(p0, lb), SumScores(p0, lc)), words, la, lb, lc) ==
            Sums(SumScores(p0 + [words], la), SumScores(p0 + [words], lb), SumScores(p0 + [words], lc))
  {
    AllHaveWordsSnoc(p0, words);
    var t := Sums(SumScores(p0, la), SumScores(p0, lb), SumScores(p0, lc));
    var c := FromSeq(words);
    AddPageIs(t, words, la, lb, lc);
    assert AddPage(t, words, la, lb, lc) == Sums(t.a + Score(c, la), t.b + Score(c, lb), t.c + Score(c, lc));
    SumScoresSnoc(p0, words, la);
    SumScoresSnoc(p0, words, lb);
    SumScoresSnoc(p0, words, lc);
  }

  lemma AllHaveWordsSnoc(p0: seq<seq<string>>, words: seq<string>)
    ensures AllHaveWords(p0 + [words]) <==> AllHaveWords(p0) && words != []
  {
    var p := p0 + [words];
    assert forall i :: 0 <= i < |p0| ==> p[i] == p0[i];
    assert p[|p0|] == words;
  }

  lemma SumScoresSnoc(p0: seq<seq<string>>, words: seq<string>, answer: string)
    requires AllHaveWords(p0 + [words])
    ensures AllHaveWords(p0) && Total(FromSeq(words)) + Size(FromSeq(words)) > 0
    ensures SumScores(p0 + [words], answer) == SumScores(p0, answer) + Score(FromSeq(words), answer)
  {
    AllHaveWordsSnoc(p0, words);
    FromSeqSize(words);
    assert (p0 + [words])[..|p0|] == p0;
  }

  /** When no page is fetched (every link skipped or failing, or no link at all) all sums
      stay 0 and the prediction is A. */
  lemma NothingFetched(links: seq<string>, fetch: Fetch, a: string, b: string, c: string)
    requires Pages(Considered(links), fetch) == []
    ensures Run(Considered(links), fetch, Lower(a), Lower(b), Lower(c)) == Sums(0.0, 0.0, 0.0)
    ensures Decide(Run(Considered(links), fetch, Lower(a), Lower(b), Lower(c))) == Predicted(A)
  {
    RunSums(Considered(links), fetch, Lower(a), Lower(b), Lower(c));
  }

  /** Without the error, each sum lies between 0 and the number of fetched pages, which is
      at most three, and is 0 exactly when no page was fetched. */
  lemma SumsBounded(links: seq<string>, fetch: Fetch, a: string, b: string, c: string)
    requires Run(Considered(links), fetch, Lower(a), Lower(b), Lower(c)).Sums?
    ensures var t := Run(Considered(links), fetch, Lower(a), Lower(b), Lower(c));
            var n := |Pages(Considered(links), fetch)|;
            n <= LinkCap &&
            0.0 <= t.a <= n as real && 0.0 <= t.b <= n as real && 0.0 <= t.c <= n as real &&
            (t.a == 0.0 <==> n == 0) && (t.b == 0.0 <==> n == 0) && (t.c == 0.0 <==> n == 0)
  {
    RunSums(Considered(links), fetch, Lower(a), Lower(b), Lower(c));
  }

  /** Argmax depends only on how the three values compare. */
  lemma ArgmaxByOrder(x: real, y: real, z: real, x': real, y': real, z': real)
    requires (x < y <==> x' < y') && (y < x <==> y' < x')
    requires (x < z <==> x' < z') && (z < x <==> z' < x')
    requires (y < z <==> y' < z') && (z < y <==> z' < y')
    ensures Argmax(x, y, z) == Argmax(x', y', z')
  {
  }

  /** With exactly one fetched page, and that page holding words, the prediction is the
      answer occurring most often among the page's words, ties going to the earlier label. */
  lemma OnePageDecision(links: seq<string>, fetch: Fetch, a: string, b: string, c: string, words: seq<string>)
    requires Pages(Considered(links), fetch) == [words]
    requires words != []
    ensures var m := multiset(words);
            Decide(Run(Considered(links), fetch, Lower(a), Lower(b), Lower(c))) ==
              Predicted(Argmax(m[Lower(a)] as real, m[Lower(b)] as real, m[Lower(c)] as real))
  {
    OnePageRun(Considered(links), fetch, Lower(a), Lower(b), Lower(c), words);
  }

  lemma OnePageRun(links: seq<string>, fetch: Fetch, la: string, lb: string, lc: string, words: seq<string>)
    requires Pages(links, fetch) == [words]
    requires words != []
    ensures var m := multiset(words);
            Decide(Run(links, fetch, la, lb, lc)) ==
              Predicted(Argmax(m[la] as real, m[lb] as real, m[lc] as real))
  {
    var counts := FromSeq(words);
    RunSums(links, fetch, la, lb, lc);
    OnePageSum(words, la);
    OnePageSum(words, lb);
    OnePageSum(words, lc);
    assert Run(links, fetch, la, lb, lc) == Sums(Score(counts, la), Score(counts, lb), Score(counts, lc));
    FromSeqSize(words);
    ScoresArgmax(counts, la, lb, lc);
  }

  /** Over one page, the sum of an answer's scores is its score on that page. */
  lemma OnePageSum(words: seq<string>, answer: string)
    requires words != []
    ensures AllHaveWords([words])
    ensures SumScores([words], answer) == Score(FromSeq(words), answer)
  {
    assert [words][..0] == [];
  }

  /** On one page, the answer with the highest score is the one with the highest count. */
  lemma ScoresArgmax(counts: Counter, la: string, lb: string, lc: string)
    requires Total(counts) + Size(counts) > 0
    ensures Argmax(Score(counts, la), Score(counts, lb), Score(counts, lc)) ==
            Argmax(Get(counts, la) as real, Get(counts, lb) as real, Get(counts, lc) as real)
  {
    ScoreOrder(counts, la, lb);
    ScoreOrder(counts, lb, la);
    ScoreOrder(counts, la, lc);
    ScoreOrder(counts, lc, la);
    ScoreOrder(counts, lb, lc);
    ScoreOrder(counts, lc, lb);
    ArgmaxByOrder(Score(counts, la), Score(counts, lb), Score(counts, lc),
                  Get(counts, la) as real, Get(counts, lb) as real, Get(counts, lc) as real);
  }

  /** The words of a page are runs of `a`-`z`, so an answer that is empty or holds another
      character once lower-cased (a space between two words, a digit, a hyphen) is never
      counted, and scores exactly what any word absent from the page scores. */
  lemma UnmatchableAnswer(page: string, answer: string)
    requires GetWords(page) != []
    requires answer == [] || exists i :: 0 <= i < |answer| && !IsLowerLetter(answer[i])
    ensures Get(FromSeq(GetWords(page)), answer) == 0
    ensures var counts := FromSeq(GetWords(page));
            Score(counts, answer) == Ratio(1, Total(counts) + Size(counts))
  {
    var ws := GetWords(page);
    assert forall k :: 0 <= k < |ws| ==> ws[k] != answer;
    assert answer !in multiset(ws);
    FromSeqSize(ws);
    ScoreAbsent(FromSeq(ws), answer);
  }

  /** On one page the score is the smoothed frequency of the word among the page's words:
      its occurrences plus one, over the number of words plus the number of distinct
      words. */
  lemma PageScore(words: seq<string>, answer: string)
    requires words != []
    ensures Score(FromSeq(words), answer) == Ratio(multiset(words)[answer] + 1, |words| + |Dedup(words)|)
  {
    PageScoreIs(words, answer, |words| + |Dedup(words)|);
  }

  lemma PageScoreIs(words: seq<string>, answer: string, d: nat)
    requires words != [] && d == |words| + |Dedup(words)|
    ensures d > 0 && Score(FromSeq(words), answer) == Ratio(multiset(words)[answer] + 1, d)
  {
    FromSeqSize(words);
    FromSeqTotal(words);
    ScoreIs(FromSeq(words), answer, multiset(words)[answer] + 1, d);
  }
}
