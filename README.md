# hqtrivia: a verified model of the answering pipeline

`hqtrivia.py` tries to answer three-way trivia questions. It reads past questions from
tweets of four lines: the question, then answers A, B and C, the correct one marked with
`✓`. It builds a word count over the past questions, picks the rare words of a new
question as search terms, extracts result links from the search page, and fetches up to
three linked pages. It then scores each answer by its Laplace-smoothed frequency among
each page's words, and predicts the answer with the highest total.

This project models that counting and deciding layer in Dafny and proves what each step
promises. The modules follow the steps of the pipeline:

- `Text` holds the string primitives: ASCII lower-casing, character filters, maximal runs,
  `split('\n')`, `endswith`, slicing.
- `Tokens` has the question normaliser and `get_words`.
- `Counters` models Python's insertion-ordered `dict` and `Counter`.
- `Frequency` is `get_word_count`.
- `SearchTerms` is `get_search_terms`.
- `Links` is `get_links`.
- `Scoring` is `score`.
- `Records` covers the four-line filter, `correct_answer` and `answers_only`.
- `Prediction` is the loop and decision of `prediction`.

The imperative parts of the script are methods with loops, proved against specification
functions:
- `get_word_count` and its `Counter` increments;
- the loop that fills `question_dict`;
- the three running totals of `prediction`.

The row operations are a `Row` class whose methods update its fields in place. The rest
consists of functions and lemmas.

A page fetch (`requests.get`, the HTML parser and `get_words(str(soup))`) is a parameter
`fetch: string -> Option<seq<string>>`. It gives the words of the page, or `None` for the
ConnectionError or ContentDecodingError that the `except` clause catches. A fetched page
with no word at all gives `score` a divisor of 0. The model keeps that ZeroDivisionError
as the outcome `Crashed`, because nothing in the script catches it.

## Model

| member | source | states |
|---|---|---|
| Text.Lines | hqtrivia.py:186 | `split('\n')` gives one more piece than there are line breaks; no piece holds a line break; the pieces joined by `\n` give the text back |
| Text.Lower | hqtrivia.py:80 | `lower()` keeps the length, lower-cases each upper-case ASCII letter and changes no other character, so no upper-case letter is left |
| Text.DropFirst | hqtrivia.py:50-52 | `s[n:]` is `s` without its first `n` characters, or empty when `s` is shorter |
| Text.DropLast | hqtrivia.py:63-69 | `s[:-n]` is the prefix of `s` that is `n` characters shorter, or empty when `s` is shorter |
| Records.FourLineTweets | hqtrivia.py:186 | there are no more rows than tweets, and every row has four lines |
| Records.FourLineTweetsAppend | hqtrivia.py:186 | the filter works tweet by tweet: filtering two lists one after the other gives the rows of each in order, so a repeated tweet gives a row each time |
| Records.FourLineTweet | hqtrivia.py:186 | a single tweet gives exactly its lines as a row when it holds three line breaks, and no row otherwise |
| Records.FourLineTweetsRows | hqtrivia.py:186 | every row comes from a tweet of the input and is exactly that tweet's lines |
| Records.FourLineTweetsComplete | hqtrivia.py:186 | a tweet's lines are a row exactly when the tweet holds three line breaks |
| Records.Row.constructor | hqtrivia.py:187-190 | a new row holds the four lines as Question, A, B and C, with no correct label yet |
| Records.Row.CorrectAnswer | hqtrivia.py:56-70 | A is correct when it ends in `✓`, else B when it does, else C even without a mark; only the chosen answer loses its last two characters; the question and the other answers are unchanged |
| Records.Row.AnswersOnly | hqtrivia.py:46-53 | each answer loses its first three characters; the question and the label are unchanged |
| Records.Marked | hqtrivia.py:61 | `endswith('✓')` holds exactly when the last character is the check mark |
| Records.Unmark | hqtrivia.py:63 | `[:-2]` is the prefix two characters shorter, or empty for a shorter string |
| Records.Unnumber | hqtrivia.py:50 | `[3:]` is the suffix three characters shorter, or empty for a shorter string |
| Records.ParseFields | hqtrivia.py:46-70 | the two row passes keep the question; A is correct exactly when it is marked, B exactly when A is not and B is, else C; every answer loses its number, and only the correct one also loses its mark |
| Records.ParseRow | hqtrivia.py:187-192 | building a row and applying `correct_answer` and then `answers_only` gives the record `ParseFields` describes |
| Records.ParseRendered | hqtrivia.py:46-70 | for any record, rendering it as a tweet (three-character numbers, `✓` on the correct answer) and parsing it gives the record back, provided no answer that `correct_answer` tests before the correct one ends in `✓` behind its number |
| Records.UnmarkedMeansC | hqtrivia.py:67-69 | with no mark on A or B, C is taken as correct and loses five characters in all, whether or not it is marked |
| Tokens.Split | hqtrivia.py:79 | `split()` gives non-empty fragments without whitespace |
| Tokens.Normalize | hqtrivia.py:80 | a normalised fragment is no longer than the fragment and holds only `0-9`, `a-z` and `*` |
| Tokens.Tokenize | hqtrivia.py:79-80 | one token per whitespace fragment, in order, each the normalised fragment and made of token characters only |
| Tokens.NormalizeEmpty | hqtrivia.py:80 | a fragment normalises to `""` exactly when it has no token character once lower-cased, as an all-punctuation fragment |
| Tokens.NormalizeFixpoint | hqtrivia.py:80 | normalising leaves a fragment as it is exactly when it already consists of token characters |
| Tokens.NormalizeIdempotent | hqtrivia.py:80 | normalising twice is normalising once |
| Tokens.SplitJoin | hqtrivia.py:79 | splitting space-joined fragments that are non-empty and free of whitespace gives them back |
| Tokens.GetWords | hqtrivia.py:131-135 | the words are non-empty runs of `a-z` |
| Tokens.GetWordsLetters | hqtrivia.py:135 | concatenated, the words are exactly the letters of the lower-cased text, in order |
| Tokens.GetWordsSeparator | hqtrivia.py:135 | a word of lower-case letters followed by any non-letter is found whole and the scan goes on after it, so the words are the maximal letter runs |
| Tokens.GetWordsJoin | hqtrivia.py:135 | from lower-case words joined by spaces, `get_words` finds those words again |
| Counters.Put | hqtrivia.py:94 | `d[k] = v` changes the value at `k` only |
| Counters.Add | hqtrivia.py:82 | `c[k] += 1` adds one to the count of `k` only |
| Counters.PutValid | hqtrivia.py:94 | the assignment keeps the keys distinct and equal to the dict's domain, and changes the sum of the values by the difference at `k` |
| Counters.AddValid | hqtrivia.py:82 | the increment keeps the Counter well formed and adds one to the sum of its counts |
| Counters.GetAtMostTotal | hqtrivia.py:142 | no count exceeds `sum(counts.values())` |
| Counters.Dedup | hqtrivia.py:92-94 | the keys of a dict filled from a list are exactly the list's elements |
| Counters.DedupDistinct | hqtrivia.py:92-94 | no key is listed twice |
| Counters.DedupOrder | hqtrivia.py:92-95 | the keys follow the order of first occurrence in the list |
| Counters.FromSeq | hqtrivia.py:160 | in `Counter(words)` the count of each string is its number of occurrences |
| Counters.FromSeqValid | hqtrivia.py:160 | `Counter(words)` is well formed |
| Counters.FromSeqSize | hqtrivia.py:160 | `len(Counter(words))` is the number of distinct words, and 0 exactly when there are no words |
| Counters.FromSeqSnoc | hqtrivia.py:81-82 | counting one more word is `c[word] += 1` on the Counter of the words before it |
| Counters.FromSeqTotal | hqtrivia.py:160 | the counts of `Counter(words)` sum to the number of words |
| Frequency.GetWordCount | hqtrivia.py:73-83 | the loop builds the Counter of all normalised tokens of all questions: each count is the token's number of occurrences, empty tokens included, and the counts sum to the number of whitespace fragments |
| Frequency.CountWords | hqtrivia.py:81-82 | the inner loop adds one occurrence per word of the question to the Counter |
| Frequency.AllTokensLength | hqtrivia.py:78-80 | there is one token per whitespace fragment over all questions |
| Frequency.FlatMapReordered | hqtrivia.py:78-82 | reordering the questions permutes their tokens |
| Frequency.WordCountReordered | hqtrivia.py:73-83 | the word counts do not depend on the order of the questions |
| SearchTerms.RareKeys | hqtrivia.py:95 | the comprehension keeps exactly the keys counted fewer than 20 times, and introduces no duplicate |
| SearchTerms.RareKeysOrder | hqtrivia.py:95 | the comprehension keeps the order of the keys |
| SearchTerms.GetSearchTerms | hqtrivia.py:86-96 | a token is a search term exactly when it occurs in the normalised question and the word count gives it fewer than 20 (a missing token counts 0); no term repeats; terms follow their first occurrence in the question; the word count is only read |
| Links.Matches | hqtrivia.py:121 | no match of `a href="/url?q=[^&]*` holds an `&` |
| Links.MatchesPrefixed | hqtrivia.py:121 | every match starts with the literal prefix of the pattern |
| Links.RemoveAll | hqtrivia.py:122 | `replace(prefix, '')` introduces no new character |
| Links.GetLinks | hqtrivia.py:117-123 | one link per match, none holding an `&` |
| Links.GetLinksNonEmpty | hqtrivia.py:121-123 | there is a link exactly when the prefix occurs in the markup |
| Links.MatchesOfMarkup | hqtrivia.py:121 | markup holding each `&`-free link behind the prefix and followed by `&` gives one match per link, in order |
| Links.GetLinksOfMarkup | hqtrivia.py:117-123 | reading back such markup gives exactly the links, when none holds an `&` or the prefix |
| Scoring.Score | hqtrivia.py:142 | a score with a non-zero divisor is positive; the division by 0 is excluded, and `Prediction.AddPage` turns it into the error |
| Scoring.ScoreBounds | hqtrivia.py:142 | on a Counter with a non-zero divisor the score lies in (0, 1] |
| Scoring.ScoreAbsent | hqtrivia.py:142 | an answer missing from the Counter scores `1 / (sum + len)` |
| Scoring.ScoreOrder | hqtrivia.py:142 | on one page the scores of two answers compare exactly as their counts do |
| Scoring.ScoreMonotone | hqtrivia.py:142 | raising an answer's positive count, the other counts fixed, never lowers its score; it rises strictly exactly when the page has another word, and is 1 when the answer is the only word |
| Scoring.ScoreFirstOccurrence | hqtrivia.py:142 | adding `k >= 1` occurrences of an absent answer to a page of words never lowers its score, and leaves it equal exactly when one occurrence is added to a one-word page |
| Prediction.Considered | hqtrivia.py:153 | `links[:3]` is the first `min(3, len(links))` links |
| Prediction.AddPage | hqtrivia.py:159-163 | the `try` body raises the division error exactly when the page has no word; otherwise each of the three sums grows |
| Prediction.Step | hqtrivia.py:153-165 | after the error, for a `.html` link and for a failed fetch the sums stay; otherwise they never fall; the error arises only from a fetched page without words |
| Prediction.Run | hqtrivia.py:149-165 | the sums of the loop, from 0, are never negative |
| Prediction.Decide | hqtrivia.py:166-171 | the error gives no prediction; otherwise the predicted label's sum is the maximum of the three |
| Prediction.AddPageIs | hqtrivia.py:160-163 | a page without words raises the division error; any other page adds its three scores to the sums |
| Prediction.ScorePage | hqtrivia.py:159-163 | the body of the `try` block once the words are known gives `AddPage`: the three scores added, or the error for a divisor of 0 |
| Prediction.ScoreLink | hqtrivia.py:154-165 | one turn of the loop is `Step`: a `.html` link or a failed fetch changes nothing, and a fetched page is added |
| Prediction.Predict | hqtrivia.py:145-171 | the loop over `links[:3]` with its three running sums returns the decision on `Run` over the considered links, or the division error |
| Prediction.Argmax | hqtrivia.py:166-171 | A is returned exactly when its sum is a maximum; B exactly when it beats A and is at least C; C exactly when it beats both; so ties go to A, then B |
| Prediction.ArgmaxByOrder | hqtrivia.py:166-171 | the decision depends only on how the three sums compare |
| Prediction.RunCrashStays | hqtrivia.py:160-163 | once the division error is raised, later links change nothing |
| Prediction.SumScores | hqtrivia.py:161-163 | summed over pages with words, an answer's scores lie between 0 and the number of pages, and are positive when there is a page |
| Prediction.RunSums | hqtrivia.py:153-165 | skipped and failed links add nothing; the loop raises the error exactly when a fetched page has no word; otherwise each sum is that answer's scores added over the fetched pages |
| Prediction.NothingFetched | hqtrivia.py:149-171 | with no fetched page all sums stay 0 and the prediction is A |
| Prediction.SumsBounded | hqtrivia.py:149-171 | without the error, at most three pages count, and each sum is between 0 and their number, and is 0 exactly when no page was fetched |
| Prediction.OnePageDecision | hqtrivia.py:159-171 | with one fetched page of words, the prediction is the answer occurring most often on it, ties to the earlier label |
| Prediction.ScoresArgmax | hqtrivia.py:161-171 | on one page, comparing scores decides as comparing counts does |
| Prediction.UnmatchableAnswer | hqtrivia.py:161-163 | an answer that is empty or holds a non-letter once lower-cased, such as a two-word answer, never appears among the page's words, so it scores what an absent word scores |
| Prediction.PageScore | hqtrivia.py:142 | on one page the score is (occurrences + 1) / (number of words + number of distinct words) |

## Left out

- The Twitter account, its authentication and tweet fetching (`loadkeys`, `authenticate`, `fetch_tweets`) are file and network I/O. The list of tweets is an input.
- `get_google_results` joins the terms into a query and fetches the search page over the network. The model takes the page markup as an input to `GetLinks`.
- `requests.get` and BeautifulSoup inside `prediction` are network and library calls. They and `get_words(str(soup))` together are the `fetch` parameter, which gives the page's words or the caught failure.
- The pandas plumbing (`add_search_terms`, `add_links`, `add_predictions`, the DataFrame columns) only applies the modelled functions row by row. `ParseRow` models the construction and the two row passes for one row.
- `accuracy_score` is a foreign library call and is not modelled.
- The `print` calls are console output and are not modelled.
- Floating point: scores and sums are exact reals, so near-ties that only Python's rounding breaks are not captured.
- Characters: `lower()` is ASCII lower-casing, and `split()` splits on ASCII whitespace (including `\x1c`-`\x1f`). Non-ASCII characters that lower-case to ASCII are not covered.
- Regular expressions are not modelled in general; the three fixed patterns are written out directly.
- Scoring.ScoreMonotone: the score is proved non-decreasing in the answer's count, and strictly increasing only when the page holds another word. On a page whose only word is the answer, the score is 1 whatever the count, so a strict rise for every Counter does not hold. The step from an absent answer to one occurrence is not strict either: `ScoreFirstOccurrence` proves the score stays equal when one occurrence is added to a one-word page (1/2 before and 2/4 after).
- SearchTerms.GetSearchTerms: the result is the list the code returns, in dict order, not a set of terms.
- Prediction.Considered: the cap of three applies to the links before the `.html` skip, as the code does. A skipped link therefore uses up one of the three places: the cap does not count eligible documents.
- Prediction.Predict: the fetch is a function of the link, so a link listed twice among the first three gets the same page or failure both times, where two real requests could differ.
- Prediction.Predict: exceptions of `requests.get` other than the two caught ones (an invalid URL, a timeout, too many redirects) end the script. The model has no outcome for them; only the caught failures and the division error are modelled.
