/** The question table: tweets of four lines become rows of a question and three answers;
    `correct_answer` finds the answer carrying the check mark and `answers_only` strips
    the answer numbers. */
module Records {
  import opened Wrappers
  import opened Text

  datatype Label = A | B | C

  /** The check mark `✓` (U+2713) that ends the correct answer of a tweet. */
  const CheckMark: char := '✓'

  /** `s.endswith('✓')`. */
  predicate Marked(s: string)
    ensures Marked(s) <==> s != [] && s[|s| - 1] == CheckMark
  {
    EndsWith(s, [CheckMark])
  }

  /** `s[:-2]`: the check mark and the space before it removed. */
  function Unmark(s: string): (r: string)
    ensures |r| == if |s| >= 2 then |s| - 2 else 0
    ensures r == s[..|r|]
  {
    DropLast(s, 2)
  }

  /** `s[3:]`: the answer number (`"1. "`) removed. */
  function Unnumber(s: string): (r: string)
    ensures |r| == if |s| >= 3 then |s| - 3 else 0
    ensures s == s[..|s| - |r|] + r
  {
    DropFirst(s, 3)
  }

  /** `[t.split('\n') for t in tweets if len(t.split('\n')) == 4]`: the tweets of exactly
      three line breaks, split into their lines, in order. */
  function FourLineTweets(tweets: seq<string>): (rows: seq<seq<string>>)
    ensures |rows| <= |tweets|
    ensures forall r :: r in rows ==> |r| == 4
  {
    if tweets == [] then []
    else
      var rest := FourLineTweets(tweets[1..]);
      if |Lines(tweets[0])| == 4 then [Lines(tweets[0])] + rest else rest
  }

  /** Every row joins back to a tweet of the input whose lines it is. */
  lemma {:induction false} FourLineTweetsRows(tweets: seq<string>)
    ensures forall r :: r in FourLineTweets(tweets) ==> Join(r, '\n') in tweets && Lines(Join(r, '\n')) == r
  {
    if tweets != [] {
      FourLineTweetsRows(tweets[1..]);
      assert forall t :: t in tweets[1..] ==> t in tweets;
    }
  }

  /** The filter works tweet by tweet: filtering two lists one after the other is filtering
      each, so rows keep the order of their tweets and a repeated tweet gives a row each time. */
  lemma {:induction false} FourLineTweetsAppend(t1: seq<string>, t2: seq<string>)
    ensures FourLineTweets(t1 + t2) == FourLineTweets(t1) + FourLineTweets(t2)
  {
    if t1 != [] {
      assert (t1 + t2)[0] == t1[0];
      assert (t1 + t2)[1..] == t1[1..] + t2;
      FourLineTweetsAppend(t1[1..], t2);
    } else {
      assert t1 + t2 == t2;
    }
  }

  /** A single tweet gives its lines as a row when it holds three line breaks, and no row
      otherwise. */
  lemma FourLineTweet(t: string)
    ensures FourLineTweets([t]) == if CountChar(t, '\n') == 3 then [Lines(t)] else []
  {
    assert [t][1..] == [];
  }

  /** A tweet gives a row exactly when it holds three line breaks. */
  lemma {:induction false} FourLineTweetsComplete(tweets: seq<string>)
    ensures forall t :: t in tweets ==> (Lines(t) in FourLineTweets(tweets) <==> CountChar(t, '\n') == 3)
  {
    if tweets != [] {
      FourLineTweetsComplete(tweets[1..]);
      forall t | t in tweets ensures Lines(t) in FourLineTweets(tweets) <==> CountChar(t, '\n') == 3 {
        if t != tweets[0] {
          assert t in tweets[1..];
        }
      }
    }
  }

  /** A row once both row operations have run. */
  datatype Record = Record(question: string, a: string, b: string, c: string, correct: Label)

  /** The record `correct_answer` followed by `answers_only` make of the four lines of a
      tweet: the first answer that ends in the check mark is the correct one, and C when
      neither A nor B does; the correct answer loses its last two characters; every
      answer loses its first three. */
  function ParseFields(fields: seq<string>): (r: Record)
    requires |fields| == 4
    ensures r.question == fields[0]
    ensures r.correct == A <==> Marked(fields[1])
    ensures r.correct == B <==> !Marked(fields[1]) && Marked(fields[2])
    ensures r.a == Unnumber(if r.correct == A then Unmark(fields[1]) else fields[1])
    ensures r.b == Unnumber(if r.correct == B then Unmark(fields[2]) else fields[2])
    ensures r.c == Unnumber(if r.correct == C then Unmark(fields[3]) else fields[3])
  {
    var q, a, b, c := fields[0], fields[1], fields[2], fields[3];
    if Marked(a) then Record(q, Unnumber(Unmark(a)), Unnumber(b), Unnumber(c), A)
    else if Marked(b) then Record(q, Unnumber(a), Unnumber(Unmark(b)), Unnumber(c), B)
    else Record(q, Unnumber(a), Unnumber(b), Unnumber(Unmark(c)), C)
  }

  /** The lines of a tweet for `rec`: each answer behind its three-character number, the
      correct one followed by a space and the check mark. */
  function Render(rec: Record, n1: string, n2: string, n3: string): (fields: seq<string>)
    ensures |fields| == 4
  {
    [rec.question,
     n1 + rec.a + (if rec.correct == A then [' ', CheckMark] else []),
     n2 + rec.b + (if rec.correct == B then [' ', CheckMark] else []),
     n3 + rec.c + (if rec.correct == C then [' ', CheckMark] else [])]
  }

  lemma UnmarkMarked(s: string)
    ensures Marked(s + [' ', CheckMark])
    ensures Unmark(s + [' ', CheckMark]) == s
  {
    var t := s + [' ', CheckMark];
    assert t[|t| - 1..] == [CheckMark];
    assert t[..|s|] == s;
  }

  lemma UnnumberNumbered(n: string, s: string)
    requires |n| == 3
    ensures Unnumber(n + s) == s
  {
    var t := n + s;
    assert t[..3] == n;
  }

  /** Reading the lines of a rendered tweet gives the record back, provided the numbers are
      three characters long and no answer that is not the correct one ends in a check mark
      after its number. */
  lemma ParseRendered(rec: Record, n1: string, n2: string, n3: string)
    requires |n1| == 3 && |n2| == 3 && |n3| == 3
    requires rec.correct != A ==> !Marked(n1 + rec.a)
    requires rec.correct == C ==> !Marked(n2 + rec.b)
    ensures ParseFields(Render(rec, n1, n2, n3)) == rec
  {
    var f := Render(rec, n1, n2, n3);
    RenderedAnswer(n1, rec.a, rec.correct == A);
    RenderedAnswer(n2, rec.b, rec.correct == B);
    RenderedAnswer(n3, rec.c, rec.correct == C);
    var r := ParseFields(f);
    assert r.correct == rec.correct;
    assert r.a == rec.a && r.b == rec.b && r.c == rec.c;
  }

  /** One rendered answer: the number, the answer and, on the correct one, the mark. */
  lemma RenderedAnswer(n: string, s: string, correct: bool)
    requires |n| == 3
    ensures var field := n + s + (if correct then [' ', CheckMark] else []);
            (correct ==> Marked(field)) && (!correct ==> field == n + s) &&
            Unnumber(if correct then Unmark(field) else field) == s
  {
    UnnumberNumbered(n, s);
    if correct {
      UnmarkMarked(n + s);
    } else {
      assert n + s + [] == n + s;
    }
  }

  /** A tweet with no check mark on A or B is read as having C correct, and the last two
      characters of C are cut whether or not it carries the mark. */
  lemma UnmarkedMeansC(fields: seq<string>)
    requires |fields| == 4 && !Marked(fields[1]) && !Marked(fields[2])
    ensures ParseFields(fields).correct == C
    ensures |fields[3]| >= 5 ==> |ParseFields(fields).c| == |fields[3]| - 5
  {
  }

  /** One row of the question table, updated in place by the two row operations. */
  class Row {
    var question: string
    var a: string
    var b: string
    var c: string
    /** The `Correct` column, empty until `correct_answer` fills it in. */
    var correct: Option<Label>

    /** A row of `pd.DataFrame(q_list, columns=['Question', 'A', 'B', 'C'])` with
        `hq['Correct'] = ''`. */
    constructor (fields: seq<string>)
      requires |fields| == 4
      ensures question == fields[0] && a == fields[1] && b == fields[2] && c == fields[3]
      ensures correct == None
    {
      question, a, b, c := fields[0], fields[1], fields[2], fields[3];
      correct := None;
    }

    /** The row as a record, once its correct answer is known. */
    function Value(): Record
      reads this
      requires correct.Some?
    {
      Record(question, a, b, c, correct.value)
    }

    /** `correct_answer(row)`: the first of A, B that ends in the check mark, or else C, is
        recorded as correct and loses its last two characters; nothing else changes. */
    method CorrectAnswer()
      modifies this
      ensures question == old(question)
      ensures Marked(old(a)) ==>
                correct == Some(A) && a == Unmark(old(a)) && b == old(b) && c == old(c)
      ensures !Marked(old(a)) && Marked(old(b)) ==>
                correct == Some(B) && a == old(a) && b == Unmark(old(b)) && c == old(c)
      ensures !Marked(old(a)) && !Marked(old(b)) ==>
                correct == Some(C) && a == old(a) && b == old(b) && c == Unmark(old(c))
    {
      if Marked(a) {
        correct := Some(A);
        a := Unmark(a);
      } else if Marked(b) {
        correct := Some(B);
        b := Unmark(b);
      } else {
        correct := Some(C);
        c := Unmark(c);
      }
    }

    /** `answers_only(row)`: each answer loses its first three characters; the question and
        the correct label stay. */
    method AnswersOnly()
      modifies this
      ensures question == old(question) && correct == old(correct)
      ensures a == Unnumber(old(a)) && b == Unnumber(old(b)) && c == Unnumber(old(c))
    {
      a := Unnumber(a);
      b := Unnumber(b);
      c := Unnumber(c);
    }
  }

  /** One line of the table: the row built from the four lines of a tweet, then
      `correct_answer`, then `answers_only`. */
  method ParseRow(fields: seq<string>) returns (row: Row)
    requires |fields| == 4
    ensures fresh(row)
    ensures row.correct.Some? && row.Value() == ParseFields(fields)
  {
    row := new Row(fields);
    row.CorrectAnswer();
    row.AnswersOnly();
  }
}
