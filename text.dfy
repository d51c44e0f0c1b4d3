/** String primitives of the Python standard library that the script relies on,
    restricted to ASCII: `str.lower()`, the character classes of its three regular
    expressions, `str.split()`, `str.split('\n')`, `endswith` and slicing. */
module Text {

  /** `str.isspace()` on ASCII: space, the controls \t \n \v \f \r, and the
      separators \x1c-\x1f, all of which `str.split()` treats as whitespace. */
  predicate IsSpace(ch: char) {
    ch == ' ' || ('\t' <= ch <= '\r') || ('\U{1c}' <= ch <= '\U{1f}')
  }

  predicate IsUpper(ch: char) { 'A' <= ch <= 'Z' }

  /** The class `[a-z]`. */
  predicate IsLowerLetter(ch: char) { 'a' <= ch <= 'z' }

  predicate IsDigit(ch: char) { '0' <= ch <= '9' }

  function LowerChar(ch: char): char {
    if IsUpper(ch) then (ch as int + 32) as char else ch
  }

  /** `s.lower()` for ASCII: upper-case letters become lower case, nothing else changes. */
  function Lower(s: string): (r: string)
    ensures |r| == |s|
    ensures forall i :: 0 <= i < |s| ==> r[i] == LowerChar(s[i])
    ensures forall i :: 0 <= i < |r| ==> !IsUpper(r[i])
  {
    seq(|s|, i requires 0 <= i < |s| => LowerChar(s[i]))
  }

  /** A string without upper-case letters is its own lower case. */
  lemma LowerNoUpper(s: string)
    requires forall i :: 0 <= i < |s| ==> !IsUpper(s[i])
    ensures Lower(s) == s
  {
  }

  /** The characters of `s` that satisfy `p`, in order. */
  function Keep(s: string, p: char -> bool): (r: string)
    ensures |r| <= |s|
    ensures forall i :: 0 <= i < |r| ==> p(r[i])
  {
    if s == [] then [] else (if p(s[0]) then [s[0]] else []) + Keep(s[1..], p)
  }

  lemma {:induction false} KeepAppend(a: string, b: string, p: char -> bool)
    ensures Keep(a + b, p) == Keep(a, p) + Keep(b, p)
  {
    if a == [] {
      assert a + b == b;
    } else {
      assert (a + b)[1..] == a[1..] + b;
      KeepAppend(a[1..], b, p);
    }
  }

  /** Keeping by `p` changes nothing exactly when every character satisfies `p`. */
  lemma {:induction false} KeepAll(s: string, p: char -> bool)
    ensures Keep(s, p) == s <==> forall i :: 0 <= i < |s| ==> p(s[i])
  {
    if s != [] {
      KeepAll(s[1..], p);
      if !p(s[0]) {
        assert |Keep(s, p)| < |s|;
      } else if Keep(s, p) == s {
        assert Keep(s[1..], p) == s[1..];
      }
    }
  }

  /** Keeping by `p` leaves nothing exactly when no character satisfies `p`. */
  lemma {:induction false} KeepNone(s: string, p: char -> bool)
    ensures Keep(s, p) == [] <==> forall i :: 0 <= i < |s| ==> !p(s[i])
  {
    if s != [] {
      KeepNone(s[1..], p);
      assert forall i :: 1 <= i < |s| ==> s[i] == s[1..][i - 1];
    }
  }

  /** The longest prefix of `s` whose characters all satisfy `p`. */
  function LeadingRun(s: string, p: char -> bool): (r: string)
    ensures |r| <= |s| && r == s[..|r|]
    ensures forall i :: 0 <= i < |r| ==> p(r[i])
    ensures |r| < |s| ==> !p(s[|r|])
  {
    if s == [] || !p(s[0]) then [] else [s[0]] + LeadingRun(s[1..], p)
  }

  /** The non-overlapping maximal runs of characters satisfying `p`, left to right:
      `re.findall('[…]+', s)` for the class `p`, and `s.split()` for `p` = not whitespace. */
  function Runs(s: string, p: char -> bool): (r: seq<string>)
    decreases |s|
    ensures forall i :: 0 <= i < |r| ==> r[i] != [] && forall j :: 0 <= j < |r[i]| ==> p(r[i][j])
  {
    if s == [] then []
    else if !p(s[0]) then Runs(s[1..], p)
    else
      var w := LeadingRun(s, p);
      [w] + Runs(s[|w|..], p)
  }

  /** All strings of `ws`, one after the other. */
  function Concat(ws: seq<string>): string {
    if ws == [] then [] else ws[0] + Concat(ws[1..])
  }

  /** `sep.join(ws)` for a one-character separator. */
  function Join(ws: seq<string>, sep: char): string {
    if ws == [] then []
    else if |ws| == 1 then ws[0]
    else ws[0] + [sep] + Join(ws[1..], sep)
  }

  /** The runs hold exactly the characters of `s` that satisfy `p`, in order:
      nothing is lost and nothing is reordered. */
  lemma {:induction false} RunsCoverKept(s: string, p: char -> bool)
    decreases |s|
    ensures Concat(Runs(s, p)) == Keep(s, p)
  {
    if s != [] {
      if !p(s[0]) {
        RunsCoverKept(s[1..], p);
      } else {
        var w := LeadingRun(s, p);
        assert s == w + s[|w|..];
        KeepAppend(w, s[|w|..], p);
        KeepAll(w, p);
        RunsCoverKept(s[|w|..], p);
      }
    }
  }

  lemma {:induction false} LeadingRunOfRun(w: string, t: string, p: char -> bool)
    requires forall i :: 0 <= i < |w| ==> p(w[i])
    requires t == [] || !p(t[0])
    ensures LeadingRun(w + t, p) == w
  {
    if w == [] {
      assert w + t == t;
    } else {
      assert (w + t)[1..] == w[1..] + t;
      LeadingRunOfRun(w[1..], t, p);
    }
  }

  /** Splitting a separator-joined list of runs gives the runs back. */
  lemma {:induction false} RunsOfJoin(ws: seq<string>, sep: char, p: char -> bool)
    requires !p(sep)
    requires forall i :: 0 <= i < |ws| ==> ws[i] != [] && forall j :: 0 <= j < |ws[i]| ==> p(ws[i][j])
    ensures Runs(Join(ws, sep), p) == ws
  {
    if |ws| == 1 {
      var w := ws[0];
      LeadingRunOfRun(w, [], p);
      assert w + [] == w;
      assert w[|w|..] == [];
    } else if |ws| > 1 {
      RunThenSeparator(ws[0], sep, Join(ws[1..], sep), p);
      RunsOfJoin(ws[1..], sep, p);
    }
  }

  /** A run followed by a separator is found as one run, and the scan goes on after the
      separator. */
  lemma RunThenSeparator(w: string, sep: char, rest: string, p: char -> bool)
    requires w != [] && !p(sep)
    requires forall j :: 0 <= j < |w| ==> p(w[j])
    ensures Runs(w + [sep] + rest, p) == [w] + Runs(rest, p)
  {
    var s := w + [sep] + rest;
    assert s == w + ([sep] + rest);
    LeadingRunOfRun(w, [sep] + rest, p);
    assert s[0] == w[0];
    assert s[|w|..] == [sep] + rest;
    assert ([sep] + rest)[1..] == rest;
  }

  /** Number of occurrences of `ch` in `s`. */
  function CountChar(s: string, ch: char): nat {
    multiset(s)[ch]
  }

  /** `s.split('\n')`: the pieces between line breaks, empty ones included. */
  function Lines(s: string): (r: seq<string>)
    ensures |r| == CountChar(s, '\n') + 1
    ensures forall i :: 0 <= i < |r| ==> '\n' !in r[i]
    ensures Join(r, '\n') == s
  {
    if s == [] then [""]
    else
      var rest := Lines(s[1..]);
      CountCons(s);
      if s[0] == '\n' then
        BreakLine(rest, '\n');
        [""] + rest
      else
        ExtendLine(s[0], rest, '\n');
        [[s[0]] + rest[0]] + rest[1..]
  }

  /** The count of a character splits between the head and the tail. */
  lemma CountCons(s: string)
    requires s != []
    ensures s == [s[0]] + s[1..]
    ensures CountChar(s, '\n') == CountChar(s[1..], '\n') + if s[0] == '\n' then 1 else 0
  {
    assert s == [s[0]] + s[1..];
    assert multiset(s) == multiset([s[0]]) + multiset(s[1..]);
  }

  /** A separator in front starts a new, empty piece. */
  lemma BreakLine(rest: seq<string>, sep: char)
    requires rest != []
    requires forall i :: 0 <= i < |rest| ==> sep !in rest[i]
    ensures var r := [""] + rest;
            |r| == |rest| + 1 && (forall i :: 0 <= i < |r| ==> sep !in r[i]) &&
            Join(r, sep) == [sep] + Join(rest, sep)
  {
    var r := [""] + rest;
    assert r[1..] == rest;
    assert forall i :: 1 <= i < |r| ==> r[i] == rest[i - 1];
  }

  /** Any other character in front extends the first piece. */
  lemma ExtendLine(c: char, rest: seq<string>, sep: char)
    requires rest != [] && c != sep
    requires forall i :: 0 <= i < |rest| ==> sep !in rest[i]
    ensures var r := [[c] + rest[0]] + rest[1..];
            |r| == |rest| && (forall i :: 0 <= i < |r| ==> sep !in r[i]) &&
            Join(r, sep) == [c] + Join(rest, sep)
  {
    var r := [[c] + rest[0]] + rest[1..];
    assert forall i :: 1 <= i < |r| ==> r[i] == rest[i];
    if |rest| > 1 {
      assert r[1..] == rest[1..];
    }
  }

  /** `s.endswith(suffix)`. */
  predicate EndsWith(s: string, suffix: string) {
    |suffix| <= |s| && s[|s| - |suffix|..] == suffix
  }

  /** `s[n:]`: the first `n` characters removed, empty when `s` is shorter. */
  function DropFirst(s: string, n: nat): (r: string)
    ensures |r| == if n <= |s| then |s| - n else 0
    ensures s == s[..|s| - |r|] + r
  {
    if n <= |s| then s[n..] else []
  }

  /** `s[:-n]` for `n >= 1`: the last `n` characters removed, empty when `s` is shorter. */
  function DropLast(s: string, n: nat): (r: string)
    requires n >= 1
    ensures |r| == if n <= |s| then |s| - n else 0
    ensures r == s[..|r|]
  {
    if n <= |s| then s[..|s| - n] else []
  }
}
