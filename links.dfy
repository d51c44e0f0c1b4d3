/** `get_links`: the result URLs found in the markup of a search-results page. */
module Links {
  import opened Text

  /** The literal part of the pattern `a href="\/url\?q=[^&]*`. */
  const UrlPrefix: string := "a href=\"/url?q="

  predicate NotAmp(ch: char) { ch != '&' }

  /** `p` occurs in `s` at index `i`. */
  predicate OccursAt(s: string, p: string, i: nat) {
    i + |p| <= |s| && s[i..i + |p|] == p
  }

  /** `p` occurs somewhere in `s`. */
  ghost predicate Occurs(s: string, p: string) {
    exists i: nat :: OccursAt(s, p, i)
  }

  /** `re.findall('a href="\/url\?q=[^&]*', markup)`: scanning from the left, a match is the
      prefix followed by the longest run of characters other than `&`; the scan resumes
      right after each match. */
  function Matches(markup: string): (r: seq<string>)
    decreases |markup|
    ensures forall i :: 0 <= i < |r| ==> '&' !in r[i]
  {
    if |markup| < |UrlPrefix| then []
    else if markup[..|UrlPrefix|] == UrlPrefix then
      var tail := LeadingRun(markup[|UrlPrefix|..], NotAmp);
      assert forall j :: 0 <= j < |tail| ==> tail[j] != '&';
      [UrlPrefix + tail] + Matches(markup[|UrlPrefix| + |tail|..])
    else Matches(markup[1..])
  }

  /** Every match starts with the prefix. */
  lemma {:induction false} MatchesPrefixed(markup: string)
    decreases |markup|
    ensures forall i :: 0 <= i < |Matches(markup)| ==> StartsWith(Matches(markup)[i], UrlPrefix)
  {
    if |markup| >= |UrlPrefix| {
      if markup[..|UrlPrefix|] == UrlPrefix {
        var tail := LeadingRun(markup[|UrlPrefix|..], NotAmp);
        MatchesPrefixed(markup[|UrlPrefix| + |tail|..]);
        assert (UrlPrefix + tail)[..|UrlPrefix|] == UrlPrefix;
      } else {
        MatchesPrefixed(markup[1..]);
      }
    }
  }

  /** `s.startswith(p)`. */
  predicate StartsWith(s: string, p: string) {
    |p| <= |s| && s[..|p|] == p
  }

  /** `s.replace(pat, '')`: every non-overlapping occurrence of `pat`, left to right, removed. */
  function RemoveAll(s: string, pat: string): (r: string)
    requires pat != []
    decreases |s|
    ensures forall ch :: ch in r ==> ch in s
  {
    if |s| < |pat| then s
    else if s[..|pat|] == pat then RemoveAll(s[|pat|..], pat)
    else [s[0]] + RemoveAll(s[1..], pat)
  }

  /** `get_links(markup)`: one link per match, the prefix removed; no link holds an `&`. */
  function GetLinks(markup: string): (r: seq<string>)
    ensures |r| == |Matches(markup)|
    ensures forall i :: 0 <= i < |r| ==> '&' !in r[i]
  {
    var ms := Matches(markup);
    seq(|ms|, i requires 0 <= i < |ms| => RemoveAll(ms[i], UrlPrefix))
  }

  /** There is a link exactly when the prefix occurs in the markup. */
  lemma GetLinksNonEmpty(markup: string)
    ensures GetLinks(markup) != [] <==> Occurs(markup, UrlPrefix)
  {
    MatchesNonEmpty(markup);
  }

  lemma {:induction false} MatchesNonEmpty(markup: string)
    decreases |markup|
    ensures Matches(markup) != [] <==> Occurs(markup, UrlPrefix)
  {
    var n := |UrlPrefix|;
    if |markup| < n {
      assert !Occurs(markup, UrlPrefix);
    } else if markup[..n] == UrlPrefix {
      assert OccursAt(markup, UrlPrefix, 0);
    } else {
      MatchesNonEmpty(markup[1..]);
      OccursTail(markup, UrlPrefix);
    }
  }

  /** A pattern that does not occur at the front occurs in `s` exactly when it occurs in
      the tail of `s`. */
  lemma OccursTail(s: string, p: string)
    requires |p| <= |s| && s[..|p|] != p
    ensures Occurs(s, p) <==> Occurs(s[1..], p)
  {
    var n, rest := |p|, s[1..];
    if Occurs(s, p) {
      assert !OccursAt(s, p, 0) by { assert s[0..0 + n] == s[..n]; }
      var i: nat :| OccursAt(s, p, i);
      TailSlice(s, i - 1, i - 1 + n);
      assert OccursAt(rest, p, i - 1);
    }
    if Occurs(rest, p) {
      var i: nat :| OccursAt(rest, p, i);
      TailSlice(s, i, i + n);
      assert OccursAt(s, p, i + 1);
    }
  }

  lemma TailSlice(s: string, i: nat, j: nat)
    requires i <= j < |s|
    ensures s[1..][i..j] == s[i + 1..j + 1]
  {
    assert forall k :: 0 <= k < j - i ==> s[1..][i..j][k] == s[i + 1..j + 1][k];
  }

  /** The markup a results page holds for `links`: each link behind the prefix and
      followed by an `&`. */
  function Markup(links: seq<string>): string {
    if links == [] then [] else UrlPrefix + links[0] + "&" + Markup(links[1..])
  }

  lemma {:induction false} RemoveAllAbsent(s: string, pat: string)
    requires pat != []
    requires !Occurs(s, pat)
    decreases |s|
    ensures RemoveAll(s, pat) == s
  {
    if |s| >= |pat| {
      assert s[0..|pat|] == s[..|pat|];
      assert !OccursAt(s, pat, 0);
      if Occurs(s[1..], pat) {
        var i: nat :| OccursAt(s[1..], pat, i);
        assert s[i + 1..i + 1 + |pat|] == s[1..][i..i + |pat|];
        assert OccursAt(s, pat, i + 1);
        assert false;
      }
      RemoveAllAbsent(s[1..], pat);
    }
  }

  /** Each link behind the prefix. */
  function Prefixed(links: seq<string>): seq<string> {
    if links == [] then [] else [UrlPrefix + links[0]] + Prefixed(links[1..])
  }

  lemma {:induction false} PrefixedAt(links: seq<string>, i: nat)
    requires i < |links|
    ensures |Prefixed(links)| == |links| && Prefixed(links)[i] == UrlPrefix + links[i]
  {
    if i > 0 {
      PrefixedAt(links[1..], i - 1);
    } else {
      PrefixedLength(links);
    }
  }

  lemma {:induction false} PrefixedLength(links: seq<string>)
    ensures |Prefixed(links)| == |links|
  {
    if links != [] {
      PrefixedLength(links[1..]);
    }
  }

  /** The markup of links without an `&` holds one match per link: the link behind the prefix. */
  lemma {:induction false} MatchesOfMarkup(links: seq<string>)
    requires forall i :: 0 <= i < |links| ==> '&' !in links[i]
    ensures Matches(Markup(links)) == Prefixed(links)
  {
    if links != [] {
      MatchAtFront(links[0], Markup(links[1..]));
      MatchesOfMarkup(links[1..]);
    }
  }

  /** A link behind the prefix and followed by an `&` is one match, and the scan goes on
      after the `&`. */
  lemma MatchAtFront(l: string, rest: string)
    requires '&' !in l
    ensures Matches(UrlPrefix + l + "&" + rest) == [UrlPrefix + l] + Matches(rest)
  {
    var n := |UrlPrefix|;
    var m := UrlPrefix + l + "&" + rest;
    assert m == UrlPrefix + (l + ("&" + rest));
    assert m[..n] == UrlPrefix;
    assert m[n..] == l + ("&" + rest);
    assert forall j :: 0 <= j < |l| ==> NotAmp(l[j]);
    LeadingRunOfRun(l, "&" + rest, NotAmp);
    assert m[n + |l|..] == "&" + rest;
    AmpersandSkipped(rest);
  }

  /** A leading `&` cannot start a match. */
  lemma AmpersandSkipped(rest: string)
    ensures Matches("&" + rest) == Matches(rest)
  {
    var s := "&" + rest;
    if |s| >= |UrlPrefix| {
      assert s[..|UrlPrefix|][0] == '&';
      assert s[1..] == rest;
    }
  }

  /** Links that can be read back from markup: none holds an `&` or the prefix. */
  ghost predicate PlainLinks(links: seq<string>) {
    forall i :: 0 <= i < |links| ==> '&' !in links[i] && !Occurs(links[i], UrlPrefix)
  }

  /** Reading back the markup of links that hold neither an `&` nor the prefix gives
      exactly those links, in order. */
  lemma GetLinksOfMarkup(links: seq<string>)
    requires PlainLinks(links)
    ensures GetLinks(Markup(links)) == links
  {
    MatchesOfMarkup(links);
    LinksOfMatches(Markup(links), links);
  }

  /** Matches that are the prefix followed by plain links give back those links. */
  lemma LinksOfMatches(markup: string, links: seq<string>)
    requires PlainLinks(links)
    requires Matches(markup) == Prefixed(links)
    ensures GetLinks(markup) == links
  {
    var r := GetLinks(markup);
    PrefixedLength(links);
    forall i | 0 <= i < |links| ensures r[i] == links[i] {
      PrefixedAt(links, i);
      PrefixRemoved(links[i]);
    }
  }

  /** Removing the prefix from a match gives back the link after it. */
  lemma PrefixRemoved(link: string)
    requires !Occurs(link, UrlPrefix)
    ensures RemoveAll(UrlPrefix + link, UrlPrefix) == link
  {
    var m := UrlPrefix + link;
    assert m[..|UrlPrefix|] == UrlPrefix;
    assert m[|UrlPrefix|..] == link;
    RemoveAllAbsent(link, UrlPrefix);
  }
}
