/** The compiled regular expressions of the highlighter, kept abstract: a matcher is any
    function that, asked for the first match at or after an offset, answers with a
    non-empty match inside the text, or with no match. */
module Regex {
  import opened Strings

  /** What the highlighter reads from a QRegularExpressionMatch: capturedStart(),
      capturedLength(), capturedStart(2) and capturedLength(2). A group that takes no
      part in the match has start -1 and length 0. */
  datatype RegexMatch = RegexMatch(start: nat, length: nat, group2Start: int, group2Length: int)

  function End(m: RegexMatch): nat
  {
    m.start + m.length
  }

  /** A match found by searching `text` from offset `from`. */
  predicate ValidMatch(text: string, from: nat, m: RegexMatch)
  {
    from <= m.start && 0 < m.length && End(m) <= |text| &&
    ((m.group2Start == -1 && m.group2Length == 0) ||
     (m.start <= m.group2Start && 0 <= m.group2Length && m.group2Start + m.group2Length <= End(m)))
  }

  ghost predicate IsMatcher(f: (string, nat) -> Option<RegexMatch>)
  {
    forall text, from :: f(text, from).Some? ==> ValidMatch(text, from, f(text, from).value)
  }

  /** QRegularExpression::match(text, from) of one compiled pattern. */
  type Matcher = f: (string, nat) -> Option<RegexMatch> | IsMatcher(f)
    witness (text: string, from: nat) => None

  /** The matches the highlighter's search loop visits: the first match at or after
      `from`, then the first one at or after its end, until there is none. */
  function Matches(m: Matcher, text: string, from: nat): (ms: seq<RegexMatch>)
    ensures ms == [] <==> m(text, from).None?
    ensures ms != [] ==> ms[0] == m(text, from).value
    decreases |text| - from
  {
    match m(text, from)
    case None => []
    case Some(x) => [x] + Matches(m, text, End(x))
  }

  /** Successive matches lie inside the text, after `from`, and are pairwise disjoint
      and strictly ascending. */
  lemma {:induction false} MatchesAscending(m: Matcher, text: string, from: nat)
    ensures forall k :: 0 <= k < |Matches(m, text, from)| ==> ValidMatch(text, from, Matches(m, text, from)[k])
    ensures forall j, k :: 0 <= j < k < |Matches(m, text, from)| ==>
              End(Matches(m, text, from)[j]) <= Matches(m, text, from)[k].start
    decreases |text| - from
  {
    match m(text, from)
    case None =>
    case Some(x) =>
      var rest := Matches(m, text, End(x));
      MatchesAscending(m, text, End(x));
      assert Matches(m, text, from) == [x] + rest;
  }

  /** Each visited match is what the matcher answers at the end of the previous one (at
      `from` for the first), and after the last one the matcher answers "no match". */
  lemma {:induction false} MatchesChain(m: Matcher, text: string, from: nat)
    ensures var ms := Matches(m, text, from);
      (ms == [] <==> m(text, from).None?) &&
      (ms != [] ==> m(text, from) == Some(ms[0])) &&
      (forall k :: 0 < k < |ms| ==> m(text, End(ms[k - 1])) == Some(ms[k])) &&
      (ms != [] ==> m(text, End(ms[|ms| - 1])).None?)
    decreases |text| - from
  {
    match m(text, from)
    case None =>
    case Some(x) =>
      var rest := Matches(m, text, End(x));
      MatchesChain(m, text, End(x));
      assert Matches(m, text, from) == [x] + rest;
  }
}
