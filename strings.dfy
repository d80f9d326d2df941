/** String helpers with the semantics of the Qt and C++ string calls the core makes
    (QString::startsWith, indexOf, lastIndexOf, mid, split with SkipEmptyParts). */
module Strings {

  datatype Option<T> = None | Some(value: T)

  /** `p` is a prefix of `s` (QString::startsWith; every string starts with ""). */
  predicate StartsWith(s: string, p: string)
  {
    |p| <= |s| && s[..|p|] == p
  }

  /** `p` occurs in `s` at offset `i`. */
  predicate OccursAt(s: string, p: string, i: int)
  {
    0 <= i && i + |p| <= |s| && s[i..i + |p|] == p
  }

  /** QString::indexOf(p, from): the first offset at or after `from` where `p` occurs, or -1. */
  function IndexOfFrom(s: string, p: string, from: nat): (r: int)
    ensures r == -1 || (from <= r && OccursAt(s, p, r))
    ensures forall i :: from <= i && (r == -1 || i < r) ==> !OccursAt(s, p, i)
    decreases |s| - from
  {
    if from + |p| > |s| then -1
    else if s[from..from + |p|] == p then from
    else IndexOfFrom(s, p, from + 1)
  }

  /** QString::indexOf(p): the first occurrence of `p`, or -1 when there is none. */
  function IndexOf(s: string, p: string): (r: int)
    ensures r == -1 <==> forall i :: !OccursAt(s, p, i)
    ensures r != -1 ==> OccursAt(s, p, r) && forall i :: i < r ==> !OccursAt(s, p, i)
  {
    IndexOfFrom(s, p, 0)
  }

  /** The last occurrence of `p` at an offset no greater than `k`, or -1. */
  function LastIndexUpTo(s: string, p: string, k: nat): (r: int)
    ensures r == -1 || (r <= k && OccursAt(s, p, r))
    ensures forall i :: r < i <= k ==> !OccursAt(s, p, i)
    decreases k
  {
    if OccursAt(s, p, k) then k
    else if k == 0 then -1
    else LastIndexUpTo(s, p, k - 1)
  }

  /** QString::lastIndexOf(p): the last occurrence of `p`, or -1 when there is none. */
  function LastIndexOf(s: string, p: string): (r: int)
    ensures r == -1 <==> forall i :: !OccursAt(s, p, i)
    ensures r != -1 ==> OccursAt(s, p, r) && forall i :: r < i ==> !OccursAt(s, p, i)
  {
    LastIndexUpTo(s, p, |s|)
  }

  /** QString::mid(pos, n) for a non-negative position: empty past the end, and the
      rest of the string when `n` is negative or reaches past the end. */
  function Mid(s: string, pos: nat, n: int): (r: string)
    ensures pos > |s| ==> r == []
    ensures pos <= |s| ==> pos + |r| <= |s| && r == s[pos..pos + |r|]
    ensures pos <= |s| ==> |r| == if 0 <= n <= |s| - pos then n else |s| - pos
  {
    if pos > |s| then []
    else if n < 0 || n > |s| - pos then s[pos..]
    else s[pos..pos + n]
  }

  /** The parts of `s` between occurrences of `sep`, empty parts dropped
      (QString::split(sep, Qt::SkipEmptyParts)); `cur` is the part being collected. */
  function SplitFrom(s: string, sep: char, cur: string): (parts: seq<string>)
    requires sep !in cur
    ensures forall i :: 0 <= i < |parts| ==> |parts[i]| > 0 && sep !in parts[i]
    decreases |s|
  {
    if s == [] then (if cur == [] then [] else [cur])
    else if s[0] == sep then (if cur == [] then [] else [cur]) + SplitFrom(s[1..], sep, [])
    else SplitFrom(s[1..], sep, cur + [s[0]])
  }

  function SplitSkipEmpty(s: string, sep: char): (parts: seq<string>)
    ensures forall i :: 0 <= i < |parts| ==> |parts[i]| > 0 && sep !in parts[i]
  {
    SplitFrom(s, sep, [])
  }

  lemma {:induction false} SplitFromNoSeparator(s: string, sep: char, cur: string)
    requires sep !in cur && sep !in s
    ensures SplitFrom(s, sep, cur) == if cur + s == [] then [] else [cur + s]
    decreases |s|
  {
    if s != [] {
      assert cur + s == (cur + [s[0]]) + s[1..];
      SplitFromNoSeparator(s[1..], sep, cur + [s[0]]);
    } else {
      assert cur + s == cur;
    }
  }

  /** A non-empty string without the separator is its only part. */
  lemma SplitSingle(s: string, sep: char)
    requires sep !in s && s != []
    ensures SplitSkipEmpty(s, sep) == [s]
  {
    SplitFromNoSeparator(s, sep, []);
    assert [] + s == s;
  }

  lemma {:induction false} SplitFromSeparator(a: string, sep: char, b: string, cur: string)
    requires sep !in cur
    ensures SplitFrom(a + [sep] + b, sep, cur) == SplitFrom(a, sep, cur) + SplitFrom(b, sep, [])
    decreases |a|
  {
    var s := a + [sep] + b;
    if a == [] {
      assert s[0] == sep && s[1..] == b;
    } else {
      assert s[0] == a[0] && s[1..] == a[1..] + [sep] + b;
      if a[0] == sep {
        SplitFromSeparator(a[1..], sep, b, []);
      } else {
        SplitFromSeparator(a[1..], sep, b, cur + [a[0]]);
      }
    }
  }

  /** A separator cuts the string in two: the parts are those of either side, in order
      (consecutive, leading and trailing separators give no empty part). */
  lemma SplitConcat(a: string, sep: char, b: string)
    ensures SplitSkipEmpty(a + [sep] + b, sep) == SplitSkipEmpty(a, sep) + SplitSkipEmpty(b, sep)
  {
    SplitFromSeparator(a, sep, b, []);
  }

  function DigitChar(d: nat): (c: char)
    requires d < 10
    ensures '0' <= c <= '9'
  {
    ['0', '1', '2', '3', '4', '5', '6', '7', '8', '9'][d]
  }

  /** Decimal rendering of a count (what `cerr << dec << n` prints). */
  function NatToString(n: nat): (r: string)
    ensures |r| > 0 && forall i :: 0 <= i < |r| ==> '0' <= r[i] <= '9'
    decreases n
  {
    if n < 10 then [DigitChar(n)] else NatToString(n / 10) + [DigitChar(n % 10)]
  }

  /** `p` does not occur where its `k`-th character would fall on a position of
      [from, to) when no position there holds that character. */
  lemma CharOutside(s: string, p: string, k: nat, from: nat, to: nat)
    requires k < |p| && from <= to <= |s| && p[k] !in s[from..to]
    ensures forall i :: from <= i + k < to ==> !OccursAt(s, p, i)
  {
    forall i | from <= i + k < to ensures !OccursAt(s, p, i) {
      if 0 <= i && i + |p| <= |s| {
        assert s[i..i + |p|][k] == s[from..to][i + k - from];
      }
    }
  }
}
