/** The spell checker's word scan (DictionaryHunspell::check): one left-to-right pass that
    cuts a line into words, keeps a single '-', '.' or '\'' between word characters inside
    the word, skips all-uppercase and numeric words as configured, and answers the first
    word the dictionary rejects.

    The scan is specified by a reference segmentation: a position is in a word when it
    holds a word character or a joiner, and the words are the maximal runs of such
    positions. */
module Tokenizer {
  import opened Strings

  /** The QChar classification calls the scan makes, as given predicates. */
  datatype CharClasses = CharClasses(
    isLetterOrNumber: char -> bool,
    isMark: char -> bool,
    isSpace: char -> bool,
    isNumber: char -> bool,
    isLower: char -> bool)

  /** The two process-wide flags f_ignore_numbers and f_ignore_uppercase. */
  datatype SpellOptions = SpellOptions(ignoreNumbers: bool, ignoreUppercase: bool)

  const DefaultOptions := SpellOptions(false, true)

  /** A loaded dictionary: character classes, the flags and Hunspell's spell(word). */
  datatype Dictionary = Dictionary(classes: CharClasses, options: SpellOptions, spell: string -> bool)

  /** A slice of the checked line (the QStringView check returns). */
  datatype Span = Span(start: nat, length: nat)

  function SpanEnd(w: Span): nat { w.start + w.length }

  const RightSingleQuote := '\U{2019}'

  predicate IsWordChar(cc: CharClasses, c: char)
  {
    cc.isLetterOrNumber(c) || cc.isMark(c)
  }

  /** The separators that may stand inside a word. */
  predicate IsJoiner(c: char)
  {
    c == '-' || c == '.' || c == '\''
  }

  /** Position `k` holds a single joiner between two scanned word characters. */
  predicate Joins(cc: CharClasses, s: string, lo: nat, k: int)
  {
    lo < k && k + 1 < |s| && IsJoiner(s[k]) && !IsWordChar(cc, s[k]) && !cc.isSpace(s[k]) &&
    IsWordChar(cc, s[k - 1]) && IsWordChar(cc, s[k + 1])
  }

  /** Position `k` of the scanned part [lo, |s|) belongs to a word. */
  predicate InWord(cc: CharClasses, s: string, lo: nat, k: int)
  {
    lo <= k < |s| && (IsWordChar(cc, s[k]) || Joins(cc, s, lo, k))
  }

  /** The end of the run of word positions starting at `k`. */
  function RunEnd(cc: CharClasses, s: string, lo: nat, k: nat): (m: nat)
    requires lo <= k <= |s|
    ensures k <= m <= |s|
    decreases |s| - k
  {
    if k < |s| && InWord(cc, s, lo, k) then RunEnd(cc, s, lo, k + 1) else k
  }

  /** The words at or after position `k`: the maximal runs of word positions. */
  function WordsFrom(cc: CharClasses, s: string, lo: nat, k: nat): seq<Span>
    requires lo <= k
    decreases |s| - k
  {
    if k >= |s| then []
    else if !InWord(cc, s, lo, k) then WordsFrom(cc, s, lo, k + 1)
    else
      var m := RunEnd(cc, s, lo, k);
      [Span(k, m - k)] + WordsFrom(cc, s, lo, m)
  }

  /** The words of the line scanned from `lo`. */
  function Words(cc: CharClasses, s: string, lo: nat): seq<Span>
  {
    WordsFrom(cc, s, lo, lo)
  }

  /** The characters that set isNumber, and those that clear isUppercase. */
  predicate NumberAt(cc: CharClasses, s: string, k: nat)
    requires k < |s|
  {
    IsWordChar(cc, s[k]) && cc.isNumber(s[k])
  }

  predicate LowerAt(cc: CharClasses, s: string, k: nat)
    requires k < |s|
  {
    IsWordChar(cc, s[k]) && !cc.isNumber(s[k]) && cc.isLower(s[k])
  }

  /** Some position of [a, b) sets isNumber. */
  predicate AnyNumber(cc: CharClasses, s: string, a: nat, b: nat)
    requires b <= |s|
    decreases b
  {
    a < b && (AnyNumber(cc, s, a, b - 1) || NumberAt(cc, s, b - 1))
  }

  /** Some position of [a, b) clears isUppercase. */
  predicate AnyLower(cc: CharClasses, s: string, a: nat, b: nat)
    requires b <= |s|
    decreases b
  {
    a < b && (AnyLower(cc, s, a, b - 1) || LowerAt(cc, s, b - 1))
  }

  /** The word is not handed to the dictionary. */
  predicate Skipped(d: Dictionary, s: string, w: Span)
    requires SpanEnd(w) <= |s|
  {
    (d.options.ignoreUppercase && !AnyLower(d.classes, s, w.start, SpanEnd(w))) ||
    (d.options.ignoreNumbers && AnyNumber(d.classes, s, w.start, SpanEnd(w)))
  }

  /** The text of a word with every U+2019 replaced by an ASCII apostrophe. */
  function Normalize(w: string): (r: string)
    ensures |r| == |w|
    ensures forall i :: 0 <= i < |w| ==> r[i] == if w[i] == RightSingleQuote then '\'' else w[i]
  {
    seq(|w|, i requires 0 <= i < |w| => if w[i] == RightSingleQuote then '\'' else w[i])
  }

  function WordText(s: string, w: Span): string
    requires SpanEnd(w) <= |s|
  {
    s[w.start..SpanEnd(w)]
  }

  /** The dictionary rejects a word it is asked about. */
  predicate Rejected(d: Dictionary, s: string, w: Span)
  {
    SpanEnd(w) <= |s| && !Skipped(d, s, w) && !d.spell(Normalize(WordText(s, w)))
  }

  /** The first word of `ws` the dictionary rejects. */
  function FirstMisspelled(d: Dictionary, s: string, ws: seq<Span>): (r: Option<Span>)
    ensures r.Some? ==> r.value in ws && Rejected(d, s, r.value)
    decreases |ws|
  {
    if ws == [] then None
    else if Rejected(d, s, ws[0]) then Some(ws[0])
    else FirstMisspelled(d, s, ws[1..])
  }

  /** FirstMisspelled answers none exactly when no word is rejected, and otherwise a
      rejected word all of whose predecessors were skipped or accepted. */
  lemma {:induction false} FirstMisspelledIsFirst(d: Dictionary, s: string, ws: seq<Span>)
    ensures var r := FirstMisspelled(d, s, ws);
      (r.None? <==> forall j :: 0 <= j < |ws| ==> !Rejected(d, s, ws[j])) &&
      (r.Some? ==> exists j :: 0 <= j < |ws| && r.value == ws[j] && Rejected(d, s, ws[j]) &&
                               forall j' :: 0 <= j' < j ==> !Rejected(d, s, ws[j']))
    decreases |ws|
  {
    if ws != [] && !Rejected(d, s, ws[0]) {
      FirstMisspelledIsFirst(d, s, ws[1..]);
      assert forall j :: 1 <= j < |ws| ==> ws[1..][j - 1] == ws[j];
      var r := FirstMisspelled(d, s, ws[1..]);
      if r.Some? {
        var j :| 0 <= j < |ws[1..]| && r.value == ws[1..][j] && Rejected(d, s, ws[1..][j]) &&
                 forall j' :: 0 <= j' < j ==> !Rejected(d, s, ws[1..][j']);
        assert r.value == ws[j + 1] && forall j' :: 0 <= j' < j + 1 ==> !Rejected(d, s, ws[j']);
      }
    }
  }

  // ---------------------------------------------------------------- the scan

  /** DictionaryHunspell::check(string, start_at): the first word at or after `startAt`
      that is neither skipped nor accepted by the dictionary, or none; an answer is a word
      of the line whose first and last characters are word characters. */
  method Check(d: Dictionary, s: string, startAt: nat) returns (r: Option<Span>)
    ensures r == FirstMisspelled(d, s, Words(d.classes, s, startAt))
  {
    var cc := d.classes;
    ghost var lo := startAt;
    ghost var target := FirstMisspelled(d, s, Words(cc, s, lo));
    var inWord := false;
    var separatorCount := 0;
    var wordLen := 0;
    var isNumber := false;
    var isUppercase := d.options.ignoreUppercase;
    var index := -1;
    var i := startAt;
    ghost var pendingAt: nat := lo;  // the pending words are those at or after pendingAt
    while i < |s|
      invariant Scanning(d, s, lo, i, inWord, separatorCount, wordLen, isNumber, isUppercase, index)
      invariant lo <= pendingAt && pendingAt == if inWord then index else i
      invariant target == FirstMisspelled(d, s, WordsFrom(cc, s, lo, pendingAt))
      decreases |s| - i
    {
      var isWord;
      inWord, separatorCount, wordLen, isNumber, isUppercase, index, isWord :=
        ScanChar(d, s, lo, i, inWord, separatorCount, wordLen, isNumber, isUppercase, index);
      if isWord && index >= 0 {
        EmitWord(d, s, lo, i, index, wordLen, isNumber, isUppercase);
        var rejected := CheckWord(d, s, index, wordLen, isNumber, isUppercase);
        if rejected {
          return Some(Span(index, wordLen));
        }
        index := -1;
        wordLen := 0;
        separatorCount := 0;
        isWord := false;
        inWord := false;
        isNumber := false;
        isUppercase := d.options.ignoreUppercase;
        pendingAt := i + 1;
      } else {
        pendingAt := if inWord then index else i + 1;
      }
      i := i + 1;
    }
    return None;
  }

  /** One character of the scan (the loop body of check up to the word test): it extends
      the pending word, ends it (isWord), or passes over a gap between words. An ended word
      is the first pending one; otherwise the pending words are unchanged. */
  method ScanChar(d: Dictionary, s: string, ghost lo: nat, i: nat, inWord0: bool, sep0: int,
                  wordLen0: int, isNumber0: bool, isUppercase0: bool, index0: int)
    returns (inWord: bool, separatorCount: int, wordLen: int, isNumber: bool, isUppercase: bool,
             index: int, isWord: bool)
    requires i < |s|
    requires Scanning(d, s, lo, i, inWord0, sep0, wordLen0, isNumber0, isUppercase0, index0)
    ensures isWord ==> index >= 0 && index == (if inWord0 then index0 else i) &&
                       Emitting(d, s, lo, i, index, wordLen, isNumber, isUppercase)
    ensures !isWord ==> Scanning(d, s, lo, i + 1, inWord, separatorCount, wordLen, isNumber, isUppercase, index)
    ensures !isWord ==> (inWord ==> index == (if inWord0 then index0 else i)) &&
                        (!inWord ==> !inWord0 && WordsFrom(d.classes, s, lo, i) == WordsFrom(d.classes, s, lo, i + 1))
  {
    var cc := d.classes;
    inWord, separatorCount, wordLen, isNumber, isUppercase, index := inWord0, sep0, wordLen0, isNumber0, isUppercase0, index0;
    isWord := false;
    var c := s[i];
    if IsWordChar(cc, c) {
      ScanWordChar(d, s, lo, i, inWord, separatorCount, wordLen, isNumber, isUppercase, index);
      inWord := true;
      separatorCount := 0;
      wordLen := wordLen + 1;
      if index < 0 {
        index := i;
      }
      if cc.isNumber(c) {
        isNumber := d.options.ignoreNumbers;
      } else if cc.isLower(c) {
        isUppercase := false;
      }
    } else if cc.isSpace(c) && inWord {
      ScanSpaceEnds(d, s, lo, i, separatorCount, wordLen, isNumber, isUppercase, index);
      inWord := false;
      isWord := true;
      if separatorCount > 0 {
        wordLen := wordLen - 1;
      }
    } else {
      if !inWord {
        ScanGap(d, s, lo, i, separatorCount, wordLen, isNumber, isUppercase, index);
      }
      separatorCount := separatorCount + 1;
      if inWord {
        if separatorCount == 1 && c != '-' && c != '.' && c != '\'' {
          ScanSeparatorEnds(d, s, lo, i, wordLen, isNumber, isUppercase, index);
          separatorCount := 0;
          inWord := false;
          isWord := true;
        } else if separatorCount > 1 {
          ScanDoubleSeparatorEnds(d, s, lo, i, wordLen, isNumber, isUppercase, index);
          separatorCount := 0;
          inWord := false;
          isWord := true;
          wordLen := wordLen - 1;
        } else {
          ScanJoiner(d, s, lo, i, wordLen, isNumber, isUppercase, index);
          wordLen := wordLen + 1;
        }
      }
    }
    if inWord && |s| - 1 == i {
      isWord := true;
      if separatorCount > 0 {
        wordLen := wordLen - 1;
      }
    }
  }

  /** The test of one finished word (the body of `if (isWord && (index >= 0))` up to the
      reset): a word that is neither all-uppercase nor numeric under the flags is handed,
      with U+2019 turned into an apostrophe, to the dictionary. */
  method CheckWord(d: Dictionary, s: string, index: nat, wordLen: nat, isNumber: bool, isUppercase: bool)
    returns (rejected: bool)
    requires index + wordLen <= |s|
    requires isNumber == (d.options.ignoreNumbers && AnyNumber(d.classes, s, index, index + wordLen))
    requires isUppercase == (d.options.ignoreUppercase && !AnyLower(d.classes, s, index, index + wordLen))
    ensures rejected == Rejected(d, s, Span(index, wordLen))
  {
    rejected := false;
    if !isUppercase && !isNumber {
      var word := Normalize(s[index..index + wordLen]);
      if !d.spell(word) {
        rejected := true;
      }
    }
  }

  /** The loop invariant of Check. Outside a word (index -1) the pending words are those
      at or after `i`; inside one they are those at or after `index`, the word so far is
      [index, i) and ends in a word character (no separator pending) or in one joiner
      after a word character (one separator pending), and the two flags summarize it. */
  ghost predicate Scanning(d: Dictionary, s: string, lo: nat, i: int, inWord: bool,
                           sep: int, wordLen: int, isNumber: bool, isUppercase: bool, index: int)
  {
    lo <= i && (i == lo || i <= |s|) && sep >= 0 &&
    (!inWord ==>
       index == -1 && wordLen == 0 && !isNumber && isUppercase == d.options.ignoreUppercase &&
       (i == lo || i >= |s| || !IsWordChar(d.classes, s[i - 1]))) &&
    (inWord ==>
       lo <= index < i < |s| && index + wordLen == i && sep <= 1 && IsWordChar(d.classes, s[index]) &&
       isNumber == (d.options.ignoreNumbers && AnyNumber(d.classes, s, index, i)) &&
       isUppercase == (d.options.ignoreUppercase && !AnyLower(d.classes, s, index, i)) &&
       (sep == 0 ==> IsWordChar(d.classes, s[i - 1]) && RunSoFar(d.classes, s, lo, index, i)) &&
       (sep == 1 ==>
          index < i - 1 && IsWordChar(d.classes, s[i - 2]) &&
          IsJoiner(s[i - 1]) && !IsWordChar(d.classes, s[i - 1]) && !d.classes.isSpace(s[i - 1]) &&
          RunSoFar(d.classes, s, lo, index, i - 1)))
  }

  /** The state in which the character at `i` has ended the word [index, index + wordLen). */
  ghost predicate Emitting(d: Dictionary, s: string, lo: nat, i: int,
                           index: int, wordLen: int, isNumber: bool, isUppercase: bool)
  {
    0 <= lo <= index && 0 < wordLen && WordEndsAt(d.classes, s, lo, index, index + wordLen, i + 1) &&
    IsWordChar(d.classes, s[index]) && IsWordChar(d.classes, s[index + wordLen - 1]) &&
    (i + 1 == |s| || !IsWordChar(d.classes, s[i])) &&
    isNumber == (d.options.ignoreNumbers && AnyNumber(d.classes, s, index, index + wordLen)) &&
    isUppercase == (d.options.ignoreUppercase && !AnyLower(d.classes, s, index, index + wordLen))
  }

  /** A word character extends the word (or starts one), and at the end of the line ends it. */
  lemma ScanWordChar(d: Dictionary, s: string, lo: nat, i: int, inWord: bool,
                     sep: int, wordLen: int, isNumber: bool, isUppercase: bool, index: int)
    requires Scanning(d, s, lo, i, inWord, sep, wordLen, isNumber, isUppercase, index)
    requires i < |s| && IsWordChar(d.classes, s[i])
    ensures var cc := d.classes;
      var index' := if index < 0 then i else index;
      var number' := if cc.isNumber(s[i]) then d.options.ignoreNumbers else isNumber;
      var upper' := if !cc.isNumber(s[i]) && cc.isLower(s[i]) then false else isUppercase;
      (i == |s| - 1 ==> Emitting(d, s, lo, i, index', wordLen + 1, number', upper')) &&
      (i < |s| - 1 ==> Scanning(d, s, lo, i + 1, true, 0, wordLen + 1, number', upper', index'))
  {
    var cc := d.classes;
    var index' := if index < 0 then i else index;
    if inWord && sep == 1 {
      assert Joins(cc, s, lo, i - 1);
    }
    assert RunSoFar(cc, s, lo, index', i + 1);
    if i == |s| - 1 {
      assert WordEndsAt(cc, s, lo, index', i + 1, i + 1);
    }
  }

  /** A space ends the word before it, without a pending separator. */
  lemma ScanSpaceEnds(d: Dictionary, s: string, lo: nat, i: int,
                      sep: int, wordLen: int, isNumber: bool, isUppercase: bool, index: int)
    requires Scanning(d, s, lo, i, true, sep, wordLen, isNumber, isUppercase, index)
    requires i < |s| && !IsWordChar(d.classes, s[i]) && d.classes.isSpace(s[i])
    ensures Emitting(d, s, lo, i, index, if sep > 0 then wordLen - 1 else wordLen, isNumber, isUppercase)
  {
    var e := if sep > 0 then i - 1 else i;
    FlagsUpTo(d.classes, s, index, e, i + 1);
    assert WordEndsAt(d.classes, s, lo, index, e, i + 1);
  }

  /** Outside a word a non-word character is no word position. */
  lemma ScanGap(d: Dictionary, s: string, lo: nat, i: int,
                sep: int, wordLen: int, isNumber: bool, isUppercase: bool, index: int)
    requires Scanning(d, s, lo, i, false, sep, wordLen, isNumber, isUppercase, index)
    requires i < |s| && !IsWordChar(d.classes, s[i])
    ensures Scanning(d, s, lo, i + 1, false, sep + 1, wordLen, isNumber, isUppercase, index)
    ensures WordsFrom(d.classes, s, lo, i) == WordsFrom(d.classes, s, lo, i + 1)
  {
    assert !InWord(d.classes, s, lo, i);
    SkipGap(d.classes, s, lo, i, i + 1);
  }

  /** A separator other than '-', '.' and '\'' ends the word before it. */
  lemma ScanSeparatorEnds(d: Dictionary, s: string, lo: nat, i: int,
                          wordLen: int, isNumber: bool, isUppercase: bool, index: int)
    requires Scanning(d, s, lo, i, true, 0, wordLen, isNumber, isUppercase, index)
    requires i < |s| && !IsWordChar(d.classes, s[i]) && !d.classes.isSpace(s[i]) && !IsJoiner(s[i])
    ensures Emitting(d, s, lo, i, index, wordLen, isNumber, isUppercase)
  {
    FlagsUpTo(d.classes, s, index, i, i + 1);
    assert WordEndsAt(d.classes, s, lo, index, i, i + 1);
  }

  /** A second separator in a row ends the word before the first one. */
  lemma ScanDoubleSeparatorEnds(d: Dictionary, s: string, lo: nat, i: int,
                                wordLen: int, isNumber: bool, isUppercase: bool, index: int)
    requires Scanning(d, s, lo, i, true, 1, wordLen, isNumber, isUppercase, index)
    requires i < |s| && !IsWordChar(d.classes, s[i]) && !d.classes.isSpace(s[i])
    ensures Emitting(d, s, lo, i, index, wordLen - 1, isNumber, isUppercase)
  {
    FlagsUpTo(d.classes, s, index, i - 1, i + 1);
    assert WordEndsAt(d.classes, s, lo, index, i - 1, i + 1);
  }

  /** A single joiner after a word character stays pending; at the end of the line the
      word ends before it. */
  lemma ScanJoiner(d: Dictionary, s: string, lo: nat, i: int,
                   wordLen: int, isNumber: bool, isUppercase: bool, index: int)
    requires Scanning(d, s, lo, i, true, 0, wordLen, isNumber, isUppercase, index)
    requires i < |s| && !IsWordChar(d.classes, s[i]) && !d.classes.isSpace(s[i]) && IsJoiner(s[i])
    ensures i == |s| - 1 ==> Emitting(d, s, lo, i, index, wordLen, isNumber, isUppercase)
    ensures i < |s| - 1 ==> Scanning(d, s, lo, i + 1, true, 1, wordLen + 1, isNumber, isUppercase, index)
  {
    FlagsUpTo(d.classes, s, index, i, i + 1);
    if i == |s| - 1 {
      assert WordEndsAt(d.classes, s, lo, index, i, i + 1);
    }
  }

  /** An ended word is handed to the dictionary exactly when it is not skipped; if it is
      rejected it is the answer, and otherwise the scan goes on after `i` with the pending
      words after it. */
  lemma EmitWord(d: Dictionary, s: string, lo: nat, i: int,
                 index: int, wordLen: int, isNumber: bool, isUppercase: bool)
    requires Emitting(d, s, lo, i, index, wordLen, isNumber, isUppercase)
    ensures var w := Span(index, wordLen);
      0 <= index && 0 <= wordLen && SpanEnd(w) <= |s| &&
      isNumber == (d.options.ignoreNumbers && AnyNumber(d.classes, s, index, index + wordLen)) &&
      isUppercase == (d.options.ignoreUppercase && !AnyLower(d.classes, s, index, index + wordLen)) &&
      FirstMisspelled(d, s, WordsFrom(d.classes, s, lo, index)) ==
        (if Rejected(d, s, w) then Some(w) else FirstMisspelled(d, s, WordsFrom(d.classes, s, lo, i + 1))) &&
      Scanning(d, s, lo, i + 1, false, 0, 0, false, d.options.ignoreUppercase, -1)
  {
    PendingWord(d, s, lo, index, index + wordLen, i + 1);
  }

  // ---------------------------------------------------------------- segmentation lemmas

  /** RunEnd(k) is the end of the maximal run of word positions from `k`. */
  lemma {:induction false} RunEndMaximal(cc: CharClasses, s: string, lo: nat, k: nat)
    requires lo <= k <= |s|
    ensures var m := RunEnd(cc, s, lo, k);
      (forall j :: k <= j < m ==> InWord(cc, s, lo, j)) && (m == |s| || !InWord(cc, s, lo, m))
    decreases |s| - k
  {
    if k < |s| && InWord(cc, s, lo, k) {
      RunEndMaximal(cc, s, lo, k + 1);
    }
  }

  /** A run that ends at `m` has RunEnd `m`. */
  lemma {:induction false} RunEndIs(cc: CharClasses, s: string, lo: nat, k: nat, m: nat)
    requires lo <= k <= m <= |s|
    requires forall j :: k <= j < m ==> InWord(cc, s, lo, j)
    requires m == |s| || !InWord(cc, s, lo, m)
    ensures RunEnd(cc, s, lo, k) == m
    decreases m - k
  {
    if k < m {
      RunEndIs(cc, s, lo, k + 1, m);
    }
  }

  /** Positions outside every word contribute no word. */
  lemma {:induction false} SkipGap(cc: CharClasses, s: string, lo: nat, e: nat, n: nat)
    requires lo <= e <= n
    requires forall j :: e <= j < n ==> !InWord(cc, s, lo, j)
    ensures WordsFrom(cc, s, lo, e) == WordsFrom(cc, s, lo, n)
    decreases n - e
  {
    if e < n {
      SkipGap(cc, s, lo, e + 1, n);
    }
  }

  /** [index, k) are word positions. */
  ghost predicate RunSoFar(cc: CharClasses, s: string, lo: nat, index: int, k: int)
  {
    forall j :: index <= j < k ==> InWord(cc, s, lo, j)
  }

  /** The word starting at `index` stops at `e`, and the positions [e, n) after it hold
      no word character and belong to no word. */
  ghost predicate WordEndsAt(cc: CharClasses, s: string, lo: nat, index: int, e: int, n: int)
  {
    lo <= index < e <= n <= |s| && RunSoFar(cc, s, lo, index, e) &&
    (e == |s| || !InWord(cc, s, lo, e)) &&
    forall j :: e <= j < n ==> !InWord(cc, s, lo, j) && !IsWordChar(cc, s[j])
  }

  /** A run [index, e) followed by non-word positions up to `n` is the next word. */
  lemma WordAt(cc: CharClasses, s: string, lo: nat, index: nat, e: nat, n: nat)
    requires WordEndsAt(cc, s, lo, index, e, n)
    ensures WordsFrom(cc, s, lo, index) == [Span(index, e - index)] + WordsFrom(cc, s, lo, n)
  {
    RunEndIs(cc, s, lo, index, e);
    SkipGap(cc, s, lo, e, n);
  }

  /** The search over the pending words, when the next one stops at `e`: that word is
      answered if it is rejected, and the search goes on from `n` otherwise. */
  lemma PendingWord(d: Dictionary, s: string, lo: nat, index: nat, e: nat, n: nat)
    requires WordEndsAt(d.classes, s, lo, index, e, n)
    ensures FirstMisspelled(d, s, WordsFrom(d.classes, s, lo, index)) ==
      if Rejected(d, s, Span(index, e - index)) then Some(Span(index, e - index))
      else FirstMisspelled(d, s, WordsFrom(d.classes, s, lo, n))
  {
    WordAt(d.classes, s, lo, index, e, n);
    var w := Span(index, e - index);
    var rest := WordsFrom(d.classes, s, lo, n);
    assert ([w] + rest)[1..] == rest;
  }

  /** Non-word-character positions at the end of [a, b) set no flag. */
  lemma {:induction false} FlagsUpTo(cc: CharClasses, s: string, a: nat, e: nat, b: nat)
    requires a <= e <= b <= |s|
    requires forall j :: e <= j < b ==> !IsWordChar(cc, s[j])
    ensures AnyNumber(cc, s, a, b) == AnyNumber(cc, s, a, e)
    ensures AnyLower(cc, s, a, b) == AnyLower(cc, s, a, e)
    decreases b - e
  {
    if e < b {
      FlagsUpTo(cc, s, a, e, b - 1);
    }
  }

  /** Every word of WordsFrom(k) is a maximal run of word positions. */
  predicate MaximalRun(cc: CharClasses, s: string, lo: nat, w: Span)
  {
    lo <= w.start && 0 < w.length && SpanEnd(w) <= |s| &&
    (forall k :: w.start <= k < SpanEnd(w) ==> InWord(cc, s, lo, k)) &&
    (w.start == lo || !InWord(cc, s, lo, w.start - 1)) &&
    (SpanEnd(w) == |s| || !InWord(cc, s, lo, SpanEnd(w)))
  }

  /** The spans start at or after `k`, are maximal runs, and have a gap between each two. */
  ghost predicate RunsFrom(cc: CharClasses, s: string, lo: nat, k: nat, ws: seq<Span>)
  {
    (forall j :: 0 <= j < |ws| ==> k <= ws[j].start && MaximalRun(cc, s, lo, ws[j])) &&
    (forall j :: 0 < j < |ws| ==> SpanEnd(ws[j - 1]) < ws[j].start)
  }

  lemma {:induction false} WordsFromRuns(cc: CharClasses, s: string, lo: nat, k: nat)
    requires lo <= k
    requires k >= |s| || !InWord(cc, s, lo, k) || k == lo || !InWord(cc, s, lo, k - 1)
    ensures RunsFrom(cc, s, lo, k, WordsFrom(cc, s, lo, k))
    decreases |s| - k
  {
    if k >= |s| {
    } else if !InWord(cc, s, lo, k) {
      WordsFromRuns(cc, s, lo, k + 1);
      RunsLater(cc, s, lo, k, WordsFrom(cc, s, lo, k + 1));
    } else {
      var m := RunEnd(cc, s, lo, k);
      assert m == RunEnd(cc, s, lo, k + 1) && m > k;
      RunEndMaximal(cc, s, lo, k);
      WordsFromRuns(cc, s, lo, m);
      assert MaximalRun(cc, s, lo, Span(k, m - k));
      RunsCons(cc, s, lo, Span(k, m - k), WordsFrom(cc, s, lo, m));
    }
  }

  lemma RunsLater(cc: CharClasses, s: string, lo: nat, k: nat, ws: seq<Span>)
    requires RunsFrom(cc, s, lo, k + 1, ws)
    ensures RunsFrom(cc, s, lo, k, ws)
  {
  }

  /** A maximal run followed by maximal runs that start after it keeps the properties of
      WordsFromRuns. */
  lemma RunsCons(cc: CharClasses, s: string, lo: nat, w: Span, rest: seq<Span>)
    requires MaximalRun(cc, s, lo, w)
    requires RunsFrom(cc, s, lo, SpanEnd(w), rest)
    ensures RunsFrom(cc, s, lo, w.start, [w] + rest)
  {
    var ws := [w] + rest;
    forall j | 0 <= j < |ws| ensures w.start <= ws[j].start && MaximalRun(cc, s, lo, ws[j]) {
      if j > 0 {
        assert ws[j] == rest[j - 1];
      }
    }
    forall j | 0 < j < |ws| ensures SpanEnd(ws[j - 1]) < ws[j].start {
      assert ws[j] == rest[j - 1];
      if j == 1 {
        assert InWord(cc, s, lo, rest[0].start);
      } else {
        assert ws[j - 1] == rest[j - 2];
      }
    }
  }

  /** The words lie in the scanned part, in ascending order and with a gap between them;
      each is a maximal run of word positions whose first and last characters are word
      characters (a joiner never starts or ends a word). */
  lemma WordsWellFormed(cc: CharClasses, s: string, lo: nat)
    ensures var ws := Words(cc, s, lo);
      (forall j :: 0 <= j < |ws| ==> MaximalRun(cc, s, lo, ws[j])) &&
      (forall j :: 0 <= j < |ws| ==>
         IsWordChar(cc, s[ws[j].start]) && IsWordChar(cc, s[SpanEnd(ws[j]) - 1])) &&
      (forall j :: 0 < j < |ws| ==> SpanEnd(ws[j - 1]) < ws[j].start)
  {
    WordsFromRuns(cc, s, lo, lo);
    var ws := Words(cc, s, lo);
    assert ws == WordsFrom(cc, s, lo, lo);
    assert forall j :: 0 <= j < |ws| ==> MaximalRun(cc, s, lo, ws[j]);
    forall j | 0 <= j < |ws|
      ensures IsWordChar(cc, s[ws[j].start]) && IsWordChar(cc, s[SpanEnd(ws[j]) - 1])
    {
      assert InWord(cc, s, lo, ws[j].start) && InWord(cc, s, lo, SpanEnd(ws[j]) - 1);
    }
  }

  /** One word of the line: a maximal run with a word character at both ends. */
  lemma WordShape(cc: CharClasses, s: string, lo: nat, j: int)
    requires 0 <= j < |Words(cc, s, lo)|
    ensures var w := Words(cc, s, lo)[j];
      MaximalRun(cc, s, lo, w) && IsWordChar(cc, s[w.start]) && IsWordChar(cc, s[SpanEnd(w) - 1])
  {
    WordsFromRuns(cc, s, lo, lo);
    var ws := Words(cc, s, lo);
    assert ws == WordsFrom(cc, s, lo, lo);
    assert MaximalRun(cc, s, lo, ws[j]);
    assert InWord(cc, s, lo, ws[j].start) && InWord(cc, s, lo, SpanEnd(ws[j]) - 1);
  }

  // ---------------------------------------------------------------- what the words are

  /** isNumber and isUppercase summarize the word: some word character is a number, and
      some word character that is not a number is lower case. */
  lemma {:induction false} FlagsMeaning(cc: CharClasses, s: string, a: nat, b: nat)
    requires b <= |s|
    ensures AnyNumber(cc, s, a, b) <==> exists k :: a <= k < b && NumberAt(cc, s, k)
    ensures AnyLower(cc, s, a, b) <==> exists k :: a <= k < b && LowerAt(cc, s, k)
    decreases b
  {
    if a < b {
      FlagsMeaning(cc, s, a, b - 1);
    }
  }

  /** Some span of `ws` contains position `p`. */
  predicate Covered(ws: seq<Span>, p: int)
  {
    exists j :: 0 <= j < |ws| && ws[j].start <= p < SpanEnd(ws[j])
  }

  /** Every position of the scanned part that belongs to a word is covered by one of the
      words from `k` on, when it lies at or after `k`. */
  lemma {:induction false} CoveredFrom(cc: CharClasses, s: string, lo: nat, k: nat, p: int)
    requires lo <= k <= p && InWord(cc, s, lo, p)
    ensures Covered(WordsFrom(cc, s, lo, k), p)
    decreases |s| - k
  {
    if !InWord(cc, s, lo, k) {
      CoveredFrom(cc, s, lo, k + 1, p);
      assert WordsFrom(cc, s, lo, k) == WordsFrom(cc, s, lo, k + 1);
    } else {
      var m := RunEnd(cc, s, lo, k);
      RunEndMaximal(cc, s, lo, k);
      var rest := WordsFrom(cc, s, lo, m);
      var ws := WordsFrom(cc, s, lo, k);
      assert ws == [Span(k, m - k)] + rest;
      if p < m {
        assert ws[0] == Span(k, m - k);
      } else {
        CoveredFrom(cc, s, lo, m, p);
        var j :| 0 <= j < |rest| && rest[j].start <= p < SpanEnd(rest[j]);
        assert ws[j + 1] == rest[j];
      }
    }
  }

  /** A position belongs to a word (holds a word character, or a single joiner between two
      word characters) exactly when one of the words covers it. */
  lemma WordsCover(cc: CharClasses, s: string, lo: nat, p: int)
    ensures InWord(cc, s, lo, p) <==> Covered(Words(cc, s, lo), p)
  {
    WordsWellFormed(cc, s, lo);
    if InWord(cc, s, lo, p) {
      CoveredFrom(cc, s, lo, lo, p);
    }
  }

  /** Inside a word, a character that is not a word character is a single '-', '.' or '\''
      (not a space) with word characters on both sides. */
  lemma WordInterior(cc: CharClasses, s: string, lo: nat, j: int, p: int)
    requires var ws := Words(cc, s, lo); 0 <= j < |ws| && ws[j].start <= p < SpanEnd(ws[j])
    ensures var w := Words(cc, s, lo)[j];
      SpanEnd(w) <= |s| &&
      (IsWordChar(cc, s[p]) ||
       (IsJoiner(s[p]) && !cc.isSpace(s[p]) && w.start < p < SpanEnd(w) - 1 &&
        IsWordChar(cc, s[p - 1]) && IsWordChar(cc, s[p + 1])))
  {
    WordShape(cc, s, lo, j);
    var w := Words(cc, s, lo)[j];
    assert InWord(cc, s, lo, p);
  }

  /** A single joiner between two word characters is inside a word together with both of
      them: "well-known" and "don't" are one word each. */
  lemma JoinerInsideWord(cc: CharClasses, s: string, lo: nat, p: int)
    requires lo < p && p + 1 < |s|
    requires IsJoiner(s[p]) && !IsWordChar(cc, s[p]) && !cc.isSpace(s[p])
    requires IsWordChar(cc, s[p - 1]) && IsWordChar(cc, s[p + 1])
    ensures var ws := Words(cc, s, lo);
      exists j :: 0 <= j < |ws| && ws[j].start <= p - 1 && p + 1 < SpanEnd(ws[j])
  {
    var ws := Words(cc, s, lo);
    WordsCover(cc, s, lo, p);
    assert InWord(cc, s, lo, p);
    var j :| 0 <= j < |ws| && ws[j].start <= p < SpanEnd(ws[j]);
    WordShape(cc, s, lo, j);
    assert InWord(cc, s, lo, p - 1) && InWord(cc, s, lo, p + 1);
  }

  /** A separator that is not a joiner, a space, a separator next to another separator, and
      a separator that ends the line or the scanned part's start belong to no word. */
  lemma SeparatorExcluded(cc: CharClasses, s: string, lo: nat, p: int)
    requires lo <= p < |s| && !IsWordChar(cc, s[p])
    requires !IsJoiner(s[p]) || cc.isSpace(s[p]) || p == lo || p + 1 == |s| ||
             !IsWordChar(cc, s[p - 1]) || !IsWordChar(cc, s[p + 1])
    ensures !Covered(Words(cc, s, lo), p)
  {
    WordsCover(cc, s, lo, p);
  }

  /** U+2019 is not a joiner, so unless it is a word character it ends words: no word
      contains it, and the replacement of U+2019 by an apostrophe never changes a word. */
  lemma NormalizeUnchanged(cc: CharClasses, s: string, lo: nat)
    requires !IsWordChar(cc, RightSingleQuote)
    ensures var ws := Words(cc, s, lo);
      forall j :: 0 <= j < |ws| ==> SpanEnd(ws[j]) <= |s| && Normalize(WordText(s, ws[j])) == WordText(s, ws[j])
  {
    var ws := Words(cc, s, lo);
    forall j | 0 <= j < |ws|
      ensures SpanEnd(ws[j]) <= |s| && Normalize(WordText(s, ws[j])) == WordText(s, ws[j])
    {
      WordShape(cc, s, lo, j);
      var t := WordText(s, ws[j]);
      forall i | 0 <= i < |t| ensures t[i] != RightSingleQuote {
        WordInterior(cc, s, lo, j, ws[j].start + i);
      }
    }
  }

  /** An answer of Check is a rejected word of the line at or after `startAt`, with a word
      character at both ends, and every earlier word was skipped or accepted; there is no
      answer exactly when every word is skipped or accepted. */
  lemma MisspelledIsWord(d: Dictionary, s: string, startAt: nat)
    ensures var ws := Words(d.classes, s, startAt);
      var r := FirstMisspelled(d, s, ws);
      (r.None? <==> forall j :: 0 <= j < |ws| ==> !Rejected(d, s, ws[j])) &&
      (r.Some? ==>
         startAt <= r.value.start && 0 < r.value.length && SpanEnd(r.value) <= |s| &&
         IsWordChar(d.classes, s[r.value.start]) && IsWordChar(d.classes, s[SpanEnd(r.value) - 1]) &&
         exists j :: 0 <= j < |ws| && r.value == ws[j] && Rejected(d, s, ws[j]) &&
                     forall j' :: 0 <= j' < j ==> !Rejected(d, s, ws[j']))
  {
    var ws := Words(d.classes, s, startAt);
    FirstMisspelledIsFirst(d, s, ws);
    var r := FirstMisspelled(d, s, ws);
    if r.Some? {
      var j :| 0 <= j < |ws| && r.value == ws[j] && Rejected(d, s, ws[j]) &&
               forall j' :: 0 <= j' < j ==> !Rejected(d, s, ws[j']);
      WordShape(d.classes, s, startAt, j);
    }
  }

  // ---------------------------------------------------------------- an example line

  const ExampleLine := "well-known word123 ALLCAPS don't"

  predicate LetterOrDigit(c: char)
  {
    'a' <= c <= 'z' || 'A' <= c <= 'Z' || '0' <= c <= '9'
  }

  /** ASCII letters and digits are word characters; ' ', '-' and '\'' are not, and only
      ' ' is a space. */
  predicate ExampleClasses(cc: CharClasses)
  {
    (forall c :: LetterOrDigit(c) ==> IsWordChar(cc, c)) &&
    !IsWordChar(cc, ' ') && cc.isSpace(' ') &&
    !IsWordChar(cc, '-') && !cc.isSpace('-') && !IsWordChar(cc, '\'') && !cc.isSpace('\'')
  }

  /** The characters of the example line: letters and digits except at the joiners 4 and
      30 and the spaces 10, 18 and 26. */
  lemma ExampleChars()
    ensures |ExampleLine| == 32
    ensures ExampleLine[4] == '-' && ExampleLine[30] == '\''
    ensures ExampleLine[10] == ' ' && ExampleLine[18] == ' ' && ExampleLine[26] == ' '
    ensures forall i :: 0 <= i < 32 && i != 4 && i != 10 && i != 18 && i != 26 && i != 30 ==>
      LetterOrDigit(ExampleLine[i])
  {
  }

  /** One of the four words of the example line, over [a, b), followed by a space or by the
      line's end. */
  lemma ExampleWordAt(cc: CharClasses, a: nat, b: nat)
    requires ExampleClasses(cc)
    requires (a == 0 && b == 10) || (a == 11 && b == 18) || (a == 19 && b == 26) || (a == 27 && b == 32)
    ensures WordsFrom(cc, ExampleLine, 0, a) ==
      [Span(a, b - a)] + WordsFrom(cc, ExampleLine, 0, if b == 32 then 32 else b + 1)
  {
    var s := ExampleLine;
    ExampleChars();
    assert Joins(cc, s, 0, 4) && Joins(cc, s, 0, 30);
    forall i | a <= i < b ensures InWord(cc, s, 0, i) {
      if i != 4 && i != 30 {
        assert LetterOrDigit(s[i]);
      }
    }
    WordAt(cc, s, 0, a, b, if b == 32 then 32 else b + 1);
  }

  /** The texts of the four words of the example line. */
  lemma ExampleTexts()
    ensures ExampleLine[0..10] == "well-known" && ExampleLine[11..18] == "word123"
    ensures ExampleLine[19..26] == "ALLCAPS" && ExampleLine[27..32] == "don't"
  {
  }

  /** The words of the example line from its last word on, one word at a time. */
  lemma ExampleFromLast(cc: CharClasses)
    requires ExampleClasses(cc)
    ensures WordsFrom(cc, ExampleLine, 0, 27) == [Span(27, 5)]
  {
    assert WordsFrom(cc, ExampleLine, 0, 27) == [Span(27, 5)] + WordsFrom(cc, ExampleLine, 0, 32) by {
      ExampleWordAt(cc, 27, 32);
    }
    assert |ExampleLine| == 32;
  }

  lemma ExampleFromThird(cc: CharClasses)
    requires ExampleClasses(cc)
    ensures WordsFrom(cc, ExampleLine, 0, 19) == [Span(19, 7), Span(27, 5)]
  {
    assert WordsFrom(cc, ExampleLine, 0, 19) == [Span(19, 7)] + WordsFrom(cc, ExampleLine, 0, 27) by {
      ExampleWordAt(cc, 19, 26);
    }
    ExampleFromLast(cc);
  }

  lemma ExampleFromSecond(cc: CharClasses)
    requires ExampleClasses(cc)
    ensures WordsFrom(cc, ExampleLine, 0, 11) == [Span(11, 7), Span(19, 7), Span(27, 5)]
  {
    assert WordsFrom(cc, ExampleLine, 0, 11) == [Span(11, 7)] + WordsFrom(cc, ExampleLine, 0, 19) by {
      ExampleWordAt(cc, 11, 18);
    }
    ExampleFromThird(cc);
  }

  /** With ASCII letters and digits as word characters and ' ', '-' and '\'' as none, the
      line "well-known word123 ALLCAPS don't" has four words: the joiners of "well-known"
      and "don't" stay inside them and the spaces separate the rest. */
  lemma ExampleWords(cc: CharClasses)
    requires ExampleClasses(cc)
    ensures var ws := Words(cc, ExampleLine, 0);
      ws == [Span(0, 10), Span(11, 7), Span(19, 7), Span(27, 5)] &&
      WordText(ExampleLine, ws[0]) == "well-known" && WordText(ExampleLine, ws[1]) == "word123" &&
      WordText(ExampleLine, ws[2]) == "ALLCAPS" && WordText(ExampleLine, ws[3]) == "don't"
  {
    assert Words(cc, ExampleLine, 0) == [Span(0, 10)] + WordsFrom(cc, ExampleLine, 0, 11) by {
      ExampleWordAt(cc, 0, 10);
    }
    ExampleFromSecond(cc);
    ExampleTexts();
  }
}
