/** Block states and what highlightBlock does to one line: the fenced-code state machine,
    then (for a line it does not consume) the pattern pass and the multi-line HTML comment
    tracker. A line's result depends only on the previous line's state and its own text. */
module Blocks {
  import opened Strings
  import opened Formats
  import opened Regex
  import opened Rules

  /** The block-state bits. QSyntaxHighlighter gives -1 as the previous state of the
      first line (and of a line never highlighted). */
  const Normal := 0
  const InCode := 1
  const InComment := 2

  /** `(s & InCode) == InCode` and `(s & InComment) == InComment` on a two's-complement int:
      with Euclidean division, `(s / 2^k) % 2` is bit k of `s` for negative `s` too. */
  predicate HasInCode(s: int) { s % 2 == 1 }
  predicate HasInComment(s: int) { (s / 2) % 2 == 1 }

  /** `s | InCode` and `s | InComment`. */
  function WithInCode(s: int): int { if HasInCode(s) then s else s + InCode }
  function WithInComment(s: int): int { if HasInComment(s) then s else s + InComment }

  /** The highlighter's per-line output: the format buffer and the current block state. */
  datatype LineState = LineState(formats: seq<Format>, state: int)

  const Fence := "```"
  const BeginToken := "<!--"
  const EndToken := "-->"

  /** The entry-state test of highlightMultilineMdCode: -1 never counts as in code. */
  predicate EntersInCode(prev: int) { prev != -1 && HasInCode(prev) }

  /** The entry-state test of highlightMultilineHtmlComments. */
  predicate EntersInComment(prev: int) { prev > -1 && HasInComment(prev) }

  /** highlightMultilineMdCode: whether the line was consumed, and the new line state. */
  function CodeStep(prev: int, text: string, h: LineState): (r: (bool, LineState))
    ensures r.0 <==> Consumed(prev, text)
    ensures |r.1.formats| == |h.formats|
    ensures !r.0 ==> r.1 == h.(state := Normal)
  {
    if EntersInCode(prev) then
      if text == Fence then (true, h.(formats := ApplyFormat(h.formats, Write(0, |Fence|, CodeBlockFormat))))
      else (true, LineState(ApplyFormat(h.formats, Write(0, |text|, CodeBlockFormat)), WithInCode(h.state)))
    else if StartsWith(text, Fence) then
      (true, LineState(ApplyFormat(h.formats, Write(0, |text|, CodeBlockFormat)), WithInCode(h.state)))
    else (false, h.(state := Normal))
  }

  /** highlightMultilineHtmlComments. */
  function CommentStep(prev: int, text: string, h: LineState): (r: LineState)
    ensures |r.formats| == |h.formats|
    ensures r.state == h.state || r.state == WithInComment(h.state)
    ensures !EntersInComment(prev) && LastIndexOf(text, BeginToken) == -1 ==> r == h
  {
    if EntersInComment(prev) && IndexOf(text, EndToken) == -1 then
      LineState(ApplyFormat(h.formats, Write(0, |text|, HtmlCommentFormat)), WithInComment(h.state))
    else
      var h1 := if EntersInComment(prev)
        then h.(formats := ApplyFormat(h.formats, Write(0, IndexOf(text, EndToken) + |EndToken|, HtmlCommentFormat)))
        else h;
      var start := LastIndexOf(text, BeginToken);
      if start != -1 && LastIndexOf(text, EndToken) < start then
        LineState(ApplyFormat(h1.formats, Write(start, |text|, HtmlCommentFormat)), WithInComment(h1.state))
      else h1
  }

  /** highlightBlock on the line state `h` Qt hands over (its buffer and stored state). */
  function Highlight(rules: seq<Rule>, enabled: bool, prev: int, text: string, h: LineState): (r: LineState)
    ensures !enabled ==> r == h
    ensures |r.formats| == |h.formats|
  {
    if !enabled then h
    else
      var code := CodeStep(prev, text, h.(state := Normal));
      if code.0 then code.1
      else
        var h2 := if |text| > 0 then code.1.(formats := HighlightPatterns(rules, text, code.1.formats)) else code.1;
        CommentStep(prev, text, h2)
  }

  /** One line highlighted from the buffer Qt prepares (all default formats). */
  function HighlightLine(rules: seq<Rule>, prev: int, text: string): (r: LineState)
    ensures |r.formats| == |text|
  {
    Highlight(rules, true, prev, text, LineState(Defaults(|text|), -1))
  }

  /** A whole document highlighted top to bottom, each line entered with its
      predecessor's exit state and the first with `prev` (Qt passes -1 for a
      document's first block). */
  function HighlightLines(rules: seq<Rule>, prev: int, lines: seq<string>): (r: seq<LineState>)
    ensures |r| == |lines|
    ensures forall i :: 0 <= i < |lines| ==>
      r[i] == HighlightLine(rules, if i == 0 then prev else r[i - 1].state, lines[i])
    decreases |lines|
  {
    if lines == [] then []
    else
      var h := HighlightLine(rules, prev, lines[0]);
      var rest := HighlightLines(rules, h.state, lines[1..]);
      assert forall i :: 1 <= i < |lines| ==> lines[1..][i - 1] == lines[i];
      [h] + rest
  }

  /** The line is taken by the fenced-code path. */
  predicate Consumed(prev: int, text: string)
  {
    EntersInCode(prev) || StartsWith(text, Fence)
  }

  /** Some "<!--" of the line has no "-->" at or after it. */
  ghost predicate OpensComment(text: string)
  {
    exists s :: OccursAt(text, BeginToken, s) && forall j :: s <= j ==> !OccursAt(text, EndToken, j)
  }

  /** Entered inside a comment, position `i` comes before the end of the line's first
      "-->" (anywhere on the line when it has none). */
  predicate InClosingSpan(prev: int, text: string, i: int)
  {
    EntersInComment(prev) && forall j :: 0 <= j && j + |EndToken| <= i ==> !OccursAt(text, EndToken, j)
  }

  /** Position `i` is at or after the line's last "<!--", and no "-->" follows that one. */
  ghost predicate InOpeningSpan(text: string, i: int)
  {
    exists s :: 0 <= s <= i && OccursAt(text, BeginToken, s) &&
      (forall j :: s < j ==> !OccursAt(text, BeginToken, j)) &&
      (forall j :: s <= j ==> !OccursAt(text, EndToken, j))
  }

  predicate AllFormat(buf: seq<Format>, f: Format)
  {
    forall i :: 0 <= i < |buf| ==> buf[i] == f
  }

  // ---------------------------------------------------------------- fenced code

  /** Inside a block, the line "```" closes it: only its three characters become code
      and the exit state is Normal. */
  lemma FenceCloses(rules: seq<Rule>, prev: int)
    requires EntersInCode(prev)
    ensures HighlightLine(rules, prev, Fence) == LineState([CodeBlockFormat, CodeBlockFormat, CodeBlockFormat], Normal)
  {
    var r := HighlightLine(rules, prev, Fence);
    assert |r.formats| == 3;
    assert r.formats[0] == CodeBlockFormat && r.formats[1] == CodeBlockFormat && r.formats[2] == CodeBlockFormat;
  }

  /** Inside a block, any other line (also one that only contains "```" after some
      spaces) stays in the block: the whole line is code and the exit state is InCode. */
  lemma FenceContinues(rules: seq<Rule>, prev: int, text: string)
    requires EntersInCode(prev) && text != Fence
    ensures var r := HighlightLine(rules, prev, text);
      |r.formats| == |text| && AllFormat(r.formats, CodeBlockFormat) && r.state == InCode
  {
  }

  /** Outside a block, a line starting with "```" opens one: the whole line is code and
      the exit state is InCode. */
  lemma FenceOpens(rules: seq<Rule>, prev: int, text: string)
    requires !EntersInCode(prev) && StartsWith(text, Fence)
    ensures var r := HighlightLine(rules, prev, text);
      |r.formats| == |text| && AllFormat(r.formats, CodeBlockFormat) && r.state == InCode
  {
  }

  /** A consumed line gets no rule and no comment formatting: its result is the same for
      every rule table, every character is code or default, and its exit state never holds
      InComment, whatever the entry state held. */
  lemma ConsumedLine(rules: seq<Rule>, other: seq<Rule>, prev: int, text: string)
    requires Consumed(prev, text)
    ensures HighlightLine(rules, prev, text) == HighlightLine(other, prev, text)
    ensures forall i :: 0 <= i < |text| ==> HighlightLine(rules, prev, text).formats[i] in {CodeBlockFormat, DefaultFormat}
    ensures HighlightLine(rules, prev, text).state in {Normal, InCode}
    ensures !HasInComment(HighlightLine(rules, prev, text).state)
  {
  }

  // ---------------------------------------------------------------- comments

  /** OpensComment is what the source tests: the last "<!--" exists and the last "-->"
      lies before it. */
  lemma OpensCommentIff(text: string)
    ensures OpensComment(text) <==>
      (LastIndexOf(text, BeginToken) != -1 && LastIndexOf(text, EndToken) < LastIndexOf(text, BeginToken))
  {
    var start := LastIndexOf(text, BeginToken);
    var end := LastIndexOf(text, EndToken);
    if OpensComment(text) {
      var s :| OccursAt(text, BeginToken, s) && forall j :: s <= j ==> !OccursAt(text, EndToken, j);
      assert start != -1 && s <= start;
      if end != -1 {
        assert OccursAt(text, EndToken, end);
      }
    }
    if start != -1 && end < start {
      assert OccursAt(text, BeginToken, start);
    }
  }

  /** A line not consumed by the code path has exit state InComment or Normal, and it is
      InComment exactly when an open comment runs on (entered in a comment and no "-->")
      or some "<!--" of the line has no "-->" at or after it. */
  lemma CommentExitState(rules: seq<Rule>, prev: int, text: string)
    requires !Consumed(prev, text)
    ensures var r := HighlightLine(rules, prev, text);
      r.state in {Normal, InComment} &&
      (r.state == InComment <==>
        (EntersInComment(prev) && forall j :: !OccursAt(text, EndToken, j)) || OpensComment(text))
  {
    OpensCommentIff(text);
  }

  /** Entered inside a comment, a line without "-->" is comment throughout and the
      comment stays open. */
  lemma CommentContinues(rules: seq<Rule>, prev: int, text: string)
    requires !Consumed(prev, text) && EntersInComment(prev)
    requires forall j :: !OccursAt(text, EndToken, j)
    ensures var r := HighlightLine(rules, prev, text);
      |r.formats| == |text| && AllFormat(r.formats, HtmlCommentFormat) && r.state == InComment
  {
  }

  /** The closing span in terms of the source's indexOf test. */
  lemma ClosingSpanIndex(prev: int, text: string, i: int)
    ensures InClosingSpan(prev, text, i) <==>
      EntersInComment(prev) && (IndexOf(text, EndToken) == -1 || i < IndexOf(text, EndToken) + |EndToken|)
  {
    var e := IndexOf(text, EndToken);
    if EntersInComment(prev) && e != -1 && i >= e + |EndToken| {
      assert OccursAt(text, EndToken, e);
    }
  }

  /** The opening span in terms of the source's lastIndexOf tests. */
  lemma OpeningSpanIndex(text: string, i: int)
    ensures var s := LastIndexOf(text, BeginToken);
      InOpeningSpan(text, i) <==> s != -1 && LastIndexOf(text, EndToken) < s && s <= i
  {
    var s := LastIndexOf(text, BeginToken);
    var l := LastIndexOf(text, EndToken);
    if InOpeningSpan(text, i) {
      var t :| 0 <= t <= i && OccursAt(text, BeginToken, t) &&
        (forall j :: t < j ==> !OccursAt(text, BeginToken, j)) &&
        (forall j :: t <= j ==> !OccursAt(text, EndToken, j));
      assert s == t;
      if l != -1 {
        assert OccursAt(text, EndToken, l);
      }
    }
    if s != -1 && l < s && s <= i {
      assert OccursAt(text, BeginToken, s);
    }
  }

  /** A line the code path does not take, character by character: comment where it lies
      in the closing span of a comment entered from the previous line or in the opening
      span of a comment the line leaves open, and elsewhere what the pattern pass wrote
      over the default formats. */
  lemma CommentLine(rules: seq<Rule>, prev: int, text: string, i: int)
    requires !Consumed(prev, text) && 0 <= i < |text|
    ensures HighlightLine(rules, prev, text).formats[i] ==
      if InClosingSpan(prev, text, i) || InOpeningSpan(text, i) then HtmlCommentFormat
      else HighlightPatterns(rules, text, Defaults(|text|))[i]
  {
    ClosingSpanIndex(prev, text, i);
    OpeningSpanIndex(text, i);
    var patterns := LineState(HighlightPatterns(rules, text, Defaults(|text|)), Normal);
    assert HighlightLine(rules, prev, text) == CommentStep(prev, text, patterns);
  }

  /** Entered inside a comment, a line whose first "-->" is at `e` is comment on
      [0, e + 3), whatever the rules wrote there; after it each character keeps what the
      pattern pass wrote unless a comment opened later on the line runs to its end. */
  lemma CommentCloses(rules: seq<Rule>, prev: int, text: string, e: nat)
    requires !Consumed(prev, text) && EntersInComment(prev)
    requires OccursAt(text, EndToken, e) && forall j :: j < e ==> !OccursAt(text, EndToken, j)
    ensures var r := HighlightLine(rules, prev, text);
      (forall i :: 0 <= i < e + |EndToken| ==> r.formats[i] == HtmlCommentFormat) &&
      forall i :: e + |EndToken| <= i < |text| ==>
        r.formats[i] == if InOpeningSpan(text, i) then HtmlCommentFormat
                        else HighlightPatterns(rules, text, Defaults(|text|))[i]
  {
    forall i | 0 <= i < |text|
      ensures HighlightLine(rules, prev, text).formats[i] ==
        if i < e + |EndToken| || InOpeningSpan(text, i) then HtmlCommentFormat
        else HighlightPatterns(rules, text, Defaults(|text|))[i]
    {
      CommentLine(rules, prev, text, i);
      assert InClosingSpan(prev, text, i) <==> i < e + |EndToken| by {
        if i >= e + |EndToken| {
          assert OccursAt(text, EndToken, e);
        }
      }
    }
  }

  /** When the last "<!--" of the line, at `s`, has no "-->" at or after it, [s, end of
      line) is comment; before it each character keeps what the pattern pass wrote unless
      it closes a comment entered from the previous line. */
  lemma CommentOpens(rules: seq<Rule>, prev: int, text: string, s: nat)
    requires !Consumed(prev, text)
    requires OccursAt(text, BeginToken, s) && forall j :: s < j ==> !OccursAt(text, BeginToken, j)
    requires forall j :: s <= j ==> !OccursAt(text, EndToken, j)
    ensures var r := HighlightLine(rules, prev, text);
      (forall i :: s <= i < |text| ==> r.formats[i] == HtmlCommentFormat) &&
      forall i :: 0 <= i < s ==>
        r.formats[i] == if InClosingSpan(prev, text, i) then HtmlCommentFormat
                        else HighlightPatterns(rules, text, Defaults(|text|))[i]
  {
    forall i | 0 <= i < |text|
      ensures HighlightLine(rules, prev, text).formats[i] ==
        if InClosingSpan(prev, text, i) || s <= i then HtmlCommentFormat
        else HighlightPatterns(rules, text, Defaults(|text|))[i]
    {
      CommentLine(rules, prev, text, i);
      assert InOpeningSpan(text, i) <==> s <= i by {
        if InOpeningSpan(text, i) {
          var t :| 0 <= t <= i && OccursAt(text, BeginToken, t) &&
            (forall j :: t < j ==> !OccursAt(text, BeginToken, j)) &&
            (forall j :: t <= j ==> !OccursAt(text, EndToken, j));
          assert t == s;
        }
      }
    }
  }

  /** A line with no "<!--", entered outside code and comments and opening no fence, is
      exactly the pattern pass over the default formats, and exits Normal. */
  lemma PlainLine(rules: seq<Rule>, prev: int, text: string)
    requires !Consumed(prev, text) && !EntersInComment(prev)
    requires forall j :: !OccursAt(text, BeginToken, j)
    ensures HighlightLine(rules, prev, text) == LineState(HighlightPatterns(rules, text, Defaults(|text|)), Normal)
  {
    assert LastIndexOf(text, BeginToken) == -1;
  }

  // ---------------------------------------------------------------- whole lines

  /** Every exit state is one of Normal, InCode and InComment, never both bits. */
  lemma ExitStates(rules: seq<Rule>, prev: int, text: string)
    ensures HighlightLine(rules, prev, text).state in {Normal, InCode, InComment}
  {
    if !Consumed(prev, text) {
      CommentExitState(rules, prev, text);
    }
  }

  /** The exit state depends on the entry state and the text only, not on the rules. */
  lemma ExitStateIgnoresRules(rules: seq<Rule>, other: seq<Rule>, prev: int, text: string)
    ensures HighlightLine(rules, prev, text).state == HighlightLine(other, prev, text).state
  {
  }

  /** An empty line writes nothing and passes Normal, InCode and InComment on unchanged;
      the first line's -1 becomes Normal. */
  lemma EmptyLine(rules: seq<Rule>, prev: int)
    requires prev in {-1, Normal, InCode, InComment}
    ensures HighlightLine(rules, prev, "") == LineState([], if prev == -1 then Normal else prev)
  {
    assert IndexOf("", EndToken) == -1;
    assert LastIndexOf("", BeginToken) == -1;
  }

  /** Lines "```", "code", "```" of a document: InCode, InCode, Normal; the two fences
      are exactly three code characters and the middle line is code throughout. */
  lemma FenceLifecycle(rules: seq<Rule>)
    ensures var r := HighlightLines(rules, -1, [Fence, "code", Fence]);
      r[0] == LineState([CodeBlockFormat, CodeBlockFormat, CodeBlockFormat], InCode) &&
      r[1] == LineState([CodeBlockFormat, CodeBlockFormat, CodeBlockFormat, CodeBlockFormat], InCode) &&
      r[2] == LineState([CodeBlockFormat, CodeBlockFormat, CodeBlockFormat], Normal)
  {
    var lines := [Fence, "code", Fence];
    assert StartsWith(Fence, Fence);
    var h0 := HighlightLine(rules, -1, Fence);
    assert h0.formats == [CodeBlockFormat, CodeBlockFormat, CodeBlockFormat];
    assert h0.state == InCode;
    var h1 := HighlightLine(rules, InCode, "code");
    assert h1.state == InCode;
    assert h1.formats == [CodeBlockFormat, CodeBlockFormat, CodeBlockFormat, CodeBlockFormat];
    FenceCloses(rules, InCode);
    var h2 := HighlightLine(rules, InCode, Fence);
    assert lines[1..] == ["code", Fence];
    assert ["code", Fence][1..] == [Fence];
    assert [Fence][1..] == [];
    assert HighlightLines(rules, InCode, [Fence]) == [h2];
    assert HighlightLines(rules, InCode, ["code", Fence]) == [h1, h2];
    assert HighlightLines(rules, -1, lines) == [h0, h1, h2];
  }

  /** The first line of the comment example opens a comment at offset 5. */
  lemma CommentExampleOpen(rules: seq<Rule>)
    ensures var r := HighlightLine(rules, -1, "text <!-- start");
      r.state == InComment && forall i :: 5 <= i < 15 ==> r.formats[i] == HtmlCommentFormat
  {
    var l := "text <!-- start";
    assert l[..3][0] == 't';
    assert OccursAt(l, BeginToken, 5);
    CharOutside(l, BeginToken, 0, 6, |l|);
    CharOutside(l, EndToken, 2, 0, |l|);
    CommentOpens(rules, -1, l, 5);
    CommentExitState(rules, -1, l);
  }

  /** The second line has no "-->" and stays inside the comment. */
  lemma CommentExampleMiddle(rules: seq<Rule>)
    ensures var r := HighlightLine(rules, InComment, "middle");
      |r.formats| == 6 && AllFormat(r.formats, HtmlCommentFormat) && r.state == InComment
  {
    var l := "middle";
    assert l[..3][0] == 'm';
    CharOutside(l, EndToken, 2, 0, |l|);
    CommentContinues(rules, InComment, l);
  }

  /** The third line closes the comment with the "-->" at offset 4. */
  lemma CommentExampleClose(rules: seq<Rule>)
    ensures var r := HighlightLine(rules, InComment, "end -->");
      r.state == Normal && forall i :: 0 <= i < 7 ==> r.formats[i] == HtmlCommentFormat
  {
    var l := "end -->";
    assert l[..3][0] == 'e';
    assert OccursAt(l, EndToken, 4);
    CharOutside(l, EndToken, 0, 0, 4);
    CommentCloses(rules, InComment, l, 4);
    CharOutside(l, BeginToken, 0, 0, |l|);
    CommentExitState(rules, InComment, l);
  }

  /** Lines "text <!-- start", "middle", "end -->" of a document: the first is comment from
      its "<!--" to the end and opens a comment, the second is comment throughout and keeps
      it open, the third is comment up to and including "-->" and closes it. */
  lemma CommentLifecycle(rules: seq<Rule>)
    ensures var r := HighlightLines(rules, -1, ["text <!-- start", "middle", "end -->"]);
      r[0].state == InComment && (forall i :: 5 <= i < 15 ==> r[0].formats[i] == HtmlCommentFormat) &&
      |r[1].formats| == 6 && AllFormat(r[1].formats, HtmlCommentFormat) && r[1].state == InComment &&
      r[2].state == Normal && (forall i :: 0 <= i < 7 ==> r[2].formats[i] == HtmlCommentFormat)
  {
    var r := HighlightLines(rules, -1, ["text <!-- start", "middle", "end -->"]);
    CommentExampleOpen(rules);
    assert r[0] == HighlightLine(rules, -1, "text <!-- start");
    CommentExampleMiddle(rules);
    assert r[1] == HighlightLine(rules, InComment, "middle");
    CommentExampleClose(rules);
    assert r[2] == HighlightLine(rules, InComment, "end -->");
  }
}
