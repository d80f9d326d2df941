/** NoteEditHighlighter: the rule table built by the constructor, and highlightBlock with
    its three passes, writing the current block's format buffer (QSyntaxHighlighter's
    formatChanges) through the clamped setFormat and setting the current block state.
    Every method is proved against the line functions of module Blocks. */
module Highlighter {
  import opened Strings
  import opened Formats
  import opened Regex
  import opened Rules
  import opened Blocks
  import Tokenizer

  /** QRegularExpressionMatch::capturedStart() of a search: -1 when nothing matched. */
  function CapturedStart(m: Option<RegexMatch>): (index: int)
    ensures index == -1 <==> m.None?
    ensures m.Some? ==> index == m.value.start
  {
    match m
    case None => -1
    case Some(x) => x.start
  }

  class NoteEditHighlighter {
    /** The compiled rules, in addRegex order. */
    var typeAndRegex: seq<Rule>
    var enabled: bool
    /** The spell-check dictionary requested by the constructor. */
    var spellCheckDictionary: Tokenizer.Dictionary
    /** The format buffer of the block being highlighted, one entry per character. */
    var formatChanges: array<Format>
    /** previousBlockState() and currentBlockState() of the block being highlighted. */
    var previousBlockState: int
    var currentBlockState: int

    /** What highlightBlock produces: the buffer and the current block state. */
    function Line(): LineState
      reads this, formatChanges
    {
      LineState(formatChanges[..], currentBlockState)
    }

    /** The constructor makes the addRegex calls of the registration table, in its order
        (HTML rules first, then the Markdown ones), with the given regular-expression engine. */
    constructor (engine: (string, bool) -> Matcher, enabled: bool, dictionary: Tokenizer.Dictionary)
      ensures typeAndRegex == Compile(Registrations, engine)
      ensures this.enabled == enabled && spellCheckDictionary == dictionary
      ensures fresh(formatChanges) && formatChanges.Length == 0
      ensures previousBlockState == -1 && currentBlockState == -1
    {
      typeAndRegex := [];
      this.enabled := enabled;
      spellCheckDictionary := dictionary;
      formatChanges := new Format[0];
      previousBlockState := -1;
      currentBlockState := -1;
      new;
      RegisterAll(Registrations, engine);
    }

    /** The addRegex calls for a table of registrations, in order. */
    method RegisterAll(regs: seq<Registration>, engine: (string, bool) -> Matcher)
      modifies this`typeAndRegex
      ensures typeAndRegex == old(typeAndRegex) + Compile(regs, engine)
    {
      for k := 0 to |regs|
        invariant typeAndRegex == old(typeAndRegex) + Compile(regs[..k], engine)
      {
        var g := regs[k];
        AddRegex(g.kind, g.pattern, g.minimal, engine);
        CompileSnoc(regs, k, engine);
      }
      assert regs[..|regs|] == regs;
    }

    /** addRegex: compiles the pattern (minimal selects inverted greediness) and appends
        the pair to typeAndRegex. */
    method AddRegex(kind: RuleType, pattern: string, minimal: bool, engine: (string, bool) -> Matcher)
      modifies this`typeAndRegex
      ensures typeAndRegex == old(typeAndRegex) + [Rule(kind, pattern, minimal, engine(pattern, minimal))]
    {
      var regex := engine(pattern, minimal);
      typeAndRegex := typeAndRegex + [Rule(kind, pattern, minimal, regex)];
    }

    /** QSyntaxHighlighter::setFormat: a start outside the buffer writes nothing; otherwise
        [start, min(start + count, length)) gets the format. */
    method SetFormat(start: int, count: int, format: Format)
      modifies formatChanges
      ensures formatChanges[..] == ApplyFormat(old(formatChanges[..]), Write(start, count, format))
    {
      var n := formatChanges.Length;
      if start < 0 || start >= n {
        return;
      }
      var end := if start + count < n then start + count else n;
      var i := start;
      while i < end
        invariant start <= i && (i <= end || i == start)
        invariant forall k :: 0 <= k < n ==>
          formatChanges[k] == if start <= k < i then format else old(formatChanges[k])
        decreases end - i
      {
        formatChanges[i] := format;
        i := i + 1;
      }
      assert forall k :: 0 <= k < n ==>
        formatChanges[..][k] == ApplyFormat(old(formatChanges[..]), Write(start, count, format))[k];
    }

    /** The case of highlightPatterns' switch for one match: one setFormat call, or two for
        an HtmlAttribute match (its name, then its value inside the quotes). */
    method FormatMatch(kind: RuleType, m: RegexMatch)
      modifies formatChanges
      ensures formatChanges[..] == ApplyWrites(old(formatChanges[..]), MatchWrites(kind, m))
    {
      ghost var ws := MatchWrites(kind, m);
      ghost var buf := formatChanges[..];
      if kind.HtmlAttribute? {
        SetFormat(m.start, m.group2Start - m.start - 1, HtmlAttrNameFormat);
        assert ws[..1][..0] == [];
        assert formatChanges[..] == ApplyWrites(buf, ws[..1]);
        SetFormat(m.group2Start + 1, m.group2Length - 2, HtmlAttValueFormat);
        assert ws[..|ws| - 1] == ws[..1];
      } else {
        SetFormat(m.start, m.length, FormatOf(kind));
        assert ws[..0] == [];
      }
    }

    /** highlightPatterns: every rule in order formats each of its successive matches, each
        search resuming at the end of the previous match. */
    method HighlightPatterns(text: string)
      modifies formatChanges
      ensures formatChanges[..] == Rules.HighlightPatterns(typeAndRegex, text, old(formatChanges[..]))
    {
      ghost var buf0 := formatChanges[..];
      for r := 0 to |typeAndRegex|
        invariant formatChanges[..] == ApplyWrites(buf0, PatternWrites(typeAndRegex[..r], text))
      {
        var rule := typeAndRegex[r];
        FormatRuleMatches(rule, text);
        assert typeAndRegex[..r + 1][..r] == typeAndRegex[..r];
        ApplyWritesAppend(buf0, PatternWrites(typeAndRegex[..r], text), RuleWritesFrom(rule, text, 0));
      }
      assert typeAndRegex[..|typeAndRegex|] == typeAndRegex;
    }

    /** The search loop of highlightPatterns for one rule: each match is formatted and the
        search resumes at its end, until no match is left. */
    method FormatRuleMatches(rule: Rule, text: string)
      modifies formatChanges
      ensures formatChanges[..] == ApplyWrites(old(formatChanges[..]), RuleWritesFrom(rule, text, 0))
    {
      ghost var before := formatChanges[..];
      var found := rule.regex(text, 0);
      var index := CapturedStart(found);
      ghost var from: nat := 0;
      while index > -1
        invariant found == rule.regex(text, from) && index == CapturedStart(found)
        invariant ApplyWrites(before, RuleWritesFrom(rule, text, 0)) ==
                  ApplyWrites(formatChanges[..], RuleWritesFrom(rule, text, from))
        decreases |text| - from
      {
        var length := found.value.length;
        RuleWritesStep(rule, text, from);
        ApplyWritesAppend(formatChanges[..], MatchWrites(rule.kind, found.value), RuleWritesFrom(rule, text, index + length));
        FormatMatch(rule.kind, found.value);
        from := index + length;
        found := rule.regex(text, index + length);
        index := CapturedStart(found);
      }
    }

    /** highlightMultilineMdCode: answers whether the fenced-code path took the line. */
    method HighlightMultilineMdCode(text: string) returns (consumed: bool)
      modifies this`currentBlockState, formatChanges
      ensures (consumed, Line()) == CodeStep(previousBlockState, text, old(Line()))
    {
      if previousBlockState != -1 && HasInCode(previousBlockState) {
        if text == Fence {
          SetFormat(0, |Fence|, CodeBlockFormat);
          return true;
        } else {
          currentBlockState := WithInCode(currentBlockState);
          SetFormat(0, |text|, CodeBlockFormat);
          return true;
        }
      } else {
        if StartsWith(text, Fence) {
          currentBlockState := WithInCode(currentBlockState);
          SetFormat(0, |text|, CodeBlockFormat);
          return true;
        } else {
          currentBlockState := Normal;
          return false;
        }
      }
    }

    /** highlightMultilineHtmlComments. */
    method HighlightMultilineHtmlComments(text: string)
      modifies this`currentBlockState, formatChanges
      ensures Line() == CommentStep(previousBlockState, text, old(Line()))
    {
      if previousBlockState > -1 && HasInComment(previousBlockState) {
        var end := IndexOf(text, EndToken);
        if end == -1 {
          SetFormat(0, |text|, HtmlCommentFormat);
          currentBlockState := WithInComment(currentBlockState);
          return;
        } else {
          SetFormat(0, end + |EndToken|, HtmlCommentFormat);
        }
      }
      var start := LastIndexOf(text, BeginToken);
      if start != -1 {
        var end := LastIndexOf(text, EndToken);
        if end < start {
          SetFormat(start, |text|, HtmlCommentFormat);
          currentBlockState := WithInComment(currentBlockState);
        }
      }
    }

    /** spellCheck: looks up the first misspelled word of a non-empty line and discards it. */
    method SpellCheck(text: string) returns (misspelled: Option<Tokenizer.Span>)
      ensures misspelled ==
        if |text| > 0 then
          Tokenizer.FirstMisspelled(spellCheckDictionary, text, Tokenizer.Words(spellCheckDictionary.classes, text, 0))
        else None
    {
      misspelled := None;
      if |text| > 0 {
        misspelled := Tokenizer.Check(spellCheckDictionary, text, 0);
      }
    }

    /** highlightBlock: the line's buffer and state are those Blocks.Highlight computes from
        the previous block's state; the live spell check changes neither. */
    method HighlightBlock(text: string, liveSpellCheck: bool)
      modifies this`currentBlockState, formatChanges
      ensures Line() == Highlight(typeAndRegex, enabled, previousBlockState, text, old(Line()))
    {
      if enabled {
        currentBlockState := Normal;
        var consumed := HighlightMultilineMdCode(text);
        if !consumed {
          if |text| > 0 {
            HighlightPatterns(text);
          }
          HighlightMultilineHtmlComments(text);
          if liveSpellCheck {
            var _ := SpellCheck(text);
          }
        }
      }
    }
  }

  /** Compiling one more registration appends its rule. */
  lemma CompileSnoc(regs: seq<Registration>, k: nat, engine: (string, bool) -> Matcher)
    requires k < |regs|
    ensures Compile(regs[..k + 1], engine) ==
      Compile(regs[..k], engine) + [Rule(regs[k].kind, regs[k].pattern, regs[k].minimal, engine(regs[k].pattern, regs[k].minimal))]
  {
    assert regs[..k + 1][..k] == regs[..k];
  }
}
