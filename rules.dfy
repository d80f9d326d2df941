/** The highlighter's ordered rule table and the pattern pass (highlightPatterns):
    every rule, in registration order, formats each of its successive matches. */
module Rules {
  import opened Strings
  import opened Formats
  import opened Regex

  /** The token types of note_edit_highlighter.h (the Type enumeration). */
  datatype RuleType =
    | HtmlTag | HtmlEntity | HtmlComment | HtmlAttribute
    | Bold | Bolder | Italic | Italicer | Strikethrough | Link | Autolink
    | Codeblock | Mathblock | UnorderedList | OrderedList
    | TaskDoneItem | TaskWipItem | TaskTodoItem

  predicate IsHtml(t: RuleType)
  {
    t.HtmlTag? || t.HtmlEntity? || t.HtmlComment? || t.HtmlAttribute?
  }

  /** One addRegex call: the type, the pattern text and the InvertedGreedinessOption flag. */
  datatype Registration = Registration(kind: RuleType, pattern: string, minimal: bool)

  /** One entry of typeAndRegex: a type and its compiled expression. */
  datatype Rule = Rule(kind: RuleType, pattern: string, minimal: bool, regex: Matcher)

  /** The addRegex calls of the constructor, in order: inline HTML first, so that the
      Markdown rules after it can restyle it. An omitted `minimal` argument is false. */
  const Registrations: seq<Registration> := [
    Registration(HtmlTag, @"<[!?]?\w+(?:/>)?", false),
    Registration(HtmlTag, @"(?:</\w+)?[?]?>", false),
    Registration(HtmlEntity, @"&(:?#\d+|\w+);", false),
    Registration(HtmlComment, @"<!--.*-->", false),
    Registration(HtmlAttribute, @"(\w+(?::\w+)?)=(""[^""]+""|'[^']+')", false),
    Registration(Bold, @"\*\S[\S\s]+\*", true),
    Registration(Bolder, @"\*\*[\S\s]+\*\*", false),
    Registration(Italic, @"_[\S\s]+_", false),
    Registration(Italicer, @"__[\S\s]+\__", false),
    Registration(Strikethrough, @"~~[\S\s]+\~~", false),
    Registration(Link, @"\[(:?[\S\s]+)\]\([\S\s]+\)", false),
    Registration(Autolink, @"https?://\S+", false),
    Registration(Codeblock, @"`[\S\s]+`", false),
    Registration(Mathblock, @"\$[\S\s]+\$", false),
    Registration(UnorderedList, @"^(:?    )*[\*\+\-] ", false),
    Registration(OrderedList, @"^(:?    )*\d\d?\. ", false),
    Registration(TaskDoneItem, @"^(:?    )*[\*\+\-] \[x\]", false),
    Registration(TaskWipItem, @"^(:?    )*[\*\+\-] \[w\]", false),
    Registration(TaskTodoItem, @"^(:?    )*[\*\+\-] \[ \]", false)
  ]

  /** The rule table compiled by a regular-expression engine. */
  function Compile(regs: seq<Registration>, engine: (string, bool) -> Matcher): (rules: seq<Rule>)
    ensures |rules| == |regs|
    ensures forall i :: 0 <= i < |regs| ==>
      rules[i] == Rule(regs[i].kind, regs[i].pattern, regs[i].minimal, engine(regs[i].pattern, regs[i].minimal))
  {
    if regs == [] then []
    else Compile(regs[..|regs| - 1], engine) + [var g := regs[|regs| - 1]; Rule(g.kind, g.pattern, g.minimal, engine(g.pattern, g.minimal))]
  }

  /** The format of the single span a match of a type gets (the switch of highlightPatterns);
      HtmlAttribute splits its match and is handled by MatchWrites. */
  function FormatOf(t: RuleType): Format
  {
    match t
    case Bolder => BolderFormat
    case Bold => BoldFormat
    case Italic => ItalicFormat
    case Italicer => ItalicerFormat
    case Strikethrough => StrikethroughFormat
    case Codeblock => CodeBlockFormat
    case Mathblock => MathBlockFormat
    case Link => LinkFormat
    case Autolink => LinkFormat
    case UnorderedList => ListFormat
    case OrderedList => ListFormat
    case TaskDoneItem => TaskDoneFormat
    case TaskTodoItem => TaskTodoFormat
    case TaskWipItem => TaskWipFormat
    case HtmlTag => HtmlTagFormat
    case HtmlAttribute => HtmlAttrNameFormat
    case HtmlEntity => HtmlEntityFormat
    case HtmlComment => HtmlCommentFormat
  }

  /** The setFormat calls one match makes. */
  function MatchWrites(t: RuleType, m: RegexMatch): (ws: seq<Write>)
    ensures !t.HtmlAttribute? ==>
      |ws| == 1 && ws[0].format == FormatOf(t) && forall i :: Covers(ws[0], i) <==> m.start <= i < End(m)
    ensures t.HtmlAttribute? ==>
      |ws| == 2 && ws[0].format == HtmlAttrNameFormat && ws[1].format == HtmlAttValueFormat
  {
    if t.HtmlAttribute? then
      [Write(m.start, m.group2Start - m.start - 1, HtmlAttrNameFormat),
       Write(m.group2Start + 1, m.group2Length - 2, HtmlAttValueFormat)]
    else [Write(m.start, m.length, FormatOf(t))]
  }

  function WritesOfMatches(t: RuleType, ms: seq<RegexMatch>): seq<Write>
  {
    if ms == [] then [] else MatchWrites(t, ms[0]) + WritesOfMatches(t, ms[1..])
  }

  /** The setFormat calls of one rule's search loop started at `from`. */
  function RuleWritesFrom(r: Rule, text: string, from: nat): seq<Write>
  {
    WritesOfMatches(r.kind, Matches(r.regex, text, from))
  }

  /** The setFormat calls of the whole pattern pass, rule after rule. */
  function PatternWrites(rules: seq<Rule>, text: string): seq<Write>
  {
    if rules == [] then []
    else PatternWrites(rules[..|rules| - 1], text) + RuleWritesFrom(rules[|rules| - 1], text, 0)
  }

  /** The format buffer after highlightPatterns. */
  function HighlightPatterns(rules: seq<Rule>, text: string, buf: seq<Format>): (r: seq<Format>)
    ensures |r| == |buf|
    ensures rules == [] ==> r == buf
  {
    ApplyWrites(buf, PatternWrites(rules, text))
  }

  /** Unfolding the search loop by one match: the calls for the match found at `from`,
      then those of the search resumed at its end. */
  lemma RuleWritesStep(r: Rule, text: string, from: nat)
    requires r.regex(text, from).Some?
    ensures RuleWritesFrom(r, text, from) ==
      MatchWrites(r.kind, r.regex(text, from).value) + RuleWritesFrom(r, text, End(r.regex(text, from).value))
  {
    var x := r.regex(text, from).value;
    assert Matches(r.regex, text, from) == [x] + Matches(r.regex, text, End(x));
    assert ([x] + Matches(r.regex, text, End(x)))[1..] == Matches(r.regex, text, End(x));
  }

  /** The registered rules run HTML first: every HTML rule precedes every Markdown rule. */
  lemma HtmlRulesFirst()
    ensures |Registrations| == 19
    ensures forall i :: 0 <= i < |Registrations| ==> (IsHtml(Registrations[i].kind) <==> i < 5)
  {
  }

  /** A later rule overrides the earlier ones: where the appended rule writes a character,
      that character ends with the appended rule's (last) format; elsewhere the result is
      that of the earlier rules alone. */
  lemma {:induction false} LaterRuleWins(rules: seq<Rule>, r: Rule, text: string, buf: seq<Format>, i: int)
    requires 0 <= i < |buf|
    ensures HighlightPatterns(rules + [r], text, buf)[i] ==
      match LastCover(RuleWritesFrom(r, text, 0), i)
      case Some(f) => f
      case None => HighlightPatterns(rules, text, buf)[i]
  {
    var rest := rules + [r];
    assert rest[..|rest| - 1] == rules;
    var a := PatternWrites(rules, text);
    var b := RuleWritesFrom(r, text, 0);
    assert PatternWrites(rest, text) == a + b;
    LastWriterWins(buf, a + b, i);
    LastCoverAppend(a, b, i);
    LastWriterWins(buf, a, i);
  }

  /** An HtmlAttribute match formats its name up to (not including) the '=' before group 2,
      and its value strictly inside the quotes that start and end group 2; the '=' and the
      quotes keep their earlier format. */
  lemma AttributeSpans(buf: seq<Format>, m: RegexMatch, i: int)
    requires 0 <= i < |buf|
    requires m.group2Start >= -1
    ensures ApplyWrites(buf, MatchWrites(HtmlAttribute, m))[i] ==
      if m.start <= i < m.group2Start - 1 then HtmlAttrNameFormat
      else if m.group2Start + 1 <= i < m.group2Start + m.group2Length - 1 then HtmlAttValueFormat
      else buf[i]
  {
    var ws := MatchWrites(HtmlAttribute, m);
    assert ws[..1][..0] == [];
    var once := ApplyFormat(buf, ws[0]);
    assert ApplyWrites(buf, ws[..1]) == once;
    assert ApplyWrites(buf, ws) == ApplyFormat(once, ws[1]);
  }
}
