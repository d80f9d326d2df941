# MindForger editor core in Dafny

This project models four pieces of MindForger's Qt front end and proves properties about them.

- **The note editor's per-line highlighter** (`NoteEditHighlighter`).
  - The constructor builds the ordered table of regular-expression rules: inline HTML first, then Markdown.
  - `highlightBlock` runs three passes over one line. The first is the fenced-code state machine. For a line that pass does not consume, the rule table runs, with later rules overwriting earlier ones, and then the multi-line HTML comment tracker.
  - The result is the line's per-character format buffer, written through Qt's clamped `setFormat`, and its block state (the bits `InCode` and `InComment`).
  - The class is imperative: it has array and field updates and the nested search loops. Module `Blocks` holds its specification as functions of the previous block state and the text.
- **The spell checker's word scan** (`DictionaryHunspell::check`).
  - It is a single left-to-right loop with the source's counters. It is proved equal to a reference segmentation: the words are the maximal runs of word characters, plus single `-`, `.` or `'` joiners between two word characters.
  - The loop is followed by the all-uppercase and number skip rules and the first word the dictionary rejects.
  - Beside it are the dictionary provider's search-path construction and `availableDictionaries`. Both are loops appending to lists, proved against an append-if-absent function.
- **The Wingman command line** (`CliAndBreadcrumbsPresenter`).
  - `executeCommand` sends the command to the first handler whose prefix it starts with.
  - `handleCliTextChanged` switches the completer's suggestion list while the user types.
  - The prefix constants of `CliAndBreadcrumbsView` are parameters, because the header that defines them is not part of this model.
- **Two decisions in `main`**:
  - the positional-argument rule;
  - the choice of the default spell-check language once the available dictionaries are known. The code keeps an unavailable configured language when `"en"` is missing, and it gives `en_US`/`en_GB` no preference. The model states both as they are.

Module layout, one module per file:

- `strings`: Qt string calls with Qt semantics.
- `formats`: the format buffer and `setFormat`.
- `regex`: abstract matchers.
- `rules`: the rule table and the pattern pass.
- `blocks`: block states and the per-line specification.
- `highlighter`: the class.
- `tokenizer`: the scan.
- `dictionaries`: the provider lists.
- `cli`: the command line.
- `sorting`: `QList<QString>::sort`.
- `startup`: `main`.

Three behaviours of the code that a reader may not expect:

- An empty line entered with state -1 leaves with state `Normal` (0), not -1. `highlightBlock` sets `Normal` before anything else.
- The entry test for code is `previousBlockState() != -1`, while the entry test for comments is `> -1`. Both are kept as written.
- An `@` command that selects no tool runs no full-text search. The code only shows a status message, despite the comment above it.

## Model

| member | source | states |
|---|---|---|
| Formats.ApplyFormat | app/src/qt/note_edit_highlighter.cpp:259-302 | `setFormat(start, count, f)` as used by the highlighter leaves the length unchanged. Inside the buffer it writes exactly the characters in [start, start+count) and keeps every other one. A start outside the buffer writes nothing. |
| Formats.LastCover | app/src/qt/note_edit_highlighter.cpp:159-164 | The format of the last call in a series that covers a character, or none exactly when no call covers it. |
| Formats.LastWriterWins | app/src/qt/note_edit_highlighter.cpp:159-164 | After a series of `setFormat` calls, every character holds the format of the last call covering it. A character no call covers keeps its earlier format. |
| Formats.ApplyWritesAppend | app/src/qt/note_edit_highlighter.cpp:164-245 | Applying two series of calls one after the other is the same as applying their concatenation. |
| Formats.LastCoverAppend | app/src/qt/note_edit_highlighter.cpp:159-164 | A call of a later series overrides every call of an earlier series on the same character. |
| Regex.Matches | app/src/qt/note_edit_highlighter.cpp:169-243 | The search loop visits no match exactly when the first search finds none, and otherwise starts with the first match. |
| Regex.MatchesAscending | app/src/qt/note_edit_highlighter.cpp:168-244 | The matches one rule's search loop visits: each lies inside the text at or after the search start, has positive length, and starts at or after the end of the one before it, so they are disjoint and strictly ascending. |
| Regex.MatchesChain | app/src/qt/note_edit_highlighter.cpp:169-243 | Each visited match is what the expression answers when searched from the end of the previous match. The loop stops exactly when the expression answers no match. |
| Rules.Compile | app/src/qt/note_edit_highlighter.cpp:114-123 | The compiled table has one rule per `addRegex` call, in call order, each with its type, its pattern and its greediness. |
| Rules.HtmlRulesFirst | app/src/qt/note_edit_highlighter.cpp:38-69 | The constructor registers 19 rules, and the HTML rules are exactly the first five. |
| Rules.MatchWrites | app/src/qt/note_edit_highlighter.cpp:175-238 | A match of any type but `HtmlAttribute` gets one call, with the type's format, covering exactly the match. An `HtmlAttribute` match gets two calls, the name format and then the value format. |
| Rules.HighlightPatterns | app/src/qt/note_edit_highlighter.cpp:157-246 | The pattern pass keeps the buffer's length, and an empty rule table changes nothing. Which rule wins where is stated by `Rules.LaterRuleWins`. |
| Rules.RuleWritesStep | app/src/qt/note_edit_highlighter.cpp:172-244 | One turn of the search loop issues the calls for the match found, then continues the search at the match's end (`index+length`). |
| Rules.LaterRuleWins | app/src/qt/note_edit_highlighter.cpp:159-164 | Where an appended rule writes a character, the character ends with that rule's last format. Everywhere else the result is that of the earlier rules. |
| Rules.AttributeSpans | app/src/qt/note_edit_highlighter.cpp:221-229 | An `HtmlAttribute` match formats the name on [start, capturedStart(2)-1), excluding the `=`, and the value on [capturedStart(2)+1, capturedStart(2)+capturedLength(2)-1), excluding the quotes. Every other character keeps its format. |
| Blocks.CodeStep | app/src/qt/note_edit_highlighter.cpp:251-279 | `highlightMultilineMdCode` takes the line exactly when it is entered in code or starts with ```` ``` ````. It keeps the buffer's length, and a line it does not take keeps its formats and gets state `Normal`. |
| Blocks.CommentStep | app/src/qt/note_edit_highlighter.cpp:281-306 | `highlightMultilineHtmlComments` keeps the buffer's length and either keeps the state or adds `InComment`. Outside a comment, a line without `<!--` is left as it is. |
| Blocks.Highlight | app/src/qt/note_edit_highlighter.cpp:131-150 | A disabled highlighter leaves the line as Qt handed it over. An enabled one keeps the buffer's length. |
| Blocks.HighlightLine | app/src/qt/note_edit_highlighter.cpp:131-150 | One line highlighted from Qt's default buffer has one format per character. The cases are stated by the lemmas below. |
| Blocks.HighlightLines | app/src/qt/note_edit_highlighter.cpp:131-150 | A document is highlighted line after line: one result per line, each line entered with the previous line's exit state and the first line with the given entry state `prev` (Qt passes -1 for a document's first block). |
| Blocks.FenceCloses | app/src/qt/note_edit_highlighter.cpp:135-260 | Entered in code, the exact line ```` ``` ```` closes the block. Its three characters become code and the exit state is `Normal`. |
| Blocks.FenceContinues | app/src/qt/note_edit_highlighter.cpp:261-266 | Entered in code, any other line (no trimming) is code throughout and exits `InCode`. |
| Blocks.FenceOpens | app/src/qt/note_edit_highlighter.cpp:268-273 | Entered outside code, which includes state -1, a line starting with ```` ``` ```` is code throughout and exits `InCode`. |
| Blocks.ConsumedLine | app/src/qt/note_edit_highlighter.cpp:135-274 | A line the code path takes gets no rule or comment formatting, so its result is the same for every rule table. Every character is code or default, and the exit state never holds `InComment`. |
| Blocks.OpensCommentIff | app/src/qt/note_edit_highlighter.cpp:298-301 | The source's test (the last `<!--` exists and the last `-->` lies before it) holds exactly when some `<!--` has no `-->` at or after it. |
| Blocks.CommentExitState | app/src/qt/note_edit_highlighter.cpp:286-305 | A line the code path does not take exits `Normal` or `InComment`. It exits `InComment` exactly when an open comment runs through a line without `-->`, or when some `<!--` is not closed on the line. |
| Blocks.CommentContinues | app/src/qt/note_edit_highlighter.cpp:286-292 | Entered in a comment, a line without `-->` is comment throughout and exits `InComment`. |
| Blocks.CommentLine | app/src/qt/note_edit_highlighter.cpp:140-146 | On a line the code path does not take, a character is comment exactly when it lies before the end of the first `-->` of a comment entered from the previous line, or at or after a last `<!--` that no `-->` follows. Every other character holds what the pattern pass wrote over the default formats. |
| Blocks.PlainLine | app/src/qt/note_edit_highlighter.cpp:140-146 | A line with no `<!--`, entered outside code and comments and not starting a fence, is exactly the pattern pass over the default formats and exits `Normal`. |
| Blocks.CommentCloses | app/src/qt/note_edit_highlighter.cpp:286-295 | Entered in a comment, a line whose first `-->` is at e is comment on [0, e+3), whatever the rules wrote there. After it, each character keeps what the pattern pass wrote, unless a comment opened later on the line runs to its end. |
| Blocks.CommentOpens | app/src/qt/note_edit_highlighter.cpp:298-305 | When the last `<!--` at s has no `-->` at or after it, [s, end of line) is comment. Before s, each character keeps what the pattern pass wrote, unless it closes a comment entered from the previous line. |
| Blocks.ExitStates | app/src/qt/note_edit_highlighter.cpp:135-303 | Every exit state is `Normal`, `InCode` or `InComment`, never both bits. |
| Blocks.ExitStateIgnoresRules | app/src/qt/note_edit_highlighter.cpp:131-150 | The exit state depends only on the entry state and the text, not on the rule table. |
| Blocks.EmptyLine | app/src/qt/note_edit_highlighter.cpp:131-150 | An empty line writes nothing. It passes `Normal`, `InCode` and `InComment` on unchanged, and turns -1 into `Normal`. |
| Blocks.FenceLifecycle | app/src/qt/note_edit_highlighter.cpp:255-278 | The document ```` ``` ````, `code`, ```` ``` ```` gives the exit states `InCode`, `InCode`, `Normal`, with all three lines code. |
| Blocks.CommentExampleOpen | app/src/qt/note_edit_highlighter.cpp:298-305 | `text <!-- start` entered with -1 is comment from offset 5 and exits `InComment`. |
| Blocks.CommentExampleMiddle | app/src/qt/note_edit_highlighter.cpp:286-292 | `middle` entered in a comment is comment throughout and exits `InComment`. |
| Blocks.CommentExampleClose | app/src/qt/note_edit_highlighter.cpp:286-296 | `end -->` entered in a comment is comment up to and including the `-->` and exits `Normal`. |
| Blocks.CommentLifecycle | app/src/qt/note_edit_highlighter.cpp:281-306 | The three-line comment document gives the exit states `InComment`, `InComment`, `Normal`. |
| Highlighter.CapturedStart | app/src/qt/note_edit_highlighter.cpp:169-172 | `capturedStart()` is -1 exactly when nothing matched, and otherwise the match's start. |
| Highlighter.NoteEditHighlighter.constructor | app/src/qt/note_edit_highlighter.cpp:25-69 | The rule table is the 19 `addRegex` calls compiled in order. The buffer is empty and both block states are -1. |
| Highlighter.NoteEditHighlighter.RegisterAll | app/src/qt/note_edit_highlighter.cpp:38-69 | A sequence of `addRegex` calls appends their compiled rules, in order, and changes nothing else. |
| Highlighter.NoteEditHighlighter.AddRegex | app/src/qt/note_edit_highlighter.cpp:114-123 | Appends the pair of the type and the expression compiled with or without inverted greediness. |
| Highlighter.NoteEditHighlighter.SetFormat | app/src/qt/note_edit_highlighter.cpp:259-302 | The loop writes the buffer in place, and the new buffer is `ApplyFormat` of the old one. |
| Highlighter.NoteEditHighlighter.FormatMatch | app/src/qt/note_edit_highlighter.cpp:175-238 | One case of the switch: the buffer becomes the old buffer after that match's calls. There is one call per type, and two for `HtmlAttribute`. |
| Highlighter.NoteEditHighlighter.HighlightPatterns | app/src/qt/note_edit_highlighter.cpp:157-246 | The nested loops leave the buffer equal to the pattern pass of `Rules`: every rule in order, each over its successive matches. |
| Highlighter.NoteEditHighlighter.HighlightMultilineMdCode | app/src/qt/note_edit_highlighter.cpp:251-279 | The answer, the new buffer and the new current state are those of `Blocks.CodeStep` from the previous state. |
| Highlighter.NoteEditHighlighter.HighlightMultilineHtmlComments | app/src/qt/note_edit_highlighter.cpp:281-306 | The new buffer and state are those of `Blocks.CommentStep` from the previous state. |
| Highlighter.NoteEditHighlighter.SpellCheck | app/src/qt/note_edit_highlighter.cpp:308-340 | Computes the first misspelled word of a non-empty line and changes nothing: it modifies no state. |
| Highlighter.NoteEditHighlighter.HighlightBlock | app/src/qt/note_edit_highlighter.cpp:131-150 | The line's buffer and state become `Blocks.Highlight` of the previous state and the text. The live spell check changes neither. |
| Highlighter.CompileSnoc | app/src/qt/note_edit_highlighter.cpp:114-123 | Compiling one more registration appends exactly its rule. |
| Tokenizer.Normalize | app/src/qt/spelling/dictionary_provider_hunspell.cpp:228-231 | Every U+2019 becomes an ASCII apostrophe and every other character stays. |
| Tokenizer.FirstMisspelled | app/src/qt/spelling/dictionary_provider_hunspell.cpp:223-257 | An answered word is one of the words and is rejected. |
| Tokenizer.FirstMisspelledIsFirst | app/src/qt/spelling/dictionary_provider_hunspell.cpp:223-257 | The search answers none exactly when no word is rejected. Otherwise it answers a rejected word whose earlier words were all skipped or accepted. |
| Tokenizer.Check | app/src/qt/spelling/dictionary_provider_hunspell.cpp:125-258 | The scan loop answers the first rejected word of the reference segmentation of the line from `start_at`. |
| Tokenizer.ScanChar | app/src/qt/spelling/dictionary_provider_hunspell.cpp:141-221 | One character of the scan either ends the pending word, and that word is the next of the reference segmentation with its length and flags, or it keeps the loop invariant for the next position. |
| Tokenizer.CheckWord | app/src/qt/spelling/dictionary_provider_hunspell.cpp:225-245 | A finished word is reported exactly when it is not skipped and the dictionary rejects its normalized text. |
| Tokenizer.ScanWordChar | app/src/qt/spelling/dictionary_provider_hunspell.cpp:143-221 | A letter, number or mark starts or extends the word and updates the number and uppercase flags. At the end of the line it ends the word. |
| Tokenizer.ScanSpaceEnds | app/src/qt/spelling/dictionary_provider_hunspell.cpp:163-172 | A space ends the word and drops one pending trailing separator. |
| Tokenizer.ScanGap | app/src/qt/spelling/dictionary_provider_hunspell.cpp:173-181 | Outside a word, a non-word character contributes no word. |
| Tokenizer.ScanSeparatorEnds | app/src/qt/spelling/dictionary_provider_hunspell.cpp:187-198 | A first separator other than `-`, `.` and `'` ends the word before it. |
| Tokenizer.ScanDoubleSeparatorEnds | app/src/qt/spelling/dictionary_provider_hunspell.cpp:199-205 | A second separator in a row ends the word before the first separator. |
| Tokenizer.ScanJoiner | app/src/qt/spelling/dictionary_provider_hunspell.cpp:206-221 | A single `-`, `.` or `'` stays pending inside the word. At the end of the line it is dropped from the word. |
| Tokenizer.EmitWord | app/src/qt/spelling/dictionary_provider_hunspell.cpp:223-254 | An ended word is checked exactly when it is not skipped, and after it every flag is reset. |
| Tokenizer.RunEndMaximal | app/src/qt/spelling/dictionary_provider_hunspell.cpp:139-221 | The run from a position ends at the first position that belongs to no word. |
| Tokenizer.WordsWellFormed | app/src/qt/spelling/dictionary_provider_hunspell.cpp:139-227 | The words are maximal runs in ascending order with gaps between them. Each starts and ends with a letter, number or mark. |
| Tokenizer.WordShape | app/src/qt/spelling/dictionary_provider_hunspell.cpp:139-227 | Any one word is a maximal run whose first and last characters are letters, numbers or marks. |
| Tokenizer.FlagsMeaning | app/src/qt/spelling/dictionary_provider_hunspell.cpp:154-161 | The number flag is set exactly when some character of the word is a number. The uppercase flag is cleared exactly when some non-number character is lower case. |
| Tokenizer.WordsCover | app/src/qt/spelling/dictionary_provider_hunspell.cpp:139-221 | A position lies in a word exactly when it holds a word character or a single joiner between two word characters. |
| Tokenizer.WordInterior | app/src/qt/spelling/dictionary_provider_hunspell.cpp:187-209 | Inside a word, a character that is not a word character is a single `-`, `.` or `'` with word characters on both sides. |
| Tokenizer.JoinerInsideWord | app/src/qt/spelling/dictionary_provider_hunspell.cpp:187-209 | A single joiner between two word characters lies inside one word together with both of them, so `well-known` and `don't` are one word each. |
| Tokenizer.SeparatorExcluded | app/src/qt/spelling/dictionary_provider_hunspell.cpp:163-221 | These positions belong to no word: other separators, spaces, doubled separators, and separators at the line's end or the scan's start. |
| Tokenizer.ExampleWords | app/src/qt/spelling/dictionary_provider_hunspell.cpp:139-221 | With ASCII letters and digits as word characters, `well-known word123 ALLCAPS don't` has the four words `well-known`, `word123`, `ALLCAPS` and `don't`, at offsets 0, 11, 19 and 27. |
| Tokenizer.NormalizeUnchanged | app/src/qt/spelling/dictionary_provider_hunspell.cpp:143-231 | U+2019 is not a joiner, so no word contains it and the replacement never changes a word. |
| Tokenizer.MisspelledIsWord | app/src/qt/spelling/dictionary_provider_hunspell.cpp:139-257 | The answer is none exactly when every word is skipped or accepted. Otherwise it starts at or after `start_at` and lies inside the line with a word character at both ends, and it is the first rejected word. |
| Dictionaries.AddAbsentSpec | app/src/qt/spelling/dictionary_provider_hunspell.cpp:349-378 | Append-if-absent keeps the old list as a prefix and holds exactly the old and new elements. It adds no duplicate, and it adds new elements in first-occurrence order. |
| Dictionaries.AddAbsentAppend | app/src/qt/spelling/dictionary_provider_hunspell.cpp:346-353 | Adding two lists one after the other is adding their concatenation. |
| Dictionaries.XdgDirs | app/src/qt/spelling/dictionary_provider_hunspell.cpp:340-344 | `XDG_DATA_DIRS` split at `:` without empty parts, or `/usr/local/share` and `/usr/share` when that split is empty. The result is never empty. |
| Dictionaries.ReadXdgDirs | app/src/qt/spelling/dictionary_provider_hunspell.cpp:340-344 | Builds the XDG list by appending the fallback directories to an empty split. |
| Dictionaries.AddSubdir | app/src/qt/spelling/dictionary_provider_hunspell.cpp:347-352 | The inner loop appends every XDG directory followed by the subdirectory when it is not present yet. |
| Dictionaries.SearchPaths | app/src/qt/spelling/dictionary_provider_hunspell.cpp:336-356 | The constructor's loops produce the existing search paths extended, if absent, by the candidates, subdirectory by subdirectory. |
| Dictionaries.RowSpec | app/src/qt/spelling/dictionary_provider_hunspell.cpp:347-348 | A row holds exactly the XDG directories followed by one subdirectory. |
| Dictionaries.CandidatePathsSpec | app/src/qt/spelling/dictionary_provider_hunspell.cpp:345-353 | A candidate is exactly an XDG directory followed by one of the four subdirectories. |
| Dictionaries.SearchPathsSpec | app/src/qt/spelling/dictionary_provider_hunspell.cpp:336-356 | The search path starts with the old paths, then holds exactly the new candidates, each once and in candidate order. |
| Dictionaries.StripFrom | app/src/qt/spelling/dictionary_provider_hunspell.cpp:372-374 | Replacing `\.dic.*` (or `\.aff.*`) by nothing cuts the name at the first occurrence of the extension and keeps a name without one. |
| Dictionaries.StripAll | app/src/qt/spelling/dictionary_provider_hunspell.cpp:372-374 | `replaceInStrings` strips every name of the list, keeping the order. |
| Dictionaries.AvailableDictionaries | app/src/qt/spelling/dictionary_provider_hunspell.cpp:360-383 | The nested loops produce the languages offered by the directories, in order, each added only once. |
| Dictionaries.AddLanguages | app/src/qt/spelling/dictionary_provider_hunspell.cpp:376-380 | The inner loop appends each stripped `.dic` name that has an `.aff` file and is not in the result yet. |
| Dictionaries.Paired | app/src/qt/spelling/dictionary_provider_hunspell.cpp:376-377 | A directory offers at most as many languages as it has `.dic` files. Which ones is stated by `Dictionaries.PairedSpec`. |
| Dictionaries.PairedSpec | app/src/qt/spelling/dictionary_provider_hunspell.cpp:376-377 | A directory offers exactly the names that are both a stripped `.dic` and a stripped `.aff` name there. |
| Dictionaries.Offered | app/src/qt/spelling/dictionary_provider_hunspell.cpp:368-381 | A single directory offers exactly its own paired languages. Which languages several directories offer is stated by `Dictionaries.OfferedSpec`. |
| Dictionaries.OfferedSpec | app/src/qt/spelling/dictionary_provider_hunspell.cpp:368-381 | A language is offered exactly when some directory offers it. |
| Dictionaries.AvailableSpec | app/src/qt/spelling/dictionary_provider_hunspell.cpp:360-383 | The result has no duplicates and is in first-seen order. It holds exactly the names some single directory has both a `.dic*` and an `.aff*` file of. |
| Cli.KnowledgeCommand | app/src/qt/cli_n_breadcrumbs_presenter.cpp:190-193 | The first entry of `HELP_KNOW_CMDS` the command starts with, or none exactly when no entry prefixes it. |
| Cli.KnowledgeAction | app/src/qt/cli_n_breadcrumbs_presenter.cpp:191-207 | The tool id is `mid(1, c.size()-1)` and the phrase is `mid(1+c.size())`. For an entry the command starts with, the tool id is the entry without its first character, and the phrase is what follows the entry and one more character (empty when nothing follows). The tool runs exactly when the phrase is longer than one character; otherwise the dialog only opens. |
| Cli.Execute | app/src/qt/cli_n_breadcrumbs_presenter.cpp:147-219 | An empty command, and only an empty one, gives the "No command!" error. A full-text search of the whole command happens exactly when no earlier prefix matches. |
| Cli.DispatchOrder | app/src/qt/cli_n_breadcrumbs_presenter.cpp:154-215 | First match wins, in this order: list outlines, emojis, find by tag, find by name, knowledge. Each handler is chosen exactly when its prefix matches and no earlier one does. |
| Cli.FindArgument | app/src/qt/cli_n_breadcrumbs_presenter.cpp:163-185 | Find by tag and find by name search for the remainder after the prefix. An empty remainder gives the status message and no search. |
| Cli.KnowledgeRouting | app/src/qt/cli_n_breadcrumbs_presenter.cpp:186-212 | A knowledge command is handled by the first matching entry. With no matching entry it only gets the unknown-source status, and never a full-text search. |
| Cli.KnowledgeExample | app/src/qt/cli_n_breadcrumbs_presenter.cpp:190-209 | `@arxiv LLM` selects `@arxiv` and runs tool `arxiv` on `LLM`. `@arxiv` alone only opens the dialog. An unknown entry selects nothing. |
| Cli.TextChanged | app/src/qt/cli_n_breadcrumbs_presenter.cpp:44-144 | An empty line gets no reaction. Help is shown exactly when the line starts with the help prefix. A shown name prefix is a non-empty tail of a line that starts with the find-by-name constant, and `substr` fails only when that constant is empty. |
| Cli.Completions | app/src/qt/cli_n_breadcrumbs_presenter.cpp:115-124 | One completion per outline, in outline order: the prefix constant followed by the name. |
| Cli.TextChangedPrefixes | app/src/qt/cli_n_breadcrumbs_presenter.cpp:55-102 | The help prefix is answered first and clears the command line. The find, knowledge and command prefixes switch the suggestions only while at most two characters are typed. |
| Cli.FindByNameTyping | app/src/qt/cli_n_breadcrumbs_presenter.cpp:103-136 | With a non-empty constant, `substr(size-1)` is never empty, so the fallback at lines 131-135 is unreachable. Outline completions are offered exactly when the command is the constant itself. |
| Cli.CompletionsRoundTrip | app/src/qt/cli_n_breadcrumbs_presenter.cpp:117-123 | Every completion starts with the prefix constant, and cutting the prefix off gives back the outline name. |
| Cli.CliAndBreadcrumbsPresenter.constructor | app/src/qt/cli_n_breadcrumbs_presenter.cpp:25-41 | Starts with an empty command line, no completer items and the default suggestions. |
| Cli.CliAndBreadcrumbsPresenter.ExecuteCommand | app/src/qt/cli_n_breadcrumbs_presenter.cpp:147-219 | A non-empty command is added to the completer before dispatch and an empty one is not. The action is `Execute` of the command. |
| Cli.CliAndBreadcrumbsPresenter.RunKnowledge | app/src/qt/cli_n_breadcrumbs_presenter.cpp:190-212 | The early-returning loop over `HELP_KNOW_CMDS` answers the action of the first matching entry, or the unknown-source status. |
| Cli.CliAndBreadcrumbsPresenter.HandleCliTextChanged | app/src/qt/cli_n_breadcrumbs_presenter.cpp:44-144 | The reaction is `TextChanged` of the command. Only the help prefix changes the command line, and only the reactions that switch the suggestion list change it. |
| Cli.CliAndBreadcrumbsPresenter.OutlineNamesCompletion | app/src/qt/cli_n_breadcrumbs_presenter.cpp:112-124 | The loop builds exactly the completions, the prefix constant followed by each outline name, in order. |
| Cli.FirstKnowledgeCommand | app/src/qt/cli_n_breadcrumbs_presenter.cpp:190-193 | An entry the command starts with, after entries it does not start with, is the one chosen. |
| Sorting.LessTotal | app/src/qt/mindforger.cpp:439 | QString's order is total: two different strings compare one way. |
| Sorting.LessTransitive | app/src/qt/mindforger.cpp:439 | QString's order is transitive. |
| Sorting.LessIrreflexive | app/src/qt/mindforger.cpp:439 | No string is less than itself. |
| Sorting.LessAsymmetric | app/src/qt/mindforger.cpp:439 | No two strings are each less than the other. |
| Sorting.Insert | app/src/qt/mindforger.cpp:439 | Inserting adds exactly one element and keeps the others. |
| Sorting.InsertSorted | app/src/qt/mindforger.cpp:439 | Inserting into a sorted list keeps it sorted. |
| Sorting.Sort | app/src/qt/mindforger.cpp:439 | `languages.sort()` produces a permutation of the list. |
| Sorting.SortSpec | app/src/qt/mindforger.cpp:439 | The sorted list is ordered, is a permutation of the input, and has the same elements. |
| Sorting.SortedPairwise | app/src/qt/mindforger.cpp:439 | In a sorted list every element is at most every later one. |
| Sorting.SortFirstLeast | app/src/qt/mindforger.cpp:439-463 | The first sorted language is the least available one. |
| Startup.Launching | app/src/qt/mindforger.cpp:277-293 | Help or version exits with 0. More than one positional argument exits with 1 and the "Too many arguments" message with the count, before any configuration is loaded. Exactly one argument becomes the repository, and none leaves it empty. |
| Startup.Repository | app/src/qt/mindforger.cpp:326-354 | The default repository lookup is used exactly when no repository was given. |
| Startup.ArgumentSelectsRepository | app/src/qt/mindforger.cpp:281-354 | With at most one positional argument main runs. No argument, or an empty one, uses the default lookup; a non-empty one is the repository to open. |
| Startup.Configuration.constructor | app/src/qt/mindforger.cpp:305-318 | The spell-check settings as loaded from the configuration. |
| Startup.DefaultLanguage | app/src/qt/mindforger.cpp:441-470 | The default chosen for a non-empty language list is an available language or the configured one. |
| Startup.DefaultLanguageAvailable | app/src/qt/mindforger.cpp:441-470 | The chosen default is an available language exactly when the configured one is available, `"en"` is available, or nothing is configured. Otherwise it is the configured unavailable language. |
| Startup.FallbackIsLeast | app/src/qt/mindforger.cpp:439-463 | With nothing configured and no `"en"`, the default is the first sorted available language. |
| Startup.RegionalEnglishIgnored | app/src/qt/mindforger.cpp:452-463 | With `en_US` and `de` available, a configured `fr` stays `fr`, and with nothing configured the default is `de`. The fallback loop never picks `en_US`. |
| Startup.ChooseDefaultLanguage | app/src/qt/mindforger.cpp:438-477 | With languages available, they are registered in sorted order and the default becomes `DefaultLanguage`, which is also handed to the dictionary manager. With none, the language list is cleared only under live spell check and no default is handed to the manager; the default language and the live flag are kept, which reads `clearUiEditorSpellCheckLanguages` as clearing the list only (see "## Left out"). |
| Startup.RegisterLanguages | app/src/qt/mindforger.cpp:442-451 | The foreach adds every sorted language to the configuration in order. It answers exactly whether the default language is among them. |
| Startup.FallbackLanguage | app/src/qt/mindforger.cpp:452-464 | For an unavailable default: `"en"` when available, else the first sorted language when the default is empty, else the default unchanged. |
| Strings.IndexOf | app/src/qt/note_edit_highlighter.cpp:287 | `indexOf` answers the first occurrence, or -1 exactly when there is none. |
| Strings.LastIndexOf | app/src/qt/note_edit_highlighter.cpp:298-300 | `lastIndexOf` answers the last occurrence, or -1 exactly when there is none. |
| Strings.Mid | app/src/qt/cli_n_breadcrumbs_presenter.cpp:191-193 | `mid(pos, n)` is empty past the end. Otherwise it is the slice from pos of n characters, or the rest of the string when n is negative or too large. |
| Strings.SplitSkipEmpty | app/src/qt/spelling/dictionary_provider_hunspell.cpp:340 | `split(':', SkipEmptyParts)` gives non-empty parts that contain no separator. |
| Strings.SplitSingle | app/src/qt/spelling/dictionary_provider_hunspell.cpp:340 | A non-empty string without the separator is its only part. |
| Strings.SplitConcat | app/src/qt/spelling/dictionary_provider_hunspell.cpp:340 | A separator cuts the string in two, and the parts are those of each side in order, so doubled, leading and trailing separators give no empty part. |

## Left out

- The regular-expression engine (`QRegularExpression`, `InvertedGreedinessOption`) is foreign. A compiled rule is any matcher that answers the first match at or after the offset, lying inside the text, with positive length (which the loop's progress needs) and with capture group 2 inside the match. The patterns are kept as text.
- A zero-length match would make the source's search loop restart at the same offset forever. The matchers here exclude it, so that case is not modelled.
- Colours, fonts and `LookAndFeels` are theme data. Each `QTextCharFormat` is a tag of the `Format` datatype.
- Highlighter.NoteEditHighlighter.constructor: `enabled` and the requested spell-check dictionary are parameters, because the header and `DictionaryManager` are not part of this model. The 19 `addRegex` calls are a loop over the registration table, in the same order.
- Highlighter.NoteEditHighlighter.SpellCheck: the cursor lookup is left out. It only feeds the commented-out underline loop, so the call has no effect.
- Highlighter.NoteEditHighlighter.HighlightBlock: the live-spell-check flag read from `Configuration` is a parameter.
- Re-highlighting of later lines when a state changes is done by `QSyntaxHighlighter`. `Blocks.HighlightLines` only chains lines top to bottom.
- The block-state constants (`Normal` 0, `InCode` 1, `InComment` 2) are assumed values, because `note_edit_highlighter.h`, which defines them, is not part of this model. The bit tests are modelled on two's-complement integers.
- The `QChar` classification (`isLetterOrNumber`, `isMark`, `isSpace`, `isNumber`, `isLower`) consists of given predicates, and Hunspell's `spell` is an uninterpreted predicate. Hunspell construction, encodings, suggestions and session words are foreign calls.
- Tokenizer.Check: `start_at` is a natural number. The callers pass 0 or a word's end, and a negative value would index out of range in the source.
- `QDir::searchPaths`, `QDir::entryList` (its globbing and name sorting) and `qgetenv("XDG_DATA_DIRS")` are I/O. Their results are inputs: the listings of each directory, in the order `entryList` returns them, and the variable's text.
- Dictionaries.SearchPaths: models the non-macOS Unix build. On macOS and Windows the constructor leaves the `dict` search path unchanged, because the XDG extension is compiled only under `!Q_OS_MAC && Q_OS_UNIX`.
- Formats, the highlighter and Tokenizer.Check index Dafny characters, which are Unicode scalar values, while Qt counts UTF-16 code units (block length, `setFormat` offsets, captured offsets and lengths, `string.at(i)`). The two agree for text in the Basic Multilingual Plane. The source's handling of surrogate pairs is not modelled: there a supplementary-plane letter is two non-letter units, which split the word and count twice in offsets.
- Dictionaries.StripFrom: the pattern `\.dic.*` is applied as a plain cut at the first `.dic`. That is what it matches for names without a line break; `QRegularExpression`'s `.` does not match a newline, so on a name with one the source stops the cut at the line break.
- The effects the CLI presenter triggers are represented by the chosen `Action` or `TextReaction` only: message boxes, status-bar text, searches, tool dialogs and `Mind` queries. The outline names are an input.
- Cli.Execute: `command.toStdString().substr(n)` counts UTF-8 bytes while the prefix length counts UTF-16 units. The model uses one character sequence for both, which agrees for ASCII prefixes.
- Cli.CliAndBreadcrumbsPresenter.ExecuteCommand: `addCompleterItem` is an append. The completer's own deduplication, if any, is in the view, which is not part of this model.
- Sorting.Less compares Dafny characters, which are Unicode scalar values. QString compares UTF-16 code units, and the two orders differ only between supplementary-plane characters and U+E000–U+FFFF.
- Sorting.Sort is an insertion sort modelled on sequences. `QList::sort` is library code, and only its result matters here.
- Everything else in `main` is application and platform plumbing: the option parser, the theme and configuration options, configuration load and save, repository indexing, fonts and windows. Help and version are one flag.
- Startup.ChooseDefaultLanguage: `addUiEditorSpellCheckLanguage` is an append, because `Configuration` is not part of this model.
- Startup.ChooseDefaultLanguage: `clearUiEditorSpellCheckLanguages` is modelled as clearing the language list only, so the no-dictionaries branch keeps the default language and the live-spell-check flag. The comment at app/src/qt/mindforger.cpp:473 says that branch disables spell check ("lang, langs and live spell check"), which suggests the call may also clear the default and switch live spell check off; its body is in `Configuration`, which is not part of this model.
