/** The Wingman command line of CliAndBreadcrumbsPresenter: executeCommand routes the
    command to the first handler whose prefix it starts with, and handleCliTextChanged
    switches the completer's suggestions while a command is typed. The prefix constants
    of the view are inputs. */
module Cli {
  import opened Strings

  /** The command constants of CliAndBreadcrumbsView. */
  datatype Commands = Commands(
    listOutlines: string,          // CMD_LIST_OUTLINES
    emojis: string,                // CMD_EMOJIS
    findOutlineByTag: string,      // CMD_FIND_OUTLINE_BY_TAG
    findOutlineByName: string,     // CMD_FIND_OUTLINE_BY_NAME
    charHelp: string,              // CHAR_HELP
    charFind: string,              // CHAR_FIND
    charKnow: string,              // CHAR_KNOW
    charCmd: string,               // CHAR_CMD
    helpKnowCmds: seq<string>)     // HELP_KNOW_CMDS, one entry per knowledge tool

  /** What executeCommand makes the application do. */
  datatype Action =
    | NoCommandError                                  // showError("No command!")
    | ListOutlines                                    // executeListOutlines, showBreadcrumb
    | EmojisDialog                                    // doActionEmojisDialog
    | FindOutlineByTag(tag: string)                   // doActionFindOutlineByTag
    | TagPhraseMissing                                // status: tag search phrase is empty
    | FindOutlineByName(name: string)                 // doActionFindOutlineByName
    | NamePhraseMissing                               // status: name search phrase is empty
    | RunTool(phrase: string, toolId: string)         // doActionOpenRunToolDialog(.., false), handleRunTool
    | OpenToolDialog(phrase: string, toolId: string)  // doActionOpenRunToolDialog(..)
    | UnknownKnowledgeSource                          // status: unknown knowledge recherche source
    | FullTextSearch(phrase: string)                  // doFts(command, true)

  /** The first entry of HELP_KNOW_CMDS the command starts with. */
  function KnowledgeCommand(cmds: seq<string>, command: string): (r: Option<string>)
    ensures r.None? <==> forall i :: 0 <= i < |cmds| ==> !StartsWith(command, cmds[i])
    ensures r.Some? ==> exists i :: 0 <= i < |cmds| && cmds[i] == r.value && StartsWith(command, cmds[i]) &&
                                    forall j :: 0 <= j < i ==> !StartsWith(command, cmds[j])
    decreases |cmds|
  {
    if cmds == [] then None
    else if StartsWith(command, cmds[0]) then Some(cmds[0])
    else
      var r := KnowledgeCommand(cmds[1..], command);
      assert forall i :: 1 <= i < |cmds| ==> cmds[1..][i - 1] == cmds[i];
      if r.Some? then
        var i :| 0 <= i < |cmds[1..]| && cmds[1..][i] == r.value && StartsWith(command, cmds[1..][i]) &&
                 forall j :: 0 <= j < i ==> !StartsWith(command, cmds[1..][j]);
        assert cmds[i + 1] == r.value && forall j :: 0 <= j < i + 1 ==> !StartsWith(command, cmds[j]);
        r
      else r
  }

  /** The knowledge branch for the chosen entry `c`: the tool id is the entry without its
      leading character, the phrase is what follows the entry and one more character. */
  function KnowledgeAction(command: string, c: string): (a: Action)
    ensures a.RunTool? || a.OpenToolDialog?
    ensures a.RunTool? <==> |Mid(command, 1 + |c|, -1)| > 1
    ensures a.phrase == Mid(command, 1 + |c|, -1) && a.toolId == Mid(command, 1, |c| - 1)
    ensures StartsWith(command, c) && c != [] ==>
      a.toolId == c[1..] && a.phrase == if |command| > |c| then command[|c| + 1..] else []
  {
    var toolId := Mid(command, 1, |c| - 1);
    var phrase := Mid(command, 1 + |c|, -1);
    if |phrase| > 1 then RunTool(phrase, toolId) else OpenToolDialog(phrase, toolId)
  }

  /** executeCommand's routing of the command line's text. */
  function Execute(k: Commands, command: string): (a: Action)
    ensures a == NoCommandError <==> command == []
    ensures a.FullTextSearch? ==> a.phrase == command
    ensures a.FullTextSearch? <==>
      command != [] && !StartsWith(command, k.listOutlines) && !StartsWith(command, k.emojis) &&
      !StartsWith(command, k.findOutlineByTag) && !StartsWith(command, k.findOutlineByName) &&
      !StartsWith(command, k.charKnow)
  {
    if |command| == 0 then NoCommandError
    else if StartsWith(command, k.listOutlines) then ListOutlines
    else if StartsWith(command, k.emojis) then EmojisDialog
    else if StartsWith(command, k.findOutlineByTag) then
      var name := command[|k.findOutlineByTag|..];
      if |name| > 0 then FindOutlineByTag(name) else TagPhraseMissing
    else if StartsWith(command, k.findOutlineByName) then
      var name := command[|k.findOutlineByName|..];
      if |name| > 0 then FindOutlineByName(name) else NamePhraseMissing
    else if StartsWith(command, k.charKnow) then
      match KnowledgeCommand(k.helpKnowCmds, command)
      case Some(c) => KnowledgeAction(command, c)
      case None => UnknownKnowledgeSource
    else FullTextSearch(command)
  }

  /** The first matching prefix wins, in the order list outlines, emojis, find by tag, find
      by name, knowledge, full-text search. */
  lemma DispatchOrder(k: Commands, command: string)
    requires command != []
    ensures var a := Execute(k, command);
      (a == ListOutlines <==> StartsWith(command, k.listOutlines)) &&
      (a == EmojisDialog <==> !StartsWith(command, k.listOutlines) && StartsWith(command, k.emojis)) &&
      ((a.FindOutlineByTag? || a == TagPhraseMissing) <==>
         !StartsWith(command, k.listOutlines) && !StartsWith(command, k.emojis) &&
         StartsWith(command, k.findOutlineByTag)) &&
      ((a.FindOutlineByName? || a == NamePhraseMissing) <==>
         !StartsWith(command, k.listOutlines) && !StartsWith(command, k.emojis) &&
         !StartsWith(command, k.findOutlineByTag) && StartsWith(command, k.findOutlineByName)) &&
      ((a.RunTool? || a.OpenToolDialog? || a == UnknownKnowledgeSource) <==>
         !StartsWith(command, k.listOutlines) && !StartsWith(command, k.emojis) &&
         !StartsWith(command, k.findOutlineByTag) && !StartsWith(command, k.findOutlineByName) &&
         StartsWith(command, k.charKnow))
  {
  }

  /** Find by tag and find by name search for the text after the prefix, and only show a
      status message when that text is empty. */
  lemma FindArgument(k: Commands, command: string)
    requires command != [] && !StartsWith(command, k.listOutlines) && !StartsWith(command, k.emojis)
    ensures StartsWith(command, k.findOutlineByTag) ==>
      k.findOutlineByTag + command[|k.findOutlineByTag|..] == command &&
      Execute(k, command) ==
        if |command| == |k.findOutlineByTag| then TagPhraseMissing
        else FindOutlineByTag(command[|k.findOutlineByTag|..])
    ensures !StartsWith(command, k.findOutlineByTag) && StartsWith(command, k.findOutlineByName) ==>
      k.findOutlineByName + command[|k.findOutlineByName|..] == command &&
      Execute(k, command) ==
        if |command| == |k.findOutlineByName| then NamePhraseMissing
        else FindOutlineByName(command[|k.findOutlineByName|..])
  {
    if StartsWith(command, k.findOutlineByTag) {
      assert command == command[..|k.findOutlineByTag|] + command[|k.findOutlineByTag|..];
    }
    if StartsWith(command, k.findOutlineByName) {
      assert command == command[..|k.findOutlineByName|] + command[|k.findOutlineByName|..];
    }
  }

  /** A knowledge command is handled by the first HELP_KNOW_CMDS entry it starts with; one
      that starts with none only gets the unknown-source status and no full-text search. */
  lemma KnowledgeRouting(k: Commands, command: string)
    requires command != [] && !StartsWith(command, k.listOutlines) && !StartsWith(command, k.emojis) &&
             !StartsWith(command, k.findOutlineByTag) && !StartsWith(command, k.findOutlineByName) &&
             StartsWith(command, k.charKnow)
    ensures (forall i :: 0 <= i < |k.helpKnowCmds| ==> !StartsWith(command, k.helpKnowCmds[i])) <==>
            Execute(k, command) == UnknownKnowledgeSource
    ensures !Execute(k, command).FullTextSearch?
    ensures forall i :: 0 <= i < |k.helpKnowCmds| && StartsWith(command, k.helpKnowCmds[i]) &&
                        (forall j :: 0 <= j < i ==> !StartsWith(command, k.helpKnowCmds[j])) ==>
              Execute(k, command) == KnowledgeAction(command, k.helpKnowCmds[i])
  {
    var r := KnowledgeCommand(k.helpKnowCmds, command);
    if r.Some? {
      var i :| 0 <= i < |k.helpKnowCmds| && k.helpKnowCmds[i] == r.value && StartsWith(command, k.helpKnowCmds[i]) &&
               forall j :: 0 <= j < i ==> !StartsWith(command, k.helpKnowCmds[j]);
      forall i' | 0 <= i' < |k.helpKnowCmds| && StartsWith(command, k.helpKnowCmds[i']) &&
                  (forall j :: 0 <= j < i' ==> !StartsWith(command, k.helpKnowCmds[j]))
        ensures i' == i
      {
      }
    }
  }

  /** With the entries "@wiki" and "@arxiv", "@arxiv LLM" selects "@arxiv" and runs the tool
      arxiv on "LLM"; "@arxiv" alone only opens the dialog; "@web x" selects no tool. */
  lemma KnowledgeExample()
    ensures KnowledgeCommand(["@wiki", "@arxiv"], "@arxiv LLM") == Some("@arxiv")
    ensures KnowledgeAction("@arxiv LLM", "@arxiv") == RunTool("LLM", "arxiv")
    ensures KnowledgeAction("@arxiv", "@arxiv") == OpenToolDialog("", "arxiv")
    ensures KnowledgeCommand(["@wiki", "@arxiv"], "@web x") == None
  {
    assert "@arxiv LLM"[..5][1] != "@wiki"[1];
    assert StartsWith("@arxiv LLM", "@arxiv");
    assert Mid("@arxiv LLM", 7, -1) == "LLM";
    assert Mid("@arxiv LLM", 1, 5) == "arxiv";
    assert Mid("@arxiv", 1, 5) == "arxiv";
    assert "@web x"[..5][2] != "@wiki"[2];
    assert "@web x"[..6][1] != "@arxiv"[1];
  }

  // ---------------------------------------------------------------- typing in the command line

  /** The suggestion lists of the completer. */
  datatype CompleterModel =
    | HelpFindCmds
    | HelpKnowCmds
    | HelpCmdCmds
    | DefaultCmds(extra: seq<string>)   // DEFAULT_CMDS, with the extra completions passed along

  /** What handleCliTextChanged makes the view do. */
  datatype TextReaction =
    | NoReaction
    | HelpShown                                               // help box, command cleared, status hint
    | CompleterSwitched(model: CompleterModel)
    | NamePrefixShown(prefix: string, offered: Option<CompleterModel>)   // status: the typed prefix
    | DefaultFallback                                         // the DEFAULT_CMDS fallback
    | OutOfRange                                              // std::string::substr throws

  /** The largest std::size_t, what `size() - 1` gives for an empty constant. */
  const SizeMax: int := 0x1_0000_0000_0000_0000 - 1

  /** CMD_FIND_OUTLINE_BY_NAME followed by each outline name, in outline order. */
  function Completions(prefix: string, names: seq<string>): (r: seq<string>)
    ensures |r| == |names|
    ensures forall i :: 0 <= i < |names| ==> r[i] == prefix + names[i]
  {
    seq(|names|, i requires 0 <= i < |names| => prefix + names[i])
  }

  /** handleCliTextChanged for the command line's text and the outline names Mind reports. */
  function TextChanged(k: Commands, command: string, outlineNames: seq<string>): (r: TextReaction)
    ensures command == [] ==> r == NoReaction
    ensures r == HelpShown <==> command != [] && StartsWith(command, k.charHelp)
    ensures r.NamePrefixShown? ==>
      StartsWith(command, k.findOutlineByName) && r.prefix != [] && |r.prefix| <= |command| &&
      r.prefix == command[|command| - |r.prefix|..]
    ensures r.OutOfRange? ==> StartsWith(command, k.findOutlineByName) && k.findOutlineByName == []
  {
    if |command| == 0 then NoReaction
    else if StartsWith(command, k.charHelp) then HelpShown
    else if StartsWith(command, k.charFind) then
      if |command| <= 2 then CompleterSwitched(HelpFindCmds) else NoReaction
    else if StartsWith(command, k.charKnow) then
      if |command| <= 2 then CompleterSwitched(HelpKnowCmds) else NoReaction
    else if StartsWith(command, k.charCmd) then
      if |command| <= 2 then CompleterSwitched(HelpCmdCmds) else NoReaction
    else if StartsWith(command, k.findOutlineByName) then
      var pos := if |k.findOutlineByName| == 0 then SizeMax else |k.findOutlineByName| - 1;
      if pos > |command| then OutOfRange
      else
        var prefix := command[pos..];
        if |prefix| > 0 then
          NamePrefixShown(prefix,
            if |prefix| == 1 then Some(DefaultCmds(Completions(k.findOutlineByName, outlineNames))) else None)
        else DefaultFallback
    else NoReaction
  }

  /** The help prefix is answered first; the find, knowledge and command prefixes switch
      the suggestions only while at most two characters are typed. */
  lemma TextChangedPrefixes(k: Commands, command: string, names: seq<string>)
    requires command != []
    ensures StartsWith(command, k.charHelp) ==> TextChanged(k, command, names) == HelpShown
    ensures !StartsWith(command, k.charHelp) && StartsWith(command, k.charFind) ==>
      TextChanged(k, command, names) == if |command| <= 2 then CompleterSwitched(HelpFindCmds) else NoReaction
    ensures !StartsWith(command, k.charHelp) && !StartsWith(command, k.charFind) && StartsWith(command, k.charKnow) ==>
      TextChanged(k, command, names) == if |command| <= 2 then CompleterSwitched(HelpKnowCmds) else NoReaction
    ensures !StartsWith(command, k.charHelp) && !StartsWith(command, k.charFind) &&
            !StartsWith(command, k.charKnow) && StartsWith(command, k.charCmd) ==>
      TextChanged(k, command, names) == if |command| <= 2 then CompleterSwitched(HelpCmdCmds) else NoReaction
  {
  }

  /** With a non-empty CMD_FIND_OUTLINE_BY_NAME the typed prefix is never empty, so the
      DEFAULT_CMDS fallback is unreachable (and substr never throws); the outline
      completions are offered exactly when the command is the prefix constant itself. */
  lemma FindByNameTyping(k: Commands, command: string, names: seq<string>)
    requires |k.findOutlineByName| > 0
    requires command != [] && !StartsWith(command, k.charHelp) && !StartsWith(command, k.charFind) &&
             !StartsWith(command, k.charKnow) && !StartsWith(command, k.charCmd)
    requires StartsWith(command, k.findOutlineByName)
    ensures var r := TextChanged(k, command, names);
      r.NamePrefixShown? && r.prefix == command[|k.findOutlineByName| - 1..] &&
      (r.offered.Some? <==> command == k.findOutlineByName) &&
      (r.offered.Some? ==> r.offered.value == DefaultCmds(Completions(k.findOutlineByName, names)))
  {
    if |command| == |k.findOutlineByName| {
      assert command == command[..|k.findOutlineByName|];
    }
  }

  /** A completion is the prefix constant followed by the outline name, which is what
      remains once the prefix is cut off. */
  lemma CompletionsRoundTrip(prefix: string, names: seq<string>)
    ensures var r := Completions(prefix, names);
      forall i :: 0 <= i < |names| ==> StartsWith(r[i], prefix) && r[i][|prefix|..] == names[i]
  {
    var r := Completions(prefix, names);
    forall i | 0 <= i < |names| ensures StartsWith(r[i], prefix) && r[i][|prefix|..] == names[i] {
      assert r[i] == prefix + names[i];
      assert r[i][..|prefix|] == prefix;
    }
  }

  // ---------------------------------------------------------------- the presenter

  /** CliAndBreadcrumbsPresenter with the state of its view that the handlers change: the
      command line's text and the completer's items and suggestion list. */
  class CliAndBreadcrumbsPresenter {
    const commands: Commands
    var command: string
    var completerItems: seq<string>
    var completerModel: CompleterModel

    constructor (commands: Commands)
      ensures this.commands == commands && command == [] && completerItems == [] && completerModel == DefaultCmds([])
    {
      this.commands := commands;
      command := [];
      completerItems := [];
      completerModel := DefaultCmds([]);
    }

    /** executeCommand: a non-empty command is added to the completer, then routed. */
    method ExecuteCommand() returns (action: Action)
      modifies this`completerItems
      ensures completerItems == old(completerItems) + (if command == [] then [] else [command])
      ensures action == Execute(commands, command)
    {
      if |command| > 0 {
        completerItems := completerItems + [command];
        var k := commands;
        if StartsWith(command, k.listOutlines) {
          return ListOutlines;
        } else if StartsWith(command, k.emojis) {
          return EmojisDialog;
        } else if StartsWith(command, k.findOutlineByTag) {
          var name := command[|k.findOutlineByTag|..];
          if |name| > 0 {
            return FindOutlineByTag(name);
          } else {
            return TagPhraseMissing;
          }
        } else if StartsWith(command, k.findOutlineByName) {
          var name := command[|k.findOutlineByName|..];
          if |name| > 0 {
            return FindOutlineByName(name);
          } else {
            return NamePhraseMissing;
          }
        } else if StartsWith(command, k.charKnow) {
          action := RunKnowledge(k.helpKnowCmds, command);
        } else {
          return FullTextSearch(command);
        }
      } else {
        return NoCommandError;
      }
    }

    /** The loop over HELP_KNOW_CMDS: the first entry the command starts with runs its
        tool and returns; after the loop, the source is unknown. */
    static method RunKnowledge(cmds: seq<string>, command: string) returns (action: Action)
      ensures action == match KnowledgeCommand(cmds, command)
                        case Some(c) => KnowledgeAction(command, c)
                        case None => UnknownKnowledgeSource
    {
      for i := 0 to |cmds|
        invariant forall j :: 0 <= j < i ==> !StartsWith(command, cmds[j])
      {
        var c := cmds[i];
        var toolId := Mid(command, 1, |c| - 1);
        if StartsWith(command, c) {
          FirstKnowledgeCommand(cmds, command, i);
          var phrase := Mid(command, 1 + |c|, -1);
          if |phrase| > 1 {
            return RunTool(phrase, toolId);
          } else {
            return OpenToolDialog(phrase, toolId);
          }
        }
      }
      return UnknownKnowledgeSource;
    }

    /** handleCliTextChanged: the help prefix clears the command line and a completer
        switch replaces the suggestion list; nothing else changes. */
    method HandleCliTextChanged(outlineNames: seq<string>) returns (reaction: TextReaction)
      modifies this`command, this`completerModel
      ensures reaction == TextChanged(commands, old(command), outlineNames)
      ensures command == if reaction.HelpShown? then [] else old(command)
      ensures completerModel ==
        match reaction
        case CompleterSwitched(m) => m
        case NamePrefixShown(_, m) => if m.Some? then m.value else old(completerModel)
        case DefaultFallback => DefaultCmds([])
        case _ => old(completerModel)
    {
      var k := commands;
      if |command| > 0 {
        if StartsWith(command, k.charHelp) {
          command := [];
          return HelpShown;
        } else if StartsWith(command, k.charFind) {
          if |command| <= 2 {
            completerModel := HelpFindCmds;
            return CompleterSwitched(HelpFindCmds);
          }
          return NoReaction;
        } else if StartsWith(command, k.charKnow) {
          if |command| <= 2 {
            completerModel := HelpKnowCmds;
            return CompleterSwitched(HelpKnowCmds);
          }
          return NoReaction;
        } else if StartsWith(command, k.charCmd) {
          if |command| <= 2 {
            completerModel := HelpCmdCmds;
            return CompleterSwitched(HelpCmdCmds);
          }
          return NoReaction;
        } else if StartsWith(command, k.findOutlineByName) {
          var pos := if |k.findOutlineByName| == 0 then SizeMax else |k.findOutlineByName| - 1;
          if pos > |command| {
            return OutOfRange;
          }
          var prefix := command[pos..];
          if |prefix| > 0 {
            if |prefix| == 1 {
              var completion := OutlineNamesCompletion(k.findOutlineByName, outlineNames);
              completerModel := DefaultCmds(completion);
              return NamePrefixShown(prefix, Some(DefaultCmds(completion)));
            }
            return NamePrefixShown(prefix, None);
          } else {
            completerModel := DefaultCmds([]);
            return DefaultFallback;
          }
        }
        return NoReaction;
      } else {
        return NoReaction;
      }
    }

    /** The loop that builds outlineNamesCompletion. */
    static method OutlineNamesCompletion(prefix: string, outlineNames: seq<string>) returns (completion: seq<string>)
      ensures completion == Completions(prefix, outlineNames)
    {
      completion := [];
      for i := 0 to |outlineNames|
        invariant completion == Completions(prefix, outlineNames[..i])
      {
        var qs := [];
        qs := qs + prefix;
        qs := qs + outlineNames[i];
        assert qs == prefix + outlineNames[i];
        assert forall j :: 0 <= j < i ==> outlineNames[..i + 1][j] == outlineNames[..i][j];
        assert Completions(prefix, outlineNames[..i + 1])[i] == qs;
        assert Completions(prefix, outlineNames[..i + 1]) == Completions(prefix, outlineNames[..i]) + [qs];
        completion := completion + [qs];
      }
      assert outlineNames[..|outlineNames|] == outlineNames;
    }
  }

  /** An entry the command starts with, after entries it does not start with, is the one
      KnowledgeCommand chooses. */
  lemma FirstKnowledgeCommand(cmds: seq<string>, command: string, i: int)
    requires 0 <= i < |cmds| && StartsWith(command, cmds[i])
    requires forall j :: 0 <= j < i ==> !StartsWith(command, cmds[j])
    ensures KnowledgeCommand(cmds, command) == Some(cmds[i])
  {
    var r := KnowledgeCommand(cmds, command);
    var i' :| 0 <= i' < |cmds| && cmds[i'] == r.value && StartsWith(command, cmds[i']) &&
              forall j :: 0 <= j < i' ==> !StartsWith(command, cmds[j]);
  }
}
