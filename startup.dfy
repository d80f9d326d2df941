/** Two decisions of MindForger's main: what the positional command-line arguments
    select, and which spell-check language becomes the default once the available
    dictionaries are known. */
module Startup {
  import opened Strings
  import opened Sorting

  // ---------------------------------------------------------------- positional arguments

  /** How main continues after parsing the command line. */
  datatype Launch =
    | Exit(code: int, error: string)   // main returns `code`, printing `error` when non-empty
    | Run(useRepository: string)       // configuration is loaded and the GUI starts

  /** The message printed for too many positional arguments. */
  function TooManyArguments(count: nat): string
  {
    "Error: Too many arguments (" + NatToString(count) + ") - at most one directory or file can be specified"
  }

  /** The command line: help or version exit with 0, more than one positional argument
      exits with 1, exactly one becomes the repository to open. */
  function Launching(helpOrVersion: bool, arguments: seq<string>): (l: Launch)
    ensures l.Exit? <==> helpOrVersion || |arguments| > 1
    ensures l.Exit? && !helpOrVersion ==> l.code == 1 && l.error == TooManyArguments(|arguments|)
    ensures helpOrVersion ==> l == Exit(0, [])
    ensures l.Run? ==> l.useRepository == if |arguments| == 1 then arguments[0] else []
  {
    if helpOrVersion then Exit(0, [])
    else if |arguments| == 1 then Run(arguments[0])
    else if |arguments| > 1 then Exit(1, TooManyArguments(|arguments|))
    else Run([])
  }

  /** Which repository main opens. */
  datatype RepositoryChoice =
    | GivenRepository(path: string)    // getRepositoryForPath, or a new Markdown file there
    | DefaultRepository                // findOrCreateDefaultRepository

  function Repository(useRepository: string): (c: RepositoryChoice)
    ensures c == DefaultRepository <==> useRepository == []
  {
    if useRepository != [] then GivenRepository(useRepository) else DefaultRepository
  }

  /** Without a positional argument (or with an empty one) the default repository is used;
      one non-empty argument is the repository to open. */
  lemma ArgumentSelectsRepository(arguments: seq<string>)
    requires |arguments| <= 1
    ensures Launching(false, arguments).Run?
    ensures Repository(Launching(false, arguments).useRepository) ==
      if arguments == [] || arguments[0] == [] then DefaultRepository else GivenRepository(arguments[0])
  {
  }

  // ---------------------------------------------------------------- spell-check language

  /** The spell-check settings of Configuration that main reads and writes. */
  class Configuration {
    var spellCheckLanguages: seq<string>
    var spellCheckDefaultLanguage: string
    var liveSpellCheck: bool

    constructor (languages: seq<string>, defaultLanguage: string, live: bool)
      ensures spellCheckLanguages == languages && spellCheckDefaultLanguage == defaultLanguage
      ensures liveSpellCheck == live
    {
      spellCheckLanguages := languages;
      spellCheckDefaultLanguage := defaultLanguage;
      liveSpellCheck := live;
    }
  }

  /** The default language chosen for a non-empty list of available languages: the
      configured one when available, else "en" when available, else the first in sorted
      order when none is configured, else the configured one although it is unavailable. */
  function DefaultLanguage(configured: string, languages: seq<string>): (r: string)
    requires languages != []
    ensures r in languages || r == configured
  {
    if configured in languages then configured
    else if "en" in languages then "en"
    else if configured == [] then
      SortSpec(languages);
      assert Sort(languages)[0] in Sort(languages);
      Sort(languages)[0]
    else configured
  }

  /** The default is an available language unless an unavailable one is configured and
      "en" is missing, in which case the configured language stays. */
  lemma DefaultLanguageAvailable(configured: string, languages: seq<string>)
    requires languages != []
    ensures DefaultLanguage(configured, languages) in languages <==>
      configured in languages || "en" in languages || configured == []
    ensures DefaultLanguage(configured, languages) !in languages ==>
      DefaultLanguage(configured, languages) == configured
  {
    SortSpec(languages);
    assert Sort(languages)[0] in Sort(languages);
  }

  /** With neither the configured language nor "en" available and nothing configured, the
      default is the least available language. */
  lemma FallbackIsLeast(languages: seq<string>)
    requires languages != [] && [] !in languages && "en" !in languages
    ensures DefaultLanguage([], languages) in languages
    ensures forall l :: l in languages ==> LessEq(DefaultLanguage([], languages), l)
  {
    SortSpec(languages);
    assert Sort(languages)[0] in Sort(languages);
    SortFirstLeast(languages);
  }

  /** The regional English dictionaries are not preferred: with en_US available and
      nothing in place of "en", an unavailable configured language stays, and with none
      configured the alphabetically first language wins. */
  lemma RegionalEnglishIgnored()
    ensures DefaultLanguage("fr", ["en_US", "de"]) == "fr"
    ensures DefaultLanguage([], ["en_US", "de"]) == "de"
  {
    assert "en_US" != "fr" && "de" != "fr" && "en_US" != "en" && "de" != "en";
    assert Less("de", "en_US");
    assert Sort(["en_US", "de"][1..]) == ["de"];
    assert Sort(["en_US", "de"]) == Insert("en_US", ["de"]);
  }

  /** languages.sort(), and the fallback loop over {"en", "en_US", "en_GB", languages[0]}
      whose body only ever tests for "en". Without dictionaries, the language list is
      cleared under live spell check; `clearUiEditorSpellCheckLanguages` is read as
      clearing that list and nothing else. */
  method ChooseDefaultLanguage(config: Configuration, available: seq<string>) returns (managerDefault: Option<string>)
    modifies config
    ensures available != [] ==>
      config.spellCheckLanguages == old(config.spellCheckLanguages) + Sort(available) &&
      config.spellCheckDefaultLanguage == DefaultLanguage(old(config.spellCheckDefaultLanguage), available) &&
      managerDefault == Some(config.spellCheckDefaultLanguage)
    ensures available == [] ==>
      config.spellCheckLanguages == (if old(config.liveSpellCheck) then [] else old(config.spellCheckLanguages)) &&
      config.spellCheckDefaultLanguage == old(config.spellCheckDefaultLanguage) &&
      managerDefault == None
    ensures config.liveSpellCheck == old(config.liveSpellCheck)
  {
    if |available| > 0 {
      var languages := Sort(available);
      SortSpec(available);
      var defaultLanguage := config.spellCheckDefaultLanguage;
      var isDefaultLangAvailable := RegisterLanguages(config, languages, defaultLanguage);
      if !isDefaultLangAvailable {
        defaultLanguage := FallbackLanguage(defaultLanguage, languages);
      }
      config.spellCheckDefaultLanguage := defaultLanguage;
      return Some(defaultLanguage);
    } else {
      if config.liveSpellCheck {
        config.spellCheckLanguages := [];
      }
      return None;
    }
  }

  /** The foreach over the sorted languages: each is added to the configuration, and the
      answer is whether the default language is among them. */
  method RegisterLanguages(config: Configuration, languages: seq<string>, defaultLanguage: string)
    returns (isDefaultLangAvailable: bool)
    modifies config`spellCheckLanguages
    ensures config.spellCheckLanguages == old(config.spellCheckLanguages) + languages
    ensures isDefaultLangAvailable <==> defaultLanguage in languages
  {
    isDefaultLangAvailable := false;
    for i := 0 to |languages|
      invariant config.spellCheckLanguages == old(config.spellCheckLanguages) + languages[..i]
      invariant isDefaultLangAvailable <==> defaultLanguage in languages[..i]
    {
      config.spellCheckLanguages := config.spellCheckLanguages + [languages[i]];
      if languages[i] == defaultLanguage {
        isDefaultLangAvailable := true;
      }
      assert languages[..i + 1] == languages[..i] + [languages[i]];
    }
    assert languages[..|languages|] == languages;
  }

  /** The fallback for an unavailable default: the loop over the common languages, whose
      every pass tests for "en", then the first language when no default is left. */
  method FallbackLanguage(configured: string, languages: seq<string>) returns (defaultLanguage: string)
    requires languages != []
    ensures defaultLanguage == if "en" in languages then "en" else if configured == [] then languages[0] else configured
  {
    defaultLanguage := configured;
    var commonLangs := ["en", "en_US", "en_GB", languages[0]];
    for c := 0 to |commonLangs|
      invariant c == 0 || "en" !in languages ==> defaultLanguage == configured
      invariant c > 0 && "en" in languages ==> defaultLanguage == "en"
    {
      if "en" in languages {
        defaultLanguage := "en";
        break;
      }
    }
    if |defaultLanguage| == 0 {
      defaultLanguage := languages[0];
    }
  }
}
