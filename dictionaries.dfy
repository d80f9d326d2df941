/** The Hunspell dictionary provider's list work: the dictionary search path built by its
    constructor, and availableDictionaries, which pairs the .dic and .aff files of every
    search-path directory. Directory listings and the environment are inputs. */
module Dictionaries {
  import opened Strings

  // ---------------------------------------------------------------- append if absent

  /** `acc` extended by the elements of `xs` it does not hold yet, in order (the
      `if (!list.contains(x)) list.append(x)` loops). */
  function AddAbsent(acc: seq<string>, xs: seq<string>): (r: seq<string>)
    decreases |xs|
  {
    if xs == [] then acc
    else
      var a := AddAbsent(acc, xs[..|xs| - 1]);
      if xs[|xs| - 1] in a then a else a + [xs[|xs| - 1]]
  }

  predicate NoDuplicates(xs: seq<string>)
  {
    forall i, j :: 0 <= i < j < |xs| ==> xs[i] != xs[j]
  }

  /** The position of the first occurrence of `x` in `xs`. */
  function FirstIndex(xs: seq<string>, x: string): (k: nat)
    requires x in xs
    ensures k < |xs| && xs[k] == x && forall i :: 0 <= i < k ==> xs[i] != x
  {
    if xs[0] == x then 0 else 1 + FirstIndex(xs[1..], x)
  }

  /** Extending by one element appends it exactly when it is new. */
  lemma AddAbsentSnoc(acc: seq<string>, xs: seq<string>, x: string)
    ensures AddAbsent(acc, xs + [x]) ==
      if x in AddAbsent(acc, xs) then AddAbsent(acc, xs) else AddAbsent(acc, xs) + [x]
  {
    assert (xs + [x])[..|xs + [x]| - 1] == xs;
  }

  /** Adding two lists one after the other is adding their concatenation. */
  lemma {:induction false} AddAbsentAppend(acc: seq<string>, xs: seq<string>, ys: seq<string>)
    ensures AddAbsent(acc, xs + ys) == AddAbsent(AddAbsent(acc, xs), ys)
    decreases |ys|
  {
    if ys == [] {
      assert xs + ys == xs;
    } else {
      var init := ys[..|ys| - 1];
      assert (xs + ys)[..|xs + ys| - 1] == xs + init;
      AddAbsentAppend(acc, xs, init);
    }
  }

  /** AddAbsent keeps `acc` as a prefix, holds exactly the elements of `acc` and `xs`, adds no
      duplicate (so that it has none when `acc` has none), and adds the new elements in the
      order of their first occurrence in `xs`. */
  lemma {:induction false} AddAbsentSpec(acc: seq<string>, xs: seq<string>)
    ensures var r := AddAbsent(acc, xs);
      |acc| <= |r| && r[..|acc|] == acc &&
      (forall x :: x in r <==> x in acc || x in xs) &&
      (NoDuplicates(acc) ==> NoDuplicates(r)) &&
      (forall k :: |acc| <= k < |r| ==> r[k] !in acc && r[k] in xs) &&
      (forall k1, k2 :: |acc| <= k1 < k2 < |r| ==> FirstIndex(xs, r[k1]) < FirstIndex(xs, r[k2]))
    decreases |xs|
  {
    if xs != [] {
      var ys := xs[..|xs| - 1];
      var x := xs[|xs| - 1];
      assert xs == ys + [x];
      AddAbsentSpec(acc, ys);
      var a := AddAbsent(acc, ys);
      forall y | y in ys ensures FirstIndex(xs, y) == FirstIndex(ys, y) {
        FirstIndexPrefix(ys, x, y);
      }
      if x !in a {
        var r := a + [x];
        assert x !in ys;
        assert FirstIndex(xs, x) == |ys| by {
          FirstIndexLast(ys, x);
        }
        forall k | |acc| <= k < |a| ensures FirstIndex(xs, r[k]) < FirstIndex(xs, x) {
          assert r[k] == a[k] && a[k] in ys;
        }
      }
    }
  }

  lemma {:induction false} FirstIndexPrefix(ys: seq<string>, x: string, y: string)
    requires y in ys
    ensures FirstIndex(ys + [x], y) == FirstIndex(ys, y)
  {
    if ys[0] != y {
      assert (ys + [x])[1..] == ys[1..] + [x];
      FirstIndexPrefix(ys[1..], x, y);
    }
  }

  lemma {:induction false} FirstIndexLast(ys: seq<string>, x: string)
    requires x !in ys
    ensures FirstIndex(ys + [x], x) == |ys|
  {
    if ys != [] {
      assert (ys + [x])[1..] == ys[1..] + [x];
      FirstIndexLast(ys[1..], x);
    }
  }

  // ---------------------------------------------------------------- the search path

  /** The subdirectories tried under every XDG data directory, in order. */
  const HunspellSubdirs := ["/hunspell", "/myspell/dicts", "/myspell", "/mozilla-dicts"]

  /** XDG_DATA_DIRS split at ':' with empty parts dropped, or the two standard directories
      when that leaves nothing. */
  function XdgDirs(xdgDataDirs: string): (dirs: seq<string>)
    ensures dirs != []
    ensures SplitSkipEmpty(xdgDataDirs, ':') != [] ==> dirs == SplitSkipEmpty(xdgDataDirs, ':')
    ensures SplitSkipEmpty(xdgDataDirs, ':') == [] ==> dirs == ["/usr/local/share", "/usr/share"]
  {
    var xdg := SplitSkipEmpty(xdgDataDirs, ':');
    if xdg == [] then ["/usr/local/share", "/usr/share"] else xdg
  }

  /** One subdirectory appended to every XDG directory, in order. */
  function Row(dirs: seq<string>, subdir: string): (paths: seq<string>)
    decreases |dirs|
  {
    if dirs == [] then [] else Row(dirs[..|dirs| - 1], subdir) + [dirs[|dirs| - 1] + subdir]
  }

  /** The candidate directories, subdirectory by subdirectory and, within one, XDG
      directory by XDG directory. */
  function CandidatePaths(subdirs: seq<string>, xdg: seq<string>): (paths: seq<string>)
    decreases |subdirs|
  {
    if subdirs == [] then []
    else CandidatePaths(subdirs[..|subdirs| - 1], xdg) + Row(xdg, subdirs[|subdirs| - 1])
  }

  /** The DictionaryProviderHunspell constructor: the search paths QDir already had for
      "dict", followed by every candidate directory not among them yet; this list is then
      set as the new search path. */
  method SearchPaths(initial: seq<string>, xdgDataDirs: string) returns (dictdirs: seq<string>)
    ensures dictdirs == AddAbsent(initial, CandidatePaths(HunspellSubdirs, XdgDirs(xdgDataDirs)))
  {
    dictdirs := initial;
    var xdg := ReadXdgDirs(xdgDataDirs);
    var subdirs := HunspellSubdirs;
    for a := 0 to |subdirs|
      invariant dictdirs == AddAbsent(initial, CandidatePaths(subdirs[..a], xdg))
    {
      assert subdirs[..a + 1][..a] == subdirs[..a];
      AddAbsentAppend(initial, CandidatePaths(subdirs[..a], xdg), Row(xdg, subdirs[a]));
      dictdirs := AddSubdir(dictdirs, xdg, subdirs[a]);
    }
    assert subdirs[..|subdirs|] == subdirs;
  }

  /** The XDG directories of the constructor, with the fallback appended to an empty list. */
  method ReadXdgDirs(xdgDataDirs: string) returns (xdg: seq<string>)
    ensures xdg == XdgDirs(xdgDataDirs)
  {
    xdg := SplitSkipEmpty(xdgDataDirs, ':');
    if xdg == [] {
      xdg := xdg + ["/usr/local/share"];
      xdg := xdg + ["/usr/share"];
    }
  }

  /** The inner loop of the constructor: every XDG directory followed by `subdir`,
      appended when absent. */
  method AddSubdir(dictdirs0: seq<string>, xdg: seq<string>, subdir: string) returns (dictdirs: seq<string>)
    ensures dictdirs == AddAbsent(dictdirs0, Row(xdg, subdir))
  {
    dictdirs := dictdirs0;
    for b := 0 to |xdg|
      invariant dictdirs == AddAbsent(dictdirs0, Row(xdg[..b], subdir))
    {
      var path := xdg[b] + subdir;
      assert xdg[..b + 1][..b] == xdg[..b];
      AddAbsentSnoc(dictdirs0, Row(xdg[..b], subdir), path);
      if path !in dictdirs {
        dictdirs := dictdirs + [path];
      }
    }
    assert xdg[..|xdg|] == xdg;
  }

  /** Every candidate is an XDG directory followed by a subdirectory, and every such pair
      is a candidate. */
  lemma {:induction false} RowSpec(dirs: seq<string>, subdir: string)
    ensures forall p :: p in Row(dirs, subdir) <==> exists d :: d in dirs && p == d + subdir
    decreases |dirs|
  {
    if dirs != [] {
      RowSpec(dirs[..|dirs| - 1], subdir);
      assert dirs == dirs[..|dirs| - 1] + [dirs[|dirs| - 1]];
    }
  }

  lemma {:induction false} CandidatePathsSpec(subdirs: seq<string>, xdg: seq<string>)
    ensures forall p :: p in CandidatePaths(subdirs, xdg) <==>
      exists d, t :: d in xdg && t in subdirs && p == d + t
    decreases |subdirs|
  {
    if subdirs != [] {
      var init := subdirs[..|subdirs| - 1];
      var t := subdirs[|subdirs| - 1];
      CandidatePathsSpec(init, xdg);
      RowSpec(xdg, t);
      assert subdirs == init + [t];
    }
  }

  /** The constructor's search path starts with the paths QDir had, then holds exactly the
      candidate directories (every XDG directory followed by every subdirectory) not among
      them, each once and in candidate order. */
  lemma SearchPathsSpec(initial: seq<string>, xdgDataDirs: string)
    ensures var xdg := XdgDirs(xdgDataDirs);
      var c := CandidatePaths(HunspellSubdirs, xdg);
      var r := AddAbsent(initial, c);
      |initial| <= |r| && r[..|initial|] == initial &&
      (forall p :: p in r <==> p in initial || exists d, t :: d in xdg && t in HunspellSubdirs && p == d + t) &&
      (NoDuplicates(initial) ==> NoDuplicates(r)) &&
      (forall k :: |initial| <= k < |r| ==> r[k] !in initial && r[k] in c) &&
      (forall k1, k2 :: |initial| <= k1 < k2 < |r| ==> FirstIndex(c, r[k1]) < FirstIndex(c, r[k2]))
  {
    var xdg := XdgDirs(xdgDataDirs);
    AddAbsentSpec(initial, CandidatePaths(HunspellSubdirs, xdg));
    CandidatePathsSpec(HunspellSubdirs, xdg);
  }

  // ---------------------------------------------------------------- available dictionaries

  /** What QDir::entryList returns for one search-path directory: the names matching
      "*.dic*" (sorted by name, ignoring case) and those matching "*.aff*". */
  datatype Listing = Listing(dicFiles: seq<string>, affFiles: seq<string>)

  /** replaceInStrings(QRegularExpression("\\.<ext>.*"), ""): everything from the first
      occurrence of the pattern's dot and extension on is removed. */
  function StripFrom(name: string, ext: string): (r: string)
    ensures IndexOf(name, ext) == -1 ==> r == name
    ensures IndexOf(name, ext) != -1 ==> r == name[..IndexOf(name, ext)]
  {
    var k := IndexOf(name, ext);
    if k == -1 then name else name[..k]
  }

  function StripAll(names: seq<string>, ext: string): (r: seq<string>)
    ensures |r| == |names| && forall i :: 0 <= i < |names| ==> r[i] == StripFrom(names[i], ext)
  {
    seq(|names|, i requires 0 <= i < |names| => StripFrom(names[i], ext))
  }

  /** The languages of one directory in .dic order that also have an .aff file there. */
  function Paired(dics: seq<string>, affs: seq<string>): (r: seq<string>)
    ensures |r| <= |dics|
    decreases |dics|
  {
    if dics == [] then []
    else Paired(dics[..|dics| - 1], affs) + (if dics[|dics| - 1] in affs then [dics[|dics| - 1]] else [])
  }

  function DirLanguages(l: Listing): seq<string>
  {
    Paired(StripAll(l.dicFiles, ".dic"), StripAll(l.affFiles, ".aff"))
  }

  /** The languages offered by the directories, directory after directory, repeats kept. */
  function Offered(ls: seq<Listing>): (r: seq<string>)
    ensures |ls| == 1 ==> r == DirLanguages(ls[0])
    decreases |ls|
  {
    if ls == [] then [] else Offered(ls[..|ls| - 1]) + DirLanguages(ls[|ls| - 1])
  }

  /** availableDictionaries over the listings of the search-path directories, in order. */
  method AvailableDictionaries(locations: seq<Listing>) returns (result: seq<string>)
    ensures result == AddAbsent([], Offered(locations))
  {
    result := [];
    var i := 0;
    while i < |locations|
      invariant 0 <= i <= |locations|
      invariant result == AddAbsent([], Offered(locations[..i]))
      decreases |locations| - i
    {
      var dicFiles := StripAll(locations[i].dicFiles, ".dic");
      var affFiles := StripAll(locations[i].affFiles, ".aff");
      assert locations[..i + 1][..i] == locations[..i];
      AddAbsentAppend([], Offered(locations[..i]), Paired(dicFiles, affFiles));
      result := AddLanguages(result, dicFiles, affFiles);
      i := i + 1;
    }
    assert locations[..|locations|] == locations;
  }

  /** The inner loop of availableDictionaries: each stripped .dic name of one directory
      that is also a stripped .aff name there, appended when absent. */
  method AddLanguages(result0: seq<string>, dicFiles: seq<string>, affFiles: seq<string>) returns (result: seq<string>)
    ensures result == AddAbsent(result0, Paired(dicFiles, affFiles))
  {
    result := result0;
    for j := 0 to |dicFiles|
      invariant result == AddAbsent(result0, Paired(dicFiles[..j], affFiles))
    {
      var language := dicFiles[j];
      assert dicFiles[..j + 1][..j] == dicFiles[..j];
      assert Paired(dicFiles[..j + 1], affFiles) ==
        Paired(dicFiles[..j], affFiles) + (if language in affFiles then [language] else []);
      if language in affFiles && language !in result {
        AddAbsentSnoc(result0, Paired(dicFiles[..j], affFiles), language);
        result := result + [language];
      } else if language in affFiles {
        AddAbsentSnoc(result0, Paired(dicFiles[..j], affFiles), language);
      } else {
        assert Paired(dicFiles[..j], affFiles) + [] == Paired(dicFiles[..j], affFiles);
      }
    }
    assert dicFiles[..|dicFiles|] == dicFiles;
  }

  /** A language of one directory has both a .dic and an .aff file there once stripped. */
  lemma {:induction false} PairedSpec(dics: seq<string>, affs: seq<string>)
    ensures forall x :: x in Paired(dics, affs) <==> x in dics && x in affs
    decreases |dics|
  {
    if dics != [] {
      PairedSpec(dics[..|dics| - 1], affs);
      var last := dics[|dics| - 1];
      assert dics == dics[..|dics| - 1] + [last];
    }
  }

  lemma {:induction false} OfferedSpec(ls: seq<Listing>)
    ensures forall x :: x in Offered(ls) <==> exists i :: 0 <= i < |ls| && x in DirLanguages(ls[i])
    decreases |ls|
  {
    if ls != [] {
      var init := ls[..|ls| - 1];
      OfferedSpec(init);
      assert Offered(ls) == Offered(init) + DirLanguages(ls[|ls| - 1]);
      assert forall i :: 0 <= i < |init| ==> init[i] == ls[i];
    }
  }

  /** availableDictionaries answers each language at most once, in the order languages are
      first offered, and exactly the languages some directory holds both a .dic and an .aff
      file of, with the extensions stripped. */
  lemma AvailableSpec(locations: seq<Listing>)
    ensures var r := AddAbsent([], Offered(locations));
      NoDuplicates(r) &&
      (forall k :: 0 <= k < |r| ==> r[k] in Offered(locations)) &&
      (forall k1, k2 :: 0 <= k1 < k2 < |r| ==>
         FirstIndex(Offered(locations), r[k1]) < FirstIndex(Offered(locations), r[k2])) &&
      (forall x :: x in r <==>
         exists i :: 0 <= i < |locations| &&
           x in StripAll(locations[i].dicFiles, ".dic") && x in StripAll(locations[i].affFiles, ".aff"))
  {
    AddAbsentSpec([], Offered(locations));
    OfferedSpec(locations);
    forall i | 0 <= i < |locations| {
      PairedSpec(StripAll(locations[i].dicFiles, ".dic"), StripAll(locations[i].affFiles, ".aff"));
    }
  }
}
