/**
  The decisions `extract_zip` makes about an archive before it touches the
  disk: which entries are scripts, whether the archive is one loose script,
  which `__init__.py` is the add-on's root, what the add-on's directory is
  called, and which entries are extracted under which names.
 */
module ArchiveLayout {
  import opened Outcomes
  import opened Text
  import opened StringOrder

  /**
    One member of the archive's index: its stored name and the text its
    bytes decode to. A zip member is a directory exactly when its name ends
    with `/` (`ZipInfo.is_dir`).
   */
  datatype Entry = Entry(name: string, text: string)

  predicate IsDir(e: Entry) {
    EndsWith(e.name, "/")
  }

  const InitFile := "__init__.py"
  const ReservedPrefix := "__"

  /** A candidate script: a file whose lower-cased name ends in `.py`. */
  predicate IsScript(e: Entry) {
    !IsDir(e) && EndsWith(Lower(e.name), ".py")
  }

  /** The candidate scripts of an archive, in index order. */
  function Scripts(entries: seq<Entry>): (r: seq<Entry>)
    ensures |r| <= |entries|
    ensures forall e :: e in r <==> e in entries && IsScript(e)
    ensures forall e :: multiset(r)[e] == if IsScript(e) then multiset(entries)[e] else 0
  {
    if |entries| == 0 then []
    else
      var e0 := entries[0];
      var rest := Scripts(entries[1..]);
      assert entries == [e0] + entries[1..];
      assert multiset(entries) == multiset{e0} + multiset(entries[1..]);
      if IsScript(e0) then
        assert multiset([e0] + rest) == multiset{e0} + multiset(rest);
        [e0] + rest
      else
        rest
  }

  /** The names of the entries whose basename is exactly `__init__.py`. */
  function InitNames(entries: seq<Entry>): (r: seq<string>)
    ensures forall n :: n in r ==> Basename(n) == InitFile
    ensures forall n :: n in r ==> exists e :: e in entries && e.name == n
    ensures forall e :: e in entries && Basename(e.name) == InitFile ==> e.name in r
  {
    if |entries| == 0 then []
    else
      var rest := InitNames(entries[1..]);
      assert forall e :: e in entries <==> e == entries[0] || e in entries[1..];
      if Basename(entries[0].name) == InitFile then [entries[0].name] + rest else rest
  }

  /** A member to extract and the name it is extracted under. */
  datatype Placement = Placement(source: Entry, target: string)

  /**
    The extraction loop: every file whose name starts with `parent`, renamed
    with that prefix removed; directories are skipped.
   */
  function Extraction(entries: seq<Entry>, parent: string): (r: seq<Placement>)
    ensures |r| <= |entries|
    ensures forall p :: p in r ==>
      p.source in entries && !IsDir(p.source) && p.source.name == parent + p.target
    ensures forall e :: e in entries && !IsDir(e) && StartsWith(e.name, parent) ==>
      Placement(e, e.name[|parent|..]) in r
  {
    if |entries| == 0 then []
    else
      var e := entries[0];
      var rest := Extraction(entries[1..], parent);
      assert forall x :: x in entries <==> x == e || x in entries[1..];
      if !IsDir(e) && StartsWith(e.name, parent) then
        assert e.name == parent + e.name[|parent|..];
        [Placement(e, e.name[|parent|..])] + rest
      else
        rest
  }

  /** Extracting one more entry appends at most one placement, at the end. */
  lemma {:induction false} ExtractionAppend(entries: seq<Entry>, e: Entry, parent: string)
    ensures Extraction(entries + [e], parent) == Extraction(entries, parent) +
      (if !IsDir(e) && StartsWith(e.name, parent) then [Placement(e, e.name[|parent|..])] else [])
    decreases |entries|
  {
    if |entries| > 0 {
      assert (entries + [e])[0] == entries[0];
      assert (entries + [e])[1..] == entries[1..] + [e];
      ExtractionAppend(entries[1..], e, parent);
    }
  }

  /**
    The position of the member whose bytes end up at `target` once the
    members are extracted in order: the last one extracted under that name.
   */
  function LastWritten(members: seq<Placement>, target: string): (r: Option<nat>)
    ensures r.None? <==> forall j :: 0 <= j < |members| ==> members[j].target != target
    ensures r.Some? ==> r.value < |members| && members[r.value].target == target
    ensures r.Some? ==> forall j :: r.value < j < |members| ==> members[j].target != target
    decreases |members|
  {
    if |members| == 0 then None
    else if members[|members| - 1].target == target then Some(|members| - 1)
    else LastWritten(members[..|members| - 1], target)
  }

  /** Entry `k` is a file that the extraction writes to `__init__.py`. */
  ghost predicate ExtractedAsInit(entries: seq<Entry>, parent: string, k: int) {
    0 <= k < |entries| && !IsDir(entries[k]) && entries[k].name == parent + InitFile
  }

  /**
    What `LastWritten` finds among the members extracted under `parent`:
    nothing exactly when no file is named `parent + "__init__.py"`, and
    otherwise the last such file.
   */
  ghost predicate FindsLastInit(entries: seq<Entry>, parent: string, m: seq<Placement>, w: Option<nat>) {
    && (w.None? <==> forall k :: 0 <= k < |entries| ==> !ExtractedAsInit(entries, parent, k))
    && (w.Some? ==> w.value < |m| && exists k ::
          && ExtractedAsInit(entries, parent, k)
          && m[w.value].source == entries[k]
          && forall k2 :: k < k2 < |entries| ==> !ExtractedAsInit(entries, parent, k2))
  }

  /**
    The `__init__.py` left on disk after extracting under `parent` is the
    last file of the archive named `parent + "__init__.py"`, and there is
    one exactly when such a file exists.
   */
  lemma {:induction false} LastExtractedInit(entries: seq<Entry>, parent: string)
    ensures var m := Extraction(entries, parent);
      FindsLastInit(entries, parent, m, LastWritten(m, InitFile))
    decreases |entries|
  {
    if |entries| > 0 {
      var n := |entries|;
      var init, last := entries[..n - 1], entries[n - 1];
      assert entries == init + [last];
      ExtractionAppend(init, last, parent);
      LastExtractedInit(init, parent);
      var m0 := Extraction(init, parent);
      var m := Extraction(entries, parent);
      var w0 := LastWritten(m0, InitFile);
      var selected := !IsDir(last) && StartsWith(last.name, parent);
      if ExtractedAsInit(entries, parent, n - 1) {
        assert selected && last.name[|parent|..] == InitFile by {
          assert last.name[..|parent|] == parent;
        }
        assert m == m0 + [Placement(last, InitFile)];
        LastWrittenAppend(m0, Placement(last, InitFile), InitFile);
        ExtendWithInit(entries, parent, m0, m);
        assert LastWritten(m, InitFile) == Some(|m0|);
      } else {
        assert !(selected && last.name[|parent|..] == InitFile) by {
          if StartsWith(last.name, parent) {
            assert last.name == parent + last.name[|parent|..];
          }
        }
        if selected {
          var q := Placement(last, last.name[|parent|..]);
          assert m == m0 + [q];
          LastWrittenAppend(m0, q, InitFile);
          assert m[..|m0|] == m0;
        } else {
          assert m == m0;
        }
        ExtendWithoutInit(entries, parent, m0, m, w0);
      }
    }
  }

  /** Appending a member moves `LastWritten` to it exactly when it has the target. */
  lemma LastWrittenAppend(m: seq<Placement>, p: Placement, target: string)
    ensures LastWritten(m + [p], target) == if p.target == target then Some(|m|) else LastWritten(m, target)
  {
    assert (m + [p])[..|m|] == m;
  }

  /**
    Extending the archive by a last entry that is written to `__init__.py`
    makes that entry the one `LastWritten` finds.
   */
  lemma ExtendWithInit(entries: seq<Entry>, parent: string, m0: seq<Placement>, m: seq<Placement>)
    requires |entries| > 0 && ExtractedAsInit(entries, parent, |entries| - 1)
    requires m == m0 + [Placement(entries[|entries| - 1], InitFile)]
    ensures FindsLastInit(entries, parent, m, Some(|m0|))
  {
    assert m[|m0|].source == entries[|entries| - 1];
  }

  /**
    Extending the archive by a last entry that is not written to
    `__init__.py` keeps what `LastWritten` finds.
   */
  lemma ExtendWithoutInit(entries: seq<Entry>, parent: string, m0: seq<Placement>, m: seq<Placement>, w: Option<nat>)
    requires |entries| > 0 && !ExtractedAsInit(entries, parent, |entries| - 1)
    requires FindsLastInit(entries[..|entries| - 1], parent, m0, w)
    requires |m0| <= |m| && m[..|m0|] == m0
    ensures FindsLastInit(entries, parent, m, w)
  {
    var init := entries[..|entries| - 1];
    forall k | 0 <= k < |init|
      ensures ExtractedAsInit(entries, parent, k) <==> ExtractedAsInit(init, parent, k)
    {
      assert entries[k] == init[k];
    }
    if w.Some? {
      var k :| && ExtractedAsInit(init, parent, k)
               && m0[w.value].source == init[k]
               && forall k2 :: k < k2 < |init| ==> !ExtractedAsInit(init, parent, k2);
      assert m[w.value] == m0[w.value];
      assert ExtractedAsInit(entries, parent, k);
      assert forall k2 :: k < k2 < |entries| ==> !ExtractedAsInit(entries, parent, k2);
    } else {
      assert forall k :: 0 <= k < |entries| ==> !ExtractedAsInit(entries, parent, k);
    }
  }

  /** What the archive turns into. */
  datatype Layout =
      /** A single loose script, installed as a script under `fileName`. */
    | LoneScript(script: Entry, fileName: string)
      /**
        An add-on package rooted at `mainName`, whose directory prefix
        `parent` is cut from every extracted name, placed in the directory
        `dirName` under the add-ons directory.
       */
    | Package(mainName: string, parent: string, dirName: string, members: seq<Placement>)

  /**
    The directory prefix of the chosen `__init__.py`:
    `main.rpartition("__init__.py")[0]`.
   */
  function ParentOf(main: string): (r: string)
    requires Basename(main) == InitFile
    ensures r + InitFile == main
    ensures r == "" || EndsWith(r, "/")
  {
    var n := |main| - |InitFile|;
    InitPrefix(main);
    RPartitionAtLast(main, InitFile, n);
    RPartition(main, InitFile).0
  }

  /** A name whose basename is `__init__.py` is a directory prefix and that. */
  lemma InitPrefix(main: string)
    requires Basename(main) == InitFile
    ensures |main| >= |InitFile|
    ensures var n := |main| - |InitFile|;
      && OccursAt(main, InitFile, n)
      && main[..n] + InitFile == main
      && (main[..n] == "" || EndsWith(main[..n], "/"))
  {
    var slash := RPartition(main, "/");
    assert slash.2 == InitFile;
    assert main == slash.0 + slash.1 + InitFile;
    var n := |main| - |InitFile|;
    assert main[..n] == slash.0 + slash.1;
    assert main[n..] == InitFile;
    if slash.1 != "" {
      assert main[..n][|main[..n]| - 1..] == "/";
    }
  }

  /**
    The add-on's directory name: the root name when the prefix is nothing
    but slashes, otherwise the prefix without its outer slashes and with
    every `/` turned into `-`.
   */
  function DirName(parent: string, rootName: string): (r: string)
    ensures Strip(parent, {'/'}) == "" ==> r == rootName
    ensures Strip(parent, {'/'}) != "" ==> |r| == |Strip(parent, {'/'})| && '/' !in r
    ensures Strip(parent, {'/'}) != "" ==> forall k :: 0 <= k < |r| ==>
      r[k] == if Strip(parent, {'/'})[k] == '/' then '-' else Strip(parent, {'/'})[k]
  {
    var inner := Strip(parent, {'/'});
    if inner == "" then rootName else ReplaceChar(inner, '/', '-')
  }

  /** The length of the shortest name. */
  function MinLength(xs: seq<string>): (r: nat)
    requires |xs| > 0
    ensures exists k :: 0 <= k < |xs| && |xs[k]| == r
    ensures forall x :: x in xs ==> r <= |x|
  {
    if |xs| == 1 then |xs[0]|
    else
      var m := MinLength(xs[1..]);
      assert forall x :: x in xs ==> x == xs[0] || x in xs[1..];
      if |xs[0]| <= m then |xs[0]| else m
  }

  /** The names of length `n`, in order. */
  function OfLength(xs: seq<string>, n: nat): (r: seq<string>)
    ensures forall x :: x in r <==> x in xs && |x| == n
  {
    if |xs| == 0 then []
    else
      var rest := OfLength(xs[1..], n);
      assert forall x :: x in xs <==> x == xs[0] || x in xs[1..];
      if |xs[0]| == n then [xs[0]] + rest else rest
  }

  /**
    The root `__init__.py` as the source's code chooses it: `min()` of the
    names, the least in Python's string order. Upper-case letters and digits
    sort before `_`, so this is not always the shortest name.
   */
  function RootInitAsWritten(inits: seq<string>): (r: string)
    requires |inits| > 0
    ensures r in inits
    ensures forall x :: x in inits ==> LexLe(r, x)
  {
    LexMin(inits)
  }

  /**
    The string minimum roots an archive holding `a/__init__.py` and
    `a/B/__init__.py` at the nested package `a/B/`, though the shortest name
    is the enclosing `a/__init__.py`. The two names arrive as parameters
    fixed by the precondition rather than as literals in the contract, so
    that the recursive string functions are unfolded only where the proof
    asks for it; the general fact is `TwoRootChoices`.
   */
  lemma AsWrittenPicksNestedInit(outer: string, nested: string)
    requires outer == "a/__init__.py" && nested == "a/B/__init__.py"
    ensures RootInitAsWritten([outer, nested]) == nested
    ensures RootInit([outer, nested]) == outer
  {
    NestedSortsFirst(outer, nested);
    TwoRootChoices(outer, nested);
  }

  /** With two names, a shorter one that sorts second, the choices differ. */
  lemma TwoRootChoices(outer: string, nested: string)
    requires |outer| < |nested|
    requires !LexLe(outer, nested)
    ensures RootInitAsWritten([outer, nested]) == nested
    ensures RootInit([outer, nested]) == outer
  {
    var inits := [outer, nested];
    assert RootInit(inits) in inits;
  }

  /**
    `a/__init__.py` is the shorter name, yet `a/B/__init__.py` sorts first
    (`B` precedes `_`). The names are parameters for the same reason as in
    `AsWrittenPicksNestedInit`.
   */
  lemma NestedSortsFirst(outer: string, nested: string)
    requires outer == "a/__init__.py" && nested == "a/B/__init__.py"
    ensures |outer| < |nested| && !LexLe(outer, nested)
  {
    assert |outer| == 13 && |nested| == 15;
    assert !LexLe("a/__init__.py", "a/B/__init__.py") by {
      assert "a/__init__.py"[2] == '_' && "a/B/__init__.py"[2] == 'B';
    }
  }

  /**
    The root `__init__.py` the source's comment asks for ("find shortest
    `__init__.py`"): a shortest name, the least in string order among the
    names of that length.
   */
  function RootInit(inits: seq<string>): (r: string)
    requires |inits| > 0
    ensures r in inits
    ensures forall x :: x in inits ==> |r| <= |x|
    ensures forall x :: x in inits && |x| == |r| ==> LexLe(r, x)
  {
    var shortest := OfLength(inits, MinLength(inits));
    var k :| 0 <= k < |inits| && |inits[k]| == MinLength(inits);
    assert inits[k] in shortest;
    LexMin(shortest)
  }

  /**
    The intended root is outermost: no `__init__.py` lies in a directory
    that strictly encloses the root's directory.
   */
  lemma RootInitIsOutermost(inits: seq<string>)
    requires |inits| > 0
    requires forall n :: n in inits ==> EndsWith(n, InitFile)
    ensures var root := RootInit(inits);
      && EndsWith(root, InitFile)
      && forall n :: n in inits && StartsWith(root[..|root| - |InitFile|], n[..|n| - |InitFile|]) ==>
        n[..|n| - |InitFile|] == root[..|root| - |InitFile|]
  {
    ShortestIsOutermost(inits, RootInit(inits));
  }

  /** Any shortest `__init__.py` name is outermost in the same sense. */
  lemma ShortestIsOutermost(inits: seq<string>, root: string)
    requires forall n :: n in inits ==> EndsWith(n, InitFile)
    requires root in inits && forall x :: x in inits ==> |root| <= |x|
    ensures EndsWith(root, InitFile)
    ensures forall n :: n in inits && StartsWith(root[..|root| - |InitFile|], n[..|n| - |InitFile|]) ==>
      n[..|n| - |InitFile|] == root[..|root| - |InitFile|]
  {
    var rp := root[..|root| - |InitFile|];
    assert rp + InitFile == root;
    forall n | n in inits && StartsWith(rp, n[..|n| - |InitFile|])
      ensures n[..|n| - |InitFile|] == rp
    {
      var np := n[..|n| - |InitFile|];
      assert np + InitFile == n;
      EnclosingPrefixIsEqual(np, n, rp, root);
    }
  }

  /** Whenever the string minimum is also a shortest name, both choices agree. */
  lemma RootInitAgreesWhenShortest(inits: seq<string>)
    requires |inits| > 0
    requires forall x :: x in inits ==> |RootInitAsWritten(inits)| <= |x|
    ensures RootInit(inits) == RootInitAsWritten(inits)
  {
    var m := RootInitAsWritten(inits);
    LexLeAntisymmetric(RootInit(inits), m);
  }

  /**
    `extract_zip` without its I/O. No candidate script is an error. A
    single candidate whose basename does not start with `__` is installed
    as a loose script under its basename. Otherwise the add-on's root is the
    least (as Python orders strings) candidate named exactly `__init__.py`,
    and there being none is the error of `min()` on nothing. The root's
    directory prefix is cut from every extracted file. Note that the source
    reuses its `filename` variable: when the one candidate is a `__` script,
    a root-level package is named after that script rather than after the
    archive.
   */
  function PlanArchive(entries: seq<Entry>, archiveName: string): (r: Result<Layout>)
    ensures r == Err(NoScripts) <==> |Scripts(entries)| == 0
    ensures r.Ok? && r.value.LoneScript? <==>
      |Scripts(entries)| == 1 && !StartsWith(Basename(Scripts(entries)[0].name), ReservedPrefix)
    ensures r.Ok? && r.value.LoneScript? ==>
      r.value.script == Scripts(entries)[0] && r.value.fileName == Basename(r.value.script.name)
    ensures r.Err? ==> r.error in {NoScripts, EmptyMin}
    ensures r == Err(EmptyMin) <==>
      && |Scripts(entries)| > 0
      && !(|Scripts(entries)| == 1 && !StartsWith(Basename(Scripts(entries)[0].name), ReservedPrefix))
      && forall e :: e in entries && IsScript(e) ==> Basename(e.name) != InitFile
    ensures r.Ok? && r.value.Package? ==>
      var p := r.value;
      && (exists e :: e in entries && IsScript(e) && e.name == p.mainName)
      && Basename(p.mainName) == InitFile
      && (forall e :: e in entries && IsScript(e) && Basename(e.name) == InitFile ==> LexLe(p.mainName, e.name))
      && p.parent + InitFile == p.mainName
      && p.members == Extraction(entries, p.parent)
      && p.dirName == DirName(p.parent, RootName(entries, archiveName))
  {
    var scripts := Scripts(entries);
    if |scripts| == 0 then Err(NoScripts)
    else if |scripts| == 1 && !StartsWith(Basename(scripts[0].name), ReservedPrefix) then
      Ok(LoneScript(scripts[0], Basename(scripts[0].name)))
    else
      var inits := InitNames(scripts);
      if |inits| == 0 then
        Err(EmptyMin)
      else
        Ok(PackageFor(entries, archiveName, RootInitAsWritten(inits)))
  }

  /**
    The package rooted at `main`: its directory prefix, the directory it is
    installed in, and the members extracted from under that prefix.
   */
  function PackageFor(entries: seq<Entry>, archiveName: string, main: string): (r: Layout)
    requires Basename(main) == InitFile
    ensures r.Package? && r.mainName == main && r.parent + InitFile == main
    ensures r.members == Extraction(entries, r.parent)
    ensures r.dirName == DirName(r.parent, RootName(entries, archiveName))
  {
    var parent := ParentOf(main);
    Package(main, parent, DirName(parent, RootName(entries, archiveName)), Extraction(entries, parent))
  }

  /**
    `extract_zip` as its own comment ("find shortest `__init__.py`")
    describes it: the same plan,
    except that a package is rooted at the shortest `__init__.py`
    (`RootInit`) rather than at the string minimum.
   */
  function PlanArchiveIntended(entries: seq<Entry>, archiveName: string): (r: Result<Layout>)
    ensures !(PlanArchive(entries, archiveName).Ok? && PlanArchive(entries, archiveName).value.Package?) ==>
      r == PlanArchive(entries, archiveName)
    ensures r.Ok? && r.value.Package? <==>
      PlanArchive(entries, archiveName).Ok? && PlanArchive(entries, archiveName).value.Package?
    ensures r.Ok? && r.value.Package? ==>
      var p := r.value;
      && (exists e :: e in entries && IsScript(e) && e.name == p.mainName)
      && Basename(p.mainName) == InitFile
      && (forall e :: e in entries && IsScript(e) && Basename(e.name) == InitFile ==> |p.mainName| <= |e.name|)
      && (forall e :: e in entries && IsScript(e) && Basename(e.name) == InitFile && |e.name| == |p.mainName| ==>
            LexLe(p.mainName, e.name))
      && p.parent + InitFile == p.mainName
      && p.members == Extraction(entries, p.parent)
      && p.dirName == DirName(p.parent, RootName(entries, archiveName))
  {
    var plan := PlanArchive(entries, archiveName);
    if plan.Ok? && plan.value.Package? then
      var inits := InitNames(Scripts(entries));
      assert plan.value.mainName in inits;
      var main := RootInit(inits);
      assert exists e :: e in Scripts(entries) && e.name == main;
      Ok(PackageFor(entries, archiveName, main))
    else
      plan
  }

  /**
    The name a root-level package directory gets: the archive's file name,
    extension included, unless the archive holds exactly one candidate
    script, whose basename then takes its place.
   */
  function RootName(entries: seq<Entry>, archiveName: string): (r: string)
    ensures |Scripts(entries)| != 1 ==> r == archiveName
    ensures |Scripts(entries)| == 1 ==> '/' !in r && EndsWith(Scripts(entries)[0].name, r)
  {
    var scripts := Scripts(entries);
    if |scripts| == 1 then Basename(scripts[0].name) else archiveName
  }

  /**
    An archive whose one candidate script is a top-level `__init__.py` is
    installed in a directory named `__init__.py`: the reused `filename`
    already holds the script's basename when the root name is chosen.
   */
  lemma LoneInitNamesDirectory(entries: seq<Entry>, archiveName: string)
    requires PlanArchive(entries, archiveName).Ok?
    requires PlanArchive(entries, archiveName).value.Package?
    requires |Scripts(entries)| == 1
    requires Strip(PlanArchive(entries, archiveName).value.parent, {'/'}) == ""
    ensures PlanArchive(entries, archiveName).value.dirName == InitFile
  {
    var p := PlanArchive(entries, archiveName).value;
    var e :| e in entries && IsScript(e) && e.name == p.mainName;
    LoneScriptIsRoot(entries, archiveName, e);
  }

  /** With one candidate script, that script's basename is the root name. */
  lemma LoneScriptIsRoot(entries: seq<Entry>, archiveName: string, e: Entry)
    requires |Scripts(entries)| == 1
    requires e in entries && IsScript(e)
    ensures RootName(entries, archiveName) == Basename(e.name)
  {
    var scripts := Scripts(entries);
    assert e in scripts;
    assert scripts == [scripts[0]];
  }

  /**
    The chosen `__init__.py` is always among the extracted members, under
    the name `__init__.py` itself.
   */
  lemma MainIsExtracted(entries: seq<Entry>, archiveName: string)
    requires PlanArchive(entries, archiveName).Ok?
    requires PlanArchive(entries, archiveName).value.Package?
    ensures var p := PlanArchive(entries, archiveName).value;
      exists e: Entry :: e.name == p.mainName && Placement(e, InitFile) in p.members
  {
    var p := PlanArchive(entries, archiveName).value;
    var e :| e in entries && IsScript(e) && e.name == p.mainName;
    assert StartsWith(e.name, p.parent) by {
      assert e.name[..|p.parent|] == p.parent;
    }
    assert e.name[|p.parent|..] == InitFile;
  }

  /**
    A package rooted at the top of the archive takes every file of the
    archive, each under its own name.
   */
  lemma RootPackageTakesEveryFile(entries: seq<Entry>, archiveName: string)
    requires PlanArchive(entries, archiveName).Ok?
    requires PlanArchive(entries, archiveName).value.Package?
    requires PlanArchive(entries, archiveName).value.parent == ""
    ensures var p := PlanArchive(entries, archiveName).value;
      forall e :: e in entries && !IsDir(e) ==> Placement(e, e.name) in p.members
  {
    var p := PlanArchive(entries, archiveName).value;
    var m := Extraction(entries, "");
    assert p.members == m;
    forall e | e in entries && !IsDir(e)
      ensures Placement(e, e.name) in m
    {
      assert StartsWith(e.name, "");
      assert e.name[0..] == e.name;
    }
  }

  /**
    Outside the root's directory nothing is extracted: every member's
    source name begins with the root's prefix.
   */
  lemma PackageStaysInsideParent(entries: seq<Entry>, archiveName: string)
    requires PlanArchive(entries, archiveName).Ok?
    requires PlanArchive(entries, archiveName).value.Package?
    ensures var p := PlanArchive(entries, archiveName).value;
      forall m :: m in p.members ==> StartsWith(m.source.name, p.parent) && !IsDir(m.source)
  {
    var p := PlanArchive(entries, archiveName).value;
    forall m | m in p.members
      ensures StartsWith(m.source.name, p.parent)
    {
      assert (p.parent + m.target)[..|p.parent|] == p.parent;
    }
  }

  /**
    The intended plan is the source's plan exactly when the source's root is
    a shortest `__init__.py` name.
   */
  lemma PlanAgreesWithSourceChoice(entries: seq<Entry>, archiveName: string)
    requires PlanArchive(entries, archiveName).Ok?
    requires PlanArchive(entries, archiveName).value.Package?
    ensures var main := PlanArchive(entries, archiveName).value.mainName;
      PlanArchiveIntended(entries, archiveName) == PlanArchive(entries, archiveName) <==>
        forall e :: e in entries && IsScript(e) && Basename(e.name) == InitFile ==> |main| <= |e.name|
  {
    var p := PlanArchive(entries, archiveName).value;
    var inits := InitNames(Scripts(entries));
    assert p.mainName == RootInitAsWritten(inits);
    if forall e :: e in entries && IsScript(e) && Basename(e.name) == InitFile ==> |p.mainName| <= |e.name| {
      assert forall x :: x in inits ==> |RootInitAsWritten(inits)| <= |x|;
      RootInitAgreesWhenShortest(inits);
    }
  }

  /**
    The intended root is outermost: no other candidate `__init__.py` sits in
    a directory that strictly encloses the root's directory.
   */
  lemma RootIsOutermost(entries: seq<Entry>, archiveName: string)
    requires PlanArchiveIntended(entries, archiveName).Ok?
    requires PlanArchiveIntended(entries, archiveName).value.Package?
    ensures var p := PlanArchiveIntended(entries, archiveName).value;
      forall e :: e in entries && IsScript(e) && Basename(e.name) == InitFile ==>
        (StartsWith(p.parent, ParentOf(e.name)) ==> ParentOf(e.name) == p.parent)
  {
    var p := PlanArchiveIntended(entries, archiveName).value;
    forall e | e in entries && IsScript(e) && Basename(e.name) == InitFile && StartsWith(p.parent, ParentOf(e.name))
      ensures ParentOf(e.name) == p.parent
    {
      assert |p.mainName| <= |e.name|;
      EnclosingPrefixIsEqual(ParentOf(e.name), e.name, p.parent, p.mainName);
    }
  }

  /**
    A directory prefix of a name no longer than the root's, enclosing the
    root's prefix, is the root's prefix.
   */
  lemma EnclosingPrefixIsEqual(q: string, n: string, parent: string, main: string)
    requires q + InitFile == n && parent + InitFile == main
    requires |main| <= |n|
    requires StartsWith(parent, q)
    ensures q == parent
  {
    assert |q| + |InitFile| == |n|;
    assert |parent| + |InitFile| == |main|;
    assert parent[..|q|] == q;
  }
}
