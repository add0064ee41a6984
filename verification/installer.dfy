/**
  What an installation writes and what it reports back (`install_py`,
  `extract_zip`, `install_addon`). Writing is described, not performed: an
  installation either completes, with the file or directory tree it writes
  and the metadata mapping (the add-on's module id stored under `module`),
  or raises, possibly after it has already written something.
 */
module Installer {
  import opened Outcomes
  import opened Text
  import opened AddonMetadata
  import opened PackageKind
  import opened ArchiveLayout

  /**
    A value of the evaluated metadata literal. The installer only ever
    reads strings from it; numbers, tuples and nested mappings are `Other`.
   */
  datatype Value = Str(s: string) | Other

  type Metadata = map<string, Value>

  /**
    What `eval` makes of a `{...}` literal: a dictionary, or a set (any
    literal without `key: value` pairs), which has no entries to look up.
   */
  datatype Evaluated = Mapping(entries: Metadata) | NotMapping

  /**
    Python's `eval` applied to the literal's text: the value it yields, or
    `None` when evaluation raises.
   */
  type Evaluator = string -> Option<Evaluated>

  /** The key the installer adds to report the module id (`MODULE_NAME`). */
  const ModuleKey := "module"
  const NameKey := "name"
  const ScriptSuffix := ".py"

  /** The file or tree an installation places under the add-ons directory. */
  datatype Write =
    | File(path: string, content: string)
    | Tree(dir: string, members: seq<Placement>)

  /**
    The outcome of an installation: it completes, having written `write`
    and returning the metadata `info`, or it raises `error`, leaving behind
    `left`, whatever it had written before raising.
   */
  datatype Install =
    | Done(write: Write, info: Metadata)
    | Failed(error: Error, left: Option<Write>)

  /** What is on disk under the add-ons directory once the call returns or raises. */
  function Written(r: Install): Option<Write> {
    match r
    case Done(w, _) => Some(w)
    case Failed(_, left) => left
  }

  /** `get_bl_info(text=...)`: locate the literal, then evaluate it. */
  function ReadMetadata(text: string, eval: Evaluator): (r: Result<Evaluated>)
    ensures Literal(text).Err? ==> r == Err(Literal(text).error)
    ensures Literal(text).Ok? && eval(Literal(text).value).None? ==> r == Err(EvalFailed)
    ensures r.Ok? <==> Literal(text).Ok? && eval(Literal(text).value).Some?
    ensures r.Ok? ==> eval(Literal(text).value) == Some(r.value)
  {
    var literal :- Literal(text);
    eval(literal).ToResult(EvalFailed)
  }

  /** `b` is `a` with only the `module` entry set or replaced. */
  ghost predicate OnlyModuleChanged(a: Metadata, b: Metadata) {
    && ModuleKey in b
    && (forall k :: k in a && k != ModuleKey ==> k in b && b[k] == a[k])
    && (forall k :: k in b && k != ModuleKey ==> k in a)
  }

  /** `filename[:-len('.py')]`: the name without its last three characters. */
  function ModuleIdOf(fileName: string): (r: string)
    ensures EndsWith(fileName, ScriptSuffix) ==> r + ScriptSuffix == fileName
    ensures |fileName| >= 3 ==> r + fileName[|fileName| - 3..] == fileName
    ensures |fileName| < 3 ==> r == ""
  {
    if |fileName| >= 3 then fileName[..|fileName| - 3] else ""
  }

  /**
    The name a script is written under: `__init__.py` is renamed after the
    add-on's `name` (TypeError if the metadata is a set, KeyError if it has
    no `name`, TypeError if that is not a string); every other name is
    kept without looking at the metadata.
   */
  function ScriptFileName(filename: string, meta: Evaluated): (r: Result<string>)
    ensures filename != InitFile ==> r == Ok(filename)
    ensures filename == InitFile && meta.NotMapping? ==> r == Err(NotAMapping)
    ensures filename == InitFile && meta.Mapping? && NameKey !in meta.entries ==> r == Err(MissingKey(NameKey))
    ensures filename == InitFile && meta.Mapping? && NameKey in meta.entries && !meta.entries[NameKey].Str? ==>
      r == Err(NotAString(NameKey))
    ensures filename == InitFile && meta.Mapping? && NameKey in meta.entries && meta.entries[NameKey].Str? ==>
      r.Ok? && ModuleIdOf(r.value) == meta.entries[NameKey].s && EndsWith(r.value, ScriptSuffix)
  {
    if filename != InitFile then Ok(filename)
    else
      match meta
      case NotMapping => Err(NotAMapping)
      case Mapping(m) =>
        if NameKey !in m then Err(MissingKey(NameKey))
        else
          match m[NameKey]
          case Str(n) =>
            var r := n + ScriptSuffix;
            assert r[..|r| - 3] == n;
            Ok(r)
          case Other => Err(NotAString(NameKey))
  }

  /**
    `install_py`: a script is written unchanged, directly into `dstPath`,
    under its own name or, for `__init__.py`, under the add-on's name; the
    module id is the written name without `.py`. Every other metadata entry
    is returned as the literal declared it. The file is written before the
    module id is stored, so a literal that evaluates to a set leaves the
    file behind and then raises.
   */
  function InstallPy(dstPath: string, filename: string, text: string, eval: Evaluator): (r: Install)
    ensures ReadMetadata(text, eval).Err? ==> r == Failed(ReadMetadata(text, eval).error, None)
    ensures ReadMetadata(text, eval).Ok? ==>
      var meta := ReadMetadata(text, eval).value;
      && (ScriptFileName(filename, meta).Err? ==> r == Failed(ScriptFileName(filename, meta).error, None))
      && (ScriptFileName(filename, meta).Ok? ==>
            Written(r) == Some(File(dstPath + "/" + ScriptFileName(filename, meta).value, text)))
      && (r.Done? <==> meta.Mapping? && ScriptFileName(filename, meta).Ok?)
      && (r.Done? ==> OnlyModuleChanged(meta.entries, r.info))
      && (r.Done? ==> r.info[ModuleKey] == Str(ModuleIdOf(ScriptFileName(filename, meta).value)))
    ensures r.Failed? && r.left.Some? <==>
      filename != InitFile && ReadMetadata(text, eval) == Ok(NotMapping)
    ensures r.Failed? && r.left.Some? ==> r.error == NotAMapping
  {
    match ReadMetadata(text, eval)
    case Err(e) => Failed(e, None)
    case Ok(meta) =>
      match ScriptFileName(filename, meta)
      case Err(e) => Failed(e, None)
      case Ok(name) =>
        var file := File(dstPath + "/" + name, text);
        match meta
        case NotMapping => Failed(NotAMapping, Some(file))
        case Mapping(m) => Done(file, m[ModuleKey := Str(ModuleIdOf(name))])
  }

  /**
    Installing a planned package: its members go to `dstPath/<dirName>`,
    the metadata is read back from the file extracted as `__init__.py`, and
    the module id is the directory name. The members are extracted before
    the metadata is read, so the tree stays on disk when that read raises.
   */
  function InstallPackage(dstPath: string, dirName: string, members: seq<Placement>, eval: Evaluator): (r: Install)
    requires LastWritten(members, InitFile).Some?
    ensures Written(r) == Some(Tree(dstPath + "/" + dirName, members))
    ensures var meta := ReadMetadata(members[LastWritten(members, InitFile).value].source.text, eval);
      && (meta.Err? ==> r.Failed? && r.error == meta.error)
      && (meta == Ok(NotMapping) ==> r.Failed? && r.error == NotAMapping)
      && (r.Done? <==> meta.Ok? && meta.value.Mapping?)
      && (r.Done? ==>
            && OnlyModuleChanged(meta.value.entries, r.info)
            && r.info[ModuleKey] == Str(dirName))
  {
    var tree := Tree(dstPath + "/" + dirName, members);
    var main := members[LastWritten(members, InitFile).value].source;
    match ReadMetadata(main.text, eval)
    case Err(e) => Failed(e, Some(tree))
    case Ok(NotMapping) => Failed(NotAMapping, Some(tree))
    case Ok(Mapping(m)) => Done(tree, m[ModuleKey := Str(dirName)])
  }

  /**
    `extract_zip`. A loose script is installed as a script under its
    basename; a package is installed as a directory tree. Nothing is
    written when planning fails.
   */
  function ExtractZip(dstPath: string, archiveName: string, entries: seq<Entry>, eval: Evaluator): (r: Install)
    ensures PlanArchive(entries, archiveName).Err? ==> r == Failed(PlanArchive(entries, archiveName).error, None)
    ensures PlanArchive(entries, archiveName).Ok? && PlanArchive(entries, archiveName).value.LoneScript? ==>
      var lone := PlanArchive(entries, archiveName).value;
      r == InstallPy(dstPath, lone.fileName, lone.script.text, eval)
    ensures PlanArchive(entries, archiveName).Ok? && PlanArchive(entries, archiveName).value.Package? ==>
      var p := PlanArchive(entries, archiveName).value;
      LastWritten(p.members, InitFile).Some? && r == InstallPackage(dstPath, p.dirName, p.members, eval)
    ensures PlanArchive(entries, archiveName).Ok? && PlanArchive(entries, archiveName).value.Package? ==>
      var p := PlanArchive(entries, archiveName).value;
      && Written(r) == Some(Tree(dstPath + "/" + p.dirName, p.members))
      && exists k :: && ExtractedAsInit(entries, p.parent, k)
                     && (forall k2 :: k < k2 < |entries| ==> !ExtractedAsInit(entries, p.parent, k2))
                     && (r.Done? <==> ReadMetadata(entries[k].text, eval).Ok? && ReadMetadata(entries[k].text, eval).value.Mapping?)
                     && (r.Done? ==> OnlyModuleChanged(ReadMetadata(entries[k].text, eval).value.entries, r.info))
  {
    match PlanArchive(entries, archiveName)
    case Err(e) => Failed(e, None)
    case Ok(LoneScript(script, fileName)) =>
      InstallPy(dstPath, fileName, script.text, eval)
    case Ok(Package(_, _, dirName, members)) =>
      PackageReadsLastInit(dstPath, archiveName, entries, eval);
      InstallPackage(dstPath, dirName, members, eval)
  }

  /**
    A planned package is read back from the last file entry of the archive
    named `<prefix>__init__.py`, and its tree stays on disk whatever that
    read yields.
   */
  lemma PackageReadsLastInit(dstPath: string, archiveName: string, entries: seq<Entry>, eval: Evaluator)
    requires PlanArchive(entries, archiveName).Ok? && PlanArchive(entries, archiveName).value.Package?
    ensures var p := PlanArchive(entries, archiveName).value;
      && LastWritten(p.members, InitFile).Some?
      && var r := InstallPackage(dstPath, p.dirName, p.members, eval);
      && Written(r) == Some(Tree(dstPath + "/" + p.dirName, p.members))
      && exists k :: && ExtractedAsInit(entries, p.parent, k)
                     && (forall k2 :: k < k2 < |entries| ==> !ExtractedAsInit(entries, p.parent, k2))
                     && (r.Done? <==> ReadMetadata(entries[k].text, eval).Ok? && ReadMetadata(entries[k].text, eval).value.Mapping?)
                     && (r.Done? ==> OnlyModuleChanged(ReadMetadata(entries[k].text, eval).value.entries, r.info))
  {
    var p := PlanArchive(entries, archiveName).value;
    MainIsExtracted(entries, archiveName);
    LastExtractedInit(entries, p.parent);
    var w := LastWritten(p.members, InitFile);
    assert w.Some?;
    var k :| && ExtractedAsInit(entries, p.parent, k)
             && p.members[w.value].source == entries[k]
             && forall k2 :: k < k2 < |entries| ==> !ExtractedAsInit(entries, p.parent, k2);
    var r := InstallPackage(dstPath, p.dirName, p.members, eval);
    var meta := ReadMetadata(entries[k].text, eval);
    ReadsMainText(dstPath, p.dirName, p.members, eval, entries[k].text);
    assert (r.Done? <==> meta.Ok? && meta.value.Mapping?) && (r.Done? ==> OnlyModuleChanged(meta.value.entries, r.info));
  }

  /** A package's outcome depends only on the text of the member read back as `__init__.py`. */
  lemma ReadsMainText(dstPath: string, dirName: string, members: seq<Placement>, eval: Evaluator, text: string)
    requires LastWritten(members, InitFile).Some?
    requires members[LastWritten(members, InitFile).value].source.text == text
    ensures var r := InstallPackage(dstPath, dirName, members, eval);
      var meta := ReadMetadata(text, eval);
      && (r.Done? <==> meta.Ok? && meta.value.Mapping?)
      && (r.Done? ==> OnlyModuleChanged(meta.value.entries, r.info))
  {
  }

  /**
    The fetched or local file: its bytes read as text, and as a zip
    archive's index when they are one (`None` where `ZipFile` raises).
   */
  datatype Payload = Payload(text: string, archive: Option<seq<Entry>>)

  /**
    The reported module id names what was written: a package directory is
    `dstPath/<id>`, and a script file is `dstPath/<id>` followed by at most
    three more characters (its `.py`).
   */
  ghost predicate NamedByModule(dstPath: string, r: Install) {
    && r.Done?
    && ModuleKey in r.info
    && r.info[ModuleKey].Str?
    && var id := r.info[ModuleKey].s;
       match r.write
       case Tree(dir, _) => dir == dstPath + "/" + id
       case File(path, _) =>
         StartsWith(path, dstPath + "/" + id) && |path| <= |dstPath + "/" + id| + 3
  }

  /** A script written as `dstPath/name` is named by `ModuleIdOf(name)`. */
  lemma FileNamedByModule(dstPath: string, name: string)
    ensures var stem := dstPath + "/" + ModuleIdOf(name);
      StartsWith(dstPath + "/" + name, stem) && |dstPath + "/" + name| <= |stem| + 3
  {
    var stem := dstPath + "/" + ModuleIdOf(name);
    if |name| >= 3 {
      assert dstPath + "/" + name == stem + name[|name| - 3..];
    } else {
      assert dstPath + "/" + name == stem + name;
    }
  }

  lemma InstallPyNamedByModule(dstPath: string, filename: string, text: string, eval: Evaluator)
    requires InstallPy(dstPath, filename, text, eval).Done?
    ensures NamedByModule(dstPath, InstallPy(dstPath, filename, text, eval))
  {
    var meta := ReadMetadata(text, eval).value;
    var name := ScriptFileName(filename, meta).value;
    FileNamedByModule(dstPath, name);
  }

  /**
    The dispatch of `install_addon` once the file is in hand: the
    lower-cased extension picks the script installer or the archive
    extractor; any other name is the unsupported-file error, raised before
    anything is written. On success the returned module id names what was
    written.
   */
  function InstallFile(dstPath: string, filename: string, payload: Payload, eval: Evaluator): (r: Install)
    ensures Classify(filename).Err? ==> r == Failed(Unsupported, None)
    ensures Classify(filename) == Ok(Script) ==> r == InstallPy(dstPath, filename, payload.text, eval)
    ensures Classify(filename) == Ok(Archive) && payload.archive.None? ==> r == Failed(BadArchive, None)
    ensures Classify(filename) == Ok(Archive) && payload.archive.Some? ==>
      r == ExtractZip(dstPath, filename, payload.archive.value, eval)
    ensures r.Done? ==> NamedByModule(dstPath, r)
  {
    match Classify(filename)
    case Err(_) => Failed(Unsupported, None)
    case Ok(Script) =>
      var r := InstallPy(dstPath, filename, payload.text, eval);
      assert r.Done? ==> NamedByModule(dstPath, r) by {
        if r.Done? {
          InstallPyNamedByModule(dstPath, filename, payload.text, eval);
        }
      }
      r
    case Ok(Archive) =>
      match payload.archive
      case None => Failed(BadArchive, None)
      case Some(entries) =>
        var r := ExtractZip(dstPath, filename, entries, eval);
        assert r.Done? ==> NamedByModule(dstPath, r) by {
          if r.Done? && PlanArchive(entries, filename).value.LoneScript? {
            var lone := PlanArchive(entries, filename).value;
            InstallPyNamedByModule(dstPath, lone.fileName, lone.script.text, eval);
          }
        }
        r
  }

  /**
    `install_addon`. A source starting with `http` takes the name the
    download settled on (`fetched`, its failure included); any other source
    is a local path and takes its last path component. The name then
    decides how the file is installed.
   */
  function InstallAddon(srcPath: string, dstPath: string, fetched: Result<string>, payload: Payload, eval: Evaluator): (r: Install)
    ensures StartsWith(srcPath, "http") && fetched.Err? ==> r == Failed(fetched.error, None)
    ensures StartsWith(srcPath, "http") && fetched.Ok? ==> r == InstallFile(dstPath, fetched.value, payload, eval)
    ensures !StartsWith(srcPath, "http") ==> r == InstallFile(dstPath, Basename(srcPath), payload, eval)
    ensures r.Done? ==> NamedByModule(dstPath, r)
  {
    if StartsWith(srcPath, "http") then
      match fetched
      case Err(e) => Failed(e, None)
      case Ok(filename) => InstallFile(dstPath, filename, payload, eval)
    else
      InstallFile(dstPath, Basename(srcPath), payload, eval)
  }
}
