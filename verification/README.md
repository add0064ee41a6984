# Blender add-on installer: a Dafny model

This project models the decision logic of a Blender add-on that installs
other add-ons from a local file or a URL. The add-on can install a single
Python script or a zip archive. Its behaviour lives in `__init__.py`. The
model covers:

- **`get_bl_info`**: locating the `bl_info` dictionary literal in a script.
  The literal runs from the first `{` after the first `bl_info` to the first
  `}` after that.
- **`resolve_url`**: rewriting a GitHub browse link into a raw-file link for
  a `.py` path, or into a branch archive link otherwise.
- **`download`**: choosing the filename from the response headers and the
  URL.
- **`install_py`**: naming an installed script, where `__init__.py` is
  renamed after the add-on's `name`, and computing the module id.
- **`extract_zip`**: planning the archive layout. This covers which entries
  are scripts, the loose-script shortcut, which `__init__.py` is the root,
  the directory name, and which members are extracted under which names.
- **`install_addon`**: the dispatch on the lower-cased extension.

Modules:

| module | role |
|---|---|
| `Outcomes` | `Option`, `Result` and the error cases the source raises (ValueError, IndexError, KeyError, TypeError) |
| `Text` | the Python `str` operations the source uses: `index`, `rpartition`, `rsplit(sep, 1)[-1]`, `split`/`join`, `strip`, `lower`, `replace` |
| `StringOrder` | Python's order on `str` and `min()` of a list of strings |
| `AddonMetadata` | the slice bounds of `get_bl_info` |
| `UrlResolver` | `resolve_url` on the six parts `urlparse` yields |
| `PackageKind` | the extension test shared by `download` and `install_addon` |
| `Downloader` | the filename logic of `download` |
| `ArchiveLayout` | what `extract_zip` decides before it touches the disk |
| `Installer` | what `install_py`, `extract_zip` and `install_addon` write and report |

The model makes three kinds of substitution:

- An installation is described, not performed. An install that completes
  returns the file, or the tree of members, that it writes under the
  add-ons directory, together with the metadata mapping it reports. An
  install that raises returns the error and whatever it had already
  written, since the source does not roll back.
- Python's `eval` of the literal is a function parameter (`Evaluator`). It
  yields a mapping, yields a set (a `{...}` literal without `key: value`
  pairs), or raises.
- The result of the network download is an input to `InstallAddon`, and so
  is the text and zip index of the file.

The model follows the code as written, including these behaviours:

- A root-level package's directory is named after the archive's file name
  with its `.zip` extension kept. `PlanArchive` states this through
  `RootName`.
- When the archive holds exactly one candidate script and its basename
  starts with `__`, the source's `filename` variable has already been
  overwritten. A root-level package is then named after that script.
- Directory entries are never extracted. Only files are.
- A package's tree is extracted before its metadata is read back. When
  that read raises, or the literal is a set, the tree stays on disk.
- A script other than `__init__.py` is written before its module id is
  stored. When the literal is a set, the file stays on disk and a TypeError
  follows.
- No `.` in a directory name is replaced by anything.
- In a `.py` link, `resolve_url` raises IndexError when the path has fewer
  than three segments.
- For a branch link, `resolve_url` raises IndexError when `tree` is the last
  segment. The first `tree` anywhere in the path is taken as the marker,
  even in the owner or repository position.

## Model

| member | source | states |
|---|---|---|
| Text.Find | __init__.py:40-42 | `str.index`: the first occurrence at or after the start, none before it; `None` exactly when there is no occurrence from the start on |
| Text.Contains | __init__.py:109 | `sub in s` holds exactly when `sub` occurs somewhere in `s` |
| Text.RPartition | __init__.py:179 | `str.rpartition`: the three parts concatenate to the input; the separator part is empty exactly when the separator never occurs; otherwise the split is at an occurrence with none starting after it, and the tail holds no occurrence |
| Text.AfterLast | __init__.py:111-112 | `rsplit(sep, 1)[-1]` is a suffix of the input containing no separator; it is the whole input when the separator never occurs, and otherwise it directly follows the last occurrence of the separator |
| Text.Basename | __init__.py:166 | the last `/` component has no `/`, is a suffix, is the whole path when there is no `/`, and follows a `/` otherwise |
| Text.Join | __init__.py:81 | `sep.join(parts)`: the parts in order with one separator between neighbours, and the empty string for no parts (inverted by `Split`, see `SplitJoin`) |
| Text.Split | __init__.py:77 | `str.split`: at least one piece, no piece contains the separator, and joining the pieces restores the input |
| Text.SplitJoin | __init__.py:77-81 | splitting a join of separator-free pieces gives the pieces back (the `split`/`join` round trip of `resolve_url`) |
| Text.Strip | __init__.py:76 | `str.strip(chars)`: the result is the input with maximal runs of the characters removed from both ends |
| Text.StrippedIsUnique | __init__.py:104 | the declarative description of stripping determines the result |
| Text.StripIdempotent | __init__.py:181 | a property of the `str.strip` applied once here: its result has nothing left to strip, so stripping it again changes nothing |
| Text.Lower | __init__.py:220 | lower-casing keeps the length and maps each character |
| Text.ReplaceChar | __init__.py:184 | `replace("/", "-")` changes exactly the separator characters |
| StringOrder.LexMin | __init__.py:174-177 | `min()` of strings is an element of the list that is below every element in Python's order |
| StringOrder.LexMinIsUnique | __init__.py:174-177 | any element below all the others is that minimum |
| StringOrder.LexLe | __init__.py:174-177 | Python's `<=` on `str`, which `min()` uses: code point by code point, the empty string below everything |
| StringOrder.LexLeFirstDifference | __init__.py:174-177 | `a <= b` exactly when `a` is a prefix of `b`, or `a` has the smaller code point at the first index where they differ |
| StringOrder.LexLeReflexive | __init__.py:174-177 | every string is `<=` itself |
| StringOrder.LexLeTotal | __init__.py:174-177 | any two strings are comparable |
| StringOrder.LexLeTransitive | __init__.py:174-177 | the order is transitive |
| StringOrder.LexLeAntisymmetric | __init__.py:174-177 | strings below each other are equal, so the minimum is unique |
| AddonMetadata.LocateLiteral | __init__.py:40-42 | the three indexes are each the first occurrence after the previous one; a missing `bl_info` is the ValueError exactly when the text lacks it |
| AddonMetadata.Literal | __init__.py:40-44 | the slice starts with `{`, ends with the first `}` after it, and contains no other `}` |
| AddonMetadata.LiteralFoundIff | __init__.py:40-44 | a literal is found exactly when `bl_info`, then `{`, then `}` occur in that order |
| UrlResolver.Segments | __init__.py:76-77 | the stripped path splits into at least one segment, none containing `/`, and joining the segments with `/` gives back the stripped path |
| UrlResolver.IndexOf | __init__.py:85 | `list.index`: the first position of the value, absent exactly when the value is absent |
| UrlResolver.Branch | __init__.py:83-86 | `master` without a `tree` segment, the segment after the first `tree` otherwise, IndexError when `tree` is last |
| UrlResolver.Take | __init__.py:88 | `xs[:2]` clamps at the length and is a prefix |
| UrlResolver.ResolveUrl | __init__.py:70-93 | other hosts are returned unchanged; only the path changes; a `.py` path has segment 2 replaced by `raw`, else `<owner>/<repo>/archive/refs/heads/<branch>.zip`; IndexError in exactly the listed cases |
| UrlResolver.RawLink | __init__.py:79-81 | the `.py` rewrite succeeds exactly when there are more than two segments and yields the segments with the third one replaced |
| UrlResolver.ArchiveLink | __init__.py:83-89 | the archive rewrite succeeds exactly when the branch is found and yields the expected segments |
| UrlResolver.ArchivePathSegments | __init__.py:88 | the concatenated archive path splits back into owner, repository, `archive`, `refs`, `heads` and `<branch>.zip` |
| Downloader.DispositionFilename | __init__.py:102-104 | the name is the text after the last `filename=`, stripped of whitespace and then of quotes, and neither begins nor ends with `"` |
| Downloader.HasHeader | __init__.py:102 | `name in r.headers`: some header has the name, ignoring letter case |
| Downloader.Header | __init__.py:103 | `r.headers[name]`: the value of every header whose name equals the asked one up to letter case |
| Downloader.AcceptedType | __init__.py:109 | the content type mentions `text/plain` or `application/zip` |
| Downloader.LastSegment | __init__.py:111 | the last `/` component of the URL path: a `/`-free suffix of the path, the whole path when it has no `/` |
| Downloader.RemoteFilename | __init__.py:95-121 | a disposition header names the file outright; without one, a missing Content-Type is a KeyError, and otherwise the URL's last segment is accepted exactly when the type is text or zip and its extension is `py` or `zip` |
| Downloader.UrlNameIsInstallable | __init__.py:111-114 | a name taken from the URL always passes the installer's extension dispatch |
| PackageKind.Extension | __init__.py:220 | the lower-cased text after the last `.` holds no `.`; it is the whole lower-cased name when the name has no `.`, and otherwise the lower-cased name ends with `.` followed by it |
| PackageKind.Classify | __init__.py:220-228 | `py` selects the script installer and `zip` the archive extractor, each exactly; anything else is the unsupported-file error |
| PackageKind.AfterLastDotCommutesWithLower | __init__.py:114 | lower-casing before or after taking the extension gives the same text |
| PackageKind.ClassifyIgnoresCase | __init__.py:220 | the dispatch does not depend on letter case |
| PackageKind.PyNameIsScript | __init__.py:157 | an entry the archive counts as a script is classified as a script |
| ArchiveLayout.Scripts | __init__.py:154-158 | exactly the non-directory entries whose lower-cased name ends in `.py`, each as many times as it occurs among the entries |
| ArchiveLayout.IsDir | __init__.py:156 | `ZipInfo.is_dir()`: the entry name ends with `/` |
| ArchiveLayout.IsScript | __init__.py:156-157 | a candidate script is a file whose lower-cased name ends with `.py` |
| ArchiveLayout.InitNames | __init__.py:174-177 | exactly the names of the entries whose basename is `__init__.py` |
| ArchiveLayout.Extraction | __init__.py:191-196 | exactly the files starting with the prefix, each renamed with the prefix removed; directories are skipped |
| ArchiveLayout.ExtractionAppend | __init__.py:191-196 | the members are extracted in archive order: one more entry adds at most one placement, at the end |
| ArchiveLayout.LastWritten | __init__.py:191-198 | the member whose bytes end up at a target name: the last one extracted under that name, none exactly when no member has that name |
| ArchiveLayout.LastExtractedInit | __init__.py:191-198 | the file read back as `__init__.py` is the last file entry of the archive named `<prefix>__init__.py`, and there is none exactly when the archive has no such file |
| ArchiveLayout.ParentOf | __init__.py:179 | the prefix before `__init__.py` restores the name when the suffix is put back, and is empty or ends with `/` |
| ArchiveLayout.DirName | __init__.py:181-185 | the root name when the prefix is only slashes; otherwise the stripped prefix with `/` replaced by `-`, free of `/` |
| ArchiveLayout.RootName | __init__.py:164-182 | the name a root-level package directory gets: the archive's file name unless there is exactly one candidate script, whose `/`-free basename then takes its place (the reused `filename` variable) |
| ArchiveLayout.LoneInitNamesDirectory | __init__.py:164-183 | an archive whose one script is a top-level `__init__.py` is installed in a directory named `__init__.py` |
| ArchiveLayout.RootInitAsWritten | __init__.py:174-177 | the source's choice of root: the least `__init__.py` name in string order |
| ArchiveLayout.AsWrittenPicksNestedInit | __init__.py:173-177 | for `a/__init__.py` and `a/B/__init__.py` the source's choice is the nested one, the intended one the outer one |
| ArchiveLayout.TwoRootChoices | __init__.py:173-177 | whenever the shorter of two names sorts second, the two choices differ |
| ArchiveLayout.RootInit | __init__.py:173 | the intended root: a shortest `__init__.py` name, the least in string order among those |
| ArchiveLayout.RootInitIsOutermost | __init__.py:173-179 | no `__init__.py` lies in a directory strictly enclosing the directory of the intended root |
| ArchiveLayout.ShortestIsOutermost | __init__.py:173-179 | the same holds for any shortest `__init__.py` name |
| ArchiveLayout.RootInitAgreesWhenShortest | __init__.py:173-177 | whenever the string minimum is a shortest name, both choices coincide |
| ArchiveLayout.PlanArchive | __init__.py:153-196 | no script is the ValueError; a lone script not starting with `__` is installed under its basename; no `__init__.py` among the scripts is the error of `min()`; otherwise the root is a script named `__init__.py` that is least in string order among all of them, the prefix is the root without `__init__.py`, the directory name comes from the prefix or the archive, and the members are the files under the prefix |
| ArchiveLayout.PlanArchiveIntended | __init__.py:173-196 | the plan the comment on line 173 describes: identical to `PlanArchive` except that a package's root is a shortest `__init__.py` script, least in string order among those of its length |
| ArchiveLayout.MainIsExtracted | __init__.py:179-196 | the chosen `__init__.py` is extracted as `__init__.py` itself |
| ArchiveLayout.RootPackageTakesEveryFile | __init__.py:191-196 | a package rooted at the top extracts every file under its own name |
| ArchiveLayout.PackageStaysInsideParent | __init__.py:191-196 | every extracted member is a file inside the root's directory |
| ArchiveLayout.PlanAgreesWithSourceChoice | __init__.py:173-177 | the intended plan equals the source's plan if and only if the source's root is a shortest `__init__.py` name |
| ArchiveLayout.RootIsOutermost | __init__.py:173-181 | in the intended plan, no other `__init__.py` lies in a directory strictly enclosing the root's |
| Installer.ReadMetadata | __init__.py:40-45 | the slice errors propagate, an evaluation that raises is an error, and success is exactly the value the found literal evaluates to, a mapping or a set |
| Installer.ModuleIdOf | __init__.py:143 | `[:-3]` gives the name without `.py`; shorter names give the empty string |
| Installer.ScriptFileName | __init__.py:132-133 | other names are kept without looking at the metadata; `__init__.py` becomes `<name>.py`, with a TypeError when the metadata is a set, a KeyError without `name`, and a TypeError when `name` is not a string |
| Installer.InstallPy | __init__.py:123-144 | errors before the write leave nothing behind; otherwise the text is written unchanged to `dst/<name>`; the call completes exactly when the metadata is a mapping, and then only its `module` entry changes, to the written name without `.py`; it fails after writing exactly when the name is kept and the literal is a set |
| Installer.InstallPackage | __init__.py:187-200 | the members go to `dst/<dir>` and stay there whatever follows; the call completes exactly when the extracted `__init__.py` yields a mapping, whose only change is the module id, the directory name; otherwise its error is raised |
| Installer.ExtractZip | __init__.py:147-200 | plan errors propagate with nothing written; a lone script goes through `install_py`; a package's tree is always left on disk, and the call completes exactly when the last file entry of the archive named `<prefix>__init__.py` yields a mapping |
| Installer.PackageReadsLastInit | __init__.py:187-198 | a planned package's tree stays on disk, and its metadata is read from the last file entry of the archive named `<prefix>__init__.py` |
| Installer.FileNamedByModule | __init__.py:135-143 | the written path starts with `dst/<module id>` and is at most three characters longer |
| Installer.InstallPyNamedByModule | __init__.py:135-143 | after `install_py` the module id names the written file |
| Installer.InstallFile | __init__.py:220-228 | the extension picks `install_py` or `extract_zip`, otherwise the unsupported-file error, with nothing written; a bad archive writes nothing; when the install completes, the reported module id names what was written |
| Installer.InstallAddon | __init__.py:203-228 | a URL takes the downloaded name and its failure; a path takes its last component; a failed download writes nothing; when the install completes, the reported module id names what was written |

## Findings

| source | as written | input that shows it | evidently intended | confidence | as-written member | corrected member |
|---|---|---|---|---|---|---|
| __init__.py:173-177 | the root `__init__.py` is `min()` of the names, the least in string order; upper-case letters and digits sort before `_` | an archive holding `a/__init__.py` and `a/B/__init__.py`: the package is rooted at `a/B/` and `a/__init__.py` is never extracted | the shortest `__init__.py`, as the comment on line 173 says, so the outermost package is the root | medium; not executed | ArchiveLayout.AsWrittenPicksNestedInit | ArchiveLayout.PlanArchiveIntended |

`PlanArchive`, and through it `Installer.ExtractZip`, model the code as
written: the root is the string minimum, `RootInitAsWritten`.
`PlanArchiveIntended` is the corrected plan. It roots the package at
`RootInit`, a shortest name with ties in length broken by string order.
`RootInitIsOutermost` and `RootIsOutermost` prove that this root is the
outermost package. By `PlanAgreesWithSourceChoice`, the two plans are equal
exactly when the source's choice is a shortest name.

## Left out

- Network access (`requests.head` and `requests.get`) and the headers it returns: the response headers are a parameter of `RemoteFilename`, and the downloaded name is a parameter of `InstallAddon`.
- InstallAddon: the retry after a failed download, which calls `resolve_url` and downloads again, is folded into the `fetched` parameter. It is the result of whichever attempt the source ends with, because the retry is network plumbing.
- URL parsing and re-serialisation (`urlparse`, `geturl`): a URL is the six-part value `urlparse` yields.
- File I/O: reading the source file, `os.makedirs`, writing the script, `ZipFile.extract`, and reading `__init__.py` back from disk. Installations are described by the `Install` value instead: what was written, and on failure what was left behind. An I/O error from the disk itself is not modelled.
- The fallback in `install_py` that reads `src_path` when the content is empty: the payload's text is used in every case.
- Python's `eval` of the literal and UTF-8 decoding of the bytes: `eval` is the `Evaluator` parameter, and the payload holds the decoded text. A UTF-8 decoding error is not modelled.
- Opening the zip: `ZipFile` is represented by the `archive` field of the payload, with `None` where it raises (`BadArchive`).
- Text.Lower: lower-casing is ASCII only, and non-ASCII case mapping is not modelled.
- Installer.InstallPackage: `ZipFile.extract` sanitises member names (absolute paths, `..` components). Members are written under their planned names instead.
- The Blender operators, the preferences UI, `register`/`unregister`, `get_addon_path` and `open_addon`, because they are editor integration rather than installation logic.
