/**
  Deciding what a downloaded or local file is, from its name alone: the
  lower-cased text after the last `.` (`install_addon`'s dispatch, also the
  extension test of `download`).
 */
module PackageKind {
  import opened Outcomes
  import opened Text

  datatype Kind = Script | Archive

  /** `filename.rsplit(".", 1)[-1].lower()`. */
  function Extension(filename: string): (r: string)
    ensures '.' !in r
    ensures '.' !in filename ==> r == Lower(filename)
    ensures '.' in filename ==> EndsWith(Lower(filename), "." + r)
  {
    ExtensionShape(filename);
    Lower(AfterLast(filename, "."))
  }

  /** The lower-cased text after the last `.` is what follows the last `.` of the lower-cased name. */
  lemma ExtensionShape(filename: string)
    ensures var r := Lower(AfterLast(filename, "."));
      && '.' !in r
      && ('.' !in filename ==> r == Lower(filename))
      && ('.' in filename ==> EndsWith(Lower(filename), "." + r))
  {
    ExtensionHasNoDot(filename);
    DotsOf(filename);
    if '.' in filename {
      DotsOf(Lower(filename));
      AfterLastDotCommutesWithLower(filename);
      ExtensionFollowsDot(filename);
    } else {
      assert AfterLast(filename, ".") == filename;
    }
  }

  lemma ExtensionHasNoDot(filename: string)
    ensures '.' !in Lower(AfterLast(filename, "."))
  {
    var tail := AfterLast(filename, ['.']);
    AfterLastHasNoSeparator(filename, '.');
    var r := Lower(tail);
    forall k | 0 <= k < |r|
      ensures r[k] != '.'
    {
      assert tail[k] != '.';
    }
  }

  lemma ExtensionFollowsDot(filename: string)
    requires exists j :: OccursAt(Lower(filename), ".", j)
    ensures EndsWith(Lower(filename), "." + AfterLast(Lower(filename), "."))
  {
  }

  /** Where `s` has a `.`, it occurs as the one-character needle `"."`. */
  lemma DotsOf(s: string)
    ensures '.' in s <==> exists j :: OccursAt(s, ".", j)
    ensures '.' in Lower(s) <==> '.' in s
  {
    if '.' in s {
      var i :| 0 <= i < |s| && s[i] == '.';
      OccursAtChar(s, '.', i);
      assert Lower(s)[i] == '.';
    }
    forall j
      ensures OccursAt(s, ".", j) ==> '.' in s
    {
      OccursAtChar(s, '.', j);
    }
    if '.' in Lower(s) {
      var i :| 0 <= i < |Lower(s)| && Lower(s)[i] == '.';
      assert s[i] == '.';
    }
  }

  /**
    `py` selects the script installer, `zip` the archive extractor, and
    anything else is the unsupported-file error.
   */
  function Classify(filename: string): (r: Result<Kind>)
    ensures r == Ok(Script) <==> Extension(filename) == "py"
    ensures r == Ok(Archive) <==> Extension(filename) == "zip"
    ensures r.Err? <==> Extension(filename) != "py" && Extension(filename) != "zip"
    ensures r.Err? ==> r.error == Unsupported
  {
    var ext := Extension(filename);
    if ext == "py" then Ok(Script)
    else if ext == "zip" then Ok(Archive)
    else Err(Unsupported)
  }

  /**
    Lower-casing a name, then taking the text after its last `.`, is the
    same as taking that text and lower-casing it.
   */
  lemma AfterLastDotCommutesWithLower(s: string)
    ensures AfterLast(Lower(s), ".") == Lower(AfterLast(s, "."))
  {
    var ls := Lower(s);
    SameDots(s);
    match RFind(s, ".")
    case None =>
      assert AfterLast(ls, ".") == ls;
    case Some(i) =>
      RPartitionAtLast(s, ".", i);
      RPartitionAtLast(ls, ".", i);
      assert Lower(s[i + 1..]) == ls[i + 1..];
  }

  /** A name and its lower-cased form have their dots in the same places. */
  lemma SameDots(s: string)
    ensures forall j :: OccursAt(Lower(s), ".", j) <==> OccursAt(s, ".", j)
  {
    forall j
      ensures OccursAt(Lower(s), ".", j) <==> OccursAt(s, ".", j)
    {
      OccursAtChar(Lower(s), '.', j);
      OccursAtChar(s, '.', j);
    }
  }

  /**
    The decision depends on the name's letters only up to case: `x.PY` and
    `x.py` are both scripts.
   */
  lemma ClassifyIgnoresCase(filename: string)
    ensures Classify(Lower(filename)) == Classify(filename)
  {
    var t := AfterLast(filename, ".");
    AfterLastDotCommutesWithLower(filename);
    LowerTwice(t);
    assert Extension(Lower(filename)) == Lower(Lower(t));
  }

  /**
    A name whose lower-cased form ends in `.py` (the archive's test for a
    script) is classified as a script.
   */
  lemma PyNameIsScript(filename: string)
    requires EndsWith(Lower(filename), ".py")
    ensures Classify(filename) == Ok(Script)
  {
    AfterLastDotCommutesWithLower(filename);
    TextAfterDotPy(Lower(filename));
    assert Extension(filename) == "py";
  }

  /** In a name ending with `.py`, the text after the last `.` is `py`. */
  lemma TextAfterDotPy(l: string)
    requires EndsWith(l, ".py")
    ensures AfterLast(l, ".") == "py"
  {
    var n := |l|;
    assert l[n - 3..] == ".py";
    assert l[n - 3] == '.' && l[n - 2] == 'p' && l[n - 1] == 'y';
    OccursAtChar(l, '.', n - 3);
    forall j | n - 3 < j
      ensures !OccursAt(l, ".", j)
    {
      OccursAtChar(l, '.', j);
    }
    RPartitionAtLast(l, ".", n - 3);
    assert l[n - 2..] == "py";
  }
}
