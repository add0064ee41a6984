/**
  The Python `str` operations the installer relies on, over `seq<char>`:
  `index`, `rpartition`, `rsplit(sep, 1)[-1]`, `split`/`join` on one
  character, `strip` with a character set, ASCII `lower`, `startswith`,
  `endswith`, `in` and `replace` of one character.
 */
module Text {
  import opened Outcomes

  predicate StartsWith(s: string, p: string) {
    |p| <= |s| && s[..|p|] == p
  }

  predicate EndsWith(s: string, p: string) {
    |p| <= |s| && s[|s| - |p|..] == p
  }

  /** `sub` occurs in `s` starting at index `i`. */
  predicate OccursAt(s: string, sub: string, i: int) {
    0 <= i && i + |sub| <= |s| && s[i..i + |sub|] == sub
  }

  /** A one-character needle occurs exactly where that character is. */
  lemma OccursAtChar(s: string, c: char, i: int)
    ensures OccursAt(s, [c], i) <==> 0 <= i < |s| && s[i] == c
  {
    if 0 <= i < |s| {
      assert s[i..i + 1] == [s[i]];
    }
  }

  /** An occurrence inside a suffix of `s` is an occurrence in `s`, shifted. */
  lemma OccursInSuffix(s: string, sub: string, k: nat, j: int)
    requires k <= |s|
    ensures OccursAt(s[k..], sub, j) <==> 0 <= j && OccursAt(s, sub, k + j)
  {
    if 0 <= j && j + |sub| <= |s| - k {
      assert s[k..][j..j + |sub|] == s[k + j..k + j + |sub|];
    }
  }

  /**
    Python's `s.index(sub, from)`: the first index at or after `from` where
    `sub` occurs, or `None` where Python raises ValueError.
   */
  function Find(s: string, sub: string, from: nat): (r: Option<nat>)
    ensures r.Some? ==> from <= r.value && OccursAt(s, sub, r.value)
    ensures r.Some? ==> forall j :: from <= j < r.value ==> !OccursAt(s, sub, j)
    ensures r.None? ==> forall j :: from <= j ==> !OccursAt(s, sub, j)
    decreases |s| - from
  {
    if from + |sub| > |s| then None
    else if s[from..from + |sub|] == sub then Some(from)
    else Find(s, sub, from + 1)
  }

  /** Python's `sub in s`: `sub` occurs somewhere in `s`. */
  predicate Contains(s: string, sub: string)
    ensures Contains(s, sub) <==> exists j :: OccursAt(s, sub, j)
  {
    Find(s, sub, 0).Some?
  }

  /** The last index at or below `i` where `sub` occurs. */
  function FindAtOrBelow(s: string, sub: string, i: int): (r: Option<nat>)
    ensures r.Some? ==> r.value <= i && OccursAt(s, sub, r.value)
    ensures r.Some? ==> forall j :: r.value < j <= i ==> !OccursAt(s, sub, j)
    ensures r.None? ==> forall j :: j <= i ==> !OccursAt(s, sub, j)
    decreases i + 1
  {
    if i < 0 then None
    else if OccursAt(s, sub, i) then Some(i)
    else FindAtOrBelow(s, sub, i - 1)
  }

  /** Python's `s.rfind(sub)`: the last occurrence of `sub` in `s`. */
  function RFind(s: string, sub: string): (r: Option<nat>)
    ensures r.Some? ==> OccursAt(s, sub, r.value)
    ensures r.Some? ==> forall j :: r.value < j ==> !OccursAt(s, sub, j)
    ensures r.None? ==> forall j :: !OccursAt(s, sub, j)
  {
    FindAtOrBelow(s, sub, |s| - |sub|)
  }

  /**
    Python's `s.rpartition(sep)`: the text before the last `sep`, the
    separator, and the text after it; `("", "", s)` when `sep` is absent.
    Python raises on an empty separator, hence the precondition.
   */
  function RPartition(s: string, sep: string): (r: (string, string, string))
    requires sep != ""
    ensures r.0 + r.1 + r.2 == s
    ensures r.1 == "" <==> forall j :: !OccursAt(s, sep, j)
    ensures r.1 == "" ==> r.0 == ""
    ensures r.1 != "" ==> r.1 == sep
    ensures r.1 != "" ==> OccursAt(s, sep, |r.0|) && forall j :: |r.0| < j ==> !OccursAt(s, sep, j)
    ensures forall j :: !OccursAt(r.2, sep, j)
  {
    match RFind(s, sep)
    case None => ("", "", s)
    case Some(i) =>
      var tail := s[i + |sep|..];
      assert forall j :: !OccursAt(tail, sep, j) by {
        forall j ensures !OccursAt(tail, sep, j) {
          OccursInSuffix(s, sep, i + |sep|, j);
        }
      }
      assert s[..i] + sep + tail == s by {
        assert s[i..i + |sep|] == sep;
      }
      (s[..i], sep, tail)
  }

  /** RPartition splits at the occurrence that has no occurrence after it. */
  lemma RPartitionAtLast(s: string, sep: string, i: int)
    requires sep != ""
    requires OccursAt(s, sep, i)
    requires forall j :: i < j ==> !OccursAt(s, sep, j)
    ensures RPartition(s, sep) == (s[..i], sep, s[i + |sep|..])
  {
    var r := RFind(s, sep);
    assert r.Some?;
  }

  /**
    Python's `s.rsplit(sep, 1)[-1]`: everything after the last `sep`, or the
    whole of `s` when `sep` does not occur.
   */
  function AfterLast(s: string, sep: string): (r: string)
    requires sep != ""
    ensures EndsWith(s, r)
    ensures forall j :: !OccursAt(r, sep, j)
    ensures (forall j :: !OccursAt(s, sep, j)) ==> r == s
    ensures (exists j :: OccursAt(s, sep, j)) ==> EndsWith(s, sep + r)
    ensures (exists j :: OccursAt(s, sep, j)) ==> forall j :: |s| - |r| - |sep| < j ==> !OccursAt(s, sep, j)
  {
    var p := RPartition(s, sep);
    assert p.1 != "" ==> s == p.0 + (sep + p.2) && |p.0| == |s| - |p.2| - |sep|;
    p.2
  }

  /** `AfterLast` on a one-character separator yields text free of it. */
  lemma AfterLastHasNoSeparator(s: string, c: char)
    ensures c !in AfterLast(s, [c])
  {
    var r := AfterLast(s, [c]);
    if c in r {
      var i :| 0 <= i < |r| && r[i] == c;
      OccursAtChar(r, c, i);
      assert false;
    }
  }

  /** `path.rsplit("/", 1)[-1]`: the last `/`-separated component. */
  function Basename(path: string): (r: string)
    ensures '/' !in r
    ensures EndsWith(path, r)
    ensures '/' !in path ==> r == path
    ensures '/' in path ==> EndsWith(path, "/" + r)
  {
    AfterLastHasNoSeparator(path, '/');
    var p := RPartition(path, "/");
    assert '/' in path ==> p.1 != "" by {
      if '/' in path {
        var i :| 0 <= i < |path| && path[i] == '/';
        OccursAtChar(path, '/', i);
      }
    }
    assert '/' !in path ==> p.1 == "" by {
      forall j
        ensures '/' !in path ==> !OccursAt(path, "/", j)
      {
        OccursAtChar(path, '/', j);
      }
    }
    assert p.1 != "" ==> path == p.0 + ("/" + p.2);
    p.2
  }

  /**
    Python's `sep.join(parts)` for a one-character separator.
   */
  function Join(parts: seq<string>, c: char): string
  {
    if |parts| == 0 then ""
    else if |parts| == 1 then parts[0]
    else parts[0] + [c] + Join(parts[1..], c)
  }

  /**
    Python's `s.split(c)`: the maximal runs of `s` between occurrences of
    `c`. There is always at least one piece (`"".split("/") == [""]`), no
    piece contains the separator, and joining the pieces restores `s`.
   */
  function Split(s: string, c: char): (r: seq<string>)
    ensures |r| >= 1
    ensures forall k :: 0 <= k < |r| ==> c !in r[k]
    ensures Join(r, c) == s
    decreases |s|
  {
    if |s| == 0 then [""]
    else
      var rest := Split(s[1..], c);
      if s[0] == c then
        assert ([""] + rest)[1..] == rest;
        [""] + rest
      else
        var r := [[s[0]] + rest[0]] + rest[1..];
        assert Join(r, c) == [s[0]] + Join(rest, c) by {
          if |rest| > 1 {
            assert r[1..] == rest[1..];
          }
        }
        r
  }

  lemma {:induction false} SplitWithoutSeparator(x: string, c: char)
    requires c !in x
    ensures Split(x, c) == [x]
    decreases |x|
  {
    if |x| > 0 {
      SplitWithoutSeparator(x[1..], c);
    }
  }

  lemma {:induction false} SplitAtFirstSeparator(x: string, y: string, c: char)
    requires c !in x
    ensures Split(x + [c] + y, c) == [x] + Split(y, c)
    decreases |x|
  {
    var s := x + [c] + y;
    if |x| == 0 {
      assert s[1..] == y;
    } else {
      assert s[1..] == x[1..] + [c] + y;
      SplitAtFirstSeparator(x[1..], y, c);
      assert [x[0]] + x[1..] == x;
    }
  }

  /**
    Splitting undoes joining: pieces that do not contain the separator come
    back exactly, so `Split` and `Join` are inverse on such pieces.
   */
  lemma {:induction false} SplitJoin(parts: seq<string>, c: char)
    requires |parts| >= 1
    requires forall k :: 0 <= k < |parts| ==> c !in parts[k]
    ensures Split(Join(parts, c), c) == parts
    decreases |parts|
  {
    if |parts| == 1 {
      SplitWithoutSeparator(parts[0], c);
    } else {
      SplitJoin(parts[1..], c);
      SplitAtFirstSeparator(parts[0], Join(parts[1..], c), c);
      assert [parts[0]] + parts[1..] == parts;
    }
  }

  /** Joining two non-empty lists puts one separator between the halves. */
  lemma {:induction false} JoinAppend(a: seq<string>, b: seq<string>, c: char)
    requires |a| >= 1 && |b| >= 1
    ensures Join(a + b, c) == Join(a, c) + [c] + Join(b, c)
    decreases |a|
  {
    if |a| == 1 {
      assert (a + b)[1..] == b;
    } else {
      assert (a + b)[1..] == a[1..] + b;
      JoinAppend(a[1..], b, c);
    }
  }

  /** `TrimStart` drops the longest prefix made of characters in `cs`. */
  function TrimStart(s: string, cs: set<char>): (r: string)
    ensures EndsWith(s, r)
    ensures forall k :: 0 <= k < |s| - |r| ==> s[k] in cs
    ensures |r| > 0 ==> r[0] !in cs
    decreases |s|
  {
    if |s| > 0 && s[0] in cs then
      var r := TrimStart(s[1..], cs);
      assert s[|s| - |r|..] == s[1..][|s| - 1 - |r|..];
      assert forall k :: 1 <= k < |s| - |r| ==> s[k] == s[1..][k - 1];
      r
    else
      s
  }

  /** `TrimEnd` drops the longest suffix made of characters in `cs`. */
  function TrimEnd(s: string, cs: set<char>): (r: string)
    ensures StartsWith(s, r)
    ensures forall k :: |r| <= k < |s| ==> s[k] in cs
    ensures |r| > 0 ==> r[|r| - 1] !in cs
    decreases |s|
  {
    if |s| > 0 && s[|s| - 1] in cs then
      var r := TrimEnd(s[..|s| - 1], cs);
      assert s[..|r|] == s[..|s| - 1][..|r|];
      assert forall k :: |r| <= k < |s| - 1 ==> s[k] == s[..|s| - 1][k];
      r
    else
      s
  }

  /**
    The bounds of a stripped slice `s[i..j]`: everything before `i` and from
    `j` on is a `cs` character, and the slice's own ends are not.
   */
  ghost predicate StripBounds(s: string, cs: set<char>, i: int, j: int) {
    && 0 <= i <= j <= |s|
    && (forall k :: 0 <= k < i ==> s[k] in cs)
    && (forall k :: j <= k < |s| ==> s[k] in cs)
    && (i < j ==> s[i] !in cs && s[j - 1] !in cs)
  }

  /**
    What Python's `s.strip(chars)` returns, stated without saying how: a
    slice of `s` whose removed ends consist of `cs` characters and whose own
    ends are not `cs` characters.
   */
  ghost predicate Stripped(s: string, cs: set<char>, r: string) {
    exists i, j :: StripBounds(s, cs, i, j) && r == s[i..j]
  }

  /** Python's `s.strip(chars)` for a set of characters. */
  function Strip(s: string, cs: set<char>): (r: string)
    ensures Stripped(s, cs, r)
  {
    var t := TrimStart(s, cs);
    var r := TrimEnd(t, cs);
    StripOfTrims(s, cs, t, r);
    r
  }

  /** Trimming the start and then the end leaves a stripped slice. */
  lemma StripOfTrims(s: string, cs: set<char>, t: string, r: string)
    requires t == TrimStart(s, cs) && r == TrimEnd(t, cs)
    ensures Stripped(s, cs, r)
  {
    TrimmedSlice(s, cs, t, r);
  }

  /**
    A slice whose prefix and suffix consist of `cs` characters and whose
    ends do not has stripped bounds.
   */
  lemma TrimmedSlice(s: string, cs: set<char>, t: string, r: string)
    requires EndsWith(s, t) && (forall k :: 0 <= k < |s| - |t| ==> s[k] in cs) && (|t| > 0 ==> t[0] !in cs)
    requires StartsWith(t, r) && (forall k :: |r| <= k < |t| ==> t[k] in cs) && (|r| > 0 ==> r[|r| - 1] !in cs)
    ensures StripBounds(s, cs, |s| - |t|, |s| - |t| + |r|)
    ensures r == s[|s| - |t|..|s| - |t| + |r|]
    ensures Stripped(s, cs, r)
  {
    var i := |s| - |t|;
    assert t == s[i..];
    assert r == t[..|r|];
    assert |r| > 0 ==> r[0] == t[0];
    assert forall k :: i + |r| <= k < |s| ==> s[k] == t[k - i];
    assert StripBounds(s, cs, i, i + |r|);
  }

  /** Stripped bounds are determined by the string and the character set. */
  lemma StripBoundsUnique(s: string, cs: set<char>, i1: int, j1: int, i2: int, j2: int)
    requires StripBounds(s, cs, i1, j1) && StripBounds(s, cs, i2, j2)
    ensures s[i1..j1] == s[i2..j2]
  {
    // A non-empty slice starts and ends at characters outside `cs`, which
    // the other bounds would have removed had they been wider.
    assert i1 < j1 && i2 < j2 ==> i1 == i2 && j1 == j2;
    // An empty slice means every character of `s` is in `cs`.
    assert i1 == j1 <==> i2 == j2;
  }

  /** There is only one stripped form of a string, so `Strip` is it. */
  lemma StrippedIsUnique(s: string, cs: set<char>, r1: string, r2: string)
    requires Stripped(s, cs, r1) && Stripped(s, cs, r2)
    ensures r1 == r2
  {
    var i1, j1 :| StripBounds(s, cs, i1, j1) && r1 == s[i1..j1];
    var i2, j2 :| StripBounds(s, cs, i2, j2) && r2 == s[i2..j2];
    StripBoundsUnique(s, cs, i1, j1, i2, j2);
  }

  /** Stripping a second time changes nothing. */
  lemma StripIdempotent(s: string, cs: set<char>)
    ensures Strip(Strip(s, cs), cs) == Strip(s, cs)
  {
    var r := Strip(s, cs);
    assert Stripped(r, cs, r) by {
      var i, j :| StripBounds(s, cs, i, j) && r == s[i..j];
      assert StripBounds(r, cs, 0, |r|);
      assert r == r[0..|r|];
    }
    StrippedIsUnique(r, cs, Strip(r, cs), r);
  }

  /** The characters Python's `str.isspace()` accepts, which `strip()` removes. */
  const Whitespace: set<char> := {
    '\t', '\n', '\U{0B}', '\U{0C}', '\r', '\U{1C}', '\U{1D}', '\U{1E}', '\U{1F}', ' ',
    '\U{85}', '\U{A0}', '\U{1680}',
    '\U{2000}', '\U{2001}', '\U{2002}', '\U{2003}', '\U{2004}', '\U{2005}',
    '\U{2006}', '\U{2007}', '\U{2008}', '\U{2009}', '\U{200A}',
    '\U{2028}', '\U{2029}', '\U{202F}', '\U{205F}', '\U{3000}'
  }

  function LowerChar(ch: char): char {
    if 'A' <= ch <= 'Z' then (ch as int + 32) as char else ch
  }

  /** Python's `s.lower()` on ASCII letters; other characters are kept. */
  function Lower(s: string): (r: string)
    ensures |r| == |s|
    ensures forall k :: 0 <= k < |s| ==> r[k] == LowerChar(s[k])
  {
    seq(|s|, k requires 0 <= k < |s| => LowerChar(s[k]))
  }

  /** Lower-casing twice is lower-casing once. */
  lemma LowerTwice(s: string)
    ensures Lower(Lower(s)) == Lower(s)
  {
    assert forall k :: 0 <= k < |s| ==> Lower(Lower(s))[k] == Lower(s)[k];
  }

  /** Python's `s.replace(a, b)` for single characters. */
  function ReplaceChar(s: string, a: char, b: char): (r: string)
    ensures |r| == |s|
    ensures forall k :: 0 <= k < |s| ==> r[k] == if s[k] == a then b else s[k]
  {
    seq(|s|, k requires 0 <= k < |s| => if s[k] == a then b else s[k])
  }
}
