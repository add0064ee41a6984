/**
  Rewriting a GitHub browse link into something that can be downloaded
  (`resolve_url`). Parsing and re-serialising the URL belong to Python's
  `urllib.parse`; here a URL is already the six-part result of `urlparse`,
  and the rewrite replaces its `path` part the way `_replace(path=...)` does.
 */
module UrlResolver {
  import opened Outcomes
  import opened Text

  /** The six components `urlparse` yields. */
  datatype Url = Url(scheme: string, netloc: string, path: string,
                     params: string, query: string, fragment: string)

  const GitHubHost := "github.com"
  const TreeSegment := "tree"
  const DefaultBranch := "master"
  const RawSegment := "raw"
  const ArchiveSegments := ["archive", "refs", "heads"]

  /** `path.strip("/").split("/")`: the path's segments. */
  function Segments(path: string): (r: seq<string>)
    ensures |r| >= 1
    ensures forall k :: 0 <= k < |r| ==> '/' !in r[k]
    ensures Join(r, '/') == Strip(path, {'/'})
  {
    Split(Strip(path, {'/'}), '/')
  }

  /** Python's `xs.index(x)`, or `None` where it raises. */
  function IndexOf(xs: seq<string>, x: string): (r: Option<nat>)
    ensures r.None? <==> x !in xs
    ensures r.Some? ==> r.value < |xs| && xs[r.value] == x && x !in xs[..r.value]
  {
    if |xs| == 0 then None
    else if xs[0] == x then Some(0)
    else
      match IndexOf(xs[1..], x)
      case None => None
      case Some(i) =>
        assert xs[..i + 1] == [xs[0]] + xs[1..][..i];
        Some(i + 1)
  }

  /**
    The branch of a repository link: the segment right after the first
    `tree` segment, `master` when there is none, and IndexError when `tree`
    is the last segment.
   */
  function Branch(comps: seq<string>): (r: Result<string>)
    ensures TreeSegment !in comps ==> r == Ok(DefaultBranch)
    ensures forall i :: 0 <= i < |comps| && comps[i] == TreeSegment && TreeSegment !in comps[..i] ==>
      r == if i + 1 < |comps| then Ok(comps[i + 1]) else Err(IndexOutOfRange)
  {
    match IndexOf(comps, TreeSegment)
    case None => Ok(DefaultBranch)
    case Some(i) =>
      assert forall j :: 0 <= j < |comps| && comps[j] == TreeSegment && TreeSegment !in comps[..j] ==> j == i by {
        forall j | 0 <= j < |comps| && comps[j] == TreeSegment && TreeSegment !in comps[..j]
          ensures j == i
        {
          assert forall k :: 0 <= k < i ==> comps[..i][k] == comps[k];
          assert forall k :: 0 <= k < j ==> comps[..j][k] == comps[k];
        }
      }
      if i + 1 < |comps| then Ok(comps[i + 1]) else Err(IndexOutOfRange)
  }

  /** Python's `xs[:n]`, which clamps at the length. */
  function Take(xs: seq<string>, n: nat): (r: seq<string>)
    ensures |r| == if n < |xs| then n else |xs|
    ensures r == xs[..|r|]
  {
    if n < |xs| then xs[..n] else xs
  }

  /**
    `resolve_url`. On github.com a path ending in `.py` gets its third
    segment replaced by `raw` (IndexError when there is no third segment);
    any other github.com path becomes
    `<owner>/<repo>/archive/refs/heads/<branch>.zip`. Other hosts are left
    alone. Only the path component ever changes.
   */
  function ResolveUrl(u: Url): (r: Result<Url>)
    ensures u.netloc != GitHubHost ==> r == Ok(u)
    ensures r.Ok? ==> r.value == u.(path := r.value.path)
    ensures u.netloc == GitHubHost && EndsWith(Strip(u.path, {'/'}), ".py") ==>
      var comps := Segments(u.path);
      && (r.Ok? <==> |comps| > 2)
      && (r.Err? ==> r.error == IndexOutOfRange)
      && (r.Ok? ==> Split(r.value.path, '/') == comps[2 := RawSegment])
    ensures u.netloc == GitHubHost && !EndsWith(Strip(u.path, {'/'}), ".py") ==>
      var comps := Segments(u.path);
      && (r.Ok? <==> Branch(comps).Ok?)
      && (r.Err? ==> r.error == IndexOutOfRange)
      && (r.Ok? ==>
            Split(r.value.path, '/') == Take(comps, 2) + ArchiveSegments + [Branch(comps).value + ".zip"])
  {
    if u.netloc == GitHubHost then
      var path := Strip(u.path, {'/'});
      var comps := Split(path, '/');
      if EndsWith(path, ".py") then RawLink(u, comps) else ArchiveLink(u, comps)
    else
      Ok(u)
  }

  /** The `.py` branch: segment 2 becomes `raw`, the others stay. */
  function RawLink(u: Url, comps: seq<string>): (r: Result<Url>)
    requires forall k :: 0 <= k < |comps| ==> '/' !in comps[k]
    ensures r.Ok? <==> |comps| > 2
    ensures r.Err? ==> r.error == IndexOutOfRange
    ensures r.Ok? ==> r.value == u.(path := r.value.path)
    ensures r.Ok? ==> Split(r.value.path, '/') == comps[2 := RawSegment]
  {
    if |comps| <= 2 then Err(IndexOutOfRange)
    else
      var out := comps[2 := RawSegment];
      SplitJoin(out, '/');
      Ok(u.(path := Join(out, '/')))
  }

  /** The repository branch: `<owner>/<repo>/archive/refs/heads/<branch>.zip`. */
  function ArchiveLink(u: Url, comps: seq<string>): (r: Result<Url>)
    requires |comps| >= 1
    requires forall k :: 0 <= k < |comps| ==> '/' !in comps[k]
    ensures r.Ok? <==> Branch(comps).Ok?
    ensures r.Err? ==> r.error == IndexOutOfRange
    ensures r.Ok? ==> r.value == u.(path := r.value.path)
    ensures r.Ok? ==>
      Split(r.value.path, '/') == Take(comps, 2) + ArchiveSegments + [Branch(comps).value + ".zip"]
  {
    var branch :- Branch(comps);
    assert '/' !in branch by {
      if TreeSegment in comps {
        var i :| 0 <= i < |comps| && comps[i] == TreeSegment;
      }
    }
    ArchivePathSegments(Take(comps, 2), branch);
    Ok(u.(path := Join(Take(comps, 2), '/') + "/archive/refs/heads/" + branch + ".zip"))
  }

  /** The fixed part of the archive path, joined. */
  lemma ArchiveTailJoin(branch: string)
    ensures Join(ArchiveSegments + [branch + ".zip"], '/') == "archive/refs/heads/" + branch + ".zip"
  {
    var tail := ArchiveSegments + [branch + ".zip"];
    assert tail == ["archive", "refs", "heads", branch + ".zip"];
    assert tail[1..] == ["refs", "heads", branch + ".zip"];
    assert tail[1..][1..] == ["heads", branch + ".zip"];
    assert tail[1..][1..][1..] == [branch + ".zip"];
    calc {
      Join(tail, '/');
      "archive" + "/" + Join(tail[1..], '/');
      "archive" + "/" + ("refs" + "/" + Join(tail[1..][1..], '/'));
      "archive" + "/" + ("refs" + "/" + ("heads" + "/" + Join(tail[1..][1..][1..], '/')));
      "archive" + "/" + ("refs" + "/" + ("heads" + "/" + (branch + ".zip")));
      "archive/refs/heads/" + branch + ".zip";
    }
  }

  /** The archive path built by string concatenation has the expected segments. */
  lemma ArchivePathSegments(head: seq<string>, branch: string)
    requires |head| >= 1
    requires forall k :: 0 <= k < |head| ==> '/' !in head[k]
    requires '/' !in branch
    ensures Split(Join(head, '/') + "/archive/refs/heads/" + branch + ".zip", '/')
      == head + ArchiveSegments + [branch + ".zip"]
  {
    var tail := ArchiveSegments + [branch + ".zip"];
    ArchiveTailJoin(branch);
    JoinAppend(head, tail, '/');
    assert Join(head, '/') + "/archive/refs/heads/" + branch + ".zip" == Join(head + tail, '/');
    var parts := head + tail;
    assert forall k :: 0 <= k < |parts| ==> '/' !in parts[k] by {
      forall k | 0 <= k < |parts|
        ensures '/' !in parts[k]
      {
        if k >= |head| + 3 {
          assert parts[k] == branch + ".zip";
        }
      }
    }
    SplitJoin(parts, '/');
  }
}
