/**
  How `download` names what it fetches, from the response headers of its
  HEAD request. The requests themselves are not modelled: the headers are an
  input, and the body is whatever the caller fetched.
 */
module Downloader {
  import opened Outcomes
  import opened Text
  import opened PackageKind
  import opened UrlResolver

  /**
    Response headers. requests keeps them in a case-insensitive dictionary;
    here every key is a lower-cased header name, and every lookup
    lower-cases the name it asks for.
   */
  type Headers = h: map<string, string> | forall k :: k in h ==> Lower(k) == k witness map[]

  const HeaderContentDisposition := "Content-disposition"
  const HeaderContentType := "Content-Type"
  const TextContentType := "text/plain"
  const ZipContentType := "application/zip"
  const FilenameParam := "filename="

  /** `name in headers`: some header has this name, ignoring case. */
  predicate HasHeader(h: Headers, name: string)
    ensures HasHeader(h, name) <==> exists k :: k in h && Lower(k) == Lower(name)
  {
    LowerTwice(name);
    Lower(name) in h
  }

  /** `headers[name]`: the value of the header with this name, ignoring case. */
  function Header(h: Headers, name: string): (r: string)
    requires HasHeader(h, name)
    ensures forall k :: k in h && Lower(k) == Lower(name) ==> r == h[k]
  {
    h[Lower(name)]
  }

  /**
    The name a Content-Disposition value announces: the text after its last
    `filename=`, stripped of whitespace and then of double quotes.
   */
  function DispositionFilename(cdisp: string): (r: string)
    ensures |r| > 0 ==> r[0] != '"' && r[|r| - 1] != '"'
    ensures exists t :: Stripped(AfterLast(cdisp, FilenameParam), Whitespace, t) && Stripped(t, {'"'}, r)
  {
    var t := Strip(AfterLast(cdisp, FilenameParam), Whitespace);
    var r := Strip(t, {'"'});
    assert Stripped(t, {'"'}, r);
    r
  }

  /** `urlparse(url).path.rsplit("/", 1)[-1]`: the last segment of the URL's path. */
  function LastSegment(u: Url): (r: string)
    ensures '/' !in r && EndsWith(u.path, r)
    ensures '/' !in u.path ==> r == u.path
    ensures '/' in u.path ==> EndsWith(u.path, "/" + r)
  {
    Basename(u.path)
  }

  /** The content type is one `download` accepts without a disposition. */
  predicate AcceptedType(ctype: string) {
    Contains(ctype, TextContentType) || Contains(ctype, ZipContentType)
  }

  /**
    The filename `download` settles on. A Content-Disposition header names
    it outright, whatever its extension. Without one, the Content-Type
    header must be present (KeyError otherwise) and mention plain text or a
    zip archive, and the URL's last segment must have the extension `py` or
    `zip` in any case; every other response is the unsupported-file error.
   */
  function RemoteFilename(u: Url, h: Headers): (r: Result<string>)
    ensures HasHeader(h, HeaderContentDisposition) ==>
      r == Ok(DispositionFilename(Header(h, HeaderContentDisposition)))
    ensures !HasHeader(h, HeaderContentDisposition) && !HasHeader(h, HeaderContentType) ==>
      r == Err(MissingKey(HeaderContentType))
    ensures !HasHeader(h, HeaderContentDisposition) && HasHeader(h, HeaderContentType) ==>
      && (r.Ok? <==>
            AcceptedType(Header(h, HeaderContentType))
            && (Extension(LastSegment(u)) == "py" || Extension(LastSegment(u)) == "zip"))
      && (r.Ok? ==> r.value == LastSegment(u))
      && (r.Err? ==> r.error == Unsupported)
  {
    if HasHeader(h, HeaderContentDisposition) then
      Ok(DispositionFilename(Header(h, HeaderContentDisposition)))
    else if !HasHeader(h, HeaderContentType) then
      Err(MissingKey(HeaderContentType))
    else if AcceptedType(Header(h, HeaderContentType)) then
      var filename := LastSegment(u);
      var ext := Extension(filename);
      if ext == "py" || ext == "zip" then Ok(filename) else Err(Unsupported)
    else
      Err(Unsupported)
  }

  /**
    A name taken from the URL (no Content-Disposition) always passes the
    installer's dispatch; a disposition name is not checked here and may
    still be rejected there.
   */
  lemma UrlNameIsInstallable(u: Url, h: Headers)
    requires !HasHeader(h, HeaderContentDisposition)
    requires RemoteFilename(u, h).Ok?
    ensures Classify(RemoteFilename(u, h).value).Ok?
  {
  }
}
