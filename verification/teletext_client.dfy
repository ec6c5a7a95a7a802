/**
 * The client of the Yle teletext API: the request URLs, the error classes
 * a failed request is turned into, and the two fetches, with the network
 * replaced by an abstract `Remote` that answers each request or fails it.
 */
module TeletextClient {
  import opened Wrappers
  import opened Text

  const ApiOrigin := "https://external.api.yle.fi"
  const ApiRootPath := "/v1/teletext"

  /** The application credentials added to every API request. */
  datatype Credentials = Credentials(appId: string, appKey: string)

  /**
   * An API URL: its origin, its path and its query parameters, in the order
   * they were set. Serialisation and percent-encoding are not modelled.
   */
  datatype ApiUrl = ApiUrl(origin: string, path: string, query: seq<(string, string)>)

  /** The value of query parameter `name`, if the URL has one. */
  function QueryParam(u: ApiUrl, name: string): Option<string> {
    QueryLookup(u.query, name)
  }

  function QueryLookup(q: seq<(string, string)>, name: string): Option<string> {
    if q == [] then None
    else if q[0].0 == name then Some(q[0].1)
    else QueryLookup(q[1..], name)
  }

  /**
   * `new YleAPIURL(path, base)`: an absolute path resolved against `base`,
   * with `app_id` and `app_key` set from the credentials.
   */
  function YleApiUrl(path: string, base: string, creds: Credentials): (u: ApiUrl)
    ensures u.origin == base && u.path == path
    ensures QueryParam(u, "app_id") == Some(creds.appId)
    ensures QueryParam(u, "app_key") == Some(creds.appKey)
  {
    var query := [("app_id", creds.appId), ("app_key", creds.appKey)];
    assert "app_id"[4] != "app_key"[4];
    assert QueryLookup(query[1..], "app_key") == Some(creds.appKey) by {
      assert query[1..] == [("app_key", creds.appKey)];
    }
    ApiUrl(base, path, query)
  }

  /** `new YleTeletextAPIURL(path)`: a path below the teletext API root. */
  function TeletextApiUrl(path: string, creds: Credentials): ApiUrl {
    YleApiUrl(ApiRootPath + "/" + path, ApiOrigin, creds)
  }

  /** `pageDataJsonUrl(p)`: the URL of page `p`'s metadata. */
  function PageDataJsonUrl(pageNr: nat, creds: Credentials): ApiUrl {
    TeletextApiUrl("pages/" + NatToString(pageNr) + ".json", creds)
  }

  /** `pageImageUrl(p, s)`: the URL of the PNG image of sub-page `s` of page `p`. */
  function PageImageUrl(pageNr: nat, subpageNr: nat, creds: Credentials): ApiUrl {
    TeletextApiUrl("images/" + NatToString(pageNr) + "/" + NatToString(subpageNr) + ".png", creds)
  }

  /** The metadata URL of a page is on the API origin, at `/v1/teletext/pages/<p>.json`, and carries both credentials. */
  lemma PageDataUrlCarriesCredentials(pageNr: nat, creds: Credentials)
    ensures var u := PageDataJsonUrl(pageNr, creds);
      && u.origin == ApiOrigin
      && u.path == "/v1/teletext/pages/" + NatToString(pageNr) + ".json"
      && QueryParam(u, "app_id") == Some(creds.appId)
      && QueryParam(u, "app_key") == Some(creds.appKey)
  {
    var n := NatToString(pageNr);
    assert ApiRootPath + "/" + "pages/" == "/v1/teletext/pages/";
    JoinPath(ApiRootPath + "/", "pages/", n, ".json");
  }

  /** The image URL of a sub-page is on the API origin, at `/v1/teletext/images/<p>/<s>.png`, and carries both credentials. */
  lemma PageImageUrlCarriesCredentials(pageNr: nat, subpageNr: nat, creds: Credentials)
    ensures var u := PageImageUrl(pageNr, subpageNr, creds);
      && u.origin == ApiOrigin
      && u.path == "/v1/teletext/images/" + NatToString(pageNr) + "/" + NatToString(subpageNr) + ".png"
      && QueryParam(u, "app_id") == Some(creds.appId)
      && QueryParam(u, "app_key") == Some(creds.appKey)
  {
    var n, m := NatToString(pageNr), NatToString(subpageNr);
    assert ApiRootPath + "/" + "images/" == "/v1/teletext/images/";
    JoinPath(ApiRootPath + "/", "images/", n + "/" + m, ".png");
    assert "images/" + n + "/" + m + ".png" == "images/" + (n + "/" + m) + ".png";
    assert "/v1/teletext/images/" + (n + "/" + m) + ".png" == "/v1/teletext/images/" + n + "/" + m + ".png";
  }

  lemma JoinPath(root: string, dir: string, name: string, ext: string)
    ensures root + (dir + name + ext) == (root + dir) + name + ext
  {
  }

  /** The URLs of the examples: page 100, and sub-page 1 of page 100. */
  lemma UrlExamples(creds: Credentials)
    ensures PageDataJsonUrl(100, creds).path == "/v1/teletext/pages/100.json"
    ensures PageImageUrl(100, 1, creds).path == "/v1/teletext/images/100/1.png"
  {
    DecimalExamples();
    PageDataUrlCarriesCredentials(100, creds);
    PageImageUrlCarriesCredentials(100, 1, creds);
  }

  /** Different pages, or different sub-pages, are never requested at the same image URL. */
  lemma PageImageUrlInjective(p: nat, s: nat, p': nat, s': nat, creds: Credentials)
    requires PageImageUrl(p, s, creds) == PageImageUrl(p', s', creds)
    ensures p == p' && s == s'
  {
    var a, a' := NatToString(p), NatToString(p');
    var b, b' := NatToString(s) + ".png", NatToString(s') + ".png";
    ImagePathShape(p, s, creds);
    ImagePathShape(p', s', creds);
    DropCommonPrefix("/v1/teletext/images/", a + ['/'] + b, a' + ['/'] + b');
    NoCharInDigits(a, '/');
    NoCharInDigits(a', '/');
    SplitAtFirstSeparator(a, b, a', b', '/');
    NatToStringInjective(p, p');
    assert NatToString(s) == b[..|b| - 4] && NatToString(s') == b'[..|b'| - 4];
    NatToStringInjective(s, s');
  }

  lemma ImagePathShape(p: nat, s: nat, creds: Credentials)
    ensures PageImageUrl(p, s, creds).path
      == "/v1/teletext/images/" + (NatToString(p) + ['/'] + (NatToString(s) + ".png"))
  {
  }

  lemma DropCommonPrefix(prefix: string, x: string, y: string)
    requires prefix + x == prefix + y
    ensures x == y
  {
    assert x == (prefix + x)[|prefix|..];
    assert y == (prefix + y)[|prefix|..];
  }

  /**
   * The value a failed HTTP request rejects with: an opaque cause and, when
   * a response arrived, its HTTP status (`error?.response?.status`).
   */
  datatype RequestFailure = RequestFailure(cause: string, status: Option<int>)

  /** The error classes; each one is also an instance of the classes above it. */
  datatype YleApiError =
    | YleAPIError(message: string, url: ApiUrl)
    | TeletextPageAPIError(message: string, url: ApiUrl, pageNr: nat, subpageNr: Option<nat>)
    | TeletextPageNotFoundError(message: string, url: ApiUrl, pageNr: nat, subpageNr: Option<nat>)
  {
    /** The `name` property each class sets. */
    function Name(): string {
      match this
      case YleAPIError(_, _) => "YleAPIError"
      case TeletextPageAPIError(_, _, _, _) => "TeletextPageAPIError"
      case TeletextPageNotFoundError(_, _, _, _) => "TeletextPageNotFoundError"
    }

    /** `instanceof TeletextPageAPIError`. */
    predicate IsTeletextPageAPIError() {
      TeletextPageAPIError? || TeletextPageNotFoundError?
    }

    /** `instanceof TeletextPageNotFoundError`. */
    predicate IsTeletextPageNotFoundError() {
      TeletextPageNotFoundError?
    }
  }

  /** What a fetch throws: the request's own failure, unchanged, or an API error. */
  datatype ClientError = Rethrown(original: RequestFailure) | ApiFailure(error: YleApiError)

  /** The sub-page recorded on an error: only a truthy `subpageNr` is stored. */
  function RecordedSubpage(subpageNr: Option<nat>): (r: Option<nat>)
    ensures r.Some? <==> subpageNr.Some? && subpageNr.value != 0
    ensures r.Some? ==> r == subpageNr
  {
    if subpageNr.Some? && subpageNr.value != 0 then subpageNr else None
  }

  /** `new TeletextPageAPIError(message, url, pageNr, subpageNr)`. */
  function NewTeletextPageAPIError(message: string, url: ApiUrl, pageNr: nat, subpageNr: Option<nat>): YleApiError {
    TeletextPageAPIError(message, url, pageNr, RecordedSubpage(subpageNr))
  }

  /** `new TeletextPageNotFoundError(message, url, pageNr, subpageNr)`. */
  function NewTeletextPageNotFoundError(message: string, url: ApiUrl, pageNr: nat, subpageNr: Option<nat>): YleApiError {
    TeletextPageNotFoundError(message, url, pageNr, RecordedSubpage(subpageNr))
  }

  /** JavaScript truthiness of the status: a missing status or `0` is falsy. */
  predicate HasStatus(f: RequestFailure) {
    f.status.Some? && f.status.value != 0
  }

  /** The error `pageData(p)` throws when its request fails. */
  function ClassifyPageDataFailure(pageNr: nat, creds: Credentials, f: RequestFailure): (e: ClientError)
    ensures !HasStatus(f) ==> e == Rethrown(f)
    ensures HasStatus(f) ==> (e.ApiFailure? && e.error.IsTeletextPageAPIError()
      && e.error.url == PageDataJsonUrl(pageNr, creds)
      && e.error.pageNr == pageNr && e.error.subpageNr == None)
    ensures HasStatus(f) ==> (e.error.IsTeletextPageNotFoundError() <==> f.status.value == 404)
    ensures HasStatus(f) && f.status.value == 404 ==>
      e.error.message == "Teletext page " + NatToString(pageNr) + " was not found"
    ensures HasStatus(f) && f.status.value != 404 ==>
      e.error.message == "Teletext page " + NatToString(pageNr) + " request failed with HTTP status '"
        + IntToString(f.status.value) + "'"
  {
    var url := PageDataJsonUrl(pageNr, creds);
    if !HasStatus(f) then Rethrown(f)
    else if f.status.value == 404 then
      ApiFailure(NewTeletextPageNotFoundError("Teletext page " + NatToString(pageNr) + " was not found", url, pageNr, None))
    else
      ApiFailure(NewTeletextPageAPIError("Teletext page " + NatToString(pageNr) + " request failed with HTTP status '"
        + IntToString(f.status.value) + "'", url, pageNr, None))
  }

  /** The error `pageImage(p, s)` throws when its request fails. */
  function ClassifyPageImageFailure(pageNr: nat, subpageNr: nat, creds: Credentials, f: RequestFailure): (e: ClientError)
    ensures !HasStatus(f) ==> e == Rethrown(f)
    ensures HasStatus(f) ==> (e.ApiFailure? && e.error.IsTeletextPageAPIError()
      && e.error.url == PageImageUrl(pageNr, subpageNr, creds)
      && e.error.pageNr == pageNr
      && e.error.subpageNr == (if subpageNr == 0 then None else Some(subpageNr)))
    ensures HasStatus(f) ==> (e.error.IsTeletextPageNotFoundError() <==> f.status.value == 404)
    ensures HasStatus(f) && f.status.value == 404 ==>
      e.error.message == "Teletext page " + NatToString(pageNr) + ", subpage " + NatToString(subpageNr)
        + ", was not found"
    ensures HasStatus(f) && f.status.value != 404 ==>
      e.error.message == "Teletext page " + NatToString(pageNr) + ", subpage " + NatToString(subpageNr)
        + ", request failed with HTTP status '" + IntToString(f.status.value) + "'"
  {
    var url := PageImageUrl(pageNr, subpageNr, creds);
    var page := "Teletext page " + NatToString(pageNr) + ", subpage " + NatToString(subpageNr);
    if !HasStatus(f) then Rethrown(f)
    else if f.status.value == 404 then
      ApiFailure(NewTeletextPageNotFoundError(page + ", was not found", url, pageNr, Some(subpageNr)))
    else
      ApiFailure(NewTeletextPageAPIError(page + ", request failed with HTTP status '"
        + IntToString(f.status.value) + "'", url, pageNr, Some(subpageNr)))
  }

  /** A 404 on a sub-page image names the page, the sub-page and the image URL, and is a not-found error. */
  lemma ImageNotFoundExample(creds: Credentials)
    ensures var e := ClassifyPageImageFailure(100, 1, creds, RequestFailure("404", Some(404)));
      && e.ApiFailure? && e.error.TeletextPageNotFoundError? && e.error.Name() == "TeletextPageNotFoundError"
      && e.error.pageNr == 100 && e.error.subpageNr == Some(1)
      && e.error.url.path == "/v1/teletext/images/100/1.png"
  {
    UrlExamples(creds);
  }

  /** The metadata of a page as the API reports it, with the time already converted to epoch seconds. */
  datatype PageMeta = PageMeta(time: nat, subpagecount: string, nextpg: string)

  /** A request's outcome at the remote end. */
  datatype Reply<T> = Answered(body: T) | Failed(failure: RequestFailure)

  /**
   * The teletext API as the client sees it: what each page and sub-page
   * request returns. A request for an entry the API does not have fails
   * with status 404.
   */
  datatype Remote = Remote(creds: Credentials, pages: map<nat, Reply<PageMeta>>, images: map<(nat, nat), Reply<Bytes>>)

  const NotFoundFailure := RequestFailure("Request failed with status code 404", Some(404))

  /** `pageData(p)`: the page's metadata, or the classified failure. */
  function PageData(remote: Remote, pageNr: nat): (r: Result<PageMeta, ClientError>)
    ensures pageNr !in remote.pages ==> (r.Failure? && r.error.ApiFailure?
      && r.error.error.IsTeletextPageNotFoundError())
    ensures pageNr in remote.pages && remote.pages[pageNr].Answered? ==> r == Success(remote.pages[pageNr].body)
    ensures pageNr in remote.pages && remote.pages[pageNr].Failed?
      ==> r == Failure(ClassifyPageDataFailure(pageNr, remote.creds, remote.pages[pageNr].failure))
  {
    var reply := if pageNr in remote.pages then remote.pages[pageNr] else Failed(NotFoundFailure);
    match reply
    case Answered(meta) => Success(meta)
    case Failed(f) => Failure(ClassifyPageDataFailure(pageNr, remote.creds, f))
  }

  /** `pageImage(p, s)`: the sub-page's image bytes, or the classified failure. */
  function PageImage(remote: Remote, pageNr: nat, subpageNr: nat): (r: Result<Bytes, ClientError>)
    ensures (pageNr, subpageNr) !in remote.images ==> (r.Failure? && r.error.ApiFailure?
      && r.error.error.IsTeletextPageNotFoundError())
    ensures (pageNr, subpageNr) in remote.images && remote.images[(pageNr, subpageNr)].Answered?
      ==> r == Success(remote.images[(pageNr, subpageNr)].body)
    ensures (pageNr, subpageNr) in remote.images && remote.images[(pageNr, subpageNr)].Failed?
      ==> r == Failure(ClassifyPageImageFailure(pageNr, subpageNr, remote.creds, remote.images[(pageNr, subpageNr)].failure))
  {
    var reply := if (pageNr, subpageNr) in remote.images then remote.images[(pageNr, subpageNr)] else Failed(NotFoundFailure);
    match reply
    case Answered(bytes) => Success(bytes)
    case Failed(f) => Failure(ClassifyPageImageFailure(pageNr, subpageNr, remote.creds, f))
  }
}
