/**
 * `NotFoundController`: every 404 is forwarded to `/404`, which answers a JSON error to
 * API and JSON requests and the single-page app's index page to everything else.
 */
module NotFound {
  import opened Wrappers
  import opened Strs

  const UriPrefixApi: string := "/api/"
  const ApplicationJson: string := "application/json"

  /** The three answers of `handleNotFoundRequest`. */
  datatype Reply =
    | JsonNotFound(message: string, path: string)  // 404, `application/json`
    | IndexPage(html: string)                      // 200, `text/html`
    | BareNotFound                                 // 404, no body: the index page is missing

  /**
   * `isJsonRequest`: an `Accept` header naming JSON in any case, or a forwarded URI
   * under `/api/`. A missing header names nothing.
   */
  predicate IsJsonRequest(accept: Option<string>, originalUri: string) {
    (accept.Some? && ContainsIgnoreCase(accept.value, ApplicationJson)) || StartsWith(originalUri, UriPrefixApi)
  }

  /** The URI the request was forwarded from; a missing attribute reads as the empty text. */
  function OriginalUri(forwardServletPath: Option<string>): string {
    if forwardServletPath.Some? then forwardServletPath.value else ""
  }

  /**
   * `handleNotFoundRequest`, with the request's `Accept` header, its forward attribute
   * and the index page resource (absent when it does not exist) as parameters.
   */
  function HandleNotFound(accept: Option<string>, forwardServletPath: Option<string>, indexPage: Option<string>): (r: Reply)
    ensures r.JsonNotFound? <==> IsJsonRequest(accept, OriginalUri(forwardServletPath))
    ensures r.JsonNotFound? ==> r.path == OriginalUri(forwardServletPath) && r.message == "未找到请求的资源"
    ensures r.IndexPage? ==> indexPage == Some(r.html)
    ensures r.BareNotFound? <==> !IsJsonRequest(accept, OriginalUri(forwardServletPath)) && indexPage.None?
  {
    var uri := OriginalUri(forwardServletPath);
    if IsJsonRequest(accept, uri) then JsonNotFound("未找到请求的资源", uri)
    else if indexPage.None? then BareNotFound
    else IndexPage(indexPage.value)
  }

  /** Without the forward attribute only the `Accept` header can make a request a JSON one. */
  lemma MissingForwardIsNoApiPath(accept: Option<string>, indexPage: Option<string>)
    ensures !StartsWith(OriginalUri(None), UriPrefixApi)
    ensures HandleNotFound(accept, None, indexPage).JsonNotFound? <==>
      (accept.Some? && ContainsIgnoreCase(accept.value, ApplicationJson))
  {
  }

  /** A JSON `Accept` header wins whatever the path. */
  lemma JsonAcceptWins(accept: string, forwardServletPath: Option<string>, indexPage: Option<string>)
    requires ContainsIgnoreCase(accept, ApplicationJson)
    ensures HandleNotFound(Some(accept), forwardServletPath, indexPage) ==
      JsonNotFound("未找到请求的资源", OriginalUri(forwardServletPath))
  {
  }

  /** An `Accept` header that is exactly the JSON type counts, in any letter case. */
  lemma JsonAcceptAnyCase(accept: string)
    requires EqualsIgnoreCase(accept, ApplicationJson)
    ensures IsJsonRequest(Some(accept), "")
  {
    assert accept[0..|ApplicationJson|] == accept;
    assert MatchesIgnoreCaseAt(accept, ApplicationJson, 0);
  }
}
