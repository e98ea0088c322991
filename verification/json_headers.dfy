/**
  The request that `HttpUtils.postWithJson` hands to the shared POST routine:
  the JSON text as the body, unchanged, and the caller's headers with
  `Content-Type` forced to JSON in UTF-8.
*/
module JsonHeaders {
  import opened JavaNull

  const ContentTypeHeader := "Content-Type"
  const JsonUtf8 := "application/json;charset=UTF-8"

  /**
    The arguments `postWithJson` passes on to the shared `post` routine: the
    URL, the body text and the header map. This is not the `HttpPost` that
    routine builds, which matches header names without regard to case.
  */
  datatype PostRequest = PostRequest(url: string, body: string, headers: map<string, string>)

  /**
    The headers of `postWithJson(url, json, headers)`, with `None` for a null
    map: `Content-Type` is put after the caller's entries, so it is the JSON
    type whatever the caller gave, and every other caller header is kept as is.
  */
  function MergeJsonHeaders(headers: Option<map<string, string>>): (r: map<string, string>)
    ensures ContentTypeHeader in r && r[ContentTypeHeader] == JsonUtf8
    ensures r.Keys == headers.OrElse(map[]).Keys + {ContentTypeHeader}
    ensures forall k :: k in headers.OrElse(map[]) && k != ContentTypeHeader ==> r[k] == headers.OrElse(map[])[k]
  {
    headers.OrElse(map[])[ContentTypeHeader := JsonUtf8]
  }

  /** `postWithJson(url, json, headers)`: the JSON text is sent verbatim with the merged headers. */
  function PostWithJson(url: string, json: string, headers: Option<map<string, string>>): (r: PostRequest)
    ensures r.url == url && r.body == json
    ensures ContentTypeHeader in r.headers && r.headers[ContentTypeHeader] == JsonUtf8
    ensures forall k :: k != ContentTypeHeader ==>
      (k in r.headers <==> k in headers.OrElse(map[])) &&
      (k in r.headers ==> r.headers[k] == headers.OrElse(map[])[k])
  {
    PostRequest(url, json, MergeJsonHeaders(headers))
  }

  /** `postWithJson(url, json)`: an empty header map, so `Content-Type` is the only header. */
  function PostWithJsonDefault(url: string, json: string): (r: PostRequest)
    ensures r.url == url && r.body == json
    ensures r.headers == map[ContentTypeHeader := JsonUtf8]
  {
    PostWithJson(url, json, Some(map[]))
  }

  /** A null header map behaves exactly as an empty one. */
  lemma NullHeadersAreEmpty(url: string, json: string)
    ensures PostWithJson(url, json, None) == PostWithJsonDefault(url, json)
  {
  }

  /** Whatever `Content-Type` the caller supplies, the JSON one replaces it. */
  lemma CallerContentTypeOverridden(headers: map<string, string>)
    requires ContentTypeHeader in headers
    ensures MergeJsonHeaders(Some(headers)).Keys == headers.Keys
    ensures |MergeJsonHeaders(Some(headers))| == |headers|
  {
  }

  /** Merging again changes nothing. */
  lemma MergeIdempotent(headers: Option<map<string, string>>)
    ensures MergeJsonHeaders(Some(MergeJsonHeaders(headers))) == MergeJsonHeaders(headers)
  {
  }

  /**
    Header names are compared exactly: a caller's `content-type` is a different
    key and survives the merge beside the forced `Content-Type`.
  */
  lemma OtherSpellingKept(headers: map<string, string>)
    requires "content-type" in headers
    ensures "content-type" in MergeJsonHeaders(Some(headers))
    ensures MergeJsonHeaders(Some(headers))["content-type"] == headers["content-type"]
    ensures MergeJsonHeaders(Some(headers))[ContentTypeHeader] == JsonUtf8
  {
  }
}
