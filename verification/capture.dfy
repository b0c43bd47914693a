/** The request snapshot the handler builds once the body is buffered
    (`requestData`), with the query extraction and the best-effort JSON parse. */
module Capture {

  import opened Wrappers
  import opened Text
  import opened JsonValues

  /** What Node hands the handler: the method, the raw URL (path and query),
      the header object with lower-cased names, the buffered body and the
      socket's remote address (`undefined` once the socket is gone). */
  datatype IncomingRequest = IncomingRequest(
    httpMethod: string,
    url: string,
    headers: seq<(string, string)>,
    body: string,
    remoteAddress: Option<string>)

  /** `requestData`. `bodyParsed` and `bodyParseError` are absent (`None`)
      unless the parse step sets them. */
  datatype CapturedRequest = CapturedRequest(
    timestamp: string,
    httpMethod: string,
    url: string,
    headers: seq<(string, string)>,
    body: string,
    query: Option<string>,
    ip: Option<string>,
    bodyParsed: Option<Json>,
    bodyParseError: Option<string>)

  const InvalidJson := "Invalid JSON"
  const JsonMediaType := "application/json"

  /** The header object as the JSON object `JSON.stringify` sees. */
  function HeadersObject(headers: seq<(string, string)>): (v: Json)
    ensures v.JObject? && |v.members| == |headers|
    ensures forall i :: 0 <= i < |headers| ==> v.members[i] == (headers[i].0, JString(headers[i].1))
    decreases |headers|
  {
    if headers == [] then JObject([])
    else
      var n := |headers| - 1;
      var v := JObject(HeadersObject(headers[..n]).members + [(headers[n].0, JString(headers[n].1))]);
      assert forall i :: 0 <= i < n ==> headers[..n][i] == headers[i];
      v
  }

  /** `headers['content-type']`. Node keeps the first `content-type` header of
      a request and discards later duplicates (it does not join them). */
  function ContentType(headers: seq<(string, string)>): Option<string>
    decreases |headers|
  {
    if headers == [] then None
    else if headers[0].0 == "content-type" then Some(headers[0].1)
    else ContentType(headers[1..])
  }

  /** The content type is present exactly when some header is named
      `content-type`, and it is the value of the first such header. */
  lemma {:induction false} ContentTypeIsFirstHeader(headers: seq<(string, string)>)
    ensures ContentType(headers).Some? <==> exists i :: 0 <= i < |headers| && headers[i].0 == "content-type"
    ensures ContentType(headers).Some? ==>
              exists i :: 0 <= i < |headers| && headers[i] == ("content-type", ContentType(headers).value)
                          && forall j :: 0 <= j < i ==> headers[j].0 != "content-type"
    decreases |headers|
  {
    if headers == [] {
    } else if headers[0].0 == "content-type" {
      assert headers[0] == ("content-type", ContentType(headers).value);
    } else {
      var tail := headers[1..];
      ContentTypeIsFirstHeader(tail);
      if i :| 0 <= i < |headers| && headers[i].0 == "content-type" {
        assert tail[i - 1].0 == "content-type";
      }
      if ContentType(tail).Some? {
        var i :| 0 <= i < |tail| && tail[i] == ("content-type", ContentType(tail).value)
                 && forall j :: 0 <= j < i ==> tail[j].0 != "content-type";
        assert headers[i + 1] == tail[i];
        forall j | 0 <= j < i + 1 ensures headers[j].0 != "content-type" {
          if j > 0 {
            assert headers[j] == tail[j - 1];
          }
        }
      }
    }
  }

  /** `req.url.includes('?') ? req.url.split('?')[1] : null`. */
  function QueryOf(url: string): (q: Option<string>)
    ensures q.None? <==> '?' !in url
    ensures q.Some? ==> '?' !in q.value
  {
    IncludesChar(url, '?');
    if Includes(url, "?") then Some(Split(url, '?')[1]) else None
  }

  /** The guard of the parse step: `body && headers['content-type']?.includes('application/json')`.
      An empty body is falsy; a missing header short-circuits to `undefined`. */
  predicate ParseAttempted(req: IncomingRequest) {
    && req.body != ""
    && ContentType(req.headers).Some?
    && Includes(ContentType(req.headers).value, JsonMediaType)
  }

  /** A repeated `content-type` header does not override the first one: a
      body sent as `text/plain` and then again as JSON is not parsed. */
  lemma ContentTypeFirstWins(req: IncomingRequest)
    requires req.headers == [("content-type", "text/plain"), ("content-type", JsonMediaType)]
    ensures ContentType(req.headers) == Some("text/plain")
    ensures !ParseAttempted(req)
  {
    var s := "text/plain";
    forall i: nat | i <= |s| ensures !OccursAt(s, JsonMediaType, i) {
    }
  }

  /** Builds `requestData` and runs the parse step. `parse` stands for
      `JSON.parse`: `Some` of the value it returns, `None` when it throws. */
  function CaptureRequest(req: IncomingRequest, timestamp: string, parse: string -> Option<Json>): (c: CapturedRequest)
    ensures c.timestamp == timestamp && c.httpMethod == req.httpMethod && c.url == req.url
    ensures c.headers == req.headers && c.body == req.body && c.ip == req.remoteAddress
    ensures c.query == QueryOf(req.url)
    ensures c.bodyParsed.Some? <==> ParseAttempted(req) && parse(req.body).Some?
    ensures c.bodyParsed.Some? ==> c.bodyParsed == parse(req.body)
    ensures c.bodyParseError.Some? <==> ParseAttempted(req) && parse(req.body).None?
    ensures c.bodyParseError.Some? ==> c.bodyParseError.value == InvalidJson
  {
    var base := CapturedRequest(timestamp, req.httpMethod, req.url, req.headers, req.body,
                                QueryOf(req.url), req.remoteAddress, None, None);
    if ParseAttempted(req) then
      match parse(req.body)
      case Some(v) => base.(bodyParsed := Some(v))
      case None => base.(bodyParseError := Some(InvalidJson))
    else base
  }

  /** A snapshot carries a parsed body or a parse-error marker, never both. */
  lemma ParsedAndErrorExclusive(req: IncomingRequest, timestamp: string, parse: string -> Option<Json>)
    ensures var c := CaptureRequest(req, timestamp, parse);
            !(c.bodyParsed.Some? && c.bodyParseError.Some?)
  {
  }

  /** The query is the text between the first `?` and the next `?` (or the end
      of the URL), found here by index rather than by splitting. */
  lemma QueryIsFirstSegment(url: string)
    requires '?' in url
    ensures var rest := url[FirstIndex(url, '?') + 1..];
            QueryOf(url) == Some(if '?' in rest then rest[..FirstIndex(rest, '?')] else rest)
  {
    var rest := url[FirstIndex(url, '?') + 1..];
    assert QueryOf(url) == Some(Split(url, '?')[1]) by {
      IncludesChar(url, '?');
    }
    assert Split(url, '?')[1] == Split(rest, '?')[0] by {
      SplitTail(url, '?');
    }
    SplitHead(rest, '?');
  }

  /** The query is everything after the first `?` exactly when no second `?` follows. */
  lemma QueryIsWholeTailIffOneMark(url: string)
    requires '?' in url
    ensures var rest := url[FirstIndex(url, '?') + 1..];
            QueryOf(url) == Some(rest) <==> '?' !in rest
  {
    QueryIsFirstSegment(url);
  }

  /** A body that was parsed is kept verbatim alongside the parse result, and
      an empty body or a non-JSON content type is never parsed. */
  lemma NoParseWithoutJsonBody(req: IncomingRequest, timestamp: string, parse: string -> Option<Json>)
    requires req.body == "" || ContentType(req.headers).None? || !Includes(ContentType(req.headers).value, JsonMediaType)
    ensures var c := CaptureRequest(req, timestamp, parse);
            c.bodyParsed.None? && c.bodyParseError.None? && c.body == req.body
  {
  }

  /** Media-type matching is a case-sensitive substring test: a parameter after
      the type still matches, a capitalised type does not. */
  lemma ContentTypeMatching()
    ensures Includes("application/json; charset=utf-8", JsonMediaType)
    ensures !Includes("Application/JSON", JsonMediaType)
  {
    assert OccursAt("application/json; charset=utf-8", JsonMediaType, 0);
    var s := "Application/JSON";
    forall i: nat | i <= |s| ensures !OccursAt(s, JsonMediaType, i) {
      if i == 0 {
        assert s[0..16][0] != JsonMediaType[0];
      }
    }
  }
}
