/**
 * The decisions inside `Rai.rpc`: which endpoint a call goes to, and how the
 * node's response is classified in blocking and in callback mode.
 *
 * The browser objects are abstract: the parsed anchor is a record with
 * `href` and `port`, the response is a `(readyState, status, body)` triple
 * whose body stands for the already-parsed JSON payload, and `alert` /
 * `console.error` output is returned as a list of diagnostics.
 */
module Transport {
  import opened Wrappers

  const DefaultHref := "http://localhost"
  const HttpPrefix := "http://"
  const DefaultPort := "7076"

  predicate StartsWith(s: string, prefix: string)
  {
    |prefix| <= |s| && s[..|prefix|] == prefix
  }

  /**
   * `s.split('/').reverse()[0]`: the text after the last '/', or all of `s`
   * when it has none.
   */
  function LastSegment(s: string): (r: string)
    ensures |r| <= |s| && r == s[|s| - |r|..]
    ensures '/' !in r
    ensures |r| < |s| ==> s[|s| - |r| - 1] == '/'
  {
    if s == [] || s[|s| - 1] == '/' then []
    else
      var r := LastSegment(s[..|s| - 1]) + [s[|s| - 1]];
      assert s == s[..|s| - 1] + [s[|s| - 1]];
      r
  }

  /**
   * The address assigned to the anchor. An unset base means the local node;
   * a base that does not start with "http" keeps only its last path segment as
   * the host, over plain HTTP; any other base is used as given.
   */
  function EndpointHref(urlBase: Option<string>): (href: string)
    ensures StartsWith(href, "http")
    ensures urlBase.None? ==> href == DefaultHref
    ensures urlBase.Some? && StartsWith(urlBase.value, "http") ==> href == urlBase.value
    ensures urlBase.Some? && !StartsWith(urlBase.value, "http") ==>
      StartsWith(href, HttpPrefix) && href[|HttpPrefix|..] == LastSegment(urlBase.value)
  {
    match urlBase
    case None => DefaultHref
    case Some(base) =>
      if StartsWith(base, "http") then base
      else
        var href := HttpPrefix + LastSegment(base);
        assert href[..|HttpPrefix|] == HttpPrefix;
        href
  }

  /** What the anchor exposes once its `href` is set. */
  datatype Url = Url(href: string, port: string)

  /**
   * The endpoint of one call: `parse` stands for the anchor's URL parsing; an
   * empty port then becomes the node's default port.
   */
  function Endpoint(urlBase: Option<string>, parse: string -> Url): (u: Url)
  {
    var parsed := parse(EndpointHref(urlBase));
    if parsed.port == "" then parsed.(port := DefaultPort) else parsed
  }

  /** The port is never empty; an explicit port is kept, a missing one becomes 7076. */
  lemma EndpointPort(urlBase: Option<string>, parse: string -> Url)
    ensures Endpoint(urlBase, parse).port != ""
    ensures parse(EndpointHref(urlBase)).port != "" ==> Endpoint(urlBase, parse) == parse(EndpointHref(urlBase))
    ensures parse(EndpointHref(urlBase)).port == "" ==> Endpoint(urlBase, parse).port == DefaultPort
  {
  }

  /**
   * The text handed to the URL parser always begins with "http", and the
   * endpoint's address is what the parser makes of it. A relative base such
   * as "httpdocs/node" passes this test too and is kept as given.
   */
  lemma EndpointIsHttp(urlBase: Option<string>, parse: string -> Url)
    ensures Endpoint(urlBase, parse).href == parse(EndpointHref(urlBase)).href
    ensures StartsWith(EndpointHref(urlBase), "http")
  {
  }

  /** An unset base resolves to the local node: `http://localhost`, port 7076 when the parsed address has no port. */
  lemma EndpointDefault(parse: string -> Url)
    requires parse(DefaultHref).port == ""
    ensures Endpoint(None, parse) == Url(parse(DefaultHref).href, DefaultPort)
  {
  }

  /** A bare host name such as "example.com" is reached over plain HTTP. */
  lemma EndpointBareHost(host: string)
    requires '/' !in host && !StartsWith(host, "http")
    ensures EndpointHref(Some(host)) == HttpPrefix + host
  {
    assert host == host[|host| - |LastSegment(host)|..];
  }

  /** An XHR as seen once it has settled: ready state, HTTP status and the parsed body. */
  datatype Response<P> = Response(readyState: int, status: int, body: P)

  /** The three-way classification shared by both modes. */
  datatype Outcome<P> = Success(payload: P) | ProtocolError(error: P) | TransportFailure

  function Classify<P>(r: Response<P>): (o: Outcome<P>)
  {
    if r.readyState == 4 && r.status == 200 then Success(r.body)
    else if r.readyState == 4 && r.status == 400 then ProtocolError(r.body)
    else TransportFailure
  }

  /** Output on the user's screen or console. */
  datatype Diagnostic = Alert(message: string) | ConsoleError(message: string)

  /** The error path alerts and logs the body's `error` field; `errorField` stands for reading it. */
  function Diagnostics<P>(o: Outcome<P>, errorField: P -> string): seq<Diagnostic>
  {
    match o
    case Success(_) => []
    case ProtocolError(body) => [Alert(errorField(body)), ConsoleError(errorField(body))]
    case TransportFailure => [ConsoleError("XHR Failure")]
  }

  /** What a blocking call returns to its caller. */
  datatype Returned<P> = Json(payload: P) | False | Undefined

  /** Blocking mode: the value returned and the diagnostics written. */
  function SyncCall<P>(r: Response<P>, errorField: P -> string): (Returned<P>, seq<Diagnostic>)
  {
    var o := Classify(r);
    var value := match o
      case Success(p) => Json(p)
      case ProtocolError(_) => False
      case TransportFailure => Undefined;
    (value, Diagnostics(o, errorField))
  }

  /** Blocking mode returns the payload exactly on (4, 200), `false` exactly on (4, 400), nothing otherwise. */
  lemma SyncCallClassifies<P>(r: Response<P>, errorField: P -> string)
    ensures SyncCall(r, errorField).0 == Json(r.body) <==> r.readyState == 4 && r.status == 200
    ensures SyncCall(r, errorField).0 == False <==> r.readyState == 4 && r.status == 400
    ensures SyncCall(r, errorField).0 == Undefined <==> !(r.readyState == 4 && (r.status == 200 || r.status == 400))
    ensures SyncCall(r, errorField).1 == [] <==> r.readyState == 4 && r.status == 200
    ensures r.readyState == 4 && r.status == 400 ==>
      SyncCall(r, errorField).1 == [Alert(errorField(r.body)), ConsoleError(errorField(r.body))]
    ensures SyncCall(r, errorField).0 == Undefined ==> SyncCall(r, errorField).1 == [ConsoleError("XHR Failure")]
  {
  }

  /** What the callback-mode request can observe: a completed load, or a transport error. */
  datatype Event<P> = Load(response: Response<P>) | NetworkError(statusText: string)

  /** Callback mode: the arguments of each callback invocation, and the diagnostics written. */
  function AsyncCall<P>(e: Event<P>, errorField: P -> string): (seq<P>, seq<Diagnostic>)
  {
    match e
    case NetworkError(text) => ([], [ConsoleError(text)])
    case Load(r) =>
      var o := Classify(r);
      var calls := match o
        case Success(p) => [p]
        case ProtocolError(body) => [body]
        case TransportFailure => [];
      (calls, Diagnostics(o, errorField))
  }

  /**
   * The callback runs at most once; it runs, with the response body itself,
   * exactly on (4, 200) and (4, 400), and never after a transport error.
   */
  lemma AsyncCallbackAtMostOnce<P>(e: Event<P>, errorField: P -> string)
    ensures |AsyncCall(e, errorField).0| <= 1
    ensures AsyncCall(e, errorField).0 != [] <==>
      e.Load? && e.response.readyState == 4 && (e.response.status == 200 || e.response.status == 400)
    ensures AsyncCall(e, errorField).0 != [] ==> AsyncCall(e, errorField).0 == [e.response.body]
    ensures e.NetworkError? ==> AsyncCall(e, errorField).1 == [ConsoleError(e.statusText)]
  {
  }

  /**
   * The two modes agree on success and disagree on protocol errors: the
   * callback receives the error body where the blocking call returns `false`.
   * Both write the same diagnostics for a completed load.
   */
  lemma ModesAgree<P>(r: Response<P>, errorField: P -> string)
    ensures AsyncCall(Load(r), errorField).1 == SyncCall(r, errorField).1
    ensures SyncCall(r, errorField).0.Json? ==> AsyncCall(Load(r), errorField).0 == [SyncCall(r, errorField).0.payload]
    ensures SyncCall(r, errorField).0 == False ==> AsyncCall(Load(r), errorField).0 == [r.body]
    ensures SyncCall(r, errorField).0 == Undefined ==> AsyncCall(Load(r), errorField).0 == []
  {
  }

  /** Every outcome other than success writes at least one console error. */
  lemma FailuresAreLogged<P>(e: Event<P>, errorField: P -> string)
    requires !(e.Load? && Classify(e.response).Success?)
    ensures exists i :: 0 <= i < |AsyncCall(e, errorField).1| && AsyncCall(e, errorField).1[i].ConsoleError?
  {
    var d := AsyncCall(e, errorField).1;
    if e.Load? && Classify(e.response).ProtocolError? {
      assert d[1].ConsoleError?;
    } else {
      assert d[0].ConsoleError?;
    }
  }
}
