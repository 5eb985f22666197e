/** Concrete exchanges through the engine: an end-to-end example, and the
    inputs that show what the undeclared `doProcess` (background.js
    lines 207-218) does to an origin outside the list. */
module Scenarios {
  import opened Optional
  import opened Headers
  import Origins
  import Cors
  import opened Engine

  const AppUrl := "https://terminal.cryptocontrol.io/app"
  const AppOrigin := "https://terminal.cryptocontrol.io"
  const ForeignUrl := "https://b.example/page"

  lemma AppUrlAllowed()
    ensures Origins.Allowed(AppUrl)
  {
    Origins.AllowedIffPrefix(AppUrl);
    assert Origins.AllowedOrigins[1] == AppOrigin;
    assert AppOrigin <= AppUrl;
  }

  lemma OriginKey()
    ensures Lower("Origin") == Cors.Fetch.origin
  {
  }

  /** The request headers of the example: one `Origin` header, indexed
      under `origin`, and neither CORS request header. */
  lemma TerminalRequestHeaders()
    ensures var hs := [Header("Origin", Some(AppOrigin))];
      && ValueOf(hs, Cors.Fetch.origin) == Some(AppOrigin)
      && ValueOf(hs, Cors.Fetch.requestMethod) == None
      && ValueOf(hs, Cors.Fetch.requestHeaders) == None
  {
    var hs := [Header("Origin", Some(AppOrigin))];
    OriginKey();
    assert Key(hs[0]) == Cors.Fetch.origin;
    assert Index(hs) == map[Cors.Fetch.origin := 0];
    assert Cors.Fetch.requestMethod[0] != Cors.Fetch.origin[0];
    assert Cors.Fetch.requestHeaders[0] != Cors.Fetch.origin[0];
  }

  /** Rewriting an empty response creates the four headers and fills them
      from the request alone. */
  lemma RewriteOfEmpty(req: seq<Header>)
    ensures var out := (Cors.FetchValid(); Cors.Rewrite(Cors.Fetch, req, []));
      && |out| == 4
      && ValueOf(out, Cors.Fetch.allowOrigin) == Some(Cors.OriginValue(Cors.Fetch, req))
      && ValueOf(out, Cors.Fetch.allowMethods) == ValueOf(req, Cors.Fetch.requestMethod).Or(Some("null"))
      && ValueOf(out, Cors.Fetch.allowHeaders) == ValueOf(req, Cors.Fetch.requestHeaders).Or(Some("null"))
      && ValueOf(out, Cors.Fetch.allowCredentials) == Some("true")
  {
    Cors.FetchValid();
    var names := Cors.Fetch.AllowNames();
    assert Index([]) == map[];
    Cors.MissingNone(names);
    Cors.RewritePrecedence(Cors.Fetch, req, []);
  }

  /** A request from the trading terminal carrying `Origin`, then an empty
      response: all four headers are created, the origin is echoed, methods
      and headers keep the placeholder, credentials are `"true"`. */
  lemma TerminalExchange(e: Engine)
    requires e.prefs.staticOrigin == ""
    ensures var req := Request("r1", Some(AppUrl), [Header("Origin", Some(AppOrigin))]);
      var s1 := RequestHandler(e, req);
      var s2 := ResponseHandler(s1.engine, Response("r1", []));
      && s2.result.Ok? && s2.result.value.Some?
      && var out := s2.result.value.value;
         && |out| == 4
         && ValueOf(out, Cors.Fetch.allowOrigin) == Some(AppOrigin)
         && ValueOf(out, Cors.Fetch.allowMethods) == Some("null")
         && ValueOf(out, Cors.Fetch.allowHeaders) == Some("null")
         && ValueOf(out, Cors.Fetch.allowCredentials) == Some("true")
  {
    var hs := [Header("Origin", Some(AppOrigin))];
    var req := Request("r1", Some(AppUrl), hs);
    AppUrlAllowed();
    RequestThenResponse(e, req, Response("r1", []), AppUrl);
    assert RequestHandler(e, req).result == Ok(hs);
    TerminalRequestHeaders();
    RewriteOfEmpty(hs);
  }

  /** From the initial state, a response to a request from an origin
      outside the list reaches line 218 before `doProcess` exists: the
      as-written handler throws and the transaction stays stored, where the
      corrected one passes the response through and removes it. */
  lemma ForeignFirstThrows()
    ensures var s1 := RequestHandler(Initial, Request("b", Some(ForeignUrl), []));
      var resp := Response("b", []);
      && ResponseHandlerAsWritten(s1.engine, resp).result == Err(UndeclaredDoProcess)
      && "b" in ResponseHandlerAsWritten(s1.engine, resp).engine.transactions
      && ResponseHandler(s1.engine, resp).result == Ok(None)
      && "b" !in ResponseHandler(s1.engine, resp).engine.transactions
  {
    Origins.OtherSiteNotAllowed();
  }

  /** After one exchange with the trading terminal, the as-written handler
      rewrites the response to a request from an origin outside the list;
      the corrected one passes it through. */
  lemma ForeignRewrittenAfterTerminal()
    ensures var a := Request("a", Some(AppUrl), []);
      var b := Request("b", Some(ForeignUrl), []);
      var s1 := RequestHandler(Initial, a);
      var s2 := ResponseHandlerAsWritten(s1.engine, Response("a", []));
      var s3 := RequestHandler(s2.engine, b);
      && s2.result.Ok? && s2.engine.doProcess
      && ResponseHandlerAsWritten(s3.engine, Response("b", [])).result.Ok?
      && ResponseHandlerAsWritten(s3.engine, Response("b", [])).result.value.Some?
      && ResponseHandler(s3.engine, Response("b", [])).result == Ok(None)
  {
    AppUrlAllowed();
    Origins.OtherSiteNotAllowed();
    var s1 := RequestHandler(Initial, Request("a", Some(AppUrl), []));
    assert s1.engine.transactions["a"].request.originUrl == Some(AppUrl);
    var s2 := ResponseHandlerAsWritten(s1.engine, Response("a", []));
    assert s2.result.Ok?;
    var s3 := RequestHandler(s2.engine, Request("b", Some(ForeignUrl), []));
    assert s3.engine.doProcess;
    assert s3.engine.transactions["b"].request.originUrl == Some(ForeignUrl);
    StickyFlagIgnoresOrigin(s3.engine, Response("b", []));
  }
}
