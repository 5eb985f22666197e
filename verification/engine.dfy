/** The extension's state machine (background.js lines 9-290): the two
    web-request handlers over the in-memory transaction store, the on/off
    toggle and the preference load. Every handler is a pure function from
    the engine state and its input to the next state and a result; a
    handler that throws in the source returns `Err` together with the state
    the source leaves behind at the point of the throw. */
module Engine {
  import opened Optional
  import opened Headers
  import Origins
  import Cors
  import Whitelist

  /** What `onBeforeSendHeaders` hands to `requestHandler`. `originUrl` is
      absent for requests no document initiated. */
  datatype Request = Request(requestId: string, originUrl: Option<string>, requestHeaders: seq<Header>)

  /** What `onHeadersReceived` hands to `responseHandler`. */
  datatype Response = Response(requestId: string, responseHeaders: seq<Header>)

  /** A stored transaction: the request as it was forwarded. The shorthand
      index of its headers is `Index(request.requestHeaders)`, recomputed
      where it is read. */
  datatype Transaction = Transaction(request: Request)

  /** The preferences after `loadPrefs` (lines 116-123). */
  datatype Prefs = Prefs(enabledAtStartup: bool, staticOrigin: string, activationWhitelist: seq<string>)

  /** The three keys `loadPrefs` asks the sync storage for; `None` is a key
      that was never saved. */
  datatype Stored = Stored(enabledAtStartup: Option<bool>, staticOrigin: Option<string>, activationWhitelist: Option<string>)

  /** The ways a handler throws. */
  datatype Fault =
    | NoOriginHeader       // line 187: `requestHeaders['origin']` is undefined
    | NoTransaction        // line 210: `transaction` is undefined
    | NoOriginUrl          // line 210: `originUrl` is undefined
    | UndeclaredDoProcess  // line 218: `doProcess` was never assigned

  /** The `corsEverywhere` object (lines 15-18) plus the implicit global
      `doProcess`, which is `false` until the first assignment at line 212
      creates it and never changes afterwards. */
  datatype Engine = Engine(
    enabled: bool,
    whitelistEnabled: bool,
    prefs: Prefs,
    transactions: map<string, Transaction>,
    doProcess: bool)

  /** The state after a handler ran, and what it returned or threw. */
  datatype Step<T> = Step(engine: Engine, result: Result<T, Fault>)

  /** The state the script starts in. `prefs` is `{}` until `loadPrefs`
      completes; its missing fields read as falsy, which the empty defaults
      reproduce. */
  const Initial := Engine(false, false, Prefs(false, "", []), map[], false)

  /** The entry for `id` is `t`, and every other entry is as in `before`. */
  predicate StoredAs(after: map<string, Transaction>, before: map<string, Transaction>, id: string, t: Transaction) {
    && id in after && after[id] == t
    && after.Keys == before.Keys + {id}
    && forall k :: k in before && k != id ==> after[k] == before[k]
  }

  /** `id` has no entry, and every other entry is as in `before`. */
  predicate Removed(after: map<string, Transaction>, before: map<string, Transaction>, id: string) {
    && id !in after
    && after.Keys == before.Keys - {id}
    && forall k :: k in after ==> after[k] == before[k]
  }

  /** Lines 186-188: with a static origin configured, the value of the
      indexed `origin` header becomes that origin; without an `origin`
      header the assignment throws. */
  function ForceOrigin(hs: seq<Header>, staticOrigin: string): (r: Result<seq<Header>, Fault>)
    ensures r.Err? <==> staticOrigin != "" && Cors.Fetch.origin !in Index(hs)
    ensures r.Err? ==> r.error == NoOriginHeader
    ensures r.Ok? ==> |r.value| == |hs| && forall i :: 0 <= i < |hs| ==> r.value[i].name == hs[i].name
    ensures r.Ok? ==>
      ValueOf(r.value, Cors.Fetch.origin) == if staticOrigin != "" then Some(staticOrigin) else ValueOf(hs, Cors.Fetch.origin)
    ensures r.Ok? ==> forall k :: k != Cors.Fetch.origin ==> ValueOf(r.value, k) == ValueOf(hs, k)
    ensures r.Ok? ==> forall i :: 0 <= i < |hs| && (staticOrigin == "" || i != Index(hs)[Cors.Fetch.origin]) ==>
      r.value[i] == hs[i]
  {
    if staticOrigin == "" then Ok(hs)
    else if Cors.Fetch.origin !in Index(hs) then Err(NoOriginHeader)
    else
      var forced := SetValue(hs, Cors.Fetch.origin, Some(staticOrigin));
      SetValueHere(hs, Cors.Fetch.origin, Some(staticOrigin));
      assert forall k :: k != Cors.Fetch.origin ==> ValueOf(forced, k) == ValueOf(hs, k) by {
        forall k | k != Cors.Fetch.origin ensures ValueOf(forced, k) == ValueOf(hs, k) {
          SetValueElsewhere(hs, Cors.Fetch.origin, Some(staticOrigin), k);
        }
      }
      Ok(forced)
  }

  /** Lines 167-194. The transaction is stored before the static origin is
      forced, and the forced value reaches the stored request too, because
      the index aliases the header objects of the forwarded array. The
      forwarded list is the stored request's list. */
  function RequestHandler(e: Engine, req: Request): (s: Step<seq<Header>>)
    ensures s.engine.enabled == e.enabled && s.engine.prefs == e.prefs
    ensures s.engine.whitelistEnabled == e.whitelistEnabled && s.engine.doProcess == e.doProcess
    ensures req.requestId in s.engine.transactions
    ensures StoredAs(s.engine.transactions, e.transactions, req.requestId, s.engine.transactions[req.requestId])
    ensures s.result == ForceOrigin(req.requestHeaders, e.prefs.staticOrigin)
    ensures s.result.Err? ==> s.engine.transactions[req.requestId] == Transaction(req)
    ensures s.result.Ok? ==> s.engine.transactions[req.requestId] == Transaction(req.(requestHeaders := s.result.value))
  {
    var forced := ForceOrigin(req.requestHeaders, e.prefs.staticOrigin);
    var stored := if forced.Ok? then req.(requestHeaders := forced.value) else req;
    Step(e.(transactions := e.transactions[req.requestId := Transaction(stored)]), forced)
  }

  /** Lines 224-279 on the stored request and the response: the rewritten
      response header list. */
  function Rewritten(t: Transaction, resp: Response): seq<Header> {
    Cors.FetchValid();
    Cors.Rewrite(Cors.Fetch, t.request.requestHeaders, resp.responseHeaders)
  }

  /** Lines 200-289 as written. `doProcess` is the undeclared global: the
      prefix loop only ever sets it, so once one allowed origin has been
      seen every later response is rewritten, and before that a response
      from any other origin throws at line 218. A throw leaves the
      transaction in the store. */
  function ResponseHandlerAsWritten(e: Engine, resp: Response): (s: Step<Option<seq<Header>>>)
    ensures s.engine.enabled == e.enabled && s.engine.prefs == e.prefs && s.engine.whitelistEnabled == e.whitelistEnabled
    ensures s.result.Err? ==> s.engine == e
    ensures s.result == Err(NoTransaction) <==> resp.requestId !in e.transactions
    ensures s.result == Err(NoOriginUrl) <==>
      resp.requestId in e.transactions && e.transactions[resp.requestId].request.originUrl.None?
    ensures s.result == Err(UndeclaredDoProcess) <==>
      && resp.requestId in e.transactions
      && e.transactions[resp.requestId].request.originUrl.Some?
      && !e.doProcess && !Origins.Allowed(e.transactions[resp.requestId].request.originUrl.value)
    ensures resp.requestId in e.transactions && e.transactions[resp.requestId].request.originUrl.Some? ==>
      (s.result.Ok? <==> e.doProcess || Origins.Allowed(e.transactions[resp.requestId].request.originUrl.value))
    ensures s.result.Ok? ==>
      s.result.value.Some? && s.engine.doProcess && Removed(s.engine.transactions, e.transactions, resp.requestId)
    ensures s.result.Ok? ==> s.result.value == Some(Rewritten(e.transactions[resp.requestId], resp))
  {
    if resp.requestId !in e.transactions then Step(e, Err(NoTransaction))
    else
      var t := e.transactions[resp.requestId];
      match t.request.originUrl
      case None => Step(e, Err(NoOriginUrl))
      case Some(url) =>
        var doProcess := e.doProcess || Origins.Allowed(url);
        if !doProcess then Step(e, Err(UndeclaredDoProcess))
        else
          var after := e.(doProcess := true, transactions := e.transactions - {resp.requestId});
          Step(after, Ok(Some(Rewritten(t, resp))))
  }

  /** Lines 200-289 with the declaration of line 207 in force, so the flag
      starts `false` for every response: a response is rewritten exactly
      when its origin URL starts with an allowed origin, and otherwise
      passes through unmodified (`None`, the `undefined` of line 287). The
      transaction is removed either way. */
  function ResponseHandler(e: Engine, resp: Response): (s: Step<Option<seq<Header>>>)
    ensures s.engine.enabled == e.enabled && s.engine.prefs == e.prefs
    ensures s.engine.whitelistEnabled == e.whitelistEnabled && s.engine.doProcess == e.doProcess
    ensures s.result.Err? ==> s.engine == e
    ensures s.result == Err(NoTransaction) <==> resp.requestId !in e.transactions
    ensures s.result == Err(NoOriginUrl) <==>
      resp.requestId in e.transactions && e.transactions[resp.requestId].request.originUrl.None?
    ensures s.result.Ok? <==>
      resp.requestId in e.transactions && e.transactions[resp.requestId].request.originUrl.Some?
    ensures s.result.Ok? ==> Removed(s.engine.transactions, e.transactions, resp.requestId)
    ensures s.result.Ok? ==> (s.result.value.Some? <==> Origins.Allowed(e.transactions[resp.requestId].request.originUrl.value))
    ensures s.result.Ok? && s.result.value.Some? ==> s.result.value.value == Rewritten(e.transactions[resp.requestId], resp)
  {
    if resp.requestId !in e.transactions then Step(e, Err(NoTransaction))
    else
      var t := e.transactions[resp.requestId];
      match t.request.originUrl
      case None => Step(e, Err(NoOriginUrl))
      case Some(url) =>
        var after := e.(transactions := e.transactions - {resp.requestId});
        if Origins.Allowed(url) then Step(after, Ok(Some(Rewritten(t, resp))))
        else Step(after, Ok(None))
  }

  /** Lines 53-68: set `enabled` to the boolean argument, or negate it when
      there is none, and empty the transaction store. The listener
      registration of lines 71-96 follows `enabled`. */
  function Toggle(e: Engine, state: Option<bool>): (r: Engine)
    ensures r.transactions == map[]
    ensures state.Some? ==> r.enabled == state.value
    ensures state.None? ==> r.enabled != e.enabled
    ensures r.prefs == e.prefs && r.whitelistEnabled == e.whitelistEnabled && r.doProcess == e.doProcess
  {
    var enabled := match state case Some(b) => b case None => !e.enabled;
    e.(enabled := enabled, transactions := map[])
  }

  /** Lines 116-127: defaults for unsaved keys, the whitelist split on runs
      of CR/LF, and the whitelist flag. */
  function LoadPrefs(e: Engine, stored: Stored): (r: Engine)
    ensures r.prefs.enabledAtStartup == (stored.enabledAtStartup == Some(true))
    ensures r.prefs.staticOrigin == stored.staticOrigin.GetOr("")
    ensures r.whitelistEnabled <==> |r.prefs.activationWhitelist| > 0
    ensures r.whitelistEnabled <==> stored.activationWhitelist.GetOr("") != ""
    ensures forall i :: 0 <= i < |r.prefs.activationWhitelist| ==> Whitelist.NoBreak(r.prefs.activationWhitelist[i])
    ensures r.enabled == e.enabled && r.transactions == e.transactions && r.doProcess == e.doProcess
  {
    var text := stored.activationWhitelist.GetOr("");
    var prefs := Prefs(stored.enabledAtStartup.GetOr(false), stored.staticOrigin.GetOr(""), Whitelist.Parse(text));
    e.(prefs := prefs, whitelistEnabled := Whitelist.Enabled(text))
  }

  /** A toggle in either direction discards every in-flight transaction, so
      a response to a request made before it finds nothing (line 68). */
  lemma ToggleForgetsRequests(e: Engine, req: Request, state: Option<bool>, resp: Response)
    requires resp.requestId == req.requestId
    ensures ResponseHandler(Toggle(RequestHandler(e, req).engine, state), resp).result == Err(NoTransaction)
    ensures ResponseHandlerAsWritten(Toggle(RequestHandler(e, req).engine, state), resp).result == Err(NoTransaction)
  {
  }

  /** Toggling twice without an argument restores `enabled`; only the store
      is lost. */
  lemma ToggleTwice(e: Engine)
    ensures Toggle(Toggle(e, None), None) == e.(transactions := map[])
  {
  }

  /** The request and the response of one exchange: the request stores the
      transaction, and the response of an allowed origin consumes it and
      returns the rewrite of the response against the request as it was
      forwarded. The store ends as it was apart from the entry for this id. */
  lemma RequestThenResponse(e: Engine, req: Request, resp: Response, url: string)
    requires resp.requestId == req.requestId && req.originUrl == Some(url) && Origins.Allowed(url)
    requires ForceOrigin(req.requestHeaders, e.prefs.staticOrigin).Ok?
    ensures var s1 := RequestHandler(e, req);
      var s2 := ResponseHandler(s1.engine, resp);
      && s1.result.Ok?
      && s2.result == Ok(Some(Rewritten(Transaction(req.(requestHeaders := s1.result.value)), resp)))
      && s2.engine.transactions == e.transactions - {req.requestId}
  {
    var s1 := RequestHandler(e, req);
    var t := Transaction(req.(requestHeaders := s1.result.value));
    assert s1.engine.transactions[req.requestId] == t;
    var s2 := ResponseHandler(s1.engine, resp);
    assert s2.engine.transactions == s1.engine.transactions - {req.requestId};
    assert s1.engine.transactions == e.transactions[req.requestId := t];
    PutThenRemove(e.transactions, req.requestId, t);
  }

  /** Storing under `id` and then deleting `id` leaves the other entries. */
  lemma PutThenRemove(m: map<string, Transaction>, id: string, t: Transaction)
    ensures m[id := t] - {id} == m - {id}
  {
    assert (m[id := t] - {id}).Keys == (m - {id}).Keys;
  }

  /** What the exchange answers: the origin the request was forwarded with,
      which is the static origin when one is configured, or `"*"`; and
      `"true"` for credentials. */
  lemma ExchangeEchoesOrigin(e: Engine, req: Request, resp: Response)
    requires ForceOrigin(req.requestHeaders, e.prefs.staticOrigin).Ok?
    ensures var sent := ForceOrigin(req.requestHeaders, e.prefs.staticOrigin).value;
      var out := Rewritten(Transaction(req.(requestHeaders := sent)), resp);
      && ValueOf(out, Cors.Fetch.allowOrigin) ==
         (if e.prefs.staticOrigin != "" then Some(e.prefs.staticOrigin)
          else Some(ValueOf(req.requestHeaders, Cors.Fetch.origin).GetOr("*")))
      && ValueOf(out, Cors.Fetch.allowCredentials) == Some("true")
  {
    var sent := ForceOrigin(req.requestHeaders, e.prefs.staticOrigin).value;
    Cors.FetchValid();
    Cors.RewritePrecedence(Cors.Fetch, sent, resp.responseHeaders);
  }

  /** After a successful load the whitelist loses nothing but line breaks:
      its entries, concatenated, are the saved text without CR and LF. */
  lemma LoadPrefsKeepsText(e: Engine, stored: Stored)
    ensures Whitelist.Concat(LoadPrefs(e, stored).prefs.activationWhitelist)
      == Whitelist.StripBreaks(stored.activationWhitelist.GetOr(""))
  {
  }

  /** A whitelist saved one origin per line loads back as those origins. */
  lemma LoadPrefsRoundTrip(e: Engine, lines: seq<string>)
    requires |lines| >= 1 && lines[0] != ""
    requires forall i :: 0 <= i < |lines| ==> Whitelist.NoBreak(lines[i]) && lines[i] != ""
    ensures LoadPrefs(e, Stored(None, None, Some(Whitelist.Join(lines)))).prefs.activationWhitelist == lines
    ensures LoadPrefs(e, Stored(None, None, Some(Whitelist.Join(lines)))).whitelistEnabled
  {
    Whitelist.SplitJoin(lines);
    Whitelist.JoinNonEmpty(lines);
  }

  /** As written, the handler never passes a response through: it rewrites
      or it throws. */
  lemma AsWrittenNeverPassesThrough(e: Engine, resp: Response)
    ensures ResponseHandlerAsWritten(e, resp).result != Ok(None)
  {
  }

  /** Once the flag is set, the as-written handler rewrites the response of
      every origin, while the corrected one rewrites exactly the allowed
      ones: the two differ precisely on the origins outside the list. */
  lemma StickyFlagIgnoresOrigin(e: Engine, resp: Response)
    requires e.doProcess && resp.requestId in e.transactions
    requires e.transactions[resp.requestId].request.originUrl.Some?
    ensures var t := e.transactions[resp.requestId];
      && ResponseHandlerAsWritten(e, resp).result == Ok(Some(Rewritten(t, resp)))
      && (ResponseHandler(e, resp).result == ResponseHandlerAsWritten(e, resp).result
          <==> Origins.Allowed(t.request.originUrl.value))
  {
  }

  /** On an allowed origin the two handlers agree, apart from the flag the
      as-written one sets. */
  lemma AgreeWhenAllowed(e: Engine, resp: Response)
    requires resp.requestId in e.transactions
    requires var url := e.transactions[resp.requestId].request.originUrl;
      url.Some? && Origins.Allowed(url.value)
    ensures ResponseHandler(e, resp).result == ResponseHandlerAsWritten(e, resp).result
    ensures ResponseHandler(e, resp).engine == ResponseHandlerAsWritten(e, resp).engine.(doProcess := e.doProcess)
  {
  }
}
