# CORS header rewriting engine of the CorsE extension

This project models the core of `background.js`, a browser extension that
bypasses CORS. The model covers:

- `requestHandler` indexes the request headers by lower-cased name and
  stores a transaction under the request id. When a static origin is
  configured, it also forces the value of the `origin` header.
- `responseHandler` looks up the stored transaction. It decides from the
  hard-coded `allowedOrigins` prefixes whether to rewrite.
  - If it rewrites, it appends any missing `access-control-allow-*` header
    with the value `"null"`, then sets the four values in a fixed order of
    precedence.
  - It then deletes the transaction.
- `toggle` flips `enabled` or sets it, and empties the store.
- `loadPrefs` splits the activation whitelist on runs of CR/LF and sets the
  whitelist flag.

The header names are those of the CORS protocol section of the WHATWG Fetch
Standard. Names are compared case-insensitively, as section 5.1 of RFC 9110
requires.

Each handler is a pure function from the engine state and its input to the
next state and a `Result`. A JavaScript exception becomes `Err(Fault)`,
returned with the state the source leaves behind when it throws. For
example, `requestHandler` has already stored the transaction when it throws
at line 187, and `responseHandler` throws before it deletes anything.

The module layout follows the structure of the source:

| file | module | what it models |
|---|---|---|
| `optional.dfy` | `Optional` | `Option` (JS `null`/`undefined`) and `Result` (value or thrown fault) |
| `headers.dfy` | `Headers` | `toLowerCase`, the shorthand index `idx[name.toLowerCase()] = header` (the last header wins), lookups and assignments through the index |
| `origins.dfy` | `Origins` | `String.prototype.indexOf`, and the `allowedOrigins` prefix test |
| `whitelist.dfy` | `Whitelist` | `split(/[\r\n]+/)` and the whitelist flag |
| `cors.dfy` | `Cors` | the creation loop and the value precedence of `responseHandler` |
| `engine.dfy` | `Engine` | the state, both handlers, `toggle`, `loadPrefs` |
| `scenarios.dfy` | `Scenarios` | concrete exchanges: the trading-terminal example, and the `doProcess` defect |

### Edge cases the code decides

The model follows the code in each of these cases:

- **Response with no stored transaction.** Line 210 reads
  `transaction.request` of an undefined transaction and throws.
  `ResponseHandler` returns `Err(NoTransaction)` and leaves the state alone.
- **Static origin but no `origin` header.** Line 187 assigns through an
  undefined index entry and throws, after line 183 has stored the
  transaction. `ForceOrigin` returns `Err(NoOriginHeader)`, and
  `RequestHandler` keeps the stored transaction.
- **Which list decides the rewrite.** Line 209 consults only the
  hard-coded `allowedOrigins` of lines 1-5. The parsed
  `activationWhitelist` of lines 121-127 sets only the whitelist flag.
- **What a pass-through returns.** Line 287 returns
  `transaction.response.responseHeaders`, and `transaction.response` is
  still the `{}` of line 173 when nothing was rewritten. The result is
  `undefined`, which the model writes as `None`.
- **The `doProcess` flag.** The declaration at line 207 is commented out,
  so the flag is an implicit global whose state carries over between
  responses (see Findings).

## Model

| member | source | states |
|---|---|---|
| Headers.LowerChar | background.js:179 | `toLowerCase` maps `A`-`Z` to `a`-`z` and leaves every other character alone |
| Headers.Lower | background.js:179 | lower-casing keeps the length and lower-cases each character in place |
| Headers.NoUpperIsLower | background.js:225 | a string is its own lower-case form exactly when it has no upper-case letter, and lower-casing twice equals lower-casing once |
| Headers.Index | background.js:178-180 | the shorthand object has an entry for the lower-cased name of every header, and each entry points at a header with that name with no later header sharing it (the last one wins) |
| Headers.IndexOnlyNames | background.js:224-226 | the index depends only on the names, so changing values never moves an entry |
| Headers.IndexAppend | background.js:247-250 | pushing a header and updating the shorthand leaves the index the loop would rebuild from the longer list |
| Headers.IndexConcat | background.js:224-226 | indexing `a + b`: a key of `b` points into `b` shifted by `|a|`, and any other key keeps its position in `a` |
| Headers.Get | background.js:236 | `idx[name]` is a header with that lower-cased name whenever it is defined, and it is undefined only when no header carries that name |
| Headers.GetLast | background.js:178-180 | when several headers share a lower-cased name, `idx[name]` is the last of them, because later writes to the shorthand object win |
| Headers.ValueOf | background.js:271-272 | the `idx[key] && idx[key].value !== null` guard: a name no header carries gives no value |
| Headers.ValueOfLast | background.js:255-256 | the guarded lookup sees the value of the last header with that lower-cased name, and a `null` value reads as absent |
| Headers.ValueOfAbsent | background.js:262-263 | the guarded lookup of a name no header carries finds no value, so the conditional assignment is skipped |
| Headers.SetValue | background.js:187 | assigning through the index changes only the value of the indexed header: same length, same names, same index |
| Headers.SetValueHere | background.js:254-258 | after assigning `v` under a key, a lookup of that key sees `v` |
| Headers.SetValueElsewhere | background.js:261-267 | assigning under one key changes no lookup under any other key |
| Headers.SetValueSame | background.js:279 | assigning the value a lookup already sees leaves the list unchanged |
| Origins.IndexOf | background.js:210 | `indexOf` is `-1` when there is no occurrence, and otherwise the position of the first one |
| Origins.IndexOfZeroIsPrefix | background.js:210 | `indexOf(obj) === 0` holds exactly when `obj` is a prefix |
| Origins.AnyPrefix | background.js:209-215 | the `forEach` sets the flag exactly when some entry of the list is a prefix of the URL |
| Origins.AllowedIffPrefix | background.js:1-5 | a URL is allowed exactly when it starts with one of the three hard-coded origins |
| Origins.LookAlikeHostAllowed | background.js:1-5 | a prefix test is not a host test: `http://localhost:30000/evil` and `https://terminal.cryptocontrol.io.example.net/` are allowed |
| Origins.OtherSiteNotAllowed | background.js:1-5 | `https://b.example/page` is not allowed |
| Whitelist.DropBreaks | background.js:122 | skipping a run of separators removes a prefix made only of CR/LF and stops at a non-separator |
| Whitelist.Split | background.js:122 | `split(/[\r\n]+/)` gives at least one piece, no piece contains CR or LF, a piece between two separators is never empty, and input that starts with text gives a non-empty first piece |
| Whitelist.Runs | background.js:122 | the separators are maximal runs: each is non-empty and made only of CR and LF |
| Whitelist.SplitWeave | background.js:122 | there is exactly one run between each two pieces, and the pieces with the runs put back between them are the input |
| Whitelist.RunIsOneSeparator | background.js:122 | `"a\r\n\nb"` parses to `["a", "b"]`: a run of several breaks is one separator |
| Whitelist.SplitKeepsText | background.js:122 | the pieces, concatenated, are the input with every CR and LF removed |
| Whitelist.SplitJoin | background.js:122 | lines joined with `\n` split back into the same lines |
| Whitelist.Parse | background.js:121-123 | the parsed whitelist is empty exactly for the empty string, its entries hold no line break, no inner entry is empty, and together they keep all the other text |
| Whitelist.Enabled | background.js:125-127 | the whitelist flag is set exactly when the saved string is non-empty |
| Whitelist.BreakOnlyEnables | background.js:121-127 | a saved `"\n"` parses into two empty entries and still sets the flag |
| Cors.FetchValid | background.js:229-234 | the four created names are lower-case and pairwise distinct |
| Cors.Missing | background.js:235-238 | the names to create are exactly the listed names that no header carries |
| Cors.Placeholders | background.js:241-244 | each created header has the listed name and the value `"null"` |
| Cors.AddMissing | background.js:229-251 | after the loop, the index holds every old key and every listed name |
| Cors.AddMissingAppendsMissing | background.js:229-251 | the loop appends exactly one placeholder per missing name, in list order, after the original headers |
| Cors.AddMissingIdempotent | background.js:229-251 | running the creation loop twice creates nothing more |
| Cors.Prior | background.js:243 | the value a CORS header holds before the assignments is its existing value, or `"null"` when it was just created |
| Cors.OriginValue | background.js:254-258 | allow-origin takes the value of the last `origin` request header when it is not null, and `*` when there is no such header or its value is null |
| Cors.Put | background.js:261-276 | a conditional assignment sets the value only when the request supplies one, and no other key is affected |
| Cors.Assign | background.js:253-279 | the four assignments keep the length and the index |
| Cors.AssignFrame | background.js:253-279 | the assignments rename nothing and leave every header alone except those the four names are indexed at |
| Cors.AssignValues | background.js:253-279 | after the assignments: origin is the request's `origin` value or `*`, methods and headers take the request's value when it is non-null, and credentials is `"true"` |
| Cors.AssignSettled | background.js:253-279 | the assignments change nothing when the four headers already hold their target values |
| Cors.Rewrite | background.js:224-279 | the rewrite adds exactly as many headers as there are missing CORS names |
| Cors.RewriteKeeps | background.js:224-279 | no header is removed, reordered or renamed, and a header is changed only if it is the one indexed under a CORS name |
| Cors.RewriteAppends | background.js:229-251 | the appended headers carry the missing CORS names in fixed order |
| Cors.RewriteFresh | background.js:229-251 | no appended header repeats an earlier name, and afterwards all four CORS names are present |
| Cors.RewritePrecedence | background.js:253-279 | measured against the original response: origin is echoed or `*`, methods and headers come from the request or keep their prior value (`"null"` if created), and credentials is always `"true"` |
| Cors.WildcardWithCredentials | background.js:253-279 | a request without `origin` is answered with allow-origin `*` and allow-credentials `"true"`, the pairing the Fetch Standard's CORS check rejects |
| Cors.RewriteIdempotent | background.js:224-279 | rewriting a rewritten response again with the same request changes nothing |
| Engine.ForceOrigin | background.js:186-188 | with a static origin set, the `origin` lookup sees it, and every header except the last `origin` one is unchanged, as are all names and every other lookup. With no `origin` header the assignment throws |
| Engine.RequestHandler | background.js:167-194 | the transaction is stored under the request id, overwriting any earlier entry and keeping every other one. The stored request is the forwarded one, including the forced origin. On a throw, the unmodified request is stored |
| Engine.ResponseHandlerAsWritten | background.js:200-289 | as written: it throws when there is no transaction, no origin URL, or a flag that was never set. Given a transaction with an origin URL, it succeeds exactly when the flag is already set or the URL is allowed, and then it rewrites, sets the flag, and deletes only this id |
| Engine.ResponseHandler | background.js:200-289 | with the flag declared per response: it throws only when there is no transaction or no origin URL. A stored response with an origin URL is rewritten exactly when that URL is allowed, and passed through otherwise. Only this id is deleted. A throw changes nothing |
| Engine.Toggle | background.js:53-68 | a boolean argument sets `enabled`, no argument negates it, and the store ends empty |
| Engine.ToggleForgetsRequests | background.js:68 | a response to a request made before a toggle finds no transaction |
| Engine.ToggleTwice | background.js:56-62 | two argument-less toggles restore `enabled`, and only the store is lost |
| Engine.LoadPrefs | background.js:116-127 | unsaved keys default to `false` or `""`, the whitelist entries hold no line breaks, and the flag is set exactly when the list is non-empty, that is, when the saved text is non-empty |
| Engine.LoadPrefsKeepsText | background.js:121-123 | the loaded whitelist keeps all of the saved text except the line breaks |
| Engine.LoadPrefsRoundTrip | background.js:121-127 | origins saved one per line load back as the same list, with the flag set |
| Engine.RequestThenResponse | background.js:183-283 | a request and its response on an allowed origin: the response returns the rewrite against the forwarded request, and the store ends as it was apart from that id |
| Engine.ExchangeEchoesOrigin | background.js:254-258 | an exchange answers with the static origin when one is configured, otherwise with the request's `origin` value or `*`, and credentials is `"true"` |
| Engine.AsWrittenNeverPassesThrough | background.js:207-218 | as written, no response is ever passed through: it is rewritten or the handler throws |
| Engine.StickyFlagIgnoresOrigin | background.js:207-218 | once the flag is set, the as-written handler rewrites every origin. It agrees with the corrected one exactly on allowed origins |
| Engine.AgreeWhenAllowed | background.js:207-218 | on an allowed origin, the as-written and corrected handlers return the same result and state, apart from the flag |
| Scenarios.AppUrlAllowed | background.js:1-5 | `https://terminal.cryptocontrol.io/app` is allowed |
| Scenarios.RewriteOfEmpty | background.js:229-279 | an empty response gets four headers, filled from the request or with `"null"` |
| Scenarios.TerminalExchange | background.js:167-289 | a terminal request with `Origin` and an empty response give allow-origin = that origin, methods and headers `"null"`, credentials `"true"` |
| Scenarios.ForeignFirstThrows | background.js:218 | from a fresh start, a response for `https://b.example/page` throws as written and leaves the transaction stored. The corrected handler passes it through |
| Scenarios.ForeignRewrittenAfterTerminal | background.js:209-218 | after one terminal exchange, the as-written handler rewrites the response for `https://b.example/page`. The corrected handler passes it through |

## Left out

- `init`, the listener add/remove calls in `toggle`, `updateButton`, and the `browser.tabs` messaging are calls into the browser API. While `enabled` is true the handlers are registered; the model does not represent the registration.
- The promise around `browser.storage.sync.get` in `loadPrefs` is asynchronous I/O. `LoadPrefs` receives the stored values as a parameter.
- `test/bg.js` is notification and tab plumbing with no logic of its own, so it is not part of this model.
- Concurrency: the handlers run one at a time on the event loop, so the store is a plain map.
- Object aliasing between the shorthand index and the header array is modelled as an assignment at the indexed position of an immutable sequence.
- Headers.Lower: lower-cases ASCII `A`-`Z` only, not the full Unicode mapping `toLowerCase` performs.
- Header values that are `undefined` (headers carrying `binaryValue`) are not distinguished from `null`.
- The shorthand maps are ordinary objects, so a header named `__proto__` would behave differently. The model treats every name as an ordinary key.
- The stored preference values are modelled as booleans and strings. Other JavaScript values saved under those keys are not modelled.
- Before `loadPrefs` completes, `prefs` is `{}`. The initial state uses the defaults `false`, `""` and `[]` instead, which read the same in every handler.

## Findings

| source | as written | input that shows it | evidently intended | confidence | as-written member | corrected member |
|---|---|---|---|---|---|---|
| background.js:207-218 | `let doProcess = false;` is commented out, so `doProcess` is an implicit global that the prefix loop only ever sets to `true` | From a fresh start, a request from `https://b.example/page` makes line 218 throw. After one exchange with `https://terminal.cryptocontrol.io/app`, the same request's response is rewritten | a flag reset for every response, so origins outside `allowedOrigins` pass through unmodified | high; not executed | Engine.ResponseHandlerAsWritten | Engine.ResponseHandler |
