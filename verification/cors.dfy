/** The response-header rewrite of background.js lines 224-279: append every
    missing `access-control-allow-*` header with the placeholder value
    `"null"`, then set the four values by a fixed precedence. The names are
    those of the CORS protocol section of the WHATWG Fetch Standard.

    The rewrite is stated over a `Vocabulary` of header names so that its
    proofs do not depend on the spelling of the names; `Fetch` is the one
    vocabulary the source uses. */
module Cors {
  import opened Optional
  import opened Headers

  /** The response headers the rewrite creates and the request headers whose
      values it copies. */
  datatype Vocabulary = Vocabulary(
    allowOrigin: string,
    allowMethods: string,
    allowHeaders: string,
    allowCredentials: string,
    origin: string,
    requestMethod: string,
    requestHeaders: string)
  {
    /** The created names, in the order the source creates them. */
    function AllowNames(): seq<string> {
      [allowOrigin, allowMethods, allowHeaders, allowCredentials]
    }
  }

  const Fetch := Vocabulary(
    "access-control-allow-origin",
    "access-control-allow-methods",
    "access-control-allow-headers",
    "access-control-allow-credentials",
    "origin",
    "access-control-request-method",
    "access-control-request-headers")

  /** The value a freshly created header carries until it is set. */
  const Placeholder := "null"

  /** Names that are already lower-case and pairwise distinct, so that the
      shorthand index finds an appended header under the name it was
      created with. */
  predicate WellFormedNames(names: seq<string>) {
    && (forall i :: 0 <= i < |names| ==> Lower(names[i]) == names[i])
    && (forall i, j :: 0 <= i < j < |names| ==> names[i] != names[j])
  }

  predicate Valid(v: Vocabulary) {
    WellFormedNames(v.AllowNames())
  }

  /** A vocabulary is valid when its four created names are lower-case and
      pairwise distinct. */
  lemma {:induction false} ValidByNames(v: Vocabulary)
    requires Lower(v.allowOrigin) == v.allowOrigin && Lower(v.allowMethods) == v.allowMethods
    requires Lower(v.allowHeaders) == v.allowHeaders && Lower(v.allowCredentials) == v.allowCredentials
    requires v.allowOrigin != v.allowMethods && v.allowOrigin != v.allowHeaders
    requires v.allowOrigin != v.allowCredentials && v.allowMethods != v.allowHeaders
    requires v.allowMethods != v.allowCredentials && v.allowHeaders != v.allowCredentials
    ensures Valid(v)
  {
    var ns := v.AllowNames();
    assert ns[0] == v.allowOrigin && ns[1] == v.allowMethods;
    assert ns[2] == v.allowHeaders && ns[3] == v.allowCredentials;
  }

  /** The four CORS names of the Fetch Standard are lower-case and distinct. */
  lemma FetchValid()
    ensures Valid(Fetch)
  {
    FetchLowerCase();
    assert Fetch.allowMethods[21] != Fetch.allowHeaders[21];
    ValidByNames(Fetch);
  }

  lemma FetchLowerCase()
    ensures Lower(Fetch.allowOrigin) == Fetch.allowOrigin
    ensures Lower(Fetch.allowMethods) == Fetch.allowMethods
    ensures Lower(Fetch.allowHeaders) == Fetch.allowHeaders
    ensures Lower(Fetch.allowCredentials) == Fetch.allowCredentials
  {
    AllowOriginLower();
    AllowMethodsLower();
    AllowHeadersLower();
    AllowCredentialsLower();
  }

  // One literal per lemma keeps each character-by-character check small.
  lemma AllowOriginLower() ensures Lower(Fetch.allowOrigin) == Fetch.allowOrigin {
    NoUpperIsLower(Fetch.allowOrigin);
  }

  lemma AllowMethodsLower() ensures Lower(Fetch.allowMethods) == Fetch.allowMethods {
    NoUpperIsLower(Fetch.allowMethods);
  }

  lemma AllowHeadersLower() ensures Lower(Fetch.allowHeaders) == Fetch.allowHeaders {
    NoUpperIsLower(Fetch.allowHeaders);
  }

  lemma AllowCredentialsLower() ensures Lower(Fetch.allowCredentials) == Fetch.allowCredentials {
    NoUpperIsLower(Fetch.allowCredentials);
  }

  /** The reference definition of what gets created: the names, in order,
      that no header of `hs` carries (compared lower-cased). */
  function Missing(hs: seq<Header>, names: seq<string>): (m: seq<string>)
    ensures forall n :: n in m <==> n in names && n !in Index(hs)
    ensures |m| <= |names|
  {
    if names == [] then []
    else (if names[0] in Index(hs) then [] else [names[0]]) + Missing(hs, names[1..])
  }

  /** Names taken from a duplicate-free list stay duplicate-free. */
  lemma {:induction false} MissingDistinct(hs: seq<Header>, names: seq<string>)
    requires forall i, j :: 0 <= i < j < |names| ==> names[i] != names[j]
    ensures forall i, j :: 0 <= i < j < |Missing(hs, names)| ==> Missing(hs, names)[i] != Missing(hs, names)[j]
  {
    if names != [] {
      var tail := names[1..];
      assert forall i, j :: 0 <= i < j < |tail| ==> tail[i] == names[i + 1] && tail[j] == names[j + 1];
      MissingDistinct(hs, tail);
      assert names[0] !in tail;
    }
  }

  /** Against an empty response every name is missing. */
  lemma {:induction false} MissingNone(names: seq<string>)
    ensures Missing([], names) == names
  {
    if names != [] {
      MissingNone(names[1..]);
    }
  }

  /** Fresh headers, one per name, each holding the placeholder. */
  function Placeholders(names: seq<string>): (r: seq<Header>)
    ensures |r| == |names|
    ensures forall j :: 0 <= j < |r| ==> r[j].name == names[j] && r[j].value == Some(Placeholder)
  {
    if names == [] then [] else [Header(names[0], Some(Placeholder))] + Placeholders(names[1..])
  }

  /** The `for(let name of [...])` loop of lines 229-251: a name the index
      already holds is skipped; otherwise a placeholder header is pushed and
      the index updated, so a later name sees the earlier pushes. */
  function AddMissing(hs: seq<Header>, names: seq<string>): (r: seq<Header>)
    requires WellFormedNames(names)
    ensures forall k :: k in Index(r) <==> k in Index(hs) || k in names
    decreases |names|
  {
    if names == [] then hs
    else
      var n := names[0];
      var tail := names[1..];
      assert forall i :: 0 <= i < |tail| ==> tail[i] == names[i + 1];
      assert WellFormedNames(tail);
      if n in Index(hs) then AddMissing(hs, tail)
      else
        var h := Header(n, Some(Placeholder));
        assert Lower(n) == n;
        IndexAppend(hs, h);
        AddMissing(hs + [h], tail)
  }

  /** The loop, which consults an index its own pushes keep updating, adds
      exactly the headers the reference definition `Missing` names, in
      order, after the original ones. */
  lemma {:induction false} AddMissingAppendsMissing(hs: seq<Header>, names: seq<string>)
    requires WellFormedNames(names)
    ensures AddMissing(hs, names) == hs + Placeholders(Missing(hs, names))
    decreases |names|
  {
    if names != [] {
      TailWellFormed(names);
      if names[0] in Index(hs) {
        SkipPresent(hs, names);
        AddMissingAppendsMissing(hs, names[1..]);
      } else {
        var h := Header(names[0], Some(Placeholder));
        PushAbsent(hs, names);
        AddMissingAppendsMissing(hs + [h], names[1..]);
      }
    }
  }

  /** Running the creation loop a second time adds nothing: no name is
      ever created twice. */
  lemma AddMissingIdempotent(hs: seq<Header>, names: seq<string>)
    requires WellFormedNames(names)
    ensures AddMissing(AddMissing(hs, names), names) == AddMissing(hs, names)
  {
    var h1 := AddMissing(hs, names);
    AddMissingAppendsMissing(h1, names);
    MissingAllPresent(h1, names);
    assert h1 + [] == h1;
  }

  /** Nothing is missing once every name is present. */
  lemma {:induction false} MissingAllPresent(hs: seq<Header>, names: seq<string>)
    requires forall n :: n in names ==> n in Index(hs)
    ensures Missing(hs, names) == []
  {
    if names != [] {
      assert names[0] in names;
      MissingAllPresent(hs, names[1..]);
    }
  }

  lemma TailWellFormed(names: seq<string>)
    requires WellFormedNames(names) && names != []
    ensures WellFormedNames(names[1..]) && names[0] !in names[1..]
  {
    assert forall i :: 0 <= i < |names| - 1 ==> names[1..][i] == names[i + 1];
  }

  /** One iteration of the loop on a name that is already present. */
  lemma SkipPresent(hs: seq<Header>, names: seq<string>)
    requires WellFormedNames(names) && names != [] && names[0] in Index(hs)
    ensures AddMissing(hs, names) == AddMissing(hs, names[1..])
    ensures Missing(hs, names) == Missing(hs, names[1..])
  {
  }

  /** One iteration of the loop on a name that is absent. */
  lemma PushAbsent(hs: seq<Header>, names: seq<string>)
    requires WellFormedNames(names) && names != [] && names[0] !in Index(hs)
    ensures WellFormedNames(names[1..])
    ensures AddMissing(hs, names) == AddMissing(hs + [Header(names[0], Some(Placeholder))], names[1..])
    ensures hs + Placeholders(Missing(hs, names))
      == (hs + [Header(names[0], Some(Placeholder))]) + Placeholders(Missing(hs + [Header(names[0], Some(Placeholder))], names[1..]))
  {
    var n := names[0];
    var h := Header(n, Some(Placeholder));
    TailWellFormed(names);
    assert Key(h) == n;
    MissingSkips(hs, h, names[1..]);
    MissingPushed(hs, names);
  }

  lemma MissingPushed(hs: seq<Header>, names: seq<string>)
    requires names != [] && names[0] !in Index(hs)
    ensures hs + Placeholders(Missing(hs, names))
      == (hs + [Header(names[0], Some(Placeholder))]) + Placeholders(Missing(hs, names[1..]))
  {
    var n := names[0];
    var h := Header(n, Some(Placeholder));
    var m := Missing(hs, names[1..]);
    assert Missing(hs, names) == [n] + m;
    assert ([n] + m)[1..] == m;
    assert Placeholders([n] + m) == [h] + Placeholders(m);
  }

  /** Pushing a header whose key none of `names` carries leaves the missing
      list of `names` unchanged. */
  lemma {:induction false} MissingSkips(hs: seq<Header>, h: Header, names: seq<string>)
    requires Key(h) !in names
    ensures Missing(hs + [h], names) == Missing(hs, names)
  {
    IndexAppend(hs, h);
    if names != [] {
      MissingSkips(hs, h, names[1..]);
    }
  }

  /** The prior value of a CORS header: the indexed header's value, or the
      placeholder when the header has to be created. */
  function Prior(hs: seq<Header>, n: string): (v: Option<string>)
    ensures n !in Index(hs) ==> v == Some(Placeholder)
    ensures n in Index(hs) ==> v == hs[Index(hs)[n]].value
  {
    match Get(hs, n)
    case Some(h) => h.value
    case None => Some(Placeholder)
  }

  /** The value `access-control-allow-origin` ends with: the request's
      `origin` value when present and not null, `"*"` otherwise. */
  function OriginValue(v: Vocabulary, req: seq<Header>): (r: string)
    ensures forall i :: LastWith(req, v.origin, i) && req[i].value.Some? ==> r == req[i].value.value
    ensures (forall i :: LastWith(req, v.origin, i) ==> req[i].value.None?) ==> r == "*"
  {
    forall i | LastWith(req, v.origin, i) ensures ValueOf(req, v.origin) == req[i].value {
      ValueOfLast(req, v.origin, i);
    }
    ValueOf(req, v.origin).GetOr("*")
  }

  /** `if(val present) idx[key].value = val`: assign through the index when
      there is a value to assign, otherwise change nothing. */
  function Put(hs: seq<Header>, key: string, val: Option<string>): (r: seq<Header>)
    requires key in Index(hs)
    ensures |r| == |hs| && Index(r) == Index(hs)
    ensures forall i :: 0 <= i < |hs| ==> r[i].name == hs[i].name
    ensures forall i :: 0 <= i < |hs| && i != Index(hs)[key] ==> r[i] == hs[i]
    ensures ValueOf(r, key) == if val.Some? then val else ValueOf(hs, key)
    ensures forall k :: k != key ==> ValueOf(r, k) == ValueOf(hs, k)
  {
    if val.Some? then
      SetValueHere(hs, key, val);
      forall k | k != key ensures ValueOf(SetValue(hs, key, val), k) == ValueOf(hs, k) {
        SetValueElsewhere(hs, key, val, k);
      }
      SetValue(hs, key, val)
    else hs
  }

  /** The four CORS names are four different keys. */
  lemma Distinct(v: Vocabulary)
    requires Valid(v)
    ensures v.allowOrigin != v.allowMethods && v.allowOrigin != v.allowHeaders
    ensures v.allowOrigin != v.allowCredentials && v.allowMethods != v.allowHeaders
    ensures v.allowMethods != v.allowCredentials && v.allowHeaders != v.allowCredentials
  {
    var names := v.AllowNames();
    assert names[0] != names[1] && names[0] != names[2] && names[0] != names[3];
    assert names[1] != names[2] && names[1] != names[3] && names[2] != names[3];
  }

  /** All four CORS names have an entry in the index of `hs`. */
  predicate HasAll(v: Vocabulary, hs: seq<Header>) {
    forall n :: n in v.AllowNames() ==> n in Index(hs)
  }

  /** Lines 253-279: with all four CORS headers present, set their values.
      Each assignment goes through the index; the two unconditional ones are
      the conditional one with a value that is always present. */
  function Assign(v: Vocabulary, req: seq<Header>, hs: seq<Header>): (r: seq<Header>)
    requires HasAll(v, hs)
    ensures |r| == |hs| && Index(r) == Index(hs)
  {
    var names := v.AllowNames();
    assert names[0] in names && names[1] in names && names[2] in names && names[3] in names;
    var h2 := Put(hs, v.allowOrigin, Some(OriginValue(v, req)));
    var h3 := Put(h2, v.allowMethods, ValueOf(req, v.requestMethod));
    var h4 := Put(h3, v.allowHeaders, ValueOf(req, v.requestHeaders));
    Put(h4, v.allowCredentials, Some("true"))
  }

  /** The assignments leave every position but the four indexed ones alone. */
  lemma AssignTouches(v: Vocabulary, req: seq<Header>, hs: seq<Header>)
    requires HasAll(v, hs)
    ensures var r := Assign(v, req, hs);
      && (forall i :: 0 <= i < |hs| ==> r[i].name == hs[i].name)
      && (forall i :: 0 <= i < |hs| && Untouched(v, hs, i) ==> r[i] == hs[i])
  {
    var names := v.AllowNames();
    assert names[0] in names && names[1] in names && names[2] in names && names[3] in names;
    var h2 := Put(hs, v.allowOrigin, Some(OriginValue(v, req)));
    var h3 := Put(h2, v.allowMethods, ValueOf(req, v.requestMethod));
    var h4 := Put(h3, v.allowHeaders, ValueOf(req, v.requestHeaders));
    var r := Put(h4, v.allowCredentials, Some("true"));
    assert r == Assign(v, req, hs);
    forall i | 0 <= i < |hs| ensures r[i].name == hs[i].name {
      assert r[i].name == h4[i].name == h3[i].name == h2[i].name;
    }
    forall i | 0 <= i < |hs| && Untouched(v, hs, i) ensures r[i] == hs[i] {
      assert i != Index(h4)[v.allowCredentials] && i != Index(h3)[v.allowHeaders] && i != Index(h2)[v.allowMethods];
      assert r[i] == h4[i] == h3[i] == h2[i];
    }
  }

  /** Position `i` is none of the four positions the CORS names are indexed at. */
  predicate Untouched(v: Vocabulary, hs: seq<Header>, i: int)
    requires HasAll(v, hs)
  {
    var names := v.AllowNames();
    assert names[0] in names && names[1] in names && names[2] in names && names[3] in names;
    && i != Index(hs)[v.allowOrigin] && i != Index(hs)[v.allowMethods]
    && i != Index(hs)[v.allowHeaders] && i != Index(hs)[v.allowCredentials]
  }

  /** The assignments rename nothing and touch only the header each CORS
      name is indexed at. */
  lemma AssignFrame(v: Vocabulary, req: seq<Header>, hs: seq<Header>)
    requires HasAll(v, hs)
    ensures var r := Assign(v, req, hs);
      && (forall i :: 0 <= i < |hs| ==> r[i].name == hs[i].name)
      && (forall i :: 0 <= i < |hs| && Index(hs)[Key(hs[i])] != i ==> r[i] == hs[i])
      && (forall i :: 0 <= i < |hs| && Key(hs[i]) !in v.AllowNames() ==> r[i] == hs[i])
  {
    var names := v.AllowNames();
    assert names[0] in names && names[1] in names && names[2] in names && names[3] in names;
    AssignTouches(v, req, hs);
    var r := Assign(v, req, hs);
    forall i | 0 <= i < |hs| && Index(hs)[Key(hs[i])] != i ensures r[i] == hs[i] {
      UntouchedWhen(v, hs, i);
    }
    forall i | 0 <= i < |hs| && Key(hs[i]) !in names ensures r[i] == hs[i] {
      UntouchedWhen(v, hs, i);
    }
  }

  /** A position is one of the four assigned ones only if it is where the
      index puts its own key, and that key is a CORS name. */
  lemma UntouchedWhen(v: Vocabulary, hs: seq<Header>, i: int)
    requires HasAll(v, hs) && 0 <= i < |hs|
    requires Index(hs)[Key(hs[i])] != i || Key(hs[i]) !in v.AllowNames()
    ensures Untouched(v, hs, i)
  {
    var names := v.AllowNames();
    forall n | n in names ensures i != Index(hs)[n] {
      assert Key(hs[Index(hs)[n]]) == n;
    }
    assert names[0] in names && names[1] in names && names[2] in names && names[3] in names;
  }

  /** The values the four CORS headers end with (lines 254-279). */
  lemma AssignValues(v: Vocabulary, req: seq<Header>, hs: seq<Header>)
    requires Valid(v) && HasAll(v, hs)
    ensures var r := Assign(v, req, hs);
      && ValueOf(r, v.allowOrigin) == Some(OriginValue(v, req))
      && ValueOf(r, v.allowMethods) ==
        (if ValueOf(req, v.requestMethod).Some? then ValueOf(req, v.requestMethod) else ValueOf(hs, v.allowMethods))
      && ValueOf(r, v.allowHeaders) ==
        (if ValueOf(req, v.requestHeaders).Some? then ValueOf(req, v.requestHeaders) else ValueOf(hs, v.allowHeaders))
      && ValueOf(r, v.allowCredentials) == Some("true")
  {
    Distinct(v);
    var names := v.AllowNames();
    assert names[0] in names && names[1] in names && names[2] in names && names[3] in names;
    var h2 := Put(hs, v.allowOrigin, Some(OriginValue(v, req)));
    var h3 := Put(h2, v.allowMethods, ValueOf(req, v.requestMethod));
    var h4 := Put(h3, v.allowHeaders, ValueOf(req, v.requestHeaders));
    var r := Put(h4, v.allowCredentials, Some("true"));
    assert r == Assign(v, req, hs);
    assert ValueOf(r, v.allowOrigin) == ValueOf(h4, v.allowOrigin) == ValueOf(h3, v.allowOrigin) == ValueOf(h2, v.allowOrigin);
    assert ValueOf(r, v.allowMethods) == ValueOf(h4, v.allowMethods) == ValueOf(h3, v.allowMethods);
    assert ValueOf(h2, v.allowMethods) == ValueOf(hs, v.allowMethods);
    assert ValueOf(r, v.allowHeaders) == ValueOf(h4, v.allowHeaders);
    assert ValueOf(h3, v.allowHeaders) == ValueOf(h2, v.allowHeaders) == ValueOf(hs, v.allowHeaders);
  }

  /** The assignments change nothing when every CORS header already holds
      the value they would write. */
  lemma AssignSettled(v: Vocabulary, req: seq<Header>, hs: seq<Header>)
    requires HasAll(v, hs)
    requires ValueOf(hs, v.allowOrigin) == Some(OriginValue(v, req))
    requires ValueOf(req, v.requestMethod).Some? ==> ValueOf(hs, v.allowMethods) == ValueOf(req, v.requestMethod)
    requires ValueOf(req, v.requestHeaders).Some? ==> ValueOf(hs, v.allowHeaders) == ValueOf(req, v.requestHeaders)
    requires ValueOf(hs, v.allowCredentials) == Some("true")
    ensures Assign(v, req, hs) == hs
  {
    var names := v.AllowNames();
    assert names[0] in names && names[1] in names && names[2] in names && names[3] in names;
    PutSame(hs, v.allowOrigin, Some(OriginValue(v, req)));
    PutSame(hs, v.allowMethods, ValueOf(req, v.requestMethod));
    PutSame(hs, v.allowHeaders, ValueOf(req, v.requestHeaders));
    PutSame(hs, v.allowCredentials, Some("true"));
  }

  lemma PutSame(hs: seq<Header>, key: string, val: Option<string>)
    requires key in Index(hs)
    requires val.Some? ==> ValueOf(hs, key) == val
    ensures Put(hs, key, val) == hs
  {
    if val.Some? {
      SetValueSame(hs, key, val);
    }
  }

  /** A request without an `origin` header gets the wildcard origin together
      with credentials, a pairing the CORS protocol section of the Fetch
      Standard rejects; the source produces it all the same. */
  lemma WildcardWithCredentials(req: seq<Header>, hs: seq<Header>)
    requires Fetch.origin !in Index(req)
    ensures var r := (FetchValid(); Rewrite(Fetch, req, hs));
      ValueOf(r, Fetch.allowOrigin) == Some("*") && ValueOf(r, Fetch.allowCredentials) == Some("true")
  {
    FetchValid();
    RewritePrecedence(Fetch, req, hs);
  }

  /** Rewriting a rewritten list again changes nothing. */
  lemma RewriteIdempotent(v: Vocabulary, req: seq<Header>, hs: seq<Header>)
    requires Valid(v)
    ensures Rewrite(v, req, Rewrite(v, req, hs)) == Rewrite(v, req, hs)
  {
    var names := v.AllowNames();
    var h1 := AddMissing(hs, names);
    AddMissingAppendsMissing(hs, names);
    var r1 := Rewrite(v, req, hs);
    assert r1 == Assign(v, req, h1);
    AssignValues(v, req, h1);
    assert HasAll(v, r1);
    AddMissingAppendsMissing(r1, names);
    MissingAllPresent(r1, names);
    assert AddMissing(r1, names) == r1;
    AssignSettled(v, req, r1);
  }

  /** Lines 224-279: the response headers `hs` rewritten for a request that
      carried the headers `req`. */
  function Rewrite(v: Vocabulary, req: seq<Header>, hs: seq<Header>): (r: seq<Header>)
    requires Valid(v)
    ensures |r| == |hs| + |Missing(hs, v.AllowNames())|
  {
    var h1 := AddMissing(hs, v.AllowNames());
    AddMissingAppendsMissing(hs, v.AllowNames());
    Assign(v, req, h1)
  }

  /** Every original header keeps its place and name, and only the last
      header of each CORS name may change value. */
  lemma RewriteKeeps(v: Vocabulary, req: seq<Header>, hs: seq<Header>)
    requires Valid(v)
    ensures var r := Rewrite(v, req, hs);
      && (forall i :: 0 <= i < |hs| ==> r[i].name == hs[i].name)
      && (forall i :: 0 <= i < |hs| && Index(hs)[Key(hs[i])] != i ==> r[i] == hs[i])
      && (forall i :: 0 <= i < |hs| && Key(hs[i]) !in v.AllowNames() ==> r[i] == hs[i])
  {
    var names := v.AllowNames();
    var h1 := AddMissing(hs, names);
    AddMissingAppendsMissing(hs, names);
    TargetedStable(v, hs, h1);
    AssignFrame(v, req, h1);
    var r := Rewrite(v, req, hs);
    assert r == Assign(v, req, h1);
    forall i | 0 <= i < |hs| ensures r[i].name == hs[i].name {
      assert h1[i] == hs[i];
    }
    forall i | 0 <= i < |hs| && Index(hs)[Key(hs[i])] != i ensures r[i] == hs[i] {
      assert h1[i] == hs[i];
      if Key(hs[i]) in names {
        assert Index(h1)[Key(h1[i])] != i;
      } else {
        assert Key(h1[i]) !in names;
      }
    }
    forall i | 0 <= i < |hs| && Key(hs[i]) !in names ensures r[i] == hs[i] {
      assert h1[i] == hs[i];
    }
  }

  /** The appended headers are the missing CORS names, in order. */
  lemma RewriteAppends(v: Vocabulary, req: seq<Header>, hs: seq<Header>)
    requires Valid(v)
    ensures var r := Rewrite(v, req, hs);
      var m := Missing(hs, v.AllowNames());
      forall j :: 0 <= j < |m| ==> r[|hs| + j].name == m[j] && Key(r[|hs| + j]) == m[j]
  {
    var names := v.AllowNames();
    var m := Missing(hs, names);
    var h1 := AddMissing(hs, names);
    AddMissingAppendsMissing(hs, names);
    AssignFrame(v, req, h1);
    var r := Rewrite(v, req, hs);
    assert r == Assign(v, req, h1);
    forall j | 0 <= j < |m| ensures r[|hs| + j].name == m[j] && Key(r[|hs| + j]) == m[j] {
      assert r[|hs| + j].name == h1[|hs| + j].name;
      assert m[j] in names;
    }
  }

  /** No appended header repeats an earlier key, and afterwards every CORS
      name is present. */
  lemma RewriteFresh(v: Vocabulary, req: seq<Header>, hs: seq<Header>)
    requires Valid(v)
    ensures var r := Rewrite(v, req, hs);
      && (forall i, j :: 0 <= i < j < |r| && |hs| <= j ==> Key(r[i]) != Key(r[j]))
      && HasAll(v, r)
  {
    var names := v.AllowNames();
    var h1 := AddMissing(hs, names);
    AddMissingAppendsMissing(hs, names);
    AppendedFresh(hs, names);
    AssignFrame(v, req, h1);
    var r := Rewrite(v, req, hs);
    assert r == Assign(v, req, h1);
    forall i, j | 0 <= i < j < |r| && |hs| <= j ensures Key(r[i]) != Key(r[j]) {
      assert r[i].name == h1[i].name && r[j].name == h1[j].name;
    }
    assert Index(r) == Index(h1);
  }

  /** The precedence of lines 253-279, stated against the original response:
      the origin is echoed or `"*"`, methods and headers are copied from the
      request or keep their prior value, credentials are always `"true"`. */
  lemma RewritePrecedence(v: Vocabulary, req: seq<Header>, hs: seq<Header>)
    requires Valid(v)
    ensures var r := Rewrite(v, req, hs);
      && ValueOf(r, v.allowOrigin) == Some(OriginValue(v, req))
      && ValueOf(r, v.allowMethods) ==
        (if ValueOf(req, v.requestMethod).Some? then ValueOf(req, v.requestMethod) else Prior(hs, v.allowMethods))
      && ValueOf(r, v.allowHeaders) ==
        (if ValueOf(req, v.requestHeaders).Some? then ValueOf(req, v.requestHeaders) else Prior(hs, v.allowHeaders))
      && ValueOf(r, v.allowCredentials) == Some("true")
  {
    var names := v.AllowNames();
    var h1 := AddMissing(hs, names);
    AddMissingAppendsMissing(hs, names);
    assert names[1] in names && names[2] in names;
    PriorAfterAdd(hs, names, v.allowMethods);
    PriorAfterAdd(hs, names, v.allowHeaders);
    AssignValues(v, req, h1);
  }

  /** Pushing the placeholders moves no index entry of a CORS name that the
      original list already carries. */
  lemma TargetedStable(v: Vocabulary, hs: seq<Header>, h1: seq<Header>)
    requires Valid(v)
    requires h1 == hs + Placeholders(Missing(hs, v.AllowNames()))
    ensures forall i :: 0 <= i < |hs| && Key(hs[i]) in v.AllowNames() ==>
      h1[i] == hs[i] && Index(h1)[Key(hs[i])] == Index(hs)[Key(hs[i])]
  {
    var names := v.AllowNames();
    var m := Missing(hs, names);
    MissingWellFormed(hs, names);
    PlaceholdersIndex(m);
    forall i | 0 <= i < |hs| && Key(hs[i]) in names
      ensures h1[i] == hs[i] && Index(h1)[Key(hs[i])] == Index(hs)[Key(hs[i])]
    {
      IndexConcat(hs, Placeholders(m), Key(hs[i]));
    }
  }

  /** Placeholders for lower-case, pairwise distinct names are indexed by
      exactly those names, each at its own position. */
  lemma PlaceholdersIndex(m: seq<string>)
    requires WellFormedNames(m)
    ensures forall k :: k in Index(Placeholders(m)) <==> k in m
    ensures forall j :: 0 <= j < |m| ==> Index(Placeholders(m))[m[j]] == j
  {
    var ps := Placeholders(m);
    assert forall j :: 0 <= j < |m| ==> Key(ps[j]) == m[j];
  }

  /** `Missing` picks names out of a well-formed list, so it is well formed. */
  lemma MissingWellFormed(hs: seq<Header>, names: seq<string>)
    requires WellFormedNames(names)
    ensures WellFormedNames(Missing(hs, names))
  {
    MissingDistinct(hs, names);
    var m := Missing(hs, names);
    forall i | 0 <= i < |m| ensures Lower(m[i]) == m[i] {
      assert m[i] in names;
    }
  }

  /** After the placeholders are pushed, the value indexed under one of the
      names is its prior value. */
  lemma PriorAfterAdd(hs: seq<Header>, names: seq<string>, n: string)
    requires WellFormedNames(names) && n in names
    ensures n in Index(hs + Placeholders(Missing(hs, names)))
    ensures ValueOf(hs + Placeholders(Missing(hs, names)), n) == Prior(hs, n)
  {
    var m := Missing(hs, names);
    var ps := Placeholders(m);
    MissingWellFormed(hs, names);
    PlaceholdersIndex(m);
    IndexConcat(hs, ps, n);
    if n !in Index(hs) {
      assert n in m;
      var j :| 0 <= j < |m| && m[j] == n;
      assert (hs + ps)[|hs| + j] == ps[j];
    }
  }

  /** The pushed headers carry keys that nothing before them carries. */
  lemma AppendedFresh(hs: seq<Header>, names: seq<string>)
    requires WellFormedNames(names)
    ensures var h1 := hs + Placeholders(Missing(hs, names));
      forall i, j :: 0 <= i < j < |h1| && |hs| <= j ==> Key(h1[i]) != Key(h1[j])
  {
    var m := Missing(hs, names);
    var h1 := hs + Placeholders(m);
    MissingDistinct(hs, names);
    forall i, j | 0 <= i < j < |h1| && |hs| <= j ensures Key(h1[i]) != Key(h1[j]) {
      assert m[j - |hs|] in m;
      if i >= |hs| {
        assert m[i - |hs|] in m;
      }
    }
  }
}
