/** The hard-coded origin allowlist and the prefix test the response handler
    runs against it (background.js lines 1-5 and 209-215). */
module Origins {

  /** `allowedOrigins`, in source order. */
  const AllowedOrigins: seq<string> := [
    "https://terminal-test.cryptocontrol.io",
    "https://terminal.cryptocontrol.io",
    "http://localhost:3000"
  ]

  /** `p` sits in `s` starting at position `i`. */
  predicate OccursAt(s: string, p: string, i: nat) {
    i + |p| <= |s| && s[i..i + |p|] == p
  }

  /** `s.indexOf(p)` searched from position `k` onwards. */
  function IndexOfFrom(s: string, p: string, k: nat): (r: int)
    requires k <= |s|
    ensures r == -1 || (k <= r && OccursAt(s, p, r))
    ensures forall i :: k <= i && (r == -1 || i < r) ==> !OccursAt(s, p, i)
    decreases |s| - k
  {
    if k + |p| > |s| then -1
    else if s[k..k + |p|] == p then k
    else IndexOfFrom(s, p, k + 1)
  }

  /** JavaScript `String.prototype.indexOf`: the first position at which `p`
      occurs in `s`, or -1 when it occurs nowhere. */
  function IndexOf(s: string, p: string): (r: int)
    ensures r == -1 || (0 <= r && OccursAt(s, p, r))
    ensures forall i: nat :: (r == -1 || i < r) ==> !OccursAt(s, p, i)
  {
    IndexOfFrom(s, p, 0)
  }

  /** `s.indexOf(p) === 0` is exactly "`p` is a prefix of `s`". */
  lemma IndexOfZeroIsPrefix(s: string, p: string)
    ensures IndexOf(s, p) == 0 <==> p <= s
  {
    if p <= s {
      assert OccursAt(s, p, 0);
    }
  }

  /** The `forEach` over the allowlist: true when some entry `o` has
      `url.indexOf(o) === 0`. */
  function AnyPrefix(url: string, origins: seq<string>): (r: bool)
    ensures r <==> exists i :: 0 <= i < |origins| && origins[i] <= url
  {
    if origins == [] then false
    else
      IndexOfZeroIsPrefix(url, origins[0]);
      var rest := AnyPrefix(url, origins[1..]);
      assert forall i :: 1 <= i < |origins| ==> origins[i] == origins[1..][i - 1];
      IndexOf(url, origins[0]) == 0 || rest
  }

  /** The rewrite decision for a request whose document is at `url`. */
  predicate Allowed(url: string) {
    AnyPrefix(url, AllowedOrigins)
  }

  /** The decision holds exactly for URLs that start with one of the three
      hard-coded origins; a bare entry matches itself. */
  lemma AllowedIffPrefix(url: string)
    ensures Allowed(url) <==>
      || "https://terminal-test.cryptocontrol.io" <= url
      || "https://terminal.cryptocontrol.io" <= url
      || "http://localhost:3000" <= url
  {
    assert AllowedOrigins[0] == "https://terminal-test.cryptocontrol.io";
    assert AllowedOrigins[1] == "https://terminal.cryptocontrol.io";
    assert AllowedOrigins[2] == "http://localhost:3000";
  }

  /** A prefix match is not an origin match: a look-alike host that merely
      begins with an allowed origin string is allowed too. */
  lemma LookAlikeHostAllowed()
    ensures Allowed("http://localhost:30000/evil")
    ensures Allowed("https://terminal.cryptocontrol.io.example.net/")
  {
    AllowedIffPrefix("http://localhost:30000/evil");
    AllowedIffPrefix("https://terminal.cryptocontrol.io.example.net/");
  }

  /** A document on another site is not allowed. */
  lemma OtherSiteNotAllowed()
    ensures !Allowed("https://b.example/page")
  {
    var u := "https://b.example/page";
    AllowedIffPrefix(u);
    assert u[8] == 'b';
    assert "https://terminal-test.cryptocontrol.io"[8] == 't';
    assert "https://terminal.cryptocontrol.io"[8] == 't';
    assert "http://localhost:3000"[4] == ':' && u[4] == 's';
  }
}
