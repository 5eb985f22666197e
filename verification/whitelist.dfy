/** The activation whitelist preference: a user-typed string split into
    entries at every run of line breaks (`split(/[\r\n]+/)`, background.js
    lines 121-127). */
module Whitelist {

  predicate IsBreak(c: char) {
    c == '\r' || c == '\n'
  }

  predicate NoBreak(s: string) {
    forall i :: 0 <= i < |s| ==> !IsBreak(s[i])
  }

  /** A string made only of line breaks, possibly empty. */
  predicate NoText(s: string) {
    forall i :: 0 <= i < |s| ==> IsBreak(s[i])
  }

  /** `s` with its leading run of line breaks removed. */
  function DropBreaks(s: string): (r: string)
    ensures |r| <= |s| && r == s[|s| - |r|..]
    ensures forall i :: 0 <= i < |s| - |r| ==> IsBreak(s[i])
    ensures r == [] || !IsBreak(r[0])
  {
    if s != [] && IsBreak(s[0]) then DropBreaks(s[1..]) else s
  }

  /** `s.split(/[\r\n]+/)`: the pieces between maximal runs of CR and LF.
      A leading or trailing run yields an empty first or last piece. */
  function Split(s: string): (r: seq<string>)
    ensures |r| >= 1
    ensures forall i :: 0 <= i < |r| ==> NoBreak(r[i])
    ensures s != [] && !IsBreak(s[0]) ==> r[0] != ""
    ensures forall i :: 0 < i < |r| - 1 ==> r[i] != ""
  {
    if s == [] then [""]
    else if IsBreak(s[0]) then [""] + Split(DropBreaks(s[1..]))
    else
      var t := Split(s[1..]);
      [[s[0]] + t[0]] + t[1..]
  }

  /** The inverse direction: entries joined with single line feeds. */
  function Join(parts: seq<string>): string
    requires |parts| >= 1
  {
    if |parts| == 1 then parts[0] else parts[0] + "\n" + Join(parts[1..])
  }

  /** Every character of `s` that is not a line break, in order. */
  function StripBreaks(s: string): (r: string)
    ensures NoBreak(r)
    ensures |r| <= |s|
  {
    if s == [] then ""
    else if IsBreak(s[0]) then StripBreaks(s[1..])
    else [s[0]] + StripBreaks(s[1..])
  }

  function Concat(parts: seq<string>): string {
    if parts == [] then "" else parts[0] + Concat(parts[1..])
  }

  /** Splitting loses only the line breaks: the pieces, concatenated, are the
      input with every CR and LF removed. */
  lemma {:induction false} SplitKeepsText(s: string)
    ensures Concat(Split(s)) == StripBreaks(s)
    decreases |s|
  {
    if s == [] {
    } else if IsBreak(s[0]) {
      var d := DropBreaks(s[1..]);
      SplitKeepsText(d);
      StripDropped(s[1..]);
      assert Split(s)[1..] == Split(d);
    } else {
      var t := Split(s[1..]);
      SplitKeepsText(s[1..]);
      assert Split(s)[1..] == t[1..];
      assert Concat(t) == t[0] + Concat(t[1..]);
    }
  }

  lemma {:induction false} StripDropped(s: string)
    ensures StripBreaks(DropBreaks(s)) == StripBreaks(s)
    decreases |s|
  {
    if s != [] && IsBreak(s[0]) {
      StripDropped(s[1..]);
    }
  }

  /** A break-free prefix glues onto the first piece. */
  lemma {:induction false} SplitAfterText(p: string, t: string)
    requires NoBreak(p)
    ensures Split(p + t) == [p + Split(t)[0]] + Split(t)[1..]
    decreases |p|
  {
    if p != [] {
      assert (p + t)[1..] == p[1..] + t;
      assert (p + t)[0] == p[0];
      assert !IsBreak(p[0]) && NoBreak(p[1..]);
      SplitAfterText(p[1..], t);
      var tail := Split(p[1..] + t);
      assert tail[0] == p[1..] + Split(t)[0] && tail[1..] == Split(t)[1..];
      assert Split(p + t) == [[p[0]] + tail[0]] + tail[1..];
      assert [p[0]] + (p[1..] + Split(t)[0]) == p + Split(t)[0];
    } else {
      assert p + t == t && p + Split(t)[0] == Split(t)[0];
      assert [Split(t)[0]] + Split(t)[1..] == Split(t);
    }
  }

  /** Splitting undoes joining, as long as no entry holds a line break and
      no inner entry is empty (an empty inner entry would make two breaks
      adjacent, and a run of breaks is a single separator). */
  lemma {:induction false} SplitJoin(parts: seq<string>)
    requires |parts| >= 1
    requires forall i :: 0 <= i < |parts| ==> NoBreak(parts[i])
    requires forall i :: 0 < i < |parts| - 1 ==> parts[i] != ""
    ensures Split(Join(parts)) == parts
    decreases |parts|
  {
    if |parts| == 1 {
      SplitAfterText(parts[0], "");
      assert Split("") == [""] && parts[0] + "" == parts[0];
      assert Join(parts) == parts[0] && [parts[0]] == parts;
    } else {
      var rest := parts[1..];
      var u := Join(rest);
      SplitJoin(rest);
      assert Join(parts) == parts[0] + ("\n" + u);
      SplitAfterText(parts[0], "\n" + u);
      assert ("\n" + u)[1..] == u;
      if u != [] {
        JoinHead(rest);
      }
      assert DropBreaks(u) == u;
      var sep := Split("\n" + u);
      assert sep == [""] + Split(u);
      assert sep[0] == "" && sep[1..] == rest;
      assert parts[0] + sep[0] == parts[0];
      assert [parts[0]] + rest == parts;
    }
  }

  /** A joined list whose first entry is non-empty, or which has a single
      entry, starts with that entry's first character. */
  lemma JoinHead(parts: seq<string>)
    requires |parts| >= 1
    requires forall i :: 0 <= i < |parts| ==> NoBreak(parts[i])
    requires |parts| == 1 || parts[0] != ""
    requires Join(parts) != []
    ensures !IsBreak(Join(parts)[0])
  {
    if |parts| > 1 {
      assert Join(parts)[0] == parts[0][0];
    }
  }

  /** The maximal runs of line breaks in `s`, in order: the separators
      `split(/[\r\n]+/)` cuts at. */
  function Runs(s: string): (r: seq<string>)
    ensures forall i :: 0 <= i < |r| ==> Run(r[i])
    decreases |s|
  {
    if s == [] then []
    else if IsBreak(s[0]) then
      var d := DropBreaks(s[1..]);
      [s[..|s| - |d|]] + Runs(d)
    else Runs(s[1..])
  }

  /** A non-empty string made only of line breaks. */
  predicate Run(s: string) {
    s != [] && NoText(s)
  }

  /** The pieces with the separators put back between them. */
  function Weave(parts: seq<string>, seps: seq<string>): string
    requires |seps| == |parts| - 1
  {
    if |parts| == 1 then parts[0] else parts[0] + seps[0] + Weave(parts[1..], seps[1..])
  }

  /** The split is exact: there is one separator between each two pieces,
      each separator is a whole run of CR/LF, and putting the runs back
      between the pieces gives the input. */
  lemma {:induction false} SplitWeave(s: string)
    ensures |Runs(s)| == |Split(s)| - 1
    ensures Weave(Split(s), Runs(s)) == s
    decreases |s|
  {
    if s == [] {
    } else if IsBreak(s[0]) {
      SplitWeave(DropBreaks(s[1..]));
      WeaveBreak(s);
    } else {
      SplitWeave(s[1..]);
      WeaveText(s);
    }
  }

  /** The step of `SplitWeave` for an input that starts with a break. */
  lemma WeaveBreak(s: string)
    requires s != [] && IsBreak(s[0])
    requires var d := DropBreaks(s[1..]); |Runs(d)| == |Split(d)| - 1 && Weave(Split(d), Runs(d)) == d
    ensures |Runs(s)| == |Split(s)| - 1
    ensures Weave(Split(s), Runs(s)) == s
  {
    var d := DropBreaks(s[1..]);
    var k := RunThenRest(s);
    var ps, rs := Split(s), Runs(s);
    assert ps == [""] + Split(d);
    assert rs == [s[..k]] + Runs(d);
    assert ps[1..] == Split(d) && rs[1..] == Runs(d);
    assert Weave(ps, rs) == "" + s[..k] + d;
  }

  /** An input that starts with a break is its leading run followed by the
      rest `DropBreaks` leaves. */
  lemma RunThenRest(s: string) returns (k: nat)
    requires s != [] && IsBreak(s[0])
    ensures k == |s| - |DropBreaks(s[1..])| && 1 <= k <= |s|
    ensures s[..k] + DropBreaks(s[1..]) == s
    ensures "" + s[..k] + DropBreaks(s[1..]) == s
  {
    var d := DropBreaks(s[1..]);
    k := |s| - |d|;
    var t := s[1..];
    assert d == t[|t| - |d|..];
    assert t[|t| - |d|..] == s[k..];
    assert s[..k] + s[k..] == s;
  }

  /** The step of `SplitWeave` for an input that starts with other text. */
  lemma WeaveText(s: string)
    requires s != [] && !IsBreak(s[0])
    requires |Runs(s[1..])| == |Split(s[1..])| - 1 && Weave(Split(s[1..]), Runs(s[1..])) == s[1..]
    ensures |Runs(s)| == |Split(s)| - 1
    ensures Weave(Split(s), Runs(s)) == s
  {
    var t := Split(s[1..]);
    assert Split(s) == [[s[0]] + t[0]] + t[1..];
    assert Runs(s) == Runs(s[1..]);
    WeaveHead([s[0]], t, Runs(s[1..]));
    assert [s[0]] + s[1..] == s;
  }

  /** Prefixing the first piece prefixes the woven string. */
  lemma WeaveHead(p: string, parts: seq<string>, seps: seq<string>)
    requires |parts| >= 1 && |seps| == |parts| - 1
    ensures Weave([p + parts[0]] + parts[1..], seps) == p + Weave(parts, seps)
  {
    var q := [p + parts[0]] + parts[1..];
    assert q[1..] == parts[1..];
    if |parts| > 1 {
      assert Weave(q, seps) == (p + parts[0]) + seps[0] + Weave(parts[1..], seps[1..]);
    }
  }

  /** The parsed preference: `[]` for an empty string, otherwise the split. */
  function Parse(s: string): (r: seq<string>)
    ensures |r| == 0 <==> s == ""
    ensures forall i :: 0 <= i < |r| ==> NoBreak(r[i])
    ensures forall i :: 0 < i < |r| - 1 ==> r[i] != ""
    ensures Concat(r) == StripBreaks(s)
  {
    if s == "" then []
    else
      SplitKeepsText(s);
      Split(s)
  }

  /** `activationWhitelistEnabled`: the parsed list is non-empty, which
      happens exactly when the preference string is non-empty, even one that
      holds nothing but line breaks. */
  function Enabled(s: string): (b: bool)
    ensures b <==> s != ""
  {
    |Parse(s)| > 0
  }

  /** Joining pieces whose first one is not empty gives a non-empty text. */
  lemma JoinNonEmpty(parts: seq<string>)
    requires |parts| >= 1 && parts[0] != ""
    ensures Join(parts) != ""
  {
    if |parts| > 1 {
      assert |Join(parts)| >= |parts[0]|;
    }
  }

  /** A run of several breaks is one separator, not an empty entry. */
  lemma RunIsOneSeparator()
    ensures Parse("a\r\n\nb") == ["a", "b"]
  {
    var tail := "\r\n\nb";
    assert "a\r\n\nb" == "a" + tail;
    SplitAfterText("a", tail);
    SplitOfRun();
    assert Split(tail)[0] == "" && Split(tail)[1..] == ["b"] && "a" + "" == "a";
    assert Parse("a" + tail) == Split("a" + tail);
  }

  lemma SplitOfRun()
    ensures Split("\r\n\nb") == ["", "b"]
  {
    var tail := "\r\n\nb";
    SplitAfterText("b", "");
    assert Split("") == [""] && "b" + "" == "b";
    assert tail[1..] == "\n\n" + "b";
    DropRun("\n\n", "b");
  }

  /** Dropping a whole run of breaks leaves the text after it. */
  lemma {:induction false} DropRun(run: string, t: string)
    requires NoText(run) && t != [] && !IsBreak(t[0])
    ensures DropBreaks(run + t) == t
    decreases |run|
  {
    if run != [] {
      assert (run + t)[0] == run[0] && IsBreak(run[0]);
      assert (run + t)[1..] == run[1..] + t;
      assert NoText(run[1..]) by {
        forall i | 0 <= i < |run| - 1 ensures IsBreak(run[1..][i]) {
          assert run[1..][i] == run[i + 1];
        }
      }
      DropRun(run[1..], t);
    } else {
      assert run + t == t;
    }
  }

  /** A preference holding only a line break parses into two empty entries,
      and so still switches the whitelist on. */
  lemma BreakOnlyEnables()
    ensures Parse("\n") == ["", ""]
    ensures Enabled("\n")
  {
    assert DropBreaks("") == "";
    assert Split("") == [""];
  }
}
