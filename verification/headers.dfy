/** HTTP header lists and the lower-cased "shorthand" index the handlers
    build over them (background.js, requestHandler and responseHandler).

    Header names are compared case-insensitively (section 5.1 of RFC 9110):
    every lookup goes through the lower-cased name. When two headers share a
    lower-cased name, the index points at the LAST of them, because the
    source fills a plain object in list order and later writes win. */
module Headers {
  import opened Optional

  /** One header as the browser hands it over; a `None` value is a `null`. */
  datatype Header = Header(name: string, value: Option<string>)

  /** `String.prototype.toLowerCase` on one character, restricted to ASCII. */
  function LowerChar(c: char): (r: char)
    ensures 'A' <= c <= 'Z' ==> 'a' <= r <= 'z' && r as int == c as int + 32
    ensures !('A' <= c <= 'Z') ==> r == c
  {
    if 'A' <= c <= 'Z' then (c as int + 32) as char else c
  }

  /** `toLowerCase` on a whole name. */
  function Lower(s: string): (r: string)
    ensures |r| == |s|
    ensures forall i :: 0 <= i < |s| ==> r[i] == LowerChar(s[i])
  {
    seq(|s|, i requires 0 <= i < |s| => LowerChar(s[i]))
  }

  /** True of a name that lower-casing leaves alone. */
  predicate NoUpper(s: string) {
    forall c :: c in s ==> !('A' <= c <= 'Z')
  }

  /** A name is its own lower-case form exactly when it has no upper-case
      letter, and lower-casing is idempotent. */
  lemma NoUpperIsLower(s: string)
    ensures NoUpper(s) <==> Lower(s) == s
    ensures Lower(Lower(s)) == Lower(s)
  {
    if NoUpper(s) {
      forall i | 0 <= i < |s| ensures Lower(s)[i] == s[i] {
        assert s[i] in s;
      }
    }
    if Lower(s) == s {
      forall c | c in s ensures !('A' <= c <= 'Z') {
        var i :| 0 <= i < |s| && s[i] == c;
        assert Lower(s)[i] == LowerChar(c);
      }
    }
    assert Lower(Lower(s)) == Lower(s);
  }

  /** The index key of a header: its lower-cased name. */
  function Key(h: Header): string {
    Lower(h.name)
  }

  /** The shorthand object built by `for(let header of hs) idx[header.name.toLowerCase()] = header`,
      with each entry pointing at a position of `hs` instead of aliasing the header object. */
  function Index(hs: seq<Header>): (idx: map<string, nat>)
    ensures forall k :: k in idx ==> idx[k] < |hs| && Key(hs[idx[k]]) == k
    ensures forall j :: 0 <= j < |hs| ==> Key(hs[j]) in idx && j <= idx[Key(hs[j])]
  {
    if hs == [] then map[]
    else
      var init := hs[..|hs| - 1];
      var prev := Index(init);
      var last := Key(hs[|hs| - 1]);
      var idx := prev[last := |hs| - 1];
      forall k | k in idx ensures idx[k] < |hs| && Key(hs[idx[k]]) == k {
        if k != last {
          assert init[prev[k]] == hs[prev[k]];
        }
      }
      forall j | 0 <= j < |hs| ensures Key(hs[j]) in idx && j <= idx[Key(hs[j])] {
        if j < |init| {
          assert init[j] == hs[j];
        }
      }
      idx
  }

  /** The index only looks at names: lists with the same names, position by
      position, have the same index whatever their values. */
  lemma {:induction false} IndexOnlyNames(a: seq<Header>, b: seq<Header>)
    requires |a| == |b|
    requires forall i :: 0 <= i < |a| ==> a[i].name == b[i].name
    ensures Index(a) == Index(b)
  {
    if a != [] {
      IndexOnlyNames(a[..|a| - 1], b[..|b| - 1]);
    }
  }

  /** Appending a header makes its key point at the new last position. */
  lemma IndexAppend(hs: seq<Header>, h: Header)
    ensures Index(hs + [h]) == Index(hs)[Key(h) := |hs|]
  {
    assert (hs + [h])[..|hs|] == hs;
  }

  /** Indexing a concatenation: a key of the second part points into the
      second part; any other key keeps its position in the first. */
  lemma IndexConcat(a: seq<Header>, b: seq<Header>, k: string)
    ensures k in Index(a + b) <==> k in Index(a) || k in Index(b)
    ensures k in Index(b) ==> Index(a + b)[k] == |a| + Index(b)[k]
    ensures k !in Index(b) && k in Index(a) ==> Index(a + b)[k] == Index(a)[k]
  {
    if k in Index(b) {
      IndexConcatSecond(a, b, k);
    } else {
      IndexConcatFirst(a, b, k);
    }
  }

  /** A key of the second part: the last occurrence in `b`, shifted by `|a|`,
      is the last occurrence in `a + b`. */
  lemma IndexConcatSecond(a: seq<Header>, b: seq<Header>, k: string)
    requires k in Index(b)
    ensures k in Index(a + b) && Index(a + b)[k] == |a| + Index(b)[k]
  {
    var ab := a + b;
    var p := |a| + Index(b)[k];
    assert Key(ab[p]) == k;
    assert k in Index(ab);
    var q := Index(ab)[k];
    assert q <= p;
  }

  /** A key absent from the second part keeps its position in the first. */
  lemma IndexConcatFirst(a: seq<Header>, b: seq<Header>, k: string)
    requires k !in Index(b)
    ensures k in Index(a + b) <==> k in Index(a)
    ensures k in Index(a) ==> Index(a + b)[k] == Index(a)[k]
  {
    var ab := a + b;
    if k in Index(ab) {
      var q := Index(ab)[k];
      assert q < |a|;
      assert Key(a[q]) == k;
      var p := Index(a)[k];
      assert Key(ab[p]) == k;
    }
    if k in Index(a) {
      assert Key(ab[Index(a)[k]]) == k;
    }
  }

  /** The last header of `hs` whose lower-cased name is `key`. */
  predicate LastWith(hs: seq<Header>, key: string, i: int) {
    0 <= i < |hs| && Key(hs[i]) == key && forall j :: i < j < |hs| ==> Key(hs[j]) != key
  }

  /** `idx[key]`: the header the shorthand index holds under `key`, if any. */
  function Get(hs: seq<Header>, key: string): (r: Option<Header>)
    ensures r.Some? <==> key in Index(hs)
    ensures r.Some? ==> Key(r.value) == key
    ensures r.None? ==> forall i :: 0 <= i < |hs| ==> Key(hs[i]) != key
    ensures r.Some? ==> LastWith(hs, key, Index(hs)[key]) && r.value == hs[Index(hs)[key]]
  {
    var idx := Index(hs);
    if key in idx then Some(hs[idx[key]]) else None
  }

  /** Last wins: when several headers share a lower-cased name, the lookup
      finds the last of them. */
  lemma GetLast(hs: seq<Header>, key: string, i: int)
    requires LastWith(hs, key, i)
    ensures Get(hs, key) == Some(hs[i])
  {
    var p := Index(hs)[Key(hs[i])];
    assert Key(hs[p]) == key && i <= p;
  }

  /** `idx[key] && idx[key].value !== null ? idx[key].value : <absent>`:
      the value of the last header named `key` when there is one and its
      value is not null. */
  function ValueOf(hs: seq<Header>, key: string): (r: Option<string>)
    ensures key !in Index(hs) ==> r.None?
  {
    match Get(hs, key)
    case Some(h) => h.value
    case None => None
  }

  /** A lookup sees the value of the last header whose lower-cased name is
      `key`, whatever it is (a `null` reads as absent). */
  lemma ValueOfLast(hs: seq<Header>, key: string, i: int)
    requires LastWith(hs, key, i)
    ensures ValueOf(hs, key) == hs[i].value
  {
    var p := Index(hs)[Key(hs[i])];
    assert Key(hs[p]) == key && i <= p;
  }

  /** A lookup of a name no header carries sees nothing. */
  lemma ValueOfAbsent(hs: seq<Header>, key: string)
    requires forall i :: 0 <= i < |hs| ==> Key(hs[i]) != key
    ensures ValueOf(hs, key).None?
  {
  }

  /** `idx[key].value = v`: assigns through the index, so the header that
      changes is the last one whose lower-cased name is `key`. */
  function SetValue(hs: seq<Header>, key: string, v: Option<string>): (r: seq<Header>)
    requires key in Index(hs)
    ensures |r| == |hs|
    ensures forall i :: 0 <= i < |hs| ==> r[i].name == hs[i].name
    ensures forall i :: 0 <= i < |hs| && i != Index(hs)[key] ==> r[i] == hs[i]
    ensures Index(r) == Index(hs)
    ensures r[Index(hs)[key]].value == v
  {
    var p := Index(hs)[key];
    var r := hs[p := hs[p].(value := v)];
    IndexOnlyNames(hs, r);
    r
  }

  /** Assigning the value a lookup already sees changes nothing. */
  lemma SetValueSame(hs: seq<Header>, key: string, v: Option<string>)
    requires key in Index(hs) && ValueOf(hs, key) == v
    ensures SetValue(hs, key, v) == hs
  {
    var r := SetValue(hs, key, v);
    assert forall i :: 0 <= i < |hs| ==> r[i] == hs[i];
  }

  /** Assigning under `key` sets what a lookup of `key` sees. */
  lemma SetValueHere(hs: seq<Header>, key: string, v: Option<string>)
    requires key in Index(hs)
    ensures ValueOf(SetValue(hs, key, v), key) == v
  {
  }

  /** Assigning under `key` leaves every lookup of another key alone. */
  lemma SetValueElsewhere(hs: seq<Header>, key: string, v: Option<string>, other: string)
    requires key in Index(hs) && other != key
    ensures ValueOf(SetValue(hs, key, v), other) == ValueOf(hs, other)
  {
    var r := SetValue(hs, key, v);
    if other in Index(hs) {
      assert Index(hs)[other] != Index(hs)[key];
    }
  }
}
