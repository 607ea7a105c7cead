/** The few pieces of Python string behaviour the core relies on:
    `str.isspace`, `str.strip`, `str.split(sep)`, and how an f-string
    renders an integer or a value that may be None. */
module Text {
  import opened Wrappers

  /** Python's `str.isspace` for one character. */
  predicate IsSpace(c: char)
  {
    || c == ' ' || ('\t' <= c <= '\r') || ('\U{1c}' <= c <= '\U{1f}')
    || c == '\U{85}' || c == '\U{a0}' || c == '\U{1680}' || ('\U{2000}' <= c <= '\U{200a}')
    || c == '\U{2028}' || c == '\U{2029}' || c == '\U{202f}' || c == '\U{205f}' || c == '\U{3000}'
  }

  predicate AllSpace(s: string)
  {
    forall i :: 0 <= i < |s| ==> IsSpace(s[i])
  }

  /** `s.lstrip()`: the suffix of `s` after its leading whitespace. */
  function StripStart(s: string): (r: string)
    ensures |r| <= |s| && r == s[|s| - |r|..]
    ensures AllSpace(s[..|s| - |r|])
    ensures r == [] || !IsSpace(r[0])
  {
    if s != [] && IsSpace(s[0]) then
      var r := StripStart(s[1..]);
      assert s[..|s| - |r|] == [s[0]] + s[1..][..|s[1..]| - |r|];
      r
    else s
  }

  /** `s.rstrip()`: the prefix of `s` before its trailing whitespace. */
  function StripEnd(s: string): (r: string)
    ensures |r| <= |s| && r == s[..|r|]
    ensures AllSpace(s[|r|..])
    ensures r == [] || !IsSpace(r[|r| - 1])
  {
    if s != [] && IsSpace(s[|s| - 1]) then
      var r := StripEnd(s[..|s| - 1]);
      assert s[|r|..] == s[..|s| - 1][|r|..] + [s[|s| - 1]];
      r
    else s
  }

  /** `s.strip()`. */
  function Strip(s: string): (r: string)
    ensures r == [] <==> AllSpace(s)
    ensures r != [] ==> !IsSpace(r[0]) && !IsSpace(r[|r| - 1])
    ensures s == [] || (!IsSpace(s[0]) && !IsSpace(s[|s| - 1])) ==> r == s
    ensures exists a, b :: Trims(s, r, a, b)
  {
    StripEmptyOf(s);
    StripEndsOf(s);
    StripSliceOf(s);
    StripEnd(StripStart(s))
  }

  /** `s.strip()` is empty iff `s` is all whitespace. */
  lemma StripEmptyOf(s: string)
    ensures StripEnd(StripStart(s)) == [] <==> AllSpace(s)
  {
    var t := StripStart(s);
    var k := |s| - |t|;
    assert AllSpace(s[..k]);
    SpacePrefix(s, k);
    var r := StripEnd(t);
    SpaceSuffix(t, |r|);
  }

  /** Neither end of `s.strip()` is whitespace, and `s` is its own strip
      when neither end of `s` is. */
  lemma StripEndsOf(s: string)
    ensures var r := StripEnd(StripStart(s));
      && (r != [] ==> !IsSpace(r[0]) && !IsSpace(r[|r| - 1]))
      && (s == [] || (!IsSpace(s[0]) && !IsSpace(s[|s| - 1])) ==> r == s)
  {
    var t := StripStart(s);
    StripEnds(t, StripEnd(t));
    StripKeeps(s);
  }

  /** `s.strip()` is a slice of `s` between two runs of whitespace. */
  lemma StripSliceOf(s: string)
    ensures exists a, b :: Trims(s, StripEnd(StripStart(s)), a, b)
  {
    var t := StripStart(s);
    StripSlice(s, t, StripEnd(t));
  }

  /** `r` is `s` with the whitespace prefix `s[..a]` and the whitespace
      suffix `s[b..]` removed. */
  ghost predicate Trims(s: string, r: string, a: int, b: int)
  {
    0 <= a <= b <= |s| && r == s[a..b] && AllSpace(s[..a]) && AllSpace(s[b..])
  }

  /** Where the strip sits in the input: between the whitespace `StripStart`
      drops and the whitespace `StripEnd` drops. */
  lemma StripSlice(s: string, t: string, r: string)
    requires |t| <= |s| && t == s[|s| - |t|..] && AllSpace(s[..|s| - |t|])
    requires |r| <= |t| && r == t[..|r|] && AllSpace(t[|r|..])
    ensures Trims(s, r, |s| - |t|, |s| - |t| + |r|)
  {
    var a := |s| - |t|;
    var b := a + |r|;
    assert r == s[a..b] by {
      forall i | 0 <= i < |r| ensures r[i] == s[a + i] {
        assert r[i] == t[i] == s[a + i];
      }
    }
    assert AllSpace(s[b..]) by {
      forall i | 0 <= i < |s| - b ensures IsSpace(s[b..][i]) {
        assert s[b..][i] == t[|r|..][i];
      }
    }
  }

  lemma AllSpaceConcat(a: string, b: string)
    ensures AllSpace(a + b) <==> AllSpace(a) && AllSpace(b)
  {
    var ab := a + b;
    if AllSpace(ab) {
      assert forall i :: 0 <= i < |a| ==> a[i] == ab[i];
      assert forall i :: 0 <= i < |b| ==> b[i] == ab[|a| + i];
    }
  }

  /** After a whitespace prefix `s[..k]`, `s` is all whitespace iff the rest is. */
  lemma SpacePrefix(s: string, k: nat)
    requires k <= |s| && AllSpace(s[..k])
    ensures AllSpace(s) <==> AllSpace(s[k..])
  {
    assert forall i :: 0 <= i < k ==> s[..k][i] == s[i];
    assert forall i :: k <= i < |s| ==> s[k..][i - k] == s[i];
  }

  /** When `s[k..]` is whitespace and `s[k - 1]` is not, `s` is all
      whitespace iff `k` is 0. */
  lemma SpaceSuffix(s: string, k: nat)
    requires k <= |s| && AllSpace(s[k..]) && (k == 0 || !IsSpace(s[k - 1]))
    ensures k == 0 <==> AllSpace(s)
  {
    assert forall i :: k <= i < |s| ==> s[k..][i - k] == s[i];
  }

  /** Neither end of a stripped string is whitespace. */
  lemma StripEnds(t: string, r: string)
    requires t == [] || !IsSpace(t[0])
    requires r == StripEnd(t)
    ensures r != [] ==> !IsSpace(r[0]) && !IsSpace(r[|r| - 1])
  {
    if r != [] {
      assert r[0] == t[0];
    }
  }

  /** A string with no whitespace at either end is its own strip. */
  lemma StripKeeps(s: string)
    ensures s == [] || (!IsSpace(s[0]) && !IsSpace(s[|s| - 1])) ==> StripEnd(StripStart(s)) == s
  {
  }

  /** The index of the first `c` in `s`. */
  function IndexOf(s: string, c: char): (i: nat)
    requires c in s
    ensures i < |s| && s[i] == c
    ensures forall k :: 0 <= k < i ==> s[k] != c
  {
    if s[0] == c then 0
    else IndexOf(s[1..], c) + 1
  }

  /** Joins `parts` with `sep` between them (Python's `sep.join(parts)`). */
  function Join(parts: seq<string>, sep: char): string
  {
    if |parts| == 0 then ""
    else if |parts| == 1 then parts[0]
    else parts[0] + [sep] + Join(parts[1..], sep)
  }

  /** Python's `s.split(sep)` for a one-character separator. */
  function Split(s: string, sep: char): (parts: seq<string>)
    ensures |parts| >= 1
    ensures forall k :: 0 <= k < |parts| ==> sep !in parts[k]
    ensures |parts| == 1 <==> sep !in s
    ensures parts[0] == if sep in s then s[..IndexOf(s, sep)] else s
    decreases |s|
  {
    if sep !in s then [s]
    else
      var i := IndexOf(s, sep);
      var rest := Split(s[i + 1..], sep);
      assert ([s[..i]] + rest)[1..] == rest;
      [s[..i]] + rest
  }

  /** One step of `Split`: the text before the first separator, then the
      split of the rest. */
  lemma SplitCons(s: string, sep: char)
    requires sep in s
    ensures var i := IndexOf(s, sep);
      Split(s, sep) == [s[..i]] + Split(s[i + 1..], sep)
  {
  }

  /** The second part of a split is the first part of the split of what
      follows the first separator. */
  lemma SplitSecond(s: string, sep: char)
    requires sep in s
    ensures var i := IndexOf(s, sep);
      |Split(s, sep)| >= 2 && Split(s, sep)[1] == Split(s[i + 1..], sep)[0]
  {
    var i := IndexOf(s, sep);
    var rest := Split(s[i + 1..], sep);
    SplitCons(s, sep);
    assert ([s[..i]] + rest)[1] == rest[0];
  }

  /** One step of `Join` in front of a non-empty list. */
  lemma JoinCons(a: string, rest: seq<string>, sep: char)
    requires |rest| >= 1
    ensures Join([a] + rest, sep) == a + [sep] + Join(rest, sep)
  {
    assert ([a] + rest)[1..] == rest;
  }

  /** `s` is what lies before index `i`, the element there, and what follows. */
  lemma Around<T>(s: seq<T>, i: nat)
    requires i < |s|
    ensures s == s[..i] + [s[i]] + s[i + 1..]
  {
  }

  /** Joining the parts of a split gives the string back. */
  lemma {:induction false} JoinSplit(s: string, sep: char)
    ensures Join(Split(s, sep), sep) == s
    decreases |s|
  {
    if sep in s {
      var i := IndexOf(s, sep);
      var rest := Split(s[i + 1..], sep);
      JoinSplit(s[i + 1..], sep);
      SplitCons(s, sep);
      JoinCons(s[..i], rest, sep);
      Around(s, i);
    }
  }

  /** Splitting undoes joining pieces that hold no separator. */
  lemma {:induction false} SplitJoin(parts: seq<string>, sep: char)
    requires |parts| >= 1
    requires forall p :: p in parts ==> sep !in p
    ensures Split(Join(parts, sep), sep) == parts
  {
    if |parts| > 1 {
      var head, rest := parts[0], parts[1..];
      assert parts == [head] + rest;
      assert head in parts;
      assert forall p :: p in rest ==> p in parts;
      var tail := Join(rest, sep);
      var s := head + [sep] + tail;
      JoinCons(head, rest, sep);
      IndexOfAfter(head, sep, tail);
      SplitCons(s, sep);
      assert s[|head| + 1..] == tail;
      assert s[..|head|] == head;
      SplitJoin(rest, sep);
    }
  }

  /** The first separator of `a + [sep] + b` is the one after `a` when `a` holds none. */
  lemma IndexOfAfter(a: string, sep: char, b: string)
    requires sep !in a
    ensures sep in a + [sep] + b && IndexOf(a + [sep] + b, sep) == |a|
  {
    var s := a + [sep] + b;
    assert s[|a|] == sep;
    assert forall k :: 0 <= k < |a| ==> s[k] == a[k];
    var i := IndexOf(s, sep);
    assert forall k :: 0 <= k < i ==> s[..i][k] == s[k];
  }

  function Digit(d: nat): (c: char)
    requires d < 10
    ensures '0' <= c <= '9'
  {
    "0123456789"[d]
  }

  /** The decimal rendering of `n`, as `str(n)` or an f-string gives it. */
  function NatStr(n: nat): (r: string)
    ensures |r| >= 1
    ensures forall c :: c in r ==> '0' <= c <= '9'
  {
    if n < 10 then [Digit(n)] else NatStr(n / 10) + [Digit(n % 10)]
  }

  /** How an f-string renders a text value that may be None. */
  function PyStr(o: Option<string>): (r: string)
    ensures o.Some? ==> r == o.value
    ensures o.None? ==> r == "None"
  {
    match o
    case None => "None"
    case Some(t) => t
  }
}
