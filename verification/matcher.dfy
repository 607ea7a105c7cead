/** Face matching: the best-match scan over enrolled students and the
    data-URL header strip applied to a captured image. The face library is
    abstract: `load` reads a stored encoding (None when the file is missing),
    `compare` gives (is_match, distance) for a known and an unknown encoding. */
module Matcher {
  import opened Wrappers
  import opened Text
  import opened Models

  /** A face encoding: the library's fixed-length vector. */
  type Encoding = seq<real>

  datatype FaceOps = FaceOps(
    load: string -> Option<Encoding>,
    compare: (Encoding, Encoding) -> (bool, real))

  /** The stored encoding of `s` loads and the library says it is the scanned face. */
  predicate IsMatch(ops: FaceOps, unknown: Encoding, s: Student)
  {
    var known := ops.load(s.faceEncodingPath);
    known.Some? && ops.compare(known.value, unknown).0
  }

  function Distance(ops: FaceOps, unknown: Encoding, s: Student): real
    requires IsMatch(ops, unknown, s)
  {
    ops.compare(ops.load(s.faceEncodingPath).value, unknown).1
  }

  /** The outcome of scanning `students` in order while keeping a match
      only when it is strictly closer than the one kept so far. */
  function BestMatch(ops: FaceOps, unknown: Encoding, students: seq<Student>): (r: Option<Student>)
    ensures r.Some? ==> r.value in students && IsMatch(ops, unknown, r.value)
    decreases |students|
  {
    if students == [] then None
    else
      var best := BestMatch(ops, unknown, students[..|students| - 1]);
      var s := students[|students| - 1];
      if IsMatch(ops, unknown, s) && (best.None? || Distance(ops, unknown, s) < Distance(ops, unknown, best.value))
      then Some(s)
      else best
  }

  /** Index `k` holds a match at the smallest distance of all matches, and
      no earlier match is as close. */
  ghost predicate FirstClosest(ops: FaceOps, unknown: Encoding, students: seq<Student>, k: int)
  {
    && 0 <= k < |students|
    && IsMatch(ops, unknown, students[k])
    && (forall j :: 0 <= j < |students| && IsMatch(ops, unknown, students[j]) ==>
          Distance(ops, unknown, students[k]) <= Distance(ops, unknown, students[j]))
    && (forall j :: 0 <= j < k && IsMatch(ops, unknown, students[j]) ==>
          Distance(ops, unknown, students[k]) < Distance(ops, unknown, students[j]))
  }

  /** The scan finds nothing exactly when nobody matches; otherwise it finds
      the first of the closest matches. */
  lemma {:induction false} BestMatchIsFirstClosest(ops: FaceOps, unknown: Encoding, students: seq<Student>)
    ensures BestMatch(ops, unknown, students).None? <==>
      forall j :: 0 <= j < |students| ==> !IsMatch(ops, unknown, students[j])
    ensures BestMatch(ops, unknown, students).Some? ==>
      exists k :: FirstClosest(ops, unknown, students, k) && students[k] == BestMatch(ops, unknown, students).value
    decreases |students|
  {
    if students != [] {
      var n := |students| - 1;
      var prefix := students[..n];
      BestMatchIsFirstClosest(ops, unknown, prefix);
      var best := BestMatch(ops, unknown, prefix);
      var s := students[n];
      assert forall j :: 0 <= j < n ==> prefix[j] == students[j];
      if IsMatch(ops, unknown, s) && (best.None? || Distance(ops, unknown, s) < Distance(ops, unknown, best.value)) {
        if best.Some? {
          var k :| FirstClosest(ops, unknown, prefix, k) && prefix[k] == best.value;
        }
        assert FirstClosest(ops, unknown, students, n);
      } else if best.Some? {
        var k :| FirstClosest(ops, unknown, prefix, k) && prefix[k] == best.value;
        assert FirstClosest(ops, unknown, students, k);
      }
    }
  }

  /** The first-of-the-closest description picks one index only, so it
      determines the result of the scan. */
  lemma FirstClosestDeterminesMatch(ops: FaceOps, unknown: Encoding, students: seq<Student>, k: int)
    requires FirstClosest(ops, unknown, students, k)
    ensures BestMatch(ops, unknown, students) == Some(students[k])
  {
    BestMatchIsFirstClosest(ops, unknown, students);
    var k' :| FirstClosest(ops, unknown, students, k') && students[k'] == BestMatch(ops, unknown, students).value;
  }

  /** A student who does not match, in particular one whose encoding file
      does not load, never changes the result, wherever it stands. */
  lemma {:induction false} NonMatchIgnored(ops: FaceOps, unknown: Encoding, p: seq<Student>, u: Student, q: seq<Student>)
    requires !IsMatch(ops, unknown, u)
    ensures BestMatch(ops, unknown, p + [u] + q) == BestMatch(ops, unknown, p + q)
    decreases |q|
  {
    if q == [] {
      assert (p + [u] + q)[..|p|] == p && p + q == p;
    } else {
      var q' := q[..|q| - 1];
      NonMatchIgnored(ops, unknown, p, u, q');
      assert (p + [u] + q)[..|p + [u] + q| - 1] == p + [u] + q';
      assert (p + q)[..|p + q| - 1] == p + q';
    }
  }

  /** `find_matching_student`: the loop over the enrolled students. */
  method FindMatchingStudent(ops: FaceOps, unknown: Encoding, students: seq<Student>) returns (best: Option<Student>)
    ensures best == BestMatch(ops, unknown, students)
    ensures best.None? <==> forall j :: 0 <= j < |students| ==> !IsMatch(ops, unknown, students[j])
    ensures best.Some? ==> exists k :: FirstClosest(ops, unknown, students, k) && students[k] == best.value
  {
    best := None;
    var bestDistance: Option<real> := None;  // None stands for float('inf')
    for i := 0 to |students|
      invariant best == BestMatch(ops, unknown, students[..i])
      invariant bestDistance.None? <==> best.None?
      invariant best.Some? ==> bestDistance.value == Distance(ops, unknown, best.value)
    {
      assert students[..i + 1][..i] == students[..i];
      var known := ops.load(students[i].faceEncodingPath);
      if known.None? {
        continue;
      }
      var (isMatch, distance) := ops.compare(known.value, unknown);
      if isMatch && (bestDistance.None? || distance < bestDistance.value) {
        best := Some(students[i]);
        bestDistance := Some(distance);
      }
    }
    assert students[..|students|] == students;
    BestMatchIsFirstClosest(ops, unknown, students);
  }

  /** Drops a data-URL header ("data:image/jpeg;base64,") from a captured
      image: `s.split(',')[1]` when `s` holds a comma. */
  function StripDataUrlHeader(s: string): (r: string)
    ensures ',' !in s ==> r == s
    ensures ',' in s ==>
      var i := IndexOf(s, ',');
      && i + 1 + |r| <= |s|
      && (forall k :: 0 <= k < |r| ==> r[k] == s[i + 1 + k])
      && (i + 1 + |r| == |s| || s[i + 1 + |r|] == ',')
    ensures ',' !in r
  {
    if ',' in s then
      SecondField(s, ',');
      Split(s, ',')[1]
    else
      s
  }

  /** The second field of `s.split(sep)` runs from just after the first
      separator to the next separator or to the end. */
  lemma SecondField(s: string, sep: char)
    requires sep in s
    ensures var i, parts := IndexOf(s, sep), Split(s, sep);
      && |parts| >= 2
      && i + 1 + |parts[1]| <= |s|
      && (forall k :: 0 <= k < |parts[1]| ==> parts[1][k] == s[i + 1 + k])
      && (i + 1 + |parts[1]| == |s| || s[i + 1 + |parts[1]|] == sep)
      && sep !in parts[1]
  {
    var i := IndexOf(s, sep);
    SplitSecond(s, sep);
    FirstField(s[i + 1..], sep);
    FieldAfter(s, sep, i, Split(s[i + 1..], sep)[0]);
  }

  /** The first field of `t.split(sep)` runs from the start to the first
      separator or to the end. */
  lemma FirstField(t: string, sep: char)
    ensures var f := Split(t, sep)[0];
      && |f| <= |t|
      && (forall k :: 0 <= k < |f| ==> f[k] == t[k])
      && (|f| == |t| || t[|f|] == sep)
      && sep !in f
  {
    var parts := Split(t, sep);
    assert parts[0] in parts;
  }

  /** A field at the start of `s[i + 1..]` is the field of `s` read from `i + 1`. */
  lemma FieldAfter(s: string, sep: char, i: nat, r: string)
    requires i < |s|
    requires |r| <= |s[i + 1..]| && forall k :: 0 <= k < |r| ==> r[k] == s[i + 1..][k]
    requires |r| == |s[i + 1..]| || s[i + 1..][|r|] == sep
    ensures i + 1 + |r| <= |s|
    ensures forall k :: 0 <= k < |r| ==> r[k] == s[i + 1 + k]
    ensures i + 1 + |r| == |s| || s[i + 1 + |r|] == sep
  {
  }

  /** A header and a payload without commas come apart again. */
  lemma DataUrlRoundTrip(header: string, payload: string)
    requires ',' !in header && ',' !in payload
    ensures StripDataUrlHeader(header + "," + payload) == payload
  {
    IndexOfAfter(header, ',', payload);
    assert header + "," + payload == header + [','] + payload;
    assert (header + [','] + payload)[|header| + 1..] == payload;
  }
}
