/**
 * The version comparison the popup runs against the published manifest
 * (`isNewerVersion` inside `checkExtensionVersion`, popup.js): versions are split at ".",
 * each segment read as a number, a missing segment counts as 0.
 */
module VersionCheck {
  import opened Text

  /** `Number(segment) || 0` for a segment of decimal digits; any other segment reads as 0. */
  function SegmentNumber(segment: string): nat
  {
    if segment != [] && AllDigits(segment) then DecimalValue(segment) else 0
  }

  /** `v.split('.').map(Number)`, each segment made a natural number as above. */
  function ParseVersion(v: string): (segments: seq<nat>)
    ensures |segments| == |Split(v, '.')|
    ensures forall k :: 0 <= k < |segments| ==> segments[k] == SegmentNumber(Split(v, '.')[k])
  {
    var parts := Split(v, '.');
    seq(|parts|, k requires 0 <= k < |parts| => SegmentNumber(parts[k]))
  }

  /** `s[i] || 0`: the segment at position i, or 0 past the end. */
  function SegmentAt(s: seq<nat>, i: nat): nat
  {
    if i < |s| then s[i] else 0
  }

  function Max(a: nat, b: nat): nat
  {
    if a < b then b else a
  }

  /** Versions that agree on every segment once both are padded with zeros. */
  ghost predicate SameVersion(a: seq<nat>, b: seq<nat>)
  {
    forall i: nat :: SegmentAt(a, i) == SegmentAt(b, i)
  }

  /** b is newer than a: at the first segment where they differ, b's is larger. */
  ghost predicate Newer(a: seq<nat>, b: seq<nat>)
  {
    exists i: nat :: && i < Max(|a|, |b|)
                     && SegmentAt(b, i) > SegmentAt(a, i)
                     && forall j: nat :: j < i ==> SegmentAt(a, j) == SegmentAt(b, j)
  }

  /**
   * `isNewerVersion(v1, v2)`: walks the segments left to right and answers at the first
   * segment that differs; true exactly when v2 is newer than v1.
   */
  method IsNewerVersion(v1: string, v2: string) returns (newer: bool)
    ensures newer <==> Newer(ParseVersion(v1), ParseVersion(v2))
  {
    var s1 := ParseVersion(v1);
    var s2 := ParseVersion(v2);
    var i := 0;
    while i < Max(|s1|, |s2|)
      invariant 0 <= i <= Max(|s1|, |s2|)
      invariant forall j: nat :: j < i ==> SegmentAt(s1, j) == SegmentAt(s2, j)
    {
      var n1 := SegmentAt(s1, i);
      var n2 := SegmentAt(s2, i);
      if n2 > n1 {
        return true;
      }
      if n2 < n1 {
        return false;
      }
      i := i + 1;
    }
    return false;
  }

  /** Equal versions are not newer than each other. */
  lemma NotNewerThanSame(a: seq<nat>, b: seq<nat>)
    requires SameVersion(a, b)
    ensures !Newer(a, b)
  {
  }

  /** Never true in both directions. */
  lemma NewerAsymmetric(a: seq<nat>, b: seq<nat>)
    requires Newer(a, b)
    ensures !Newer(b, a)
  {
  }

  /** Newer is transitive. */
  lemma NewerTransitive(a: seq<nat>, b: seq<nat>, c: seq<nat>)
    requires Newer(a, b) && Newer(b, c)
    ensures Newer(a, c)
  {
    var i: nat :| i < Max(|a|, |b|) && SegmentAt(b, i) > SegmentAt(a, i)
                  && forall j: nat :: j < i ==> SegmentAt(a, j) == SegmentAt(b, j);
    var k: nat :| k < Max(|b|, |c|) && SegmentAt(c, k) > SegmentAt(b, k)
                  && forall j: nat :: j < k ==> SegmentAt(b, j) == SegmentAt(c, j);
    var m := if i < k then i else k;
    assert SegmentAt(c, m) > SegmentAt(a, m);
    assert m < |c|;
    assert forall j: nat :: j < m ==> SegmentAt(a, j) == SegmentAt(c, j);
  }

  /** Versions that are the same when padded compare the same way against everything. */
  lemma NewerRespectsSameVersion(a: seq<nat>, a': seq<nat>, b: seq<nat>, b': seq<nat>)
    requires SameVersion(a, a') && SameVersion(b, b')
    ensures Newer(a, b) <==> Newer(a', b')
  {
    if Newer(a, b) {
      var i: nat :| i < Max(|a|, |b|) && SegmentAt(b, i) > SegmentAt(a, i)
                    && forall j: nat :: j < i ==> SegmentAt(a, j) == SegmentAt(b, j);
      assert SegmentAt(b', i) > SegmentAt(a', i);
      assert forall j: nat :: j < i ==> SegmentAt(a', j) == SegmentAt(b', j);
    }
    if Newer(a', b') {
      var i: nat :| i < Max(|a'|, |b'|) && SegmentAt(b', i) > SegmentAt(a', i)
                    && forall j: nat :: j < i ==> SegmentAt(a', j) == SegmentAt(b', j);
      assert SegmentAt(b, i) > SegmentAt(a, i);
      assert forall j: nat :: j < i ==> SegmentAt(a, j) == SegmentAt(b, j);
    }
  }

  /** Two versions are the same, or exactly one of them is newer. */
  lemma {:induction false} NewerTotal(a: seq<nat>, b: seq<nat>)
    ensures SameVersion(a, b) || Newer(a, b) || Newer(b, a)
  {
    if !SameVersion(a, b) {
      var d: nat :| SegmentAt(a, d) != SegmentAt(b, d);
      var i := FirstDifference(a, b, d);
      if SegmentAt(b, i) > SegmentAt(a, i) {
        assert i < |b|;
      } else {
        assert i < |a|;
        assert forall j: nat :: j < i ==> SegmentAt(b, j) == SegmentAt(a, j);
      }
    }
  }

  /** The first position at which two versions differ, given one at which they do. */
  lemma {:induction false} FirstDifference(a: seq<nat>, b: seq<nat>, d: nat) returns (i: nat)
    requires SegmentAt(a, d) != SegmentAt(b, d)
    ensures i <= d && SegmentAt(a, i) != SegmentAt(b, i)
    ensures forall j: nat :: j < i ==> SegmentAt(a, j) == SegmentAt(b, j)
    decreases d
  {
    if exists j: nat :: j < d && SegmentAt(a, j) != SegmentAt(b, j) {
      var j: nat :| j < d && SegmentAt(a, j) != SegmentAt(b, j);
      i := FirstDifference(a, b, j);
    } else {
      i := d;
    }
  }

  /** Appending ".0" to a version string gives the same version. */
  lemma ZeroSegmentIsSameVersion(v: string)
    ensures SameVersion(ParseVersion(v + ".0"), ParseVersion(v))
  {
    SplitAtSeparator(v, "0", '.');
    SplitWithoutSeparator("0", '.');
    assert v + ".0" == v + ['.'] + "0";
    assert Split(v + ".0", '.') == Split(v, '.') + ["0"];
    assert DecimalValue("0") == 0;
    var longer := ParseVersion(v + ".0");
    var shorter := ParseVersion(v);
    assert |longer| == |shorter| + 1;
    forall i: nat ensures SegmentAt(longer, i) == SegmentAt(shorter, i) {
      if i < |shorter| {
        assert Split(v + ".0", '.')[i] == Split(v, '.')[i];
      }
    }
  }

  /** Appending ".0" to either version does not change the answer of `isNewerVersion`. */
  lemma ZeroSegmentKeepsComparison(v1: string, v2: string)
    ensures Newer(ParseVersion(v1 + ".0"), ParseVersion(v2)) <==> Newer(ParseVersion(v1), ParseVersion(v2))
    ensures Newer(ParseVersion(v1), ParseVersion(v2 + ".0")) <==> Newer(ParseVersion(v1), ParseVersion(v2))
  {
    ZeroSegmentIsSameVersion(v1);
    ZeroSegmentIsSameVersion(v2);
    NewerRespectsSameVersion(ParseVersion(v1 + ".0"), ParseVersion(v1), ParseVersion(v2), ParseVersion(v2));
    NewerRespectsSameVersion(ParseVersion(v1), ParseVersion(v1), ParseVersion(v2 + ".0"), ParseVersion(v2));
  }
}
