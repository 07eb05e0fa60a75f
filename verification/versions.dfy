/** Version codec of the updater: the comparison of two version arrays, the
    parse of a `MAJOR.MINOR.PATCH` text into three ints, and the text the
    installer stamps into a published payload. */
module Versions {
  import opened Wrappers
  import opened PhpStrings

  // ---------------------------------------------------------------- comparison

  /** The comparison loop from index `i` on, over arrays of equal length. */
  function CompareFrom(local: seq<int>, remote: seq<int>, i: nat): (r: int)
    requires |local| == |remote| && i <= |local|
    ensures r == -1 || r == 0 || r == 1
    decreases |local| - i
  {
    if i == |local| then 0
    else if local[i] > remote[i] then 1
    else if local[i] < remote[i] then -1
    else CompareFrom(local, remote, i + 1)
  }

  /** compareVersions: -1 when the remote version is higher, 0 when both are
      equal, 1 when the local version is higher. Arrays of different lengths
      always report "remote is higher", in either argument order. */
  function CompareVersions(local: seq<int>, remote: seq<int>): (r: int)
    ensures r == -1 || r == 0 || r == 1
    ensures |local| != |remote| ==> r == -1
  {
    if |local| != |remote| then -1 else CompareFrom(local, remote, 0)
  }

  /** `k` is the first index at which `a` and `b` differ. */
  ghost predicate FirstDifference(a: seq<int>, b: seq<int>, k: int) {
    && 0 <= k < |a| && k < |b|
    && (forall j :: 0 <= j < k ==> a[j] == b[j])
    && a[k] != b[k]
  }

  /** `a` comes strictly before `b` in the lexicographic order of equal-length arrays. */
  ghost predicate LexLess(a: seq<int>, b: seq<int>) {
    exists k :: FirstDifference(a, b, k) && a[k] < b[k]
  }

  lemma {:induction false} CompareFromLexicographic(a: seq<int>, b: seq<int>, i: nat)
    requires |a| == |b| && i <= |a|
    requires forall j :: 0 <= j < i ==> a[j] == b[j]
    ensures CompareFrom(a, b, i) == 0 <==> a == b
    ensures CompareFrom(a, b, i) == -1 <==> LexLess(a, b)
    ensures CompareFrom(a, b, i) == 1 <==> LexLess(b, a)
    decreases |a| - i
  {
    if i == |a| {
      assert a == b;
      assert !LexLess(a, b) && !LexLess(b, a);
    } else if a[i] != b[i] {
      assert FirstDifference(a, b, i) && FirstDifference(b, a, i);
      assert a != b;
    } else {
      CompareFromLexicographic(a, b, i + 1);
    }
  }

  /** For equal lengths the comparison is lexicographic: the first differing
      component decides, and 0 means the arrays are identical. */
  lemma CompareVersionsLexicographic(local: seq<int>, remote: seq<int>)
    requires |local| == |remote|
    ensures CompareVersions(local, remote) == 0 <==> local == remote
    ensures CompareVersions(local, remote) == -1 <==> LexLess(local, remote)
    ensures CompareVersions(local, remote) == 1 <==> LexLess(remote, local)
  {
    CompareFromLexicographic(local, remote, 0);
  }

  lemma {:induction false} CompareFromAntisymmetric(a: seq<int>, b: seq<int>, i: nat)
    requires |a| == |b| && i <= |a|
    ensures CompareFrom(a, b, i) == -CompareFrom(b, a, i)
    decreases |a| - i
  {
    if i < |a| && a[i] == b[i] {
      CompareFromAntisymmetric(a, b, i + 1);
    }
  }

  /** For equal lengths, swapping the arguments negates the result. */
  lemma CompareVersionsAntisymmetric(a: seq<int>, b: seq<int>)
    requires |a| == |b|
    ensures CompareVersions(a, b) == -CompareVersions(b, a)
  {
    CompareFromAntisymmetric(a, b, 0);
  }

  lemma {:induction false} CompareFromTransitive(a: seq<int>, b: seq<int>, c: seq<int>, i: nat)
    requires |a| == |b| == |c| && i <= |a|
    requires CompareFrom(a, b, i) == -1 && CompareFrom(b, c, i) == -1
    ensures CompareFrom(a, c, i) == -1
    decreases |a| - i
  {
    if a[i] == b[i] && b[i] == c[i] {
      CompareFromTransitive(a, b, c, i + 1);
    }
  }

  /** For equal lengths "remote is higher" is transitive, so with the two
      lemmas above the comparison is a strict total order. */
  lemma CompareVersionsTransitive(a: seq<int>, b: seq<int>, c: seq<int>)
    requires |a| == |b| == |c|
    requires CompareVersions(a, b) == -1 && CompareVersions(b, c) == -1
    ensures CompareVersions(a, c) == -1
  {
    CompareFromTransitive(a, b, c, 0);
  }

  /** A local version equal to or lexicographically above the remote one is
      never reported as outdated: the updater never downgrades. */
  lemma NewerLocalIsNotOutdated(local: seq<int>, remote: seq<int>)
    requires |local| == |remote|
    requires local == remote || LexLess(remote, local)
    ensures CompareVersions(local, remote) != -1
  {
    CompareVersionsLexicographic(local, remote);
    if local != remote {
      var k :| FirstDifference(remote, local, k) && remote[k] < local[k];
      assert FirstDifference(local, remote, k);
    }
  }

  // ---------------------------------------------------------------- parsing

  /** What `list($major, $minor, $patch) = explode(...)` binds at index `i`,
      cast with (int): a missing index binds null and `(int)null` is 0. */
  function Component(parts: seq<string>, i: nat): int
  {
    if i < |parts| then IntCast(parts[i]) else 0
  }

  /** The version array of a `MAJOR.MINOR.PATCH` text: split on `.`, keep the
      first three pieces, cast each to int. */
  function ParseVersion(text: string): (v: seq<int>)
    ensures |v| == 3
  {
    var parts := Explode('.', text);
    [Component(parts, 0), Component(parts, 1), Component(parts, 2)]
  }

  /** Parsing the join of dot-free pieces reads the pieces themselves: each
      of the first three is cast on its own, a missing one gives 0, and
      pieces after the third are ignored. */
  lemma ParseVersionReadsPieces(pieces: seq<string>)
    requires |pieces| >= 1
    requires forall i :: 0 <= i < |pieces| ==> '.' !in pieces[i]
    ensures ParseVersion(Implode('.', pieces))
            == [Component(pieces, 0), Component(pieces, 1), Component(pieces, 2)]
  {
    ExplodeImplode('.', pieces);
  }

  /** Pieces after the third do not change the parsed version. */
  lemma ParseVersionIgnoresExtraPieces(pieces: seq<string>)
    requires |pieces| > 3
    requires forall i :: 0 <= i < |pieces| ==> '.' !in pieces[i]
    ensures ParseVersion(Implode('.', pieces)) == ParseVersion(Implode('.', pieces[..3]))
  {
    var first := pieces[..3];
    ParseVersionReadsPieces(pieces);
    ParseVersionReadsPieces(first);
    assert Component(first, 0) == Component(pieces, 0);
    assert Component(first, 1) == Component(pieces, 1);
    assert Component(first, 2) == Component(pieces, 2);
  }

  /** The decimal texts of the components, in order. */
  function ComponentTexts(v: seq<int>): (texts: seq<string>)
    ensures |texts| == |v|
  {
    if |v| == 0 then [] else [IntToString(v[0])] + ComponentTexts(v[1..])
  }

  /** Component `i` of the texts is the decimal text of component `i`. */
  lemma {:induction false} ComponentTextsSpec(v: seq<int>)
    ensures forall i :: 0 <= i < |v| ==> ComponentTexts(v)[i] == IntToString(v[i])
  {
    if |v| > 0 {
      ComponentTextsSpec(v[1..]);
    }
  }

  /** The default `0.0.0` parses as three zeros. */
  lemma ParseVersionDefault()
    ensures ParseVersion("0.0.0") == [0, 0, 0]
  {
    var pieces := ["0", "0", "0"];
    assert Implode('.', pieces) == "0.0.0";
    ParseVersionReadsPieces(pieces);
    IntCastReadsDigitRun("0", "");
    assert "0" + "" == "0";
  }

  /** The text written by implode('.', $version). */
  function VersionText(v: seq<int>): string
  {
    Implode('.', ComponentTexts(v))
  }

  /** Parsing the text of a three-component version gives it back, whatever
      the signs of its components. */
  lemma ParseVersionText(v: seq<int>)
    requires |v| == 3
    ensures ParseVersion(VersionText(v)) == v
  {
    var pieces := ComponentTexts(v);
    ComponentTextsSpec(v);
    IntToStringSpec(v[0]);
    IntToStringSpec(v[1]);
    IntToStringSpec(v[2]);
    assert forall i :: 0 <= i < 3 ==> '.' !in pieces[i];
    ParseVersionReadsPieces(pieces);
    IntCastIntToString(v[0]);
    IntCastIntToString(v[1]);
    IntCastIntToString(v[2]);
    assert [v[0], v[1], v[2]] == v;
  }

  /** getLocalVersion: the trimmed content of the marker file when there is
      one, `0.0.0` otherwise, parsed. */
  function LocalVersionOf(marker: Option<string>): (v: seq<int>)
    ensures |v| == 3
    ensures marker.None? ==> v == [0, 0, 0]
  {
    match marker
    case Some(content) => ParseVersion(Trim(content))
    case None => [0, 0, 0]  // the parse of the default text, by ParseVersionDefault
  }

  /** The version text starts and ends with a character trim() keeps. */
  lemma VersionTextUnpadded(v: seq<int>)
    requires |v| == 3
    ensures var t := VersionText(v);
      |t| > 0 && !IsTrimChar(t[0]) && !IsTrimChar(t[|t| - 1])
  {
    var pieces := ComponentTexts(v);
    ComponentTextsSpec(v);
    IntToStringSpec(v[0]);
    IntToStringSpec(v[2]);
    var t := VersionText(v);
    var tail := pieces[1] + ['.'] + pieces[2];
    assert Implode('.', pieces[1..]) == tail by {
      assert pieces[1..][1..] == [pieces[2]];
    }
    assert t == pieces[0] + ['.'] + tail;
    assert t[0] == pieces[0][0];
    assert t[|t| - 1] == pieces[2][|pieces[2]| - 1];
  }

  /** Stamp-then-read round trip: the marker file the installer writes
      (version text plus a line end) reads back as the same version. */
  lemma StampedMarkerReadsBack(v: seq<int>)
    requires |v| == 3
    ensures LocalVersionOf(Some(VersionText(v) + "\n")) == v
  {
    VersionTextUnpadded(v);
    TrimLineEnd(VersionText(v));
    ParseVersionText(v);
  }
}
