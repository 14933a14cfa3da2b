/** GameServerManager._compare_versions: dotted version strings compared
    component by component as Python integers, a missing component counting
    as 0, and -1 whenever either string has a component int() rejects. */
module VersionCompare {
  import opened Text
  import opened PyText

  /** list(map(int, parts)): None when some part is not an integer literal. */
  function ParseAll(parts: seq<string>): (r: Option<seq<int>>)
    ensures r.Some? <==> forall k :: 0 <= k < |parts| ==> ParseInt(parts[k]).Some?
    ensures r.Some? ==> |r.value| == |parts|
    ensures r.Some? ==> forall k :: 0 <= k < |parts| ==> r.value[k] == ParseInt(parts[k]).value
    decreases |parts|
  {
    if parts == [] then Some([])
    else
      var head := ParseInt(parts[0]);
      var tail := ParseAll(parts[1..]);
      if head.None? then None
      else if tail.None? then
        TailFailureFails(parts);
        None
      else
        ConsParsed(parts, tail.value);
        Some([head.value] + tail.value)
  }

  /** Parsing the first part and then the rest parses every part. */
  lemma ConsParsed(parts: seq<string>, rest: seq<int>)
    requires parts != [] && ParseInt(parts[0]).Some? && |rest| == |parts| - 1
    requires forall k :: 0 <= k < |parts[1..]| ==> ParseInt(parts[1..][k]).Some? && rest[k] == ParseInt(parts[1..][k]).value
    ensures var r := [ParseInt(parts[0]).value] + rest;
      |r| == |parts| && forall k :: 0 <= k < |parts| ==> ParseInt(parts[k]).Some? && r[k] == ParseInt(parts[k]).value
  {
    var r := [ParseInt(parts[0]).value] + rest;
    forall k | 0 <= k < |parts|
      ensures ParseInt(parts[k]).Some? && r[k] == ParseInt(parts[k]).value
    {
      if k > 0 {
        assert parts[k] == parts[1..][k - 1];
      }
    }
  }

  /** A part of parts[1..] that is no integer is a part of parts. */
  lemma TailFailureFails(parts: seq<string>)
    requires parts != [] && !(forall k :: 0 <= k < |parts[1..]| ==> ParseInt(parts[1..][k]).Some?)
    ensures !(forall k :: 0 <= k < |parts| ==> ParseInt(parts[k]).Some?)
  {
    var k :| 0 <= k < |parts[1..]| && ParseInt(parts[1..][k]).None?;
    assert parts[k + 1] == parts[1..][k];
  }

  /** The integer components of a version string, or None on ValueError. */
  function ParseVersion(s: string): Option<seq<int>>
  {
    ParseAll(SplitOn(s, '.'))
  }

  /** Component i of a version, 0 past its end. */
  function ComponentAt(v: seq<int>, i: nat): int
  {
    if i < |v| then v[i] else 0
  }

  function Span(a: seq<int>, b: seq<int>): nat
  {
    if |a| >= |b| then |a| else |b|
  }

  /** The three-way comparison of the components from index i on. */
  function CmpFrom(a: seq<int>, b: seq<int>, i: nat): (r: int)
    requires i <= Span(a, b)
    ensures -1 <= r <= 1
    decreases Span(a, b) - i
  {
    if i == Span(a, b) then 0
    else if ComponentAt(a, i) < ComponentAt(b, i) then -1
    else if ComponentAt(a, i) > ComponentAt(b, i) then 1
    else CmpFrom(a, b, i + 1)
  }

  /** The value _compare_versions returns. */
  function Compare(s1: string, s2: string): (r: int)
    ensures -1 <= r <= 1
    ensures ParseVersion(s1).None? || ParseVersion(s2).None? ==> r == -1
  {
    var p1 := ParseVersion(s1);
    var p2 := ParseVersion(s2);
    if p1.None? || p2.None? then -1 else CmpFrom(p1.value, p2.value, 0)
  }

  /** The comparison loop, with its early returns. */
  method CompareVersions(s1: string, s2: string) returns (r: int)
    ensures r == Compare(s1, s2)
  {
    var p1 := ParseVersion(s1);
    var p2 := ParseVersion(s2);
    if p1.None? || p2.None? {
      return -1;
    }
    var a, b := p1.value, p2.value;
    assert Compare(s1, s2) == CmpFrom(a, b, 0);
    var n := if |a| >= |b| then |a| else |b|;
    var i := 0;
    while i < n
      invariant 0 <= i <= n == Span(a, b)
      invariant CmpFrom(a, b, i) == CmpFrom(a, b, 0)
    {
      var x := if i < |a| then a[i] else 0;
      var y := if i < |b| then b[i] else 0;
      if x < y {
        return -1;
      }
      if x > y {
        return 1;
      }
      i := i + 1;
    }
    return 0;
  }

  /** 0 exactly when every component from i on agrees. */
  lemma {:induction false} CmpFromZeroIff(a: seq<int>, b: seq<int>, i: nat)
    requires i <= Span(a, b)
    ensures CmpFrom(a, b, i) == 0 <==> forall j :: i <= j < Span(a, b) ==> ComponentAt(a, j) == ComponentAt(b, j)
    decreases Span(a, b) - i
  {
    if i < Span(a, b) {
      CmpFromZeroIff(a, b, i + 1);
    }
  }

  /** 1 exactly when the first component that differs is larger in a. */
  lemma {:induction false} CmpFromOneIff(a: seq<int>, b: seq<int>, i: nat)
    requires i <= Span(a, b)
    ensures CmpFrom(a, b, i) == 1 <==>
      exists k :: i <= k < Span(a, b) && ComponentAt(a, k) > ComponentAt(b, k)
        && forall j :: i <= j < k ==> ComponentAt(a, j) == ComponentAt(b, j)
    decreases Span(a, b) - i
  {
    if i < Span(a, b) {
      CmpFromOneIff(a, b, i + 1);
      if ComponentAt(a, i) == ComponentAt(b, i) {
        if CmpFrom(a, b, i) == 1 {
          var k :| i + 1 <= k < Span(a, b) && ComponentAt(a, k) > ComponentAt(b, k)
            && forall j :: i + 1 <= j < k ==> ComponentAt(a, j) == ComponentAt(b, j);
          assert forall j :: i <= j < k ==> ComponentAt(a, j) == ComponentAt(b, j);
        }
      }
    }
  }

  /** Swapping the arguments negates the result. */
  lemma {:induction false} CmpFromAntisymmetric(a: seq<int>, b: seq<int>, i: nat)
    requires i <= Span(a, b)
    ensures Span(b, a) == Span(a, b)
    ensures CmpFrom(b, a, i) == -CmpFrom(a, b, i)
    decreases Span(a, b) - i
  {
    if i < Span(a, b) {
      CmpFromAntisymmetric(a, b, i + 1);
    }
  }

  /** For well-formed versions, swapping the arguments negates the result. */
  lemma CompareAntisymmetric(s1: string, s2: string)
    requires ParseVersion(s1).Some? && ParseVersion(s2).Some?
    ensures Compare(s2, s1) == -Compare(s1, s2)
  {
    CmpFromAntisymmetric(ParseVersion(s1).value, ParseVersion(s2).value, 0);
  }

  /** For well-formed versions: 0 exactly when all components agree, missing
      ones read as 0. */
  lemma CompareZeroIff(s1: string, s2: string)
    requires ParseVersion(s1).Some? && ParseVersion(s2).Some?
    ensures Compare(s1, s2) == 0 <==>
      forall j :: 0 <= j < Span(ParseVersion(s1).value, ParseVersion(s2).value) ==>
        ComponentAt(ParseVersion(s1).value, j) == ComponentAt(ParseVersion(s2).value, j)
  {
    CmpFromZeroIff(ParseVersion(s1).value, ParseVersion(s2).value, 0);
  }

  /** For well-formed versions: 1 exactly when the first differing component
      is larger on the left. */
  lemma CompareOneIff(s1: string, s2: string)
    requires ParseVersion(s1).Some? && ParseVersion(s2).Some?
    ensures Compare(s1, s2) == 1 <==>
      var a, b := ParseVersion(s1).value, ParseVersion(s2).value;
      exists k :: 0 <= k < Span(a, b) && ComponentAt(a, k) > ComponentAt(b, k)
        && forall j :: 0 <= j < k ==> ComponentAt(a, j) == ComponentAt(b, j)
  {
    CmpFromOneIff(ParseVersion(s1).value, ParseVersion(s2).value, 0);
  }

  /** Parsing one more part appends its value, or fails. */
  lemma ParseAllSnoc(parts: seq<string>, x: string)
    requires ParseAll(parts).Some? && ParseInt(x).Some?
    ensures ParseAll(parts + [x]) == Some(ParseAll(parts).value + [ParseInt(x).value])
  {
    var u := parts + [x];
    ParseAllSnocSome(parts, x);
    var r := ParseAll(u).value;
    var w := ParseAll(parts).value + [ParseInt(x).value];
    forall k | 0 <= k < |u|
      ensures r[k] == w[k]
    {
      if k < |parts| {
        assert u[k] == parts[k];
      }
    }
    assert r == w;
  }

  /** Parsing still succeeds with one more part that parses. */
  lemma ParseAllSnocSome(parts: seq<string>, x: string)
    requires ParseAll(parts).Some? && ParseInt(x).Some?
    ensures ParseAll(parts + [x]).Some?
  {
    var u := parts + [x];
    forall k | 0 <= k < |u|
      ensures ParseInt(u[k]).Some?
    {
      if k < |parts| {
        assert u[k] == parts[k];
      }
    }
  }

  lemma ParseAllSingleton(x: string)
    requires ParseInt(x).Some?
    ensures ParseAll([x]) == Some([ParseInt(x).value])
  {
    assert [x][1..] == [];
    assert ParseAll([x][1..]) == Some([]);
    var v := ParseInt(x).value;
    assert ParseAll([x]).value == [v] + [] == [v];
  }

  lemma ParseZero()
    ensures ParseInt("0") == Some(0)
  {
    ParseDigits("0");
  }

  /** One more ".0" component appends the value 0. */
  lemma ParseVersionAppendZero(s: string)
    requires ParseVersion(s).Some?
    ensures ParseVersion(s + ".0") == Some(ParseVersion(s).value + [0])
  {
    assert s + ".0" == s + ['.'] + "0";
    SplitAllAppend(s, '.', "0");
    ParseZero();
    ParseAllSnoc(SplitOn(s, '.'), "0");
  }

  /** A trailing ".0" makes no difference: "10.5" and "10.5.0" compare equal. */
  lemma TrailingZero(s: string)
    requires ParseVersion(s).Some?
    ensures Compare(s + ".0", s) == 0 && Compare(s, s + ".0") == 0
  {
    ParseVersionAppendZero(s);
    var a := ParseVersion(s).value;
    CmpFromZeroIff(a + [0], a, 0);
    CmpFromZeroIff(a, a + [0], 0);
  }
}
