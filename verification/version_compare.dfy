/** The package checker's dotted version comparison. Both versions are split at '.', and the
    components are compared as 32-bit numbers from the left, a missing component counting as
    0. The first component that differs decides. Components are converted lazily, so text
    after the deciding component is never looked at. */
module VersionCompare {
  import opened Wrappers
  import opened Strings

  /** One converted component: the number, or the exception converting it throws. */
  type Converted = Result<int, ConvertError>

  /** `f` applied to each element, in order. */
  function Map<A, B>(f: A -> B, xs: seq<A>): (ys: seq<B>)
    ensures |ys| == |xs|
    ensures forall i :: 0 <= i < |xs| ==> ys[i] == f(xs[i])
  {
    seq(|xs|, i requires 0 <= i < |xs| => f(xs[i]))
  }

  lemma MapAppend<A, B>(f: A -> B, xs: seq<A>, last: A)
    ensures Map(f, xs + [last]) == Map(f, xs) + [f(last)]
  {
    var ys := Map(f, xs + [last]);
    assert forall i :: 0 <= i < |xs| ==> ys[i] == f(xs[i]) by {
      forall i | 0 <= i < |xs|
        ensures ys[i] == f(xs[i])
      {
        assert (xs + [last])[i] == xs[i];
      }
    }
  }

  /** The components of a version, each converted. Conversion has no side effects, so
      converting them all up front and reading the results in order, as `CompareFrom` does,
      behaves as the loop's conversion on demand. */
  function Components(v: string): (cs: seq<Converted>)
    ensures |cs| == |Split(v, '.')|
    ensures forall i :: 0 <= i < |cs| ==> cs[i] == ToInt32(Split(v, '.')[i])
  {
    Map(ToInt32, Split(v, '.'))
  }

  /** Component `i`: the converted text, or 0 past the end. */
  function Component(cs: seq<Converted>, i: nat): (r: Converted)
    ensures i >= |cs| ==> r == Success(0)
  {
    if i < |cs| then cs[i] else Success(0)
  }

  /** The comparison loop from component `i` on. Within one step the first version's
      component is read before the second's, so its exception is the one raised. */
  function CompareFrom(a: seq<Converted>, b: seq<Converted>, i: nat): (r: Converted)
    ensures r.Success? ==> -1 <= r.value <= 1
    decreases |a| + |b| - i
  {
    if i >= |a| && i >= |b| then Success(0)
    else
      var x :- Component(a, i);
      var y :- Component(b, i);
      if x > y then Success(1)
      else if x < y then Success(-1)
      else CompareFrom(a, b, i + 1)
  }

  /** `CompareVersion(latestVerified, project)`: 1 when the first is ahead, -1 when it is
      behind, 0 when they match; a component that is not a 32-bit numeral stops it. */
  function CompareVersion(latest: string, project: string): (r: Converted)
    ensures r.Success? ==> r.value == -1 || r.value == 0 || r.value == 1
  {
    CompareFrom(Components(latest), Components(project), 0)
  }

  /** Every component of a version up to (excluding) `k` converts. */
  predicate ConvertsBelow(cs: seq<Converted>, k: nat) {
    forall i :: 0 <= i < k && i < |cs| ==> cs[i].Success?
  }

  /** The two versions agree, as numbers, on every component from `i` up to (excluding) `k`. */
  predicate AgreeBetween(a: seq<Converted>, b: seq<Converted>, i: nat, k: nat)
    requires ConvertsBelow(a, k) && ConvertsBelow(b, k)
  {
    forall j :: i <= j < k ==> Component(a, j).value == Component(b, j).value
  }

  /** The first component where the two versions differ decides the comparison: 1 if the
      first version's is larger, -1 if smaller, whatever follows it. */
  lemma {:induction false} FirstDifferenceDecides(a: seq<Converted>, b: seq<Converted>, i: nat, k: nat)
    requires i <= k
    requires ConvertsBelow(a, k + 1) && ConvertsBelow(b, k + 1)
    requires AgreeBetween(a, b, i, k)
    requires Component(a, k).value != Component(b, k).value
    ensures CompareFrom(a, b, i) == Success(if Component(a, k).value > Component(b, k).value then 1 else -1)
    decreases k - i
  {
    assert Component(a, i).Success? && Component(b, i).Success?;
    if i < k {
      FirstDifferenceDecides(a, b, i + 1, k);
    }
  }

  /** Versions that agree on every component, the missing ones read as 0, compare equal. */
  lemma {:induction false} AgreeingVersionsMatch(a: seq<Converted>, b: seq<Converted>, i: nat)
    requires ConvertsBelow(a, |a| + |b|) && ConvertsBelow(b, |a| + |b|)
    requires AgreeBetween(a, b, i, |a| + |b|)
    ensures CompareFrom(a, b, i) == Success(0)
    decreases |a| + |b| - i
  {
    if i < |a| || i < |b| {
      assert Component(a, i).Success? && Component(b, i).Success?;
      AgreeingVersionsMatch(a, b, i + 1);
    }
  }

  /** Comparing in the other order flips the sign, and one order fails exactly when the
      other does. */
  lemma {:induction false} CompareFromAntisymmetric(a: seq<Converted>, b: seq<Converted>, i: nat)
    ensures CompareFrom(a, b, i).Success? <==> CompareFrom(b, a, i).Success?
    ensures CompareFrom(a, b, i).Success? ==> CompareFrom(a, b, i).value == -CompareFrom(b, a, i).value
    decreases |a| + |b| - i
  {
    if (i < |a| || i < |b|) && Component(a, i).Success? && Component(b, i).Success?
      && Component(a, i).value == Component(b, i).value
    {
      CompareFromAntisymmetric(a, b, i + 1);
    }
  }

  lemma CompareVersionAntisymmetric(x: string, y: string)
    ensures CompareVersion(x, y).Success? <==> CompareVersion(y, x).Success?
    ensures CompareVersion(x, y).Success? ==> CompareVersion(x, y).value == -CompareVersion(y, x).value
  {
    CompareFromAntisymmetric(Components(x), Components(y), 0);
  }

  /** Every component of `v` converts. */
  predicate AllConvert(v: string) {
    forall part :: part in Split(v, '.') ==> ToInt32(part).Success?
  }

  lemma AllConvertBelow(v: string, k: nat)
    requires AllConvert(v)
    ensures ConvertsBelow(Components(v), k)
  {
    var parts := Split(v, '.');
    forall i | 0 <= i < k && i < |parts|
      ensures Components(v)[i].Success?
    {
      assert parts[i] in parts;
    }
  }

  /** A version whose components all convert matches itself. */
  lemma CompareVersionReflexive(v: string)
    requires AllConvert(v)
    ensures CompareVersion(v, v) == Success(0)
  {
    var cs := Components(v);
    AllConvertBelow(v, |cs| + |cs|);
    AgreeingVersionsMatch(cs, cs, 0);
  }

  /** A missing trailing component counts as 0: `v` and `v.0` match. */
  lemma TrailingZeroIgnored(v: string)
    requires AllConvert(v)
    ensures CompareVersion(v, v + ".0") == Success(0)
    ensures CompareVersion(v + ".0", v) == Success(0)
  {
    var cs := Components(v);
    ZeroComponent(v);
    var longer := cs + [Success(0)];
    AllConvertBelow(v, |cs| + |longer|);
    PaddedAgrees(cs, |cs| + |longer|);
    AgreeingVersionsMatch(cs, longer, 0);
    CompareFromAntisymmetric(cs, longer, 0);
  }

  /** Appending a 0 component changes no component. */
  lemma PaddedAgrees(cs: seq<Converted>, k: nat)
    requires ConvertsBelow(cs, k)
    ensures ConvertsBelow(cs + [Success(0)], k)
    ensures AgreeBetween(cs, cs + [Success(0)], 0, k)
  {
    var longer := cs + [Success(0)];
    forall j | 0 <= j < k
      ensures Component(cs, j) == Component(longer, j)
    {
      if j < |cs| {
        assert longer[j] == cs[j];
      }
    }
  }

  /** `v.0` has the components of `v` followed by a 0. */
  lemma ZeroComponent(v: string)
    ensures Components(v + ".0") == Components(v) + [Success(0)]
  {
    assert v + ".0" == v + ['.'] + "0";
    SplitAppend(v, '.', "0");
    MapAppend(ToInt32, Split(v, '.'), "0");
    ZeroConverts();
  }

  lemma ZeroConverts()
    ensures ToInt32("0") == Success(0)
  {
    UnsignedDigits("0");
  }

  /** Appending a separator and a part without separators appends that part. */
  lemma SplitAppend(v: string, sep: char, last: string)
    requires sep !in last
    ensures Split(v + [sep] + last, sep) == Split(v, sep) + [last]
  {
    var parts := Split(v, sep);
    var longer := parts + [last];
    AppendPart(parts, sep, last);
    assert forall i :: 0 <= i < |longer| ==> sep !in longer[i];
    SplitJoin(longer, sep);
  }

  /** Joining one more part adds a separator and the part. */
  lemma {:induction false} AppendPart(parts: seq<string>, sep: char, last: string)
    requires |parts| >= 1
    ensures Join(parts + [last], sep) == Join(parts, sep) + [sep] + last
    decreases |parts|
  {
    var longer := parts + [last];
    if |parts| == 1 {
      assert longer[1..] == [last];
    } else {
      assert longer[1..] == parts[1..] + [last];
      AppendPart(parts[1..], sep, last);
    }
  }

  /** "1.2" and "1.2.0" match. */
  lemma ShortVersionMatchesLong()
    ensures CompareVersion("1.2", "1.2.0") == Success(0)
  {
    OneTwoConverts();
    TrailingZeroIgnored("1.2");
    assert "1.2" + ".0" == "1.2.0";
  }

  lemma OneTwoConverts()
    ensures AllConvert("1.2")
  {
    var parts := ["1", "2"];
    assert Join(parts, '.') == "1.2";
    SplitJoin(parts, '.');
    UnsignedDigits("1");
    ToInt32OfNumeral("1");
    UnsignedDigits("2");
    ToInt32OfNumeral("2");
  }

  /** A pre-release suffix such as "0-preview" is not a number: the comparison fails, which
      in the checker is an uncaught `FormatException`. */
  lemma PreReleaseIsFormatError(project: string)
    ensures CompareVersion("0-preview", project) == Failure(FormatError)
  {
    PreReleaseComponents();
    FirstComponentFails(Components("0-preview"), Components(project));
  }

  lemma PreReleaseComponents()
    ensures Components("0-preview") == [Failure(FormatError)]
  {
    var v := "0-preview";
    PreReleaseIsOnePart();
    PreReleaseDoesNotConvert();
    var cs := Components(v);
    assert |cs| == 1 && cs[0] == ToInt32(v);
  }

  lemma PreReleaseIsOnePart()
    ensures Split("0-preview", '.') == ["0-preview"]
  {
    assert '.' !in "0-preview";
    SplitWithoutSeparator("0-preview", '.');
  }

  lemma PreReleaseDoesNotConvert()
    ensures ToInt32("0-preview") == Failure(FormatError)
  {
    StrayCharacterIsFormatError("0-preview", 2);
  }

  /** A first component that does not convert stops the comparison with its exception. */
  lemma FirstComponentFails(a: seq<Converted>, b: seq<Converted>)
    requires |a| >= 1 && a[0].Failure?
    ensures CompareFrom(a, b, 0) == Failure(a[0].error)
  {
  }
}
