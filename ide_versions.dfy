/**
 * Build numbers of `<idea-version>`. The version type itself is not part of this model:
 * it is a type parameter `V`, compared through `leq` (`leq(a, b)` stands for
 * `a.compareTo(b) <= 0`) and produced by a partial parse function.
 */
module IdeVersions {
  import opened Wrappers
  import opened JavaStrings

  /** What the range reasoning needs of `compareTo`: a total preorder. */
  ghost predicate IsTotalPreorder<V(!new)>(leq: (V, V) -> bool) {
    (forall a :: leq(a, a)) &&
    (forall a, b :: leq(a, b) || leq(b, a)) &&
    (forall a, b, c :: leq(a, b) && leq(b, c) ==> leq(a, c))
  }

  /**
   * The closed range a descriptor accepts: no since-build accepts every version,
   * otherwise since-build <= v and, when an until-build is given, v <= until-build.
   */
  predicate InBuildRange<V>(since: Option<V>, until: Option<V>, v: V, leq: (V, V) -> bool) {
    since.None? || (leq(since.value, v) && (until.None? || leq(v, until.value)))
  }

  /** Both ends of a non-empty range belong to it. */
  lemma RangeBoundsInclusive<V(!new)>(since: V, until: Option<V>, leq: (V, V) -> bool)
    requires IsTotalPreorder(leq)
    requires until.Some? ==> leq(since, until.value)
    ensures InBuildRange(Some(since), until, since, leq)
    ensures until.Some? ==> InBuildRange(Some(since), until, until.value, leq)
  {
  }

  /** A version between two accepted versions is accepted. */
  lemma RangeConvex<V(!new)>(since: Option<V>, until: Option<V>, a: V, b: V, c: V, leq: (V, V) -> bool)
    requires IsTotalPreorder(leq)
    requires InBuildRange(since, until, a, leq) && InBuildRange(since, until, c, leq)
    requires leq(a, b) && leq(b, c)
    ensures InBuildRange(since, until, b, leq)
  {
  }

  /** An until-build strictly below the since-build accepts nothing. */
  lemma InvertedRangeEmpty<V(!new)>(since: V, until: V, v: V, leq: (V, V) -> bool)
    requires IsTotalPreorder(leq)
    requires !leq(since, until)
    ensures !InBuildRange(Some(since), Some(until), v, leq)
  {
  }

  // ---------------------------------------------------------------------------
  // until-build normalisation

  /** The endings that make an until-build open-ended in its last component. */
  const WildcardSuffixes: seq<string> := [".*", ".999", ".9999", ".99999"]

  predicate HasWildcardSuffix(ub: string) {
    EndsWith(ub, ".*") || EndsWith(ub, ".999") || EndsWith(ub, ".9999") || EndsWith(ub, ".99999")
  }

  /**
   * A wildcard-like last component is replaced by `Integer.MAX_VALUE`: everything up to
   * and including the last '.' is kept and the decimal digits of 2^31 - 1 follow.
   */
  function NormalizeUntilBuild(ub: string): string {
    if HasWildcardSuffix(ub) then
      var idx := LastIndexOf(ub, '.');
      ub[..idx + 1] + DecimalString(IntegerMaxValue)
    else
      ub
  }

  /** Each wildcard suffix holds one '.', as its first character. */
  lemma WildcardSuffixShape(suffix: string)
    requires suffix in WildcardSuffixes
    ensures |suffix| >= 2 && suffix[0] == '.'
    ensures forall k :: 0 < k < |suffix| ==> suffix[k] != '.'
  {
  }

  /** The normalised until-build of a wildcard value: its prefix through the final '.', then 2147483647. */
  lemma {:induction false} WildcardUntilBuild(ub: string, suffix: string)
    requires suffix in WildcardSuffixes && EndsWith(ub, suffix)
    ensures NormalizeUntilBuild(ub) == ub[..|ub| - |suffix| + 1] + "2147483647"
  {
    WildcardSuffixShape(suffix);
    var dot := |ub| - |suffix|;
    assert ub[dot] == suffix[0] == '.';
    forall k | dot < k < |ub| ensures ub[k] != '.' {
      assert ub[k] == suffix[k - dot];
    }
    assert HasWildcardSuffix(ub);
    LastIndexOfIsLast(ub, '.');
    var idx := LastIndexOf(ub, '.');
    assert idx == dot;
    IntegerMaxValueDigits();
  }

  /** Any other until-build is used as written. */
  lemma PlainUntilBuild(ub: string)
    requires forall suffix :: suffix in WildcardSuffixes ==> !EndsWith(ub, suffix)
    ensures NormalizeUntilBuild(ub) == ub
  {
    assert WildcardSuffixes[0] == ".*" && WildcardSuffixes[1] == ".999";
    assert WildcardSuffixes[2] == ".9999" && WildcardSuffixes[3] == ".99999";
  }

  /** Normalising twice is normalising once: 2147483647 is not itself a wildcard. */
  lemma {:induction false} NormalizeUntilBuildIdempotent(ub: string)
    ensures NormalizeUntilBuild(NormalizeUntilBuild(ub)) == NormalizeUntilBuild(ub)
  {
    var r := NormalizeUntilBuild(ub);
    if HasWildcardSuffix(ub) {
      IntegerMaxValueDigits();
      var idx := LastIndexOf(ub, '.');
      assert r == ub[..idx + 1] + "2147483647";
      assert r[|r| - 1] == '7';
      assert !HasWildcardSuffix(r);
    }
  }
}
