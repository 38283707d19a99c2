/**
 * Harvesting the class names a descriptor mentions: which element and attribute names
 * are looked at, how identifier-like tokens are cut out of their text, and how a dotted
 * name becomes a slash-separated class reference.
 */
module ClassReferences {
  import opened JavaStrings
  import opened Xml

  // ---------------------------------------------------------------------------
  // Labels worth looking at

  /** `INTERESTING_STRINGS`, in declaration order. */
  const InterestingStrings: seq<string> := ["class", "interface", "implementation", "instance"]

  /** A tag is interesting when it mentions one of the keywords, ignoring case. */
  predicate Interesting(tag: string) {
    ContainsIgnoreCase(tag, "class") || ContainsIgnoreCase(tag, "interface") ||
    ContainsIgnoreCase(tag, "implementation") || ContainsIgnoreCase(tag, "instance")
  }

  /** `isInterestingName`: tries the keywords in turn and stops at the first one found. */
  method IsInterestingName(tag: string) returns (r: bool)
    ensures r <==> Interesting(tag)
  {
    var i := 0;
    while i < |InterestingStrings|
      invariant 0 <= i <= |InterestingStrings|
      invariant forall j :: 0 <= j < i ==> !ContainsIgnoreCase(tag, InterestingStrings[j])
    {
      if ContainsIgnoreCase(tag, InterestingStrings[i]) {
        return true;
      }
      i := i + 1;
    }
    assert InterestingStrings[0] == "class" && InterestingStrings[1] == "interface";
    assert InterestingStrings[2] == "implementation" && InterestingStrings[3] == "instance";
    return false;
  }

  // ---------------------------------------------------------------------------
  // The identifier pattern
  //   start part* ('.' start part*)*
  // with Java's identifier classes, exact on ASCII.

  /** `\p{javaJavaIdentifierStart}` on ASCII: letters, '_' and '$'. */
  predicate IsIdentifierStart(c: char) {
    'a' <= c <= 'z' || 'A' <= c <= 'Z' || c == '_' || c == '$'
  }

  /**
   * `\p{javaJavaIdentifierPart}` on ASCII: identifier starts, digits and the control
   * characters Java calls identifier-ignorable.
   */
  predicate IsIdentifierPart(c: char) {
    IsIdentifierStart(c) || '0' <= c <= '9' ||
    c as int <= 8 || 14 <= c as int <= 27 || c as int == 127
  }

  /** A text the pattern matches in full: identifiers joined by single dots. */
  predicate IsDottedIdentifier(t: string) {
    |t| > 0 && IsIdentifierStart(t[0]) &&
    (forall k :: 0 <= k < |t| ==> t[k] == '.' || IsIdentifierPart(t[k])) &&
    (forall k :: 0 <= k < |t| && t[k] == '.' ==> k + 1 < |t| && IsIdentifierStart(t[k + 1]))
  }

  /** The end of the run of identifier parts that starts at `i`. */
  function PartsEnd(s: string, i: nat): (j: nat)
    requires i <= |s|
    ensures i <= j <= |s|
    ensures forall k :: i <= k < j ==> IsIdentifierPart(s[k])
    ensures j < |s| ==> !IsIdentifierPart(s[j])
    decreases |s| - i
  {
    if i < |s| && IsIdentifierPart(s[i]) then PartsEnd(s, i + 1) else i
  }

  /**
   * The end of the greedy match that starts at the identifier start `s[i]`: the match
   * is a dotted identifier and cannot be extended.
   */
  function MatchEnd(s: string, i: nat): (j: nat)
    requires i < |s| && IsIdentifierStart(s[i])
    ensures i < j <= |s|
    ensures IsDottedIdentifier(s[i..j])
    ensures j < |s| ==> !IsIdentifierPart(s[j]) && !(s[j] == '.' && j + 1 < |s| && IsIdentifierStart(s[j + 1]))
    decreases |s| - i
  {
    var k := PartsEnd(s, i + 1);
    SimpleIdentifier(s, i, k);
    if k + 1 < |s| && s[k] == '.' && IsIdentifierStart(s[k + 1]) then
      var j := MatchEnd(s, k + 1);
      DottedJoin(s, i, k, j);
      j
    else
      k
  }

  /** An identifier start followed by identifier parts is a dotted identifier. */
  lemma SimpleIdentifier(s: string, i: nat, k: nat)
    requires i < k <= |s| && IsIdentifierStart(s[i])
    requires forall m :: i < m < k ==> IsIdentifierPart(s[m])
    ensures IsDottedIdentifier(s[i..k])
  {
    var t := s[i..k];
    forall m | 0 <= m < |t| ensures IsIdentifierPart(t[m]) && t[m] != '.' {
      assert t[m] == s[i + m];
    }
  }

  /** A dotted identifier, a dot and a dotted identifier make a dotted identifier. */
  lemma DottedJoin(s: string, i: nat, k: nat, j: nat)
    requires i < k && k + 1 < j <= |s| && s[k] == '.'
    requires IsDottedIdentifier(s[i..k]) && IsDottedIdentifier(s[k + 1..j])
    ensures IsDottedIdentifier(s[i..j])
  {
    var t, p, q := s[i..j], s[i..k], s[k + 1..j];
    forall m | 0 <= m < |t| ensures t[m] == '.' || IsIdentifierPart(t[m]) {
      if m < |p| { assert t[m] == p[m]; }
      else if m > |p| { assert t[m] == q[m - |p| - 1]; }
    }
    forall m | 0 <= m < |t| && t[m] == '.' ensures m + 1 < |t| && IsIdentifierStart(t[m + 1]) {
      if m < |p| {
        assert t[m] == p[m];
        assert t[m + 1] == p[m + 1];
      } else if m > |p| {
        assert t[m] == q[m - |p| - 1];
        assert t[m + 1] == q[m - |p|];
      } else {
        assert t[m + 1] == q[0];
      }
    }
    assert t[0] == p[0];
  }

  /** The successive results of `Matcher.find()` from position `i` on. */
  function TokensFrom(s: string, i: nat): seq<string>
    requires i <= |s|
    decreases |s| - i
  {
    if i == |s| then []
    else if IsIdentifierStart(s[i]) then
      var j := MatchEnd(s, i);
      [s[i..j]] + TokensFrom(s, j)
    else
      TokensFrom(s, i + 1)
  }

  function ClassTokens(s: string): seq<string> {
    TokensFrom(s, 0)
  }

  /** Every token `find()` reports from `i` on is a dotted identifier. */
  lemma {:induction false} TokensFromAreIdentifiers(s: string, i: nat)
    requires i <= |s|
    ensures forall t :: t in TokensFrom(s, i) ==> IsDottedIdentifier(t)
    decreases |s| - i
  {
    if i < |s| {
      if IsIdentifierStart(s[i]) {
        TokensFromAreIdentifiers(s, MatchEnd(s, i));
      } else {
        TokensFromAreIdentifiers(s, i + 1);
      }
    }
  }

  lemma ClassTokensAreIdentifiers(s: string)
    ensures forall t :: t in ClassTokens(s) ==> IsDottedIdentifier(t)
  {
    TokensFromAreIdentifiers(s, 0);
  }

  /** `String.replace('.', '/')`. */
  function Slashed(t: string): (r: string)
    ensures |r| == |t|
  {
    if t == [] then [] else [if t[0] == '.' then '/' else t[0]] + Slashed(t[1..])
  }

  /** Each '.' becomes a '/', and every other character stays. */
  lemma {:induction false} SlashedAt(t: string)
    ensures forall k :: 0 <= k < |t| ==> Slashed(t)[k] == (if t[k] == '.' then '/' else t[k])
  {
    if t != [] {
      SlashedAt(t[1..]);
    }
  }

  /** A slashed name holds no '.'. */
  lemma SlashedHasNoDot(t: string)
    ensures '.' !in Slashed(t)
  {
    SlashedAt(t);
  }

  /** The class references `checkIfClass(text)` records. */
  function Harvest(text: string): set<string> {
    set t | t in ClassTokens(text) :: Slashed(t)
  }

  /** Harvested references hold no '.', and each is a matched dotted identifier, slashed. */
  lemma HarvestShape(text: string)
    ensures forall c :: c in Harvest(text) ==> '.' !in c
    ensures forall c :: c in Harvest(text) ==> exists t :: t in ClassTokens(text) && IsDottedIdentifier(t) && c == Slashed(t)
  {
    ClassTokensAreIdentifiers(text);
    forall c | c in Harvest(text) ensures '.' !in c {
      var t :| t in ClassTokens(text) && c == Slashed(t);
      SlashedHasNoDot(t);
    }
  }

  // ---------------------------------------------------------------------------
  // What `processReferencedClasses` looks at, node by node

  /** An element node: its normalized text when its name is interesting, and its interesting attributes. */
  ghost function ElementNodeHarvest(e: Element): set<string> {
    (if Interesting(e.name) then Harvest(TextNormalize(e)) else {}) +
    AttributesHarvest(e.attributes, e.attributes.Keys)
  }

  /** One attribute: its trimmed value when its name is interesting. */
  ghost function AttributeHarvest(attrs: map<string, string>, a: string): set<string> {
    if a in attrs && Interesting(a) then Harvest(Trim(attrs[a])) else {}
  }

  /** The attributes among `keys`, together. */
  ghost function AttributesHarvest(attrs: map<string, string>, keys: set<string>): set<string> {
    set a, c | a in keys && c in AttributeHarvest(attrs, a) :: c
  }

  /** A text node: its trimmed text when its parent's name is interesting. */
  ghost function TextNodeHarvest(parent: Element): set<string> {
    if Interesting(parent.name) then Harvest(TextTrim(parent)) else {}
  }

  /** What each of `ds` yields as an element node together with its text nodes. */
  ghost function NodeHarvests(ds: seq<Element>): (hs: seq<set<string>>)
    ensures |hs| == |ds|
  {
    if ds == [] then []
    else
      var last := ds[|ds| - 1];
      NodeHarvests(ds[..|ds| - 1]) + [ElementNodeHarvest(last) + TextNodeHarvest(last)]
  }

  /** The `i`-th harvest is that of the `i`-th node. */
  lemma {:induction false} NodeHarvestsAt(ds: seq<Element>)
    ensures forall i :: 0 <= i < |ds| ==> NodeHarvests(ds)[i] == ElementNodeHarvest(ds[i]) + TextNodeHarvest(ds[i])
  {
    if ds != [] {
      var front := ds[..|ds| - 1];
      NodeHarvestsAt(front);
      var hs := NodeHarvests(ds);
      assert hs == NodeHarvests(front) + [ElementNodeHarvest(ds[|ds| - 1]) + TextNodeHarvest(ds[|ds| - 1])];
      forall i | 0 <= i < |ds| - 1
        ensures hs[i] == ElementNodeHarvest(ds[i]) + TextNodeHarvest(ds[i])
      {
        assert hs[i] == NodeHarvests(front)[i];
        assert front[i] == ds[i];
      }
    }
  }

  /** `base`, then the first `n` sets of `ss` added one after the other. */
  function UnionFrom<T>(base: set<T>, ss: seq<set<T>>, n: nat): set<T>
    requires n <= |ss|
  {
    if n == 0 then base else UnionFrom(base, ss, n - 1) + ss[n - 1]
  }

  /**
   * All class references below `root`: the text nodes directly under it, and every
   * element and text node further down.
   */
  ghost function ReferencedClassesIn(root: Element): set<string> {
    var hs := NodeHarvests(Descendants(root));
    UnionFrom(TextNodeHarvest(root), hs, |hs|)
  }

  lemma UnionAssoc<T>(a: set<T>, b: set<T>, c: set<T>)
    ensures a + b + c == a + (b + c)
  {
  }

  lemma UnionEmpty<T>(a: set<T>)
    ensures a + {} == a
  {
  }

  /** Folding from `a + b` is adding `a` to the fold from `b`. */
  lemma {:induction false} UnionFromShift<T>(a: set<T>, b: set<T>, ss: seq<set<T>>, n: nat)
    requires n <= |ss|
    ensures UnionFrom(a + b, ss, n) == a + UnionFrom(b, ss, n)
  {
    if n > 0 {
      UnionFromShift(a, b, ss, n - 1);
      UnionAssoc(a, UnionFrom(b, ss, n - 1), ss[n - 1]);
    }
  }

  /** Looking at one more attribute adds what its trimmed value holds, when its name is interesting. */
  lemma AttributesHarvestAdd(attrs: map<string, string>, keys: set<string>, a: string)
    requires a in attrs
    ensures AttributesHarvest(attrs, keys + {a}) == AttributesHarvest(attrs, keys) + AttributeHarvest(attrs, a)
  {
    var before, after := AttributesHarvest(attrs, keys), AttributesHarvest(attrs, keys + {a});
    forall c | c in after ensures c in before + AttributeHarvest(attrs, a) {
      var b :| b in keys + {a} && c in AttributeHarvest(attrs, b);
      if b != a {
        assert b in keys;
      }
    }
  }

  /** Class references in slashed form: none holds a '.'. */
  predicate NoDots(cs: set<string>) {
    forall c :: c in cs ==> '.' !in c
  }

  lemma NoDotsUnion(a: set<string>, b: set<string>)
    requires NoDots(a) && NoDots(b)
    ensures NoDots(a + b)
  {
  }

  lemma AttributesHarvestHasNoDot(attrs: map<string, string>, keys: set<string>)
    ensures NoDots(AttributesHarvest(attrs, keys))
  {
    forall c | c in AttributesHarvest(attrs, keys) ensures '.' !in c {
      var a :| a in keys && c in AttributeHarvest(attrs, a);
      HarvestShape(Trim(attrs[a]));
    }
  }

  lemma NodesHaveNoDot(e: Element)
    ensures NoDots(ElementNodeHarvest(e)) && NoDots(TextNodeHarvest(e))
  {
    HarvestShape(TextNormalize(e));
    HarvestShape(TextTrim(e));
    AttributesHarvestHasNoDot(e.attributes, e.attributes.Keys);
    NoDotsUnion(if Interesting(e.name) then Harvest(TextNormalize(e)) else {}, AttributesHarvest(e.attributes, e.attributes.Keys));
  }

  lemma {:induction false} UnionFromHasNoDot(base: set<string>, ss: seq<set<string>>, n: nat)
    requires n <= |ss|
    requires NoDots(base)
    requires forall i :: 0 <= i < |ss| ==> NoDots(ss[i])
    ensures NoDots(UnionFrom(base, ss, n))
  {
    if n > 0 {
      UnionFromHasNoDot(base, ss, n - 1);
      NoDotsUnion(UnionFrom(base, ss, n - 1), ss[n - 1]);
    }
  }

  /** No class reference harvested from a descriptor holds a '.'. */
  lemma ReferencedClassesHaveNoDot(root: Element)
    ensures NoDots(ReferencedClassesIn(root))
  {
    var ds := Descendants(root);
    var hs := NodeHarvests(ds);
    NodeHarvestsAt(ds);
    forall i | 0 <= i < |hs| ensures NoDots(hs[i]) {
      NodesHaveNoDot(ds[i]);
      NoDotsUnion(ElementNodeHarvest(ds[i]), TextNodeHarvest(ds[i]));
    }
    NodesHaveNoDot(root);
    UnionFromHasNoDot(TextNodeHarvest(root), hs, |hs|);
  }
}
