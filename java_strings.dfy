/**
 * The handful of `java.lang.String`, Guava `Strings` and `StringUtil` operations the
 * descriptor reader relies on, written out over `seq<char>`.
 */
module JavaStrings {
  import opened Wrappers

  /** `Integer.MAX_VALUE`. */
  const IntegerMaxValue: nat := 0x7FFF_FFFF

  /** Guava `Strings.isNullOrEmpty`. */
  predicate IsNullOrEmpty(s: Option<string>) {
    s.None? || s.value == []
  }

  /** `StringUtil.notNullize`: `null` becomes the empty string. */
  function NotNullize(s: Option<string>): (r: string)
    ensures s.Some? ==> r == s.value
    ensures s.None? ==> r == []
  {
    s.GetOr([])
  }

  predicate StartsWith(s: string, prefix: string) {
    |prefix| <= |s| && s[..|prefix|] == prefix
  }

  predicate EndsWith(s: string, suffix: string) {
    |suffix| <= |s| && s[|s| - |suffix|..] == suffix
  }

  // ---------------------------------------------------------------------------
  // String.trim: strips every leading and trailing character at or below U+0020.

  predicate IsTrimmable(c: char) {
    c <= ' '
  }

  function TrimStart(s: string): (r: string)
    ensures |r| <= |s|
  {
    if s != [] && IsTrimmable(s[0]) then TrimStart(s[1..]) else s
  }

  function TrimEnd(s: string): (r: string)
    ensures |r| <= |s|
  {
    if s != [] && IsTrimmable(s[|s| - 1]) then TrimEnd(s[..|s| - 1]) else s
  }

  /** Stripping the front leaves a suffix that starts with a non-blank, and only blanks went. */
  lemma {:induction false} TrimStartSpec(s: string)
    ensures TrimStart(s) == s[|s| - |TrimStart(s)|..]
    ensures forall c :: c in s[..|s| - |TrimStart(s)|] ==> IsTrimmable(c)
    ensures TrimStart(s) != [] ==> !IsTrimmable(TrimStart(s)[0])
  {
    if s != [] && IsTrimmable(s[0]) {
      TrimStartSpec(s[1..]);
      var k := |s| - |TrimStart(s)|;
      assert s[..k] == [s[0]] + s[1..][..k - 1];
    }
  }

  /** Stripping the back leaves a prefix that ends with a non-blank, and only blanks went. */
  lemma {:induction false} TrimEndSpec(s: string)
    ensures TrimEnd(s) == s[..|TrimEnd(s)|]
    ensures forall c :: c in s[|TrimEnd(s)|..] ==> IsTrimmable(c)
    ensures TrimEnd(s) != [] ==> !IsTrimmable(TrimEnd(s)[|TrimEnd(s)| - 1])
  {
    if s != [] && IsTrimmable(s[|s| - 1]) {
      var t := s[..|s| - 1];
      TrimEndSpec(t);
      var k := |TrimEnd(s)|;
      assert s[k..] == t[k..] + [s[|s| - 1]];
    }
  }

  /** `r` occurs in `s` at position `i`. */
  predicate InfixAt(s: string, r: string, i: int) {
    0 <= i <= |s| - |r| && s[i..i + |r|] == r
  }

  /** `String.trim`: the infix of `s` left once blanks are stripped from both ends. */
  function Trim(s: string): (r: string)
    ensures |r| <= |s|
  {
    TrimEnd(TrimStart(s))
  }

  /** The trimmed string occurs in `s` and neither starts nor ends with a blank. */
  lemma {:induction false} TrimSpec(s: string)
    ensures exists i :: InfixAt(s, Trim(s), i)
    ensures Trim(s) != [] ==> !IsTrimmable(Trim(s)[0]) && !IsTrimmable(Trim(s)[|Trim(s)| - 1])
  {
    var t := TrimStart(s);
    var r := TrimEnd(t);
    var i := |s| - |t|;
    assert t == s[i..] && (t != [] ==> !IsTrimmable(t[0])) by { TrimStartSpec(s); }
    assert r == t[..|r|] && (r != [] ==> !IsTrimmable(r[|r| - 1])) by { TrimEndSpec(t); }
    assert s[i..i + |r|] == r;
    assert Trim(s) == r;
    assert InfixAt(s, Trim(s), i);
  }

  // ---------------------------------------------------------------------------
  // JDOM `Text.normalizeString`: runs of XML white space become one space, and the
  // result neither starts nor ends with a space.

  predicate IsXmlWhitespace(c: char) {
    c == ' ' || c == '\t' || c == '\n' || c == '\r'
  }

  /**
   * The scan of `normalizeString`: `white` says whether the character written last was a
   * space (or nothing was written yet).
   */
  function Collapse(s: string, white: bool): (r: string)
    ensures forall k :: 0 <= k < |r| ==> !IsXmlWhitespace(r[k]) || r[k] == ' '
    ensures white && r != [] ==> r[0] != ' '
    ensures forall k :: 0 <= k < |r| - 1 ==> r[k] != ' ' || r[k + 1] != ' '
  {
    if s == [] then []
    else if IsXmlWhitespace(s[0]) then
      if white then Collapse(s[1..], true) else [' '] + Collapse(s[1..], true)
    else [s[0]] + Collapse(s[1..], false)
  }

  function Normalize(s: string): (r: string)
    ensures forall k :: 0 <= k < |r| ==> !IsXmlWhitespace(r[k]) || r[k] == ' '
    ensures r != [] ==> r[0] != ' ' && r[|r| - 1] != ' '
    ensures forall k :: 0 <= k < |r| - 1 ==> r[k] != ' ' || r[k + 1] != ' '
  {
    var c := Collapse(s, true);
    if c != [] && c[|c| - 1] == ' ' then c[..|c| - 1] else c
  }

  /** The characters of `s` that are not XML white space, in order. */
  function NonWhite(s: string): (r: string)
    ensures |r| <= |s|
  {
    if s == [] then [] else (if IsXmlWhitespace(s[0]) then [] else [s[0]]) + NonWhite(s[1..])
  }

  lemma {:induction false} NonWhiteAppend(a: string, b: string)
    ensures NonWhite(a + b) == NonWhite(a) + NonWhite(b)
  {
    if a == [] {
      assert a + b == b;
    } else {
      assert (a + b)[0] == a[0] && (a + b)[1..] == a[1..] + b;
      NonWhiteAppend(a[1..], b);
    }
  }

  /** Nothing is left once the white space goes exactly when there was nothing else. */
  lemma {:induction false} NonWhiteEmpty(s: string)
    ensures NonWhite(s) == [] <==> forall c :: c in s ==> IsXmlWhitespace(c)
  {
    if s != [] {
      NonWhiteEmpty(s[1..]);
      assert s == [s[0]] + s[1..];
    }
  }

  /** Collapsing white space keeps every other character, in order. */
  lemma {:induction false} CollapseKeepsText(s: string, white: bool)
    ensures NonWhite(Collapse(s, white)) == NonWhite(s)
  {
    if s != [] {
      CollapseKeepsText(s[1..], IsXmlWhitespace(s[0]));
      var rest := Collapse(s[1..], IsXmlWhitespace(s[0]));
      if IsXmlWhitespace(s[0]) {
        if !white {
          NonWhiteAppend([' '], rest);
        }
      } else {
        NonWhiteAppend([s[0]], rest);
      }
    }
  }

  /** All white space collapses to nothing at the start of the text. */
  lemma {:induction false} CollapseAllWhite(s: string)
    requires forall c :: c in s ==> IsXmlWhitespace(c)
    ensures Collapse(s, true) == []
  {
    if s != [] {
      assert s[0] in s;
      assert forall c :: c in s[1..] ==> c in s;
      CollapseAllWhite(s[1..]);
    }
  }

  /**
   * `normalizeString` keeps every character that is not white space, in order, and
   * yields nothing exactly when the text is all white space.
   */
  lemma NormalizeKeepsText(s: string)
    ensures NonWhite(Normalize(s)) == NonWhite(s)
    ensures Normalize(s) == [] <==> forall c :: c in s ==> IsXmlWhitespace(c)
  {
    var c := Collapse(s, true);
    CollapseKeepsText(s, true);
    if c != [] && c[|c| - 1] == ' ' {
      DropLast(c);
      NonWhiteAppend(c[..|c| - 1], [' ']);
    }
    NonWhiteEmpty(s);
    NonWhiteEmpty(Normalize(s));
    if forall ch :: ch in s ==> IsXmlWhitespace(ch) {
      CollapseAllWhite(s);
    }
  }

  /** Whether the scan's last written character is a space once `s` is read in state `white`. */
  function After(s: string, white: bool): bool {
    if s == [] then white else IsXmlWhitespace(s[|s| - 1])
  }

  /** The scan reads a concatenation as its two parts, the second in the state the first leaves. */
  lemma {:induction false} CollapseAppend(a: string, b: string, white: bool)
    ensures Collapse(a + b, white) == Collapse(a, white) + Collapse(b, After(a, white))
  {
    if a == [] {
      assert a + b == b;
    } else {
      var next := IsXmlWhitespace(a[0]);
      assert (a + b)[0] == a[0] && (a + b)[1..] == a[1..] + b;
      CollapseAppend(a[1..], b, next);
      assert After(a[1..], next) == After(a, white) by {
        if a[1..] != [] {
          assert a[1..][|a[1..]| - 1] == a[|a| - 1];
        }
      }
      var head := CollapseHead(a[0], white);
      CollapseUnfold(a + b, white);
      CollapseUnfold(a, white);
      AppendAssoc(head, Collapse(a[1..], next), Collapse(b, After(a, white)));
    }
  }

  /** What the scan writes for one character in a given state. */
  function CollapseHead(c: char, white: bool): (r: string)
    ensures |r| <= 1
  {
    if !IsXmlWhitespace(c) then [c] else if white then [] else [' ']
  }

  /** The scan's first step, as one equation. */
  lemma CollapseUnfold(s: string, white: bool)
    requires s != []
    ensures Collapse(s, white) == CollapseHead(s[0], white) + Collapse(s[1..], IsXmlWhitespace(s[0]))
  {
  }

  /** A run of white space writes one space, or none right after a space. */
  lemma CollapseWhiteRun(w: string, white: bool)
    requires w != [] && forall c :: c in w ==> IsXmlWhitespace(c)
    ensures Collapse(w, white) == if white then [] else [' ']
  {
    assert w[0] in w;
    assert forall c :: c in w[1..] ==> c in w;
    CollapseAllWhite(w[1..]);
  }

  /** What the scan writes ends with a space exactly when the text ends with white space. */
  lemma {:induction false} CollapseEndsSpace(s: string, white: bool)
    requires Collapse(s, white) != []
    ensures s != [] && (Collapse(s, white)[|Collapse(s, white)| - 1] == ' ' <==> After(s, white))
    decreases |s|
  {
    if s == [] {
      assert false;
    } else {
      var init, x := s[..|s| - 1], s[|s| - 1];
      assert s == init + [x];
      CollapseAppend(init, [x], white);
      var st := After(init, white);
      assert [x][1..] == [];
      if IsXmlWhitespace(x) && st {
        assert Collapse(s, white) == Collapse(init, white);
        CollapseEndsSpace(init, white);
      }
    }
  }

  /** Text holding a character that is not white space keeps one after the scan. */
  lemma CollapseHasText(s: string)
    requires exists k :: 0 <= k < |s| && !IsXmlWhitespace(s[k])
    ensures Collapse(s, true) != []
  {
    var k :| 0 <= k < |s| && !IsXmlWhitespace(s[k]);
    assert s[k] in s;
    NonWhiteEmpty(s);
    CollapseKeepsText(s, true);
  }

  /** Text without white space is written unchanged, whatever the state. */
  lemma {:induction false} CollapseWord(t: string, white: bool)
    requires forall c :: c in t ==> !IsXmlWhitespace(c)
    ensures Collapse(t, white) == t
  {
    if t != [] {
      assert t[0] in t;
      assert forall c :: c in t[1..] ==> c in t;
      CollapseUnfold(t, white);
      CollapseWord(t[1..], false);
      assert [t[0]] + t[1..] == t;
    }
  }

  /** White space, a word, then white space: the scan writes the word, then the run's space. */
  lemma CollapseAroundWord(v: string, t: string, w: string)
    requires forall c :: c in v ==> IsXmlWhitespace(c)
    requires t != [] && forall c :: c in t ==> !IsXmlWhitespace(c)
    ensures Collapse(v + t + w, true) == t + Collapse(w, false)
  {
    CollapseAppend(v + t, w, true);
    CollapseAppend(v, t, true);
    CollapseAllWhite(v);
    CollapseWord(t, After(v, true));
    assert !After(v + t, true) by {
      DropLastAppend(v, t);
      assert t[|t| - 1] in t;
    }
    assert [] + t == t;
  }

  /**
   * `normalizeString` keeps a word as it is: white space around text without white space
   * is dropped and nothing is inserted into the text.
   */
  lemma NormalizeWord(v: string, t: string, w: string)
    requires forall c :: c in v ==> IsXmlWhitespace(c)
    requires forall c :: c in t ==> !IsXmlWhitespace(c)
    requires forall c :: c in w ==> IsXmlWhitespace(c)
    ensures Normalize(v + t + w) == t
  {
    if t == [] {
      assert v + t + w == v + w;
      assert forall c :: c in v + w ==> c in v || c in w;
      NormalizeKeepsText(v + w);
    } else {
      CollapseAroundWord(v, t, w);
      if w == [] {
        assert Collapse(w, false) == [] && t + [] == t;
        assert t[|t| - 1] in t;
      } else {
        CollapseWhiteRun(w, false);
        DropLastAppend(t, [' ']);
      }
    }
  }

  /** The scan writes the first piece normalised, one space, then the second piece's scan. */
  lemma CollapseJoin(a: string, w: string, b: string)
    requires w != [] && forall c :: c in w ==> IsXmlWhitespace(c)
    requires exists k :: 0 <= k < |a| && !IsXmlWhitespace(a[k])
    ensures Collapse(a + w + b, true) == Normalize(a) + [' '] + Collapse(b, true)
  {
    var A := After(a, true);
    CollapseAppend(a + w, b, true);
    CollapseAppend(a, w, true);
    assert After(a + w, true) by {
      DropLastAppend(a, w);
      assert w[|w| - 1] in w;
    }
    CollapseWhiteRun(w, A);
    CollapseHasText(a);
    CollapseEndsSpace(a, true);
    var ca := Collapse(a, true);
    if A {
      DropLast(ca);
      assert ca + [] == ca;
    }
  }

  /**
   * `normalizeString` turns the white space between two pieces of text into exactly one
   * space: `a`, the white run `w` and `b` normalise to `a` normalised, a space and `b`
   * normalised.
   */
  lemma NormalizeJoin(a: string, w: string, b: string)
    requires w != [] && forall c :: c in w ==> IsXmlWhitespace(c)
    requires exists k :: 0 <= k < |a| && !IsXmlWhitespace(a[k])
    requires exists k :: 0 <= k < |b| && !IsXmlWhitespace(b[k])
    ensures Normalize(a + w + b) == Normalize(a) + [' '] + Normalize(b)
  {
    CollapseJoin(a, w, b);
    CollapseHasText(b);
    DropLastAppend(Normalize(a) + [' '], Collapse(b, true));
  }

  // ---------------------------------------------------------------------------

  /** `String.lastIndexOf(char)`: the last position holding `c`, or -1. */
  function LastIndexOf(s: string, c: char): (r: int)
    ensures -1 <= r < |s|
    ensures 0 <= r ==> s[r] == c
  {
    if s == [] then -1
    else if s[|s| - 1] == c then |s| - 1
    else LastIndexOf(s[..|s| - 1], c)
  }

  /** No `c` follows the position `LastIndexOf` reports. */
  lemma {:induction false} LastIndexOfIsLast(s: string, c: char)
    ensures forall k :: LastIndexOf(s, c) < k < |s| ==> s[k] != c
  {
    if s != [] && s[|s| - 1] != c {
      LastIndexOfIsLast(s[..|s| - 1], c);
    }
  }

  /** ASCII case folding; non-ASCII letters are compared as they are. */
  function ToLower(c: char): char {
    if 'A' <= c <= 'Z' then (c as int - 'A' as int + 'a' as int) as char else c
  }

  function ToLowerString(s: string): (r: string)
    ensures |r| == |s|
  {
    if s == [] then [] else [ToLower(s[0])] + ToLowerString(s[1..])
  }

  /** Lower-casing works character by character. */
  lemma {:induction false} ToLowerStringAt(s: string)
    ensures forall k :: 0 <= k < |s| ==> ToLowerString(s)[k] == ToLower(s[k])
  {
    if s != [] {
      ToLowerStringAt(s[1..]);
    }
  }

  predicate EqualsIgnoreCase(s: string, t: string) {
    ToLowerString(s) == ToLowerString(t)
  }

  /** `StringUtil.containsIgnoreCase`: some infix of `s` equals `w` up to case. */
  predicate ContainsIgnoreCase(s: string, w: string) {
    exists i | 0 <= i <= |s| - |w| :: MatchesIgnoreCaseAt(s, w, i)
  }

  predicate MatchesIgnoreCaseAt(s: string, w: string, i: int) {
    0 <= i <= |s| - |w| && EqualsIgnoreCase(s[i..i + |w|], w)
  }

  /** `Boolean.parseBoolean`: true exactly for "true" in any case. */
  predicate ParseBoolean(s: string) {
    EqualsIgnoreCase(s, "true")
  }

  // ---------------------------------------------------------------------------
  // Decimal rendering of a non-negative int, as string concatenation does it.

  function DigitChar(d: nat): (c: char)
    requires d < 10
    ensures '0' <= c <= '9'
  {
    ('0' as int + d) as char
  }

  function DecimalString(n: nat): (r: string)
    ensures r != []
    ensures forall k :: 0 <= k < |r| ==> '0' <= r[k] <= '9'
  {
    if n < 10 then [DigitChar(n)] else DecimalString(n / 10) + [DigitChar(n % 10)]
  }

  lemma IntegerMaxValueDigits()
    ensures DecimalString(IntegerMaxValue) == "2147483647"
  {
    assert DecimalString(2) == "2";
    assert DecimalString(21) == "21";
    assert DecimalString(214) == "214";
    assert DecimalString(2147) == "2147";
    assert DecimalString(21474) == "21474";
    assert DecimalString(214748) == "214748";
    assert DecimalString(2147483) == "2147483";
    assert DecimalString(21474836) == "21474836";
    assert DecimalString(214748364) == "214748364";
  }
}
