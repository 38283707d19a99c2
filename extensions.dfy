/**
 * Extensions declared under `<extensions>`: the name an extension is filed under and
 * the multimap (Guava `ArrayListMultimap`) that collects them.
 */
module Extensions {
  import opened Wrappers
  import opened Xml

  /** Extension-point name to the values filed under it, in insertion order. */
  type Multimap<T> = map<string, seq<T>>

  /** `Multimap.get`: an absent key has the empty list. */
  function Get<T>(m: Multimap<T>, k: string): seq<T> {
    if k in m then m[k] else []
  }

  /** `Multimap.put`: `v` joins the end of `k`'s list and no other list changes. */
  function Put<T>(m: Multimap<T>, k: string, v: T): Multimap<T> {
    m[k := Get(m, k) + [v]]
  }

  lemma PutGet<T>(m: Multimap<T>, k: string, v: T, k': string)
    ensures Get(Put(m, k, v), k') == if k' == k then Get(m, k) + [v] else Get(m, k')
  {
  }

  /** `Multimap.putAll(other)`: every list is followed by the other's list under the same key. */
  function PutAll<T>(m: Multimap<T>, other: Multimap<T>): Multimap<T> {
    map k | k in m.Keys + other.Keys :: Get(m, k) + Get(other, k)
  }

  lemma PutAllGet<T>(m: Multimap<T>, other: Multimap<T>, k: string)
    ensures Get(PutAll(m, other), k) == Get(m, k) + Get(other, k)
  {
  }

  /**
   * `extractEPName`: the `point` attribute; failing that, the parent's
   * `defaultExtensionNs`, a '.', and the element's name; failing that, the element's
   * namespace URI, a '.', and its name.
   */
  function ExtractEPName(e: Element, parent: Option<Element>): (r: string)
    ensures "point" in e.attributes ==> r == e.attributes["point"]
    ensures "point" !in e.attributes && parent.Some? && "defaultExtensionNs" in parent.value.attributes ==>
      r == parent.value.attributes["defaultExtensionNs"] + "." + e.name
    ensures "point" !in e.attributes && (parent.None? || "defaultExtensionNs" !in parent.value.attributes) ==>
      r == e.namespaceUri + "." + e.name
  {
    match AttributeValue(e, "point")
    case Some(point) => point
    case None =>
      var ns := if parent.Some? then AttributeValue(parent.value, "defaultExtensionNs") else None;
      if ns.Some? then ns.value + "." + e.name else e.namespaceUri + "." + e.name
  }

  // ---------------------------------------------------------------------------
  // What `setExtensions` files, in the order it files it

  /** The first `j` children of one `<extensions>` element, each with its extension-point name. */
  function ChildEntries(r: Element, j: nat): (ps: seq<(string, Element)>)
    requires j <= |r.children|
    ensures |ps| == j
  {
    if j == 0 then [] else ChildEntries(r, j - 1) + [(ExtractEPName(r.children[j - 1], Some(r)), r.children[j - 1])]
  }

  /** One `<extensions>` element: each child under its extension-point name. */
  function RootEntries(r: Element): seq<(string, Element)> {
    ChildEntries(r, |r.children|)
  }

  /** Several `<extensions>` elements, one after the other. */
  function EntriesOf(roots: seq<Element>): seq<(string, Element)> {
    if roots == [] then [] else EntriesOf(roots[..|roots| - 1]) + RootEntries(roots[|roots| - 1])
  }

  /** Every pair `put` in turn. */
  function PutEntries<T>(m: Multimap<T>, ps: seq<(string, T)>): Multimap<T> {
    if ps == [] then m else Put(PutEntries(m, ps[..|ps| - 1]), ps[|ps| - 1].0, ps[|ps| - 1].1)
  }

  /** `m` after the first `j` children of `r` are `put`, in order. */
  function PutChildren(m: Multimap<Element>, r: Element, j: nat): Multimap<Element>
    requires j <= |r.children|
  {
    if j == 0 then m
    else Put(PutChildren(m, r, j - 1), ExtractEPName(r.children[j - 1], Some(r)), r.children[j - 1])
  }

  /** `m` after the children of the first `i` of `roots` are `put`, in order. */
  function PutRoots(m: Multimap<Element>, roots: seq<Element>, i: nat): Multimap<Element>
    requires i <= |roots|
  {
    if i == 0 then m else PutChildren(PutRoots(m, roots, i - 1), roots[i - 1], |roots[i - 1].children|)
  }

  /** Putting two runs of pairs is putting them one after the other. */
  lemma {:induction false} PutEntriesAppend<T>(m: Multimap<T>, ps: seq<(string, T)>, qs: seq<(string, T)>)
    ensures PutEntries(m, ps + qs) == PutEntries(PutEntries(m, ps), qs)
  {
    if qs == [] {
      assert ps + qs == ps;
    } else {
      var n := |qs| - 1;
      assert (ps + qs)[..|ps + qs| - 1] == ps + qs[..n];
      assert (ps + qs)[|ps + qs| - 1] == qs[n];
      PutEntriesAppend(m, ps, qs[..n]);
    }
  }

  lemma {:induction false} PutChildrenIsPutEntries(m: Multimap<Element>, r: Element, j: nat)
    requires j <= |r.children|
    ensures PutChildren(m, r, j) == PutEntries(m, ChildEntries(r, j))
  {
    if j > 0 {
      PutChildrenIsPutEntries(m, r, j - 1);
      var ps := ChildEntries(r, j);
      var last := (ExtractEPName(r.children[j - 1], Some(r)), r.children[j - 1]);
      assert ps == ChildEntries(r, j - 1) + [last];
      assert ps[..|ps| - 1] == ChildEntries(r, j - 1);
      assert ps[|ps| - 1] == last;
    }
  }

  /** Filing root by root and child by child puts exactly the pairs of `EntriesOf`, in order. */
  lemma {:induction false} PutRootsIsPutEntries(m: Multimap<Element>, roots: seq<Element>, i: nat)
    requires i <= |roots|
    ensures PutRoots(m, roots, i) == PutEntries(m, EntriesOf(roots[..i]))
  {
    if i == 0 {
      assert roots[..i] == [];
    } else {
      var before := PutRoots(m, roots, i - 1);
      var done := EntriesOf(roots[..i - 1]);
      assert roots[..i][..i - 1] == roots[..i - 1];
      assert EntriesOf(roots[..i]) == done + RootEntries(roots[i - 1]);
      calc {
        PutRoots(m, roots, i);
        PutChildren(before, roots[i - 1], |roots[i - 1].children|);
        { PutChildrenIsPutEntries(before, roots[i - 1], |roots[i - 1].children|); }
        PutEntries(before, RootEntries(roots[i - 1]));
        { PutRootsIsPutEntries(m, roots, i - 1); }
        PutEntries(PutEntries(m, done), RootEntries(roots[i - 1]));
        { PutEntriesAppend(m, done, RootEntries(roots[i - 1])); }
        PutEntries(m, done + RootEntries(roots[i - 1]));
      }
    }
  }

  /** The `j`-th pair of an `<extensions>` element is its `j`-th child under its extension-point name. */
  lemma {:induction false} ChildEntriesAt(r: Element, n: nat, j: nat)
    requires j < n <= |r.children|
    ensures ChildEntries(r, n)[j] == (ExtractEPName(r.children[j], Some(r)), r.children[j])
  {
    if j < n - 1 {
      ChildEntriesAt(r, n - 1, j);
    }
  }

  /** The elements paired with `k`, in order. */
  function ValuesUnder<T(!new)>(ps: seq<(string, T)>, k: string): (r: seq<T>)
    ensures forall v :: v in r <==> (k, v) in ps
  {
    if ps == [] then []
    else
      var last := ps[|ps| - 1];
      assert ps == ps[..|ps| - 1] + [last];
      ValuesUnder(ps[..|ps| - 1], k) + (if last.0 == k then [last.1] else [])
  }

  /** Putting pairs in turn extends each key's list by exactly that key's values, in order. */
  lemma {:induction false} PutEntriesGet<T(!new)>(m: Multimap<T>, ps: seq<(string, T)>, k: string)
    ensures Get(PutEntries(m, ps), k) == Get(m, k) + ValuesUnder(ps, k)
  {
    if ps != [] {
      PutEntriesGet(m, ps[..|ps| - 1], k);
      PutGet(PutEntries(m, ps[..|ps| - 1]), ps[|ps| - 1].0, ps[|ps| - 1].1, k);
    }
  }

  /** Each child of each `<extensions>` element is among the pairs. */
  lemma {:induction false} EntriesOfContains(roots: seq<Element>, i: nat, j: nat)
    requires i < |roots| && j < |roots[i].children|
    ensures (ExtractEPName(roots[i].children[j], Some(roots[i])), roots[i].children[j]) in EntriesOf(roots)
  {
    var n := |roots| - 1;
    if i < n {
      assert roots[..n][i] == roots[i];
      EntriesOfContains(roots[..n], i, j);
    } else {
      ChildEntriesAt(roots[n], |roots[n].children|, j);
      assert RootEntries(roots[n])[j] in RootEntries(roots[n]);
    }
  }

  /** Every child of every `<extensions>` element ends up filed under its extension-point name. */
  lemma ExtensionFiled(m: Multimap<Element>, roots: seq<Element>, i: nat, j: nat)
    requires i < |roots| && j < |roots[i].children|
    ensures roots[i].children[j] in Get(PutEntries(m, EntriesOf(roots)), ExtractEPName(roots[i].children[j], Some(roots[i])))
  {
    EntriesOfContains(roots, i, j);
    PutEntriesGet(m, EntriesOf(roots), ExtractEPName(roots[i].children[j], Some(roots[i])));
  }

  // ---------------------------------------------------------------------------
  // Merging the extensions of several descriptors

  /** The lists under `k` of several multimaps, one after the other. */
  function Concatenated<T>(ms: seq<Multimap<T>>, k: string): seq<T> {
    if ms == [] then [] else Get(ms[0], k) + Concatenated(ms[1..], k)
  }

  lemma PrefixSnoc<T>(s: seq<T>, n: nat)
    requires 0 < n <= |s|
    ensures s[..n] == s[..n - 1] + [s[n - 1]]
  {
  }

  /** `m` after the first `n` of `ms` are merged into it with `putAll`, in order. */
  function PutAllFrom<T>(m: Multimap<T>, ms: seq<Multimap<T>>, n: nat): Multimap<T>
    requires n <= |ms|
  {
    if n == 0 then m else PutAll(PutAllFrom(m, ms, n - 1), ms[n - 1])
  }

  /** Merging several multimaps appends, under every key, their lists in order. */
  lemma {:induction false} PutAllFromGet<T>(m: Multimap<T>, ms: seq<Multimap<T>>, n: nat, k: string)
    requires n <= |ms|
    ensures Get(PutAllFrom(m, ms, n), k) == Get(m, k) + Concatenated(ms[..n], k)
  {
    if n == 0 {
      assert ms[..n] == [];
    } else {
      var before := PutAllFrom(m, ms, n - 1);
      var prev := Concatenated(ms[..n - 1], k);
      var last := Get(ms[n - 1], k);
      assert Get(before, k) == Get(m, k) + prev by {
        PutAllFromGet(m, ms, n - 1, k);
      }
      assert Get(PutAllFrom(m, ms, n), k) == Get(before, k) + last by {
        PutAllGet(before, ms[n - 1], k);
      }
      assert Concatenated(ms[..n], k) == prev + last by {
        PrefixSnoc(ms, n);
        ConcatenatedSnoc(ms[..n - 1], ms[n - 1], k);
      }
      AppendAssoc(Get(m, k), prev, last);
    }
  }

  /** Merging one more multimap appends its list under `k`. */
  lemma {:induction false} ConcatenatedSnoc<T>(ms: seq<Multimap<T>>, x: Multimap<T>, k: string)
    ensures Concatenated(ms + [x], k) == Concatenated(ms, k) + Get(x, k)
  {
    if ms != [] {
      assert (ms + [x])[1..] == ms[1..] + [x];
      ConcatenatedSnoc(ms[1..], x, k);
    }
  }
}
