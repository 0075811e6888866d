/** Stream profiles that inherit from a parent profile.  A profile is a YAML
    document, abstracted to the map it decodes to. */
module ProfileInheritance {
  import opened Basics

  /** A value of a document; only its being null, or being a text, matters here. */
  datatype Value = Null | Text(text: string) | Other(id: int)

  /** `None` is a document that is empty or does not decode. */
  type Document = Option<map<string, Value>>

  type Profiles = map<string, Document>

  const PARENT := "parent"

  function ParentName(doc: Document): Option<string> {
    if doc.Some? && PARENT in doc.value && doc.value[PARENT].Text? && doc.value[PARENT].text != ""
    then Some(doc.value[PARENT].text) else None
  }

  function Parent(profiles: Profiles, doc: Document): Option<Document> {
    var name := ParentName(doc);
    if name.Some? && name.value in profiles then Some(profiles[name.value]) else None
  }

  /** The `n`-th ancestor; the profile itself is its ancestor 0. */
  function Ancestor(profiles: Profiles, doc: Document, n: nat): Option<Document> {
    if n == 0 then Some(doc)
    else
      var below := Ancestor(profiles, doc, n - 1);
      if below.None? then None else Parent(profiles, below.value)
  }

  /** The walk up the parents comes to an end. */
  ghost predicate WalkEnds(profiles: Profiles, doc: Document) {
    exists n: nat :: Ancestor(profiles, doc, n).None?
  }

  lemma {:induction false} NoneStaysNone(profiles: Profiles, doc: Document, m: nat, n: nat)
    requires m <= n && Ancestor(profiles, doc, m).None?
    ensures Ancestor(profiles, doc, n).None?
  {
    if m < n {
      NoneStaysNone(profiles, doc, m, n - 1);
    }
  }

  lemma EndsBeyond(profiles: Profiles, doc: Document, n: nat, top: nat)
    requires Ancestor(profiles, doc, n).Some? && Ancestor(profiles, doc, top).None?
    ensures n < top
  {
    if top <= n {
      NoneStaysNone(profiles, doc, top, n);
    }
  }

  lemma {:induction false} AncestorsCompose(profiles: Profiles, doc: Document, m: nat, n: nat)
    requires Ancestor(profiles, doc, m).Some?
    ensures Ancestor(profiles, doc, m + n) == Ancestor(profiles, Ancestor(profiles, doc, m).value, n)
  {
    if n > 0 {
      AncestorsCompose(profiles, doc, m, n - 1);
    }
  }

  /** The profile and its ancestors, nearest first. */
  ghost predicate IsChain(profiles: Profiles, doc: Document, chain: seq<Document>) {
    && chain != [] && chain[0] == doc
    && (forall i :: 0 < i < |chain| ==> Parent(profiles, chain[i - 1]) == Some(chain[i]))
    && Parent(profiles, chain[|chain| - 1]) == None
  }

  lemma {:induction false} ChainIsUnique(profiles: Profiles, doc: Document, c: seq<Document>, d: seq<Document>)
    requires IsChain(profiles, doc, c) && IsChain(profiles, doc, d)
    ensures c == d
    decreases |c|
  {
    assert |c| > 1 ==> Parent(profiles, c[0]) == Some(c[1]);
    assert |d| > 1 ==> Parent(profiles, d[0]) == Some(d[1]);
    if |c| > 1 && |d| > 1 {
      forall i | 0 < i < |c[1..]|
        ensures Parent(profiles, c[1..][i - 1]) == Some(c[1..][i])
      {
        assert c[1..][i - 1] == c[i];
      }
      forall i | 0 < i < |d[1..]|
        ensures Parent(profiles, d[1..][i - 1]) == Some(d[1..][i])
      {
        assert d[1..][i - 1] == d[i];
      }
      ChainIsUnique(profiles, c[1], c[1..], d[1..]);
      assert c == [c[0]] + c[1..] && d == [d[0]] + d[1..];
    }
  }

  // ---- merging ----------------------------------------------------------

  /** One document laid over another: non-null values win. */
  function Over(base: Document, item: Document): Document {
    if item.None? then base
    else if base.None? then item
    else Some(map k | k in base.value.Keys + item.value.Keys
                      && (k in base.value || item.value[k] != Null)
                    :: if k in item.value && item.value[k] != Null then item.value[k] else base.value[k])
  }

  function Merged(chain: seq<Document>): Document {
    if chain == [] then None else Over(Merged(chain[1..]), chain[0])
  }

  /** A key's value where it is defined and not null. */
  function Defined(doc: Document, k: string): Option<Value> {
    if doc.Some? && k in doc.value && doc.value[k] != Null then Some(doc.value[k]) else None
  }

  /** The value in the nearest document that defines the key. */
  function Nearest(chain: seq<Document>, k: string): Option<Value> {
    if chain == [] then None
    else if Defined(chain[0], k).Some? then Defined(chain[0], k)
    else Nearest(chain[1..], k)
  }

  /** The farthest document there is. */
  function Root(chain: seq<Document>): Document {
    if chain == [] then None
    else if Root(chain[1..]).Some? then Root(chain[1..])
    else chain[0]
  }

  /** For every key the merge holds the value of the nearest profile that defines it;
      a null survives only where the farthest document says so and nobody nearer
      defines the key. */
  lemma {:induction false} MergeTakesTheNearest(chain: seq<Document>, k: string)
    ensures Defined(Merged(chain), k) == Nearest(chain, k)
    ensures Merged(chain).Some? <==> Root(chain).Some?
    ensures Merged(chain).Some? && k in Merged(chain).value && Merged(chain).value[k] == Null <==>
            Nearest(chain, k).None? && Root(chain).Some? && k in Root(chain).value
  {
    if chain != [] {
      MergeTakesTheNearest(chain[1..], k);
    }
  }

  // ---- resolving --------------------------------------------------------

  method FindHierarchy(profiles: Profiles, leaf: Document) returns (hierarchy: seq<Document>)
    requires WalkEnds(profiles, leaf)
    ensures IsChain(profiles, leaf, hierarchy)
  {
    ghost var top: nat :| Ancestor(profiles, leaf, top).None?;
    hierarchy := [leaf];
    var profile := leaf;
    while true
      invariant hierarchy != [] && hierarchy[0] == leaf && hierarchy[|hierarchy| - 1] == profile
      invariant Ancestor(profiles, leaf, |hierarchy| - 1) == Some(profile)
      invariant forall i :: 0 < i < |hierarchy| ==> Parent(profiles, hierarchy[i - 1]) == Some(hierarchy[i])
      invariant |hierarchy| <= top
      decreases top - |hierarchy|
    {
      var parentName := ParentName(profile);
      if parentName.None? {
        break;
      }
      if parentName.value !in profiles {
        break;
      }
      var parentProfile := profiles[parentName.value];
      assert Ancestor(profiles, leaf, |hierarchy|) == Some(parentProfile);
      EndsBeyond(profiles, leaf, |hierarchy|, top);
      hierarchy := hierarchy + [parentProfile];
      profile := parentProfile;
    }
  }

  method MergeOver(merged: map<string, Value>, m: map<string, Value>) returns (r: map<string, Value>)
    ensures Some(r) == Over(Some(merged), Some(m))
  {
    r := merged;
    var left := m.Keys;
    while left != {}
      invariant left <= m.Keys
      invariant forall k :: k in r <==> k in merged || (k in m && k !in left && m[k] != Null)
      invariant forall k :: k in r ==>
        r[k] == if k in m && k !in left && m[k] != Null then m[k] else merged[k]
      decreases left
    {
      var k :| k in left;
      left := left - {k};
      if m[k] == Null {
        continue;
      }
      r := r[k := m[k]];
    }
    assert r == Over(Some(merged), Some(m)).value;
  }

  /** Runs whenever the walk ends; on a cycle of parents the program does not return. */
  method Resolve(profiles: Profiles, profile: Document) returns (result: Document)
    requires WalkEnds(profiles, profile)
    ensures exists chain :: IsChain(profiles, profile, chain) && result == Merged(chain)
  {
    var hierarchy := FindHierarchy(profiles, profile);
    result := None;
    var h := |hierarchy|;
    while h > 0
      invariant 0 <= h <= |hierarchy|
      invariant result == Merged(hierarchy[h..])
    {
      h := h - 1;
      assert hierarchy[h..][1..] == hierarchy[h + 1..];
      var m := hierarchy[h];
      if m.None? {
        continue;
      }
      if result.None? {
        result := m;
        continue;
      }
      var r := MergeOver(result.value, m.value);
      result := Some(r);
    }
    assert hierarchy[0..] == hierarchy;
  }

  method Get(profiles: Profiles, name: string) returns (found: bool, result: Document)
    requires name in profiles ==> WalkEnds(profiles, profiles[name])
    ensures found <==> name in profiles
    ensures found ==> exists chain :: IsChain(profiles, profiles[name], chain) && result == Merged(chain)
  {
    if name !in profiles {
      return false, None;
    }
    var r := Resolve(profiles, profiles[name]);
    return true, r;
  }

  // ---- idempotence ------------------------------------------------------

  lemma OverAgain(base: Document, item: Document)
    ensures Over(base, Over(base, item)) == Over(base, item)
  {
    if base.Some? {
      assert Over(base, base).value == base.value;
      assert item.Some? ==> Over(base, Over(base, item)).value == Over(base, item).value;
    }
  }

  /** The chain of a resolved profile is there whenever that of the profile is: it has
      the same ancestors, and merging it changes nothing. */
  lemma ResolveIsIdempotent(profiles: Profiles, doc: Document, chain: seq<Document>)
    requires IsChain(profiles, doc, chain)
    ensures IsChain(profiles, Merged(chain), [Merged(chain)] + chain[1..])
    ensures Merged([Merged(chain)] + chain[1..]) == Merged(chain)
  {
    var r, tail := Merged(chain), chain[1..];
    var again := [r] + tail;
    MergeTakesTheNearest(chain, PARENT);
    if |chain| == 1 {
      assert r == Over(None, doc) == doc;
    } else {
      assert Parent(profiles, doc) == Some(chain[1]);
      assert ParentName(r) == ParentName(doc);
    }
    assert forall i :: 0 < i < |again| ==> again[i] == chain[i];
    assert again[1..] == tail;
    OverAgain(Merged(tail), doc);
  }

  lemma {:induction false} ChainIsAncestors(profiles: Profiles, doc: Document, chain: seq<Document>, n: nat)
    requires IsChain(profiles, doc, chain) && n <= |chain|
    ensures Ancestor(profiles, doc, n) == if n < |chain| then Some(chain[n]) else None
  {
    if n > 0 {
      ChainIsAncestors(profiles, doc, chain, n - 1);
    }
  }

  /** Resolves a profile and then what came out, which ends whenever the first does,
      even where other profiles of the map are cyclic. */
  method ResolveTwice(profiles: Profiles, profile: Document) returns (once: Document, twice: Document)
    requires WalkEnds(profiles, profile)
    ensures exists chain :: IsChain(profiles, profile, chain) && once == Merged(chain)
    ensures twice == once
  {
    once := Resolve(profiles, profile);
    ghost var chain :| IsChain(profiles, profile, chain) && once == Merged(chain);
    ghost var again := [once] + chain[1..];
    ResolveIsIdempotent(profiles, profile, chain);
    ChainIsAncestors(profiles, once, again, |again|);
    twice := Resolve(profiles, once);
    ghost var other :| IsChain(profiles, once, other) && twice == Merged(other);
    ChainIsUnique(profiles, once, other, again);
  }

  lemma ChainOfTwo(leaf: Document, root: Document)
    requires ParentName(leaf) == Some("root") && ParentName(root).None?
    ensures IsChain(map["root" := root], leaf, [leaf, root])
    ensures Merged([leaf, root]) == Over(root, leaf)
  {
    var chain := [leaf, root];
    assert chain[1..] == [root] && [root][1..] == [];
    assert Merged([root]) == Over(Merged([]), root) == root;
  }

  /** A null at the root stays when nobody defines the key; a null in a profile whose
      root does not have the key is dropped. */
  lemma OnlyTheRootKeepsItsNull(k: string)
    requires k != "parent"
    ensures var leaf, root: Document := Some(map["parent" := Text("root")]), Some(map[k := Null]);
            && IsChain(map["root" := root], leaf, [leaf, root])
            && Merged([leaf, root]) == Some(map["parent" := Text("root"), k := Null])
    ensures var leaf, root: Document := Some(map["parent" := Text("root"), k := Null]), Some(map[]);
            && IsChain(map["root" := root], leaf, [leaf, root])
            && Merged([leaf, root]) == Some(map["parent" := Text("root")])
  {
    var up := map[PARENT := Text("root")];
    ChainOfTwo(Some(up), Some(map[k := Null]));
    ChainOfTwo(Some(up[k := Null]), Some(map[]));
    assert Over(Some(map[k := Null]), Some(up)).value == up[k := Null];
    assert Over(Some(map[]), Some(up[k := Null])).value == up;
  }

  // ---- termination ------------------------------------------------------

  /** The name reached from a stored profile by `n` steps to the parent. */
  function NameAbove(profiles: Profiles, name: string, n: nat): Option<string> {
    if n == 0 then (if name in profiles then Some(name) else None)
    else
      var below := NameAbove(profiles, name, n - 1);
      if below.None? || below.value !in profiles then None
      else
        var up := ParentName(profiles[below.value]);
        if up.Some? && up.value in profiles then up else None
  }

  /** No profile is its own proper ancestor. */
  ghost predicate Acyclic(profiles: Profiles) {
    forall name, n: nat :: n > 0 && name in profiles ==> NameAbove(profiles, name, n) != Some(name)
  }

  lemma {:induction false} NameAboveIsAncestor(profiles: Profiles, name: string, n: nat)
    requires name in profiles
    ensures var up := NameAbove(profiles, name, n);
            && (up.Some? ==> up.value in profiles)
            && Ancestor(profiles, profiles[name], n) == if up.Some? then Some(profiles[up.value]) else None
  {
    if n > 0 {
      NameAboveIsAncestor(profiles, name, n - 1);
    }
  }

  lemma {:induction false} NamesCompose(profiles: Profiles, name: string, m: nat, n: nat)
    requires NameAbove(profiles, name, m).Some?
    ensures NameAbove(profiles, name, m + n) == NameAbove(profiles, NameAbove(profiles, name, m).value, n)
  {
    if n > 0 {
      NamesCompose(profiles, name, m, n - 1);
    } else {
      assert m > 0 || name in profiles;
    }
  }

  lemma {:induction false} CycleGoesOn(profiles: Profiles, name: string, n: nat, rounds: nat)
    requires n > 0 && name in profiles && NameAbove(profiles, name, n) == Some(name)
    ensures NameAbove(profiles, name, rounds * n) == Some(name)
  {
    if rounds > 0 {
      CycleGoesOn(profiles, name, n, rounds - 1);
      NamesCompose(profiles, name, (rounds - 1) * n, n);
      assert rounds * n == (rounds - 1) * n + n;
    }
  }

  /** Longer than the set it draws from, a sequence repeats. */
  lemma {:induction false} Pigeonhole(s: seq<string>, from: set<string>)
    requires forall i :: 0 <= i < |s| ==> s[i] in from
    requires |s| > |from|
    ensures exists i, j :: 0 <= i < j < |s| && s[i] == s[j]
  {
    var n := |s| - 1;
    if i :| 0 <= i < n && s[i] == s[n] {
    } else {
      Pigeonhole(s[..n], from - {s[n]});
      var i, j :| 0 <= i < j < n && s[..n][i] == s[..n][j];
      assert s[i] == s[j];
    }
  }

  lemma AcyclicWalkFrom(profiles: Profiles, name: string)
    requires Acyclic(profiles) && name in profiles
    ensures NameAbove(profiles, name, |profiles|).None?
  {
    if NameAbove(profiles, name, |profiles|).Some? {
      var top := |profiles|;
      forall i: nat | i <= top
        ensures NameAbove(profiles, name, i).Some? && NameAbove(profiles, name, i).value in profiles
      {
        NameAboveIsAncestor(profiles, name, i);
        NameAboveIsAncestor(profiles, name, top);
        if NameAbove(profiles, name, i).None? {
          NoneStaysNone(profiles, profiles[name], i, top);
        }
      }
      var walk := seq(top + 1, i requires 0 <= i <= top => NameAbove(profiles, name, i).value);
      Pigeonhole(walk, profiles.Keys);
      var i, j :| 0 <= i < j < |walk| && walk[i] == walk[j];
      NamesCompose(profiles, name, i, j - i);
    }
  }

  /** With acyclic parents every profile, stored or not, can be resolved. */
  lemma AcyclicWalksEnd(profiles: Profiles, doc: Document)
    requires Acyclic(profiles)
    ensures WalkEnds(profiles, doc)
  {
    if Parent(profiles, doc).None? {
      assert Ancestor(profiles, doc, 1).None?;
    } else {
      var name := ParentName(doc).value;
      AcyclicWalkFrom(profiles, name);
      NameAboveIsAncestor(profiles, name, |profiles|);
      assert Ancestor(profiles, doc, 1) == Some(profiles[name]);
      AncestorsCompose(profiles, doc, 1, |profiles|);
      assert Ancestor(profiles, doc, 1 + |profiles|).None?;
    }
  }

  /** Resolving terminates for every stored profile exactly when the parents are acyclic. */
  lemma WalksEndIffAcyclic(profiles: Profiles)
    ensures Acyclic(profiles) <==> forall name :: name in profiles ==> WalkEnds(profiles, profiles[name])
  {
    if Acyclic(profiles) {
      forall name | name in profiles
        ensures WalkEnds(profiles, profiles[name])
      {
        AcyclicWalksEnd(profiles, profiles[name]);
      }
    } else {
      var name, n: nat :| n > 0 && name in profiles && NameAbove(profiles, name, n) == Some(name);
      forall k: nat
        ensures Ancestor(profiles, profiles[name], k).Some?
      {
        CycleGoesOn(profiles, name, n, k);
        NameAboveIsAncestor(profiles, name, k * n);
        assert k <= k * n;
        if Ancestor(profiles, profiles[name], k).None? {
          NoneStaysNone(profiles, profiles[name], k, k * n);
        }
      }
    }
  }
}
