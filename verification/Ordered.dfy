/** Finite sets and sequences under a strict total order: the k greatest
    elements of a set, the increasing enumeration of a set, and the laws that
    let a bounded sorted buffer stand for a set.  Nothing here is specific to
    one component; the chat store and the dashboard renderer both build on it. */
module Ordered {
  import opened Basics

  ghost predicate StrictTotalOrder<T(!new)>(less: (T, T) -> bool) {
    && (forall a :: !less(a, a))
    && (forall a, b :: a != b ==> less(a, b) || less(b, a))
    && (forall a, b, c :: less(a, b) && less(b, c) ==> less(a, c))
  }

  ghost predicate Increasing<T>(less: (T, T) -> bool, q: seq<T>) {
    forall i, j :: 0 <= i < j < |q| ==> less(q[i], q[j])
  }

  ghost predicate Ascending<T>(less: (T, T) -> bool, q: seq<T>) {
    forall i, j :: 0 <= i < j < |q| ==> !less(q[j], q[i])
  }

  ghost function Elems<T>(q: seq<T>): set<T> {
    set x | x in q
  }

  /** The elements of `S` that lie above `m`. */
  ghost function Above<T>(less: (T, T) -> bool, S: set<T>, m: T): set<T> {
    set x | x in S && less(m, x)
  }

  /** The `k` greatest elements of `S`: those with fewer than `k` elements above them. */
  ghost function Greatest<T>(less: (T, T) -> bool, S: set<T>, k: nat): set<T> {
    set m | m in S && |Above(less, S, m)| < k
  }

  lemma SubsetSize<T>(a: set<T>, b: set<T>)
    requires a <= b
    ensures |a| <= |b|
  {
    assert b == a + (b - a);
  }

  lemma {:induction false} IncreasingHasNoRepeats<T(!new)>(less: (T, T) -> bool, q: seq<T>)
    requires StrictTotalOrder(less)
    requires Increasing(less, q)
    ensures |Elems(q)| == |q|
  {
    if q == [] {
      assert Elems(q) == {};
    } else {
      var n := |q| - 1;
      IncreasingHasNoRepeats(less, q[..n]);
      assert Elems(q) == Elems(q[..n]) + {q[n]};
    }
  }

  lemma LengthBoundsElems<T>(q: seq<T>)
    ensures |Elems(q)| <= |q|
  {
    if q == [] {
      assert Elems(q) == {};
    } else {
      var n := |q| - 1;
      LengthBoundsElems(q[..n]);
      assert Elems(q) == Elems(q[..n]) + {q[n]};
    }
  }

  /** An increasing sequence is determined by its elements. */
  lemma {:induction false} IncreasingIsUnique<T(!new)>(less: (T, T) -> bool, p: seq<T>, q: seq<T>)
    requires StrictTotalOrder(less)
    requires Increasing(less, p) && Increasing(less, q)
    requires Elems(p) == Elems(q)
    ensures p == q
  {
    IncreasingHasNoRepeats(less, p);
    IncreasingHasNoRepeats(less, q);
    if p != [] {
      var n := |p| - 1;
      assert p[n] in Elems(q) && q[n] in Elems(p);
      assert p[n] == q[n] by {
        var i :| 0 <= i < |p| && p[i] == q[n];
        var j :| 0 <= j < |q| && q[j] == p[n];
      }
      assert Elems(p[..n]) == Elems(p) - {p[n]};
      assert Elems(q[..n]) == Elems(q) - {q[n]};
      IncreasingIsUnique(less, p[..n], q[..n]);
      assert p == p[..n] + [p[n]] && q == q[..n] + [q[n]];
    }
  }

  lemma HasMaximum<T(!new)>(less: (T, T) -> bool, S: set<T>)
    requires StrictTotalOrder(less)
    requires S != {}
    ensures exists m :: m in S && forall x :: x in S && x != m ==> less(x, m)
  {
    var y :| y in S;
    if S - {y} == {} {
      assert S == {y};
    } else {
      HasMaximum(less, S - {y});
      var m :| m in S - {y} && forall x :: x in S - {y} && x != m ==> less(x, m);
      var top := if less(m, y) then y else m;
      assert forall x :: x in S && x != top ==> less(x, top);
    }
  }

  /** Every finite set is the element set of some increasing sequence. */
  lemma {:induction false} EnumerationExists<T(!new)>(less: (T, T) -> bool, S: set<T>)
    requires StrictTotalOrder(less)
    ensures exists q :: Increasing(less, q) && Elems(q) == S
    decreases |S|
  {
    if S == {} {
      assert Increasing(less, []) && Elems<T>([]) == S;
    } else {
      HasMaximum(less, S);
      var m :| m in S && forall x :: x in S && x != m ==> less(x, m);
      EnumerationExists(less, S - {m});
      var q :| Increasing(less, q) && Elems(q) == S - {m};
      forall i | 0 <= i < |q|
        ensures less(q[i], m)
      {
        assert q[i] in Elems(q);
      }
      assert Increasing(less, q + [m]);
      assert Elems(q + [m]) == Elems(q) + {m};
    }
  }

  /** The increasing enumeration of `S`. */
  ghost function Enumerate<T(!new)>(less: (T, T) -> bool, S: set<T>): (q: seq<T>)
    requires StrictTotalOrder(less)
    ensures Increasing(less, q) && Elems(q) == S && |q| == |S|
  {
    EnumerationExists(less, S);
    var q :| Increasing(less, q) && Elems(q) == S;
    IncreasingHasNoRepeats(less, q);
    q
  }

  /** Dropping the head of an increasing sequence keeps exactly the greatest elements. */
  lemma LastAreGreatest<T(!new)>(less: (T, T) -> bool, q: seq<T>, k: nat)
    requires StrictTotalOrder(less)
    requires Increasing(less, q)
    ensures Elems(LastN(q, k)) == Greatest(less, Elems(q), k)
    ensures Increasing(less, LastN(q, k))
  {
    var cut := |q| - |LastN(q, k)|;
    assert LastN(q, k) == q[cut..];
    forall i | 0 <= i < |q|
      ensures q[i] in Greatest(less, Elems(q), k) <==> cut <= i
      ensures q[i] in Elems(q[cut..]) <==> cut <= i
    {
      assert Above(less, Elems(q), q[i]) == Elems(q[i + 1..]);
      IncreasingHasNoRepeats(less, q[i + 1..]);
      if cut <= i {
        assert q[i] == q[cut..][i - cut];
      }
    }
  }

  lemma GreatestSize<T(!new)>(less: (T, T) -> bool, S: set<T>, k: nat)
    requires StrictTotalOrder(less)
    ensures |Greatest(less, S, k)| == if |S| < k then |S| else k
    ensures |S| <= k ==> Greatest(less, S, k) == S
  {
    var q := Enumerate(less, S);
    LastAreGreatest(less, q, k);
    IncreasingHasNoRepeats(less, LastN(q, k));
  }

  /** The greatest elements of a growing set can be kept by remembering only the
      greatest elements seen so far. */
  lemma GreatestAbsorbs<T(!new)>(less: (T, T) -> bool, S: set<T>, m: T, k: nat)
    requires StrictTotalOrder(less)
    ensures Greatest(less, Greatest(less, S, k) + {m}, k) == Greatest(less, S + {m}, k)
  {
    var G := Greatest(less, S, k);
    forall x | x in Greatest(less, S + {m}, k)
      ensures x in Greatest(less, G + {m}, k)
    {
      SubsetSize(Above(less, G + {m}, x), Above(less, S + {m}, x));
      SubsetSize(Above(less, S, x), Above(less, S + {m}, x));
    }
    forall x | x in Greatest(less, G + {m}, k)
      ensures x in Greatest(less, S + {m}, k)
    {
      if y :| y in Above(less, S + {m}, x) && y !in G + {m} {
        forall g | g in G
          ensures less(y, g)
        {
          if less(g, y) {
            SubsetSize(Above(less, S, y), Above(less, S, g));
          }
        }
        GreatestSize(less, S, k);
        SubsetSize(Above(less, S, y), S);
        SubsetSize(G, Above(less, G + {m}, x));
        assert false;
      } else {
        SubsetSize(Above(less, S + {m}, x), Above(less, G + {m}, x));
      }
    }
  }

  lemma {:induction false} AscendingIsIncreasing<T(!new)>(less: (T, T) -> bool, q: seq<T>)
    requires StrictTotalOrder(less)
    requires Ascending(less, q)
    requires forall i :: 0 < i < |q| ==> q[i - 1] != q[i]
    ensures Increasing(less, q)
  {
    if |q| > 1 {
      var n := |q| - 1;
      AscendingIsIncreasing(less, q[..n]);
      forall i | 0 <= i < n
        ensures less(q[i], q[n])
      {
        assert less(q[n - 1], q[n]);
        assert i < n - 1 ==> less(q[..n][i], q[..n][n - 1]);
      }
      assert forall i, j :: 0 <= i < j < n ==> less(q[..n][i], q[..n][j]);
    }
  }

  lemma SameLength<T>(p: seq<T>, q: seq<T>)
    requires multiset(p) == multiset(q)
    ensures |p| == |q|
  {
    assert |p| == |multiset(p)| && |q| == |multiset(q)|;
  }

  lemma DropSameLast<T>(p: seq<T>, q: seq<T>)
    requires multiset(p) == multiset(q)
    requires p != [] && q != [] && p[|p| - 1] == q[|q| - 1]
    ensures multiset(p[..|p| - 1]) == multiset(q[..|q| - 1])
  {
    assert p == p[..|p| - 1] + [p[|p| - 1]];
    assert q == q[..|q| - 1] + [q[|q| - 1]];
    assert multiset(p[..|p| - 1]) == multiset(p) - multiset{p[|p| - 1]};
    assert multiset(q[..|q| - 1]) == multiset(q) - multiset{q[|q| - 1]};
  }

  lemma LastOfAscendingIsGreatest<T(!new)>(less: (T, T) -> bool, p: seq<T>, q: seq<T>)
    requires StrictTotalOrder(less)
    requires Ascending(less, p) && Ascending(less, q)
    requires multiset(p) == multiset(q) && p != [] && q != []
    ensures p[|p| - 1] == q[|q| - 1]
  {
    var x, y := p[|p| - 1], q[|q| - 1];
    assert x in multiset(q) && y in multiset(p);
    var i :| 0 <= i < |p| && p[i] == y;
    var j :| 0 <= j < |q| && q[j] == x;
    assert i == |p| - 1 || !less(x, y);
    assert j == |q| - 1 || !less(y, x);
  }

  /** Two sorted arrangements of the same elements are the same sequence, so a
      model of a library sort does not depend on the algorithm it uses. */
  lemma {:induction false} SortedArrangementIsUnique<T(!new)>(less: (T, T) -> bool, p: seq<T>, q: seq<T>)
    requires StrictTotalOrder(less)
    requires Ascending(less, p) && Ascending(less, q)
    requires multiset(p) == multiset(q)
    ensures p == q
  {
    SameLength(p, q);
    if p != [] {
      var n := |p| - 1;
      LastOfAscendingIsGreatest(less, p, q);
      DropSameLast(p, q);
      SortedArrangementIsUnique(less, p[..n], q[..n]);
      assert p == p[..n] + [p[n]] && q == q[..n] + [q[n]];
    }
  }

  lemma InsertKeepsAscending<T(!new)>(less: (T, T) -> bool, q: seq<T>, at: nat, x: T)
    requires StrictTotalOrder(less)
    requires Ascending(less, q) && at <= |q|
    requires at > 0 ==> !less(x, q[at - 1])
    requires forall i :: at <= i < |q| ==> less(x, q[i])
    ensures Ascending(less, q[..at] + [x] + q[at..])
  {
    forall i | 0 <= i < at
      ensures !less(x, q[i])
    {
      assert i == at - 1 || !less(q[at - 1], q[i]);
    }
    var r := q[..at] + [x] + q[at..];
    forall i, j | 0 <= i < j < |r|
      ensures !less(r[j], r[i])
    {
      var qi := if i < at then i else i - 1;
      var qj := if j < at then j else j - 1;
      if i != at && j != at {
        assert r[i] == q[qi] && r[j] == q[qj];
      }
    }
  }

  method Insert<T(!new)>(less: (T, T) -> bool, q: seq<T>, x: T) returns (r: seq<T>)
    requires StrictTotalOrder(less) && Ascending(less, q)
    ensures Ascending(less, r)
    ensures multiset(r) == multiset(q) + multiset{x}
  {
    var at := |q|;
    while at > 0 && less(x, q[at - 1])
      invariant 0 <= at <= |q|
      invariant forall i :: at <= i < |q| ==> less(x, q[i])
    {
      at := at - 1;
    }
    InsertKeepsAscending(less, q, at, x);
    assert q == q[..at] + q[at..];
    return q[..at] + [x] + q[at..];
  }

  /** Stands for the library sort: some ascending arrangement of `s`. */
  method SortSlice<T(!new)>(less: (T, T) -> bool, s: seq<T>) returns (q: seq<T>)
    requires StrictTotalOrder(less)
    ensures Ascending(less, q)
    ensures multiset(q) == multiset(s)
  {
    q := [];
    for n := 0 to |s|
      invariant Ascending(less, q)
      invariant multiset(q) == multiset(s[..n])
    {
      assert s[..n + 1] == s[..n] + [s[n]];
      q := Insert(less, q, s[n]);
    }
    assert s[..|s|] == s;
  }
}
