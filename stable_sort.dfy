/**
 * A stable insertion sort over any element type, parameterised by a
 * three-way comparator. The lemmas show that the result is ordered, is a
 * permutation of the input, keeps every group of tied elements in input
 * order, and is the only sequence with those properties, so any stable sort
 * with the same comparator returns the same sequence.
 */
module StableSort {

  ghost predicate AntisymmetricAt<T>(cmp: (T, T) -> int, a: T, b: T)
  {
    cmp(a, b) == -cmp(b, a)
  }

  ghost predicate TransitiveAt<T>(cmp: (T, T) -> int, a: T, b: T, c: T)
  {
    cmp(a, b) <= 0 && cmp(b, c) <= 0 ==> cmp(a, c) <= 0
  }

  /**
   * What a sort comparator must satisfy: `cmp(a, b)` is the negation of
   * `cmp(b, a)`, and "may precede" (`cmp <= 0`) is transitive.
   */
  ghost predicate IsComparator<T(!new)>(cmp: (T, T) -> int)
  {
    (forall a, b :: AntisymmetricAt(cmp, a, b)) && (forall a, b, c :: TransitiveAt(cmp, a, b, c))
  }

  lemma Antisymmetric<T(!new)>(cmp: (T, T) -> int, a: T, b: T)
    requires IsComparator(cmp)
    ensures cmp(a, b) == -cmp(b, a) && cmp(a, a) == 0
  {
    assert AntisymmetricAt(cmp, a, b) && AntisymmetricAt(cmp, a, a);
  }

  lemma Transitive<T(!new)>(cmp: (T, T) -> int, a: T, b: T, c: T)
    requires IsComparator(cmp)
    requires cmp(a, b) <= 0 && cmp(b, c) <= 0
    ensures cmp(a, c) <= 0
  {
    assert TransitiveAt(cmp, a, b, c);
  }

  /** Two elements tied with the same `p` are tied with each other. */
  lemma TieCompatible<T(!new)>(cmp: (T, T) -> int, x: T, y: T, p: T)
    requires IsComparator(cmp)
    requires cmp(x, p) == 0 && cmp(y, p) == 0
    ensures cmp(x, y) == 0
  {
    Antisymmetric(cmp, x, p);
    Antisymmetric(cmp, y, p);
    Antisymmetric(cmp, x, y);
    Transitive(cmp, x, p, y);
    Transitive(cmp, y, p, x);
  }

  ghost predicate Sorted<T>(cmp: (T, T) -> int, s: seq<T>)
  {
    forall i, j :: 0 <= i < j < |s| ==> cmp(s[i], s[j]) <= 0
  }

  /** Inserts `x` in front of the first element it may precede. */
  function Insert<T>(cmp: (T, T) -> int, x: T, s: seq<T>): (r: seq<T>)
    ensures |r| == |s| + 1
    ensures multiset(r) == multiset(s) + multiset{x}
  {
    if s == [] then [x]
    else if cmp(x, s[0]) <= 0 then [x] + s
    else
      assert s == [s[0]] + s[1..];
      [s[0]] + Insert(cmp, x, s[1..])
  }

  /** `s` ordered by `cmp`; `s` itself is a value and is left as it was. */
  function Sort<T>(cmp: (T, T) -> int, s: seq<T>): (r: seq<T>)
    ensures |r| == |s|
    ensures multiset(r) == multiset(s)
  {
    if s == [] then []
    else
      assert s == [s[0]] + s[1..];
      Insert(cmp, s[0], Sort(cmp, s[1..]))
  }

  /** The elements of `s` whose key equals that of `p`, in their order in `s`. */
  function Ties<T>(cmp: (T, T) -> int, s: seq<T>, p: T): seq<T>
  {
    if s == [] then [] else (if cmp(s[0], p) == 0 then [s[0]] else []) + Ties(cmp, s[1..], p)
  }

  lemma {:induction false} TiesMembers<T>(cmp: (T, T) -> int, s: seq<T>, p: T)
    ensures forall x :: x in Ties(cmp, s, p) <==> x in s && cmp(x, p) == 0
  {
    if s != [] {
      TiesMembers(cmp, s[1..], p);
      assert s == [s[0]] + s[1..];
    }
  }

  lemma {:induction false} TiesAppend<T>(cmp: (T, T) -> int, a: seq<T>, b: seq<T>, p: T)
    ensures Ties(cmp, a + b, p) == Ties(cmp, a, p) + Ties(cmp, b, p)
  {
    if a != [] {
      assert (a + b)[1..] == a[1..] + b;
      TiesAppend(cmp, a[1..], b, p);
    } else {
      assert a + b == b;
    }
  }

  /** A sorted sequence stays sorted behind a head no greater than any of its elements. */
  lemma SortedCons<T>(cmp: (T, T) -> int, h: T, t: seq<T>)
    requires Sorted(cmp, t)
    requires forall y :: y in t ==> cmp(h, y) <= 0
    ensures Sorted(cmp, [h] + t)
  {
    var r := [h] + t;
    forall i, j | 0 <= i < j < |r|
      ensures cmp(r[i], r[j]) <= 0
    {
      assert r[j] == t[j - 1];
      if i > 0 {
        assert r[i] == t[i - 1];
      }
    }
  }

  lemma InsertMember<T>(cmp: (T, T) -> int, x: T, s: seq<T>, y: T)
    requires y in Insert(cmp, x, s)
    ensures y == x || y in s
  {
    assert y in multiset(Insert(cmp, x, s));
  }

  lemma {:induction false} InsertSorted<T(!new)>(cmp: (T, T) -> int, x: T, s: seq<T>)
    requires IsComparator(cmp)
    requires Sorted(cmp, s)
    ensures Sorted(cmp, Insert(cmp, x, s))
  {
    if s == [] {
    } else if cmp(x, s[0]) <= 0 {
      forall y | y in s
        ensures cmp(x, y) <= 0
      {
        var k :| 0 <= k < |s| && s[k] == y;
        if k > 0 {
          Transitive(cmp, x, s[0], y);
        }
      }
      SortedCons(cmp, x, s);
    } else {
      var t := Insert(cmp, x, s[1..]);
      InsertSorted(cmp, x, s[1..]);
      forall y | y in t
        ensures cmp(s[0], y) <= 0
      {
        InsertMember(cmp, x, s[1..], y);
        if y == x {
          Antisymmetric(cmp, x, s[0]);
        } else {
          var k :| 0 <= k < |s[1..]| && s[1..][k] == y;
          assert s[k + 1] == y;
        }
      }
      SortedCons(cmp, s[0], t);
    }
  }

  lemma {:induction false} SortSorted<T(!new)>(cmp: (T, T) -> int, s: seq<T>)
    requires IsComparator(cmp)
    ensures Sorted(cmp, Sort(cmp, s))
  {
    if s != [] {
      SortSorted(cmp, s[1..]);
      InsertSorted(cmp, s[0], Sort(cmp, s[1..]));
    }
  }

  /** Inserting `x` puts it in front of the elements it ties with. */
  lemma {:induction false} InsertTies<T(!new)>(cmp: (T, T) -> int, x: T, s: seq<T>, p: T)
    requires IsComparator(cmp)
    ensures Ties(cmp, Insert(cmp, x, s), p) == (if cmp(x, p) == 0 then [x] else []) + Ties(cmp, s, p)
  {
    if s == [] {
    } else if cmp(x, s[0]) <= 0 {
      assert ([x] + s)[1..] == s;
    } else {
      InsertTies(cmp, x, s[1..], p);
      var r := Insert(cmp, x, s);
      var rest := Ties(cmp, s[1..], p);
      assert r[1..] == Insert(cmp, x, s[1..]) && r[0] == s[0];
      if cmp(x, p) == 0 {
        if cmp(s[0], p) == 0 {
          TieCompatible(cmp, x, s[0], p);
        }
        assert Ties(cmp, s, p) == rest;
        assert Ties(cmp, r, p) == [x] + rest;
      } else {
        assert Ties(cmp, r[1..], p) == rest;
      }
    }
  }

  lemma {:induction false} SortTies<T(!new)>(cmp: (T, T) -> int, s: seq<T>, p: T)
    requires IsComparator(cmp)
    ensures Ties(cmp, Sort(cmp, s), p) == Ties(cmp, s, p)
  {
    if s != [] {
      SortTies(cmp, s[1..], p);
      InsertTies(cmp, s[0], Sort(cmp, s[1..]), p);
    }
  }

  /**
   * `t` is a stable sort of `s`: ordered by `cmp`, and for every key the
   * elements with that key appear in `t` in the order they have in `s`.
   */
  ghost predicate IsStableSortOf<T(!new)>(cmp: (T, T) -> int, t: seq<T>, s: seq<T>)
  {
    Sorted(cmp, t) && forall p :: Ties(cmp, t, p) == Ties(cmp, s, p)
  }

  lemma SortIsStable<T(!new)>(cmp: (T, T) -> int, s: seq<T>)
    requires IsComparator(cmp)
    ensures IsStableSortOf(cmp, Sort(cmp, s), s)
  {
    SortSorted(cmp, s);
    forall p ensures Ties(cmp, Sort(cmp, s), p) == Ties(cmp, s, p) {
      SortTies(cmp, s, p);
    }
  }

  /** A nonempty sorted sequence starts with an element that may precede each of its elements. */
  lemma FirstPrecedes<T(!new)>(cmp: (T, T) -> int, s: seq<T>, y: T)
    requires IsComparator(cmp)
    requires Sorted(cmp, s) && y in s
    ensures cmp(s[0], y) <= 0
  {
    var k :| 0 <= k < |s| && s[k] == y;
    if k == 0 {
      Antisymmetric(cmp, y, y);
    }
  }

  lemma {:induction false} SortedSameTiesEqual<T(!new)>(cmp: (T, T) -> int, u: seq<T>, v: seq<T>)
    requires IsComparator(cmp)
    requires Sorted(cmp, u) && Sorted(cmp, v)
    requires forall p :: Ties(cmp, u, p) == Ties(cmp, v, p)
    ensures u == v
    decreases |u|
  {
    if u == [] || v == [] {
      if u != [] {
        Antisymmetric(cmp, u[0], u[0]);
        assert Ties(cmp, u, u[0]) == [u[0]] + Ties(cmp, u[1..], u[0]);
        assert false;
      }
      if v != [] {
        Antisymmetric(cmp, v[0], v[0]);
        assert Ties(cmp, v, v[0]) == [v[0]] + Ties(cmp, v[1..], v[0]);
        assert false;
      }
    } else {
      var a, b := u[0], v[0];
      Antisymmetric(cmp, a, b);
      Antisymmetric(cmp, b, a);
      TiesMembers(cmp, v, a);
      TiesMembers(cmp, u, b);
      assert Ties(cmp, u, a) == [a] + Ties(cmp, u[1..], a);
      assert a in v;
      FirstPrecedes(cmp, v, a);
      assert Ties(cmp, v, b) == [b] + Ties(cmp, v[1..], b);
      assert b in u;
      FirstPrecedes(cmp, u, b);
      assert cmp(b, a) == 0;
      assert Ties(cmp, v, a) == [b] + Ties(cmp, v[1..], a);
      assert a == Ties(cmp, u, a)[0] == Ties(cmp, v, a)[0] == b;
      forall p ensures Ties(cmp, u[1..], p) == Ties(cmp, v[1..], p) {
        var t := if cmp(a, p) == 0 then [a] else [];
        assert Ties(cmp, u, p) == t + Ties(cmp, u[1..], p);
        assert Ties(cmp, v, p) == t + Ties(cmp, v[1..], p);
        assert Ties(cmp, u[1..], p) == Ties(cmp, u, p)[|t|..];
        assert Ties(cmp, v[1..], p) == Ties(cmp, v, p)[|t|..];
      }
      assert Sorted(cmp, u[1..]) by {
        forall i, j | 0 <= i < j < |u[1..]| ensures cmp(u[1..][i], u[1..][j]) <= 0 {
          assert u[1..][i] == u[i + 1] && u[1..][j] == u[j + 1];
        }
      }
      assert Sorted(cmp, v[1..]) by {
        forall i, j | 0 <= i < j < |v[1..]| ensures cmp(v[1..][i], v[1..][j]) <= 0 {
          assert v[1..][i] == v[i + 1] && v[1..][j] == v[j + 1];
        }
      }
      SortedSameTiesEqual(cmp, u[1..], v[1..]);
      assert u == [a] + u[1..] && v == [b] + v[1..];
    }
  }

  /** Every stable sort of `s` by `cmp` is `Sort(cmp, s)`. */
  lemma StableSortUnique<T(!new)>(cmp: (T, T) -> int, t: seq<T>, s: seq<T>)
    requires IsComparator(cmp)
    requires IsStableSortOf(cmp, t, s)
    ensures t == Sort(cmp, s)
  {
    SortIsStable(cmp, s);
    SortedSameTiesEqual(cmp, t, Sort(cmp, s));
  }

  /** The ties of a comparator and of its negation are the same groups. */
  lemma {:induction false} NegatedTies<T>(cmp: (T, T) -> int, neg: (T, T) -> int, s: seq<T>, p: T)
    requires forall a, b :: neg(a, b) == -cmp(a, b)
    ensures Ties(neg, s, p) == Ties(cmp, s, p)
  {
    if s != [] {
      NegatedTies(cmp, neg, s[1..], p);
    }
  }

  lemma NegatedIsComparator<T(!new)>(cmp: (T, T) -> int, neg: (T, T) -> int)
    requires IsComparator(cmp)
    requires forall a, b :: neg(a, b) == -cmp(a, b)
    ensures IsComparator(neg)
  {
    forall a, b ensures AntisymmetricAt(neg, a, b) {
      Antisymmetric(cmp, a, b);
    }
    forall a, b, c ensures TransitiveAt(neg, a, b, c) {
      if neg(a, b) <= 0 && neg(b, c) <= 0 {
        Antisymmetric(cmp, a, b);
        Antisymmetric(cmp, b, c);
        Antisymmetric(cmp, a, c);
        Transitive(cmp, c, b, a);
      }
    }
  }

  function Reverse<T>(s: seq<T>): (r: seq<T>)
    ensures |r| == |s|
    ensures forall k :: 0 <= k < |s| ==> r[k] == s[|s| - 1 - k]
  {
    if s == [] then [] else Reverse(s[1..]) + [s[0]]
  }

  lemma {:induction false} ReverseAppend<T>(a: seq<T>, b: seq<T>)
    ensures Reverse(a + b) == Reverse(b) + Reverse(a)
  {
    if a != [] {
      assert (a + b)[1..] == a[1..] + b;
      ReverseAppend(a[1..], b);
    } else {
      assert a + b == b;
    }
  }

  lemma {:induction false} TiesReverse<T>(cmp: (T, T) -> int, s: seq<T>, p: T)
    ensures Ties(cmp, Reverse(s), p) == Reverse(Ties(cmp, s, p))
  {
    if s != [] {
      TiesReverse(cmp, s[1..], p);
      TiesAppend(cmp, Reverse(s[1..]), [s[0]], p);
      var t := if cmp(s[0], p) == 0 then [s[0]] else [];
      ReverseAppend(t, Ties(cmp, s[1..], p));
    }
  }

  /** No two elements of `s` have equal keys. */
  ghost predicate DistinctKeys<T>(cmp: (T, T) -> int, s: seq<T>)
  {
    forall i, j :: 0 <= i < j < |s| ==> cmp(s[i], s[j]) != 0
  }

  lemma {:induction false} DistinctKeysTies<T(!new)>(cmp: (T, T) -> int, s: seq<T>, p: T)
    requires IsComparator(cmp)
    requires DistinctKeys(cmp, s)
    ensures |Ties(cmp, s, p)| <= 1
  {
    if s != [] {
      assert DistinctKeys(cmp, s[1..]) by {
        forall i, j | 0 <= i < j < |s[1..]| ensures cmp(s[1..][i], s[1..][j]) != 0 {
          assert s[1..][i] == s[i + 1] && s[1..][j] == s[j + 1];
        }
      }
      DistinctKeysTies(cmp, s[1..], p);
      if cmp(s[0], p) == 0 && Ties(cmp, s[1..], p) != [] {
        var x := Ties(cmp, s[1..], p)[0];
        TiesMembers(cmp, s[1..], p);
        assert x in s[1..] && cmp(x, p) == 0;
        var k :| 0 <= k < |s[1..]| && s[1..][k] == x;
        assert cmp(s[0], s[k + 1]) != 0;
        TieCompatible(cmp, s[0], x, p);
        assert false;
      }
    }
  }

  /**
   * Sorting by the negated comparator gives the reversed order when there are
   * no ties to keep in input order.
   */
  lemma NegatedSortIsReverse<T(!new)>(cmp: (T, T) -> int, neg: (T, T) -> int, s: seq<T>)
    requires IsComparator(cmp)
    requires forall a, b :: neg(a, b) == -cmp(a, b)
    requires DistinctKeys(cmp, s)
    ensures Sort(neg, s) == Reverse(Sort(cmp, s))
  {
    var u := Sort(cmp, s);
    var w := Reverse(u);
    SortIsStable(cmp, s);
    NegatedIsComparator(cmp, neg);
    forall i, j | 0 <= i < j < |w| ensures neg(w[i], w[j]) <= 0 {
      assert cmp(u[|u| - 1 - j], u[|u| - 1 - i]) <= 0;
      Antisymmetric(cmp, w[i], w[j]);
    }
    forall p ensures Ties(neg, w, p) == Ties(neg, s, p) {
      NegatedTies(cmp, neg, w, p);
      NegatedTies(cmp, neg, s, p);
      TiesReverse(cmp, u, p);
      DistinctKeysTies(cmp, s, p);
      var t := Ties(cmp, s, p);
      assert Reverse(t) == t by {
        if |t| == 1 {
          assert Reverse(t) == Reverse(t[1..]) + [t[0]];
        }
      }
    }
    StableSortUnique(neg, w, s);
  }
}
