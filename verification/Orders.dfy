/** Strict total orders, the lexicographic order they induce on sequences, and strictly sorted enumerations. */
module Orders {

  ghost predicate StrictTotal<T(!new)>(lt: (T, T) -> bool) {
    && (forall x :: !lt(x, x))
    && (forall x, y, z :: lt(x, y) && lt(y, z) ==> lt(x, z))
    && (forall x, y :: x == y || lt(x, y) || lt(y, x))
  }

  /** The first differing element decides; otherwise a proper prefix comes first. */
  predicate LexLess<T(==)>(lt: (T, T) -> bool, a: seq<T>, b: seq<T>) {
    b != [] && (a == [] || lt(a[0], b[0]) || (a[0] == b[0] && LexLess(lt, a[1..], b[1..])))
  }

  lemma {:induction false} LexIrreflexive<T(!new)>(lt: (T, T) -> bool, a: seq<T>)
    requires StrictTotal(lt)
    ensures !LexLess(lt, a, a)
  {
    if a != [] {
      LexIrreflexive(lt, a[1..]);
    }
  }

  lemma {:induction false} LexTransitive<T(!new)>(lt: (T, T) -> bool, a: seq<T>, b: seq<T>, c: seq<T>)
    requires StrictTotal(lt)
    requires LexLess(lt, a, b) && LexLess(lt, b, c)
    ensures LexLess(lt, a, c)
  {
    if a != [] && a[0] == b[0] && b[0] == c[0] {
      LexTransitive(lt, a[1..], b[1..], c[1..]);
    }
  }

  lemma {:induction false} LexConnected<T(!new)>(lt: (T, T) -> bool, a: seq<T>, b: seq<T>)
    requires StrictTotal(lt)
    ensures a == b || LexLess(lt, a, b) || LexLess(lt, b, a)
  {
    if a != [] && b != [] && a[0] == b[0] {
      LexConnected(lt, a[1..], b[1..]);
      if a[1..] == b[1..] {
        assert a == [a[0]] + a[1..] && b == [b[0]] + b[1..];
      }
    }
  }

  /** `a` is a proper prefix of `b`, or the first element in which they differ is less. */
  ghost predicate FirstDifference<T>(lt: (T, T) -> bool, a: seq<T>, b: seq<T>, k: nat) {
    k <= |a| && k < |b| && a[..k] == b[..k] && (k < |a| ==> lt(a[k], b[k]))
  }

  lemma {:induction false} LexLessIff<T>(lt: (T, T) -> bool, a: seq<T>, b: seq<T>)
    ensures LexLess(lt, a, b) <==> exists k: nat :: FirstDifference(lt, a, b, k)
  {
    if a == [] || b == [] || lt(a[0], b[0]) {
      assert b != [] ==> FirstDifference(lt, a, b, 0);
    } else {
      LexLessIff(lt, a[1..], b[1..]);
      if LexLess(lt, a, b) {
        var k: nat :| FirstDifference(lt, a[1..], b[1..], k);
        assert a[..k + 1] == [a[0]] + a[1..][..k] && b[..k + 1] == [b[0]] + b[1..][..k];
        assert FirstDifference(lt, a, b, k + 1);
      }
      if k: nat :| FirstDifference(lt, a, b, k) {
        assert k > 0 && a[..k][0] == a[0] && b[..k][0] == b[0];
        assert a[1..][..k - 1] == a[..k][1..] && b[1..][..k - 1] == b[..k][1..];
        assert FirstDifference(lt, a[1..], b[1..], k - 1);
      }
    }
  }

  // ----- strictly sorted sequences -----

  ghost predicate Sorted<T>(lt: (T, T) -> bool, s: seq<T>) {
    forall i, j :: 0 <= i < j < |s| ==> lt(s[i], s[j])
  }

  /** A finite set has at most one strictly sorted enumeration. */
  lemma {:induction false} SortedUnique<T(!new)>(lt: (T, T) -> bool, s: seq<T>, t: seq<T>)
    requires StrictTotal(lt)
    requires Sorted(lt, s) && Sorted(lt, t)
    requires forall x :: x in s <==> x in t
    ensures s == t
  {
    if s == [] {
      assert forall i :: 0 <= i < |t| ==> t[i] in s;
    } else {
      assert s[0] in t && t != [];
      assert t[0] in s;
      assert s[0] == t[0];
      forall x
        ensures x in s[1..] <==> x in t[1..]
      {
        if x in s[1..] {
          assert x in t && x != t[0];
        }
        if x in t[1..] {
          assert x in s && x != s[0];
        }
      }
      SortedUnique(lt, s[1..], t[1..]);
    }
  }

  lemma SortedAppend<T>(lt: (T, T) -> bool, s: seq<T>, x: T)
    requires Sorted(lt, s)
    requires forall i :: 0 <= i < |s| ==> lt(s[i], x)
    ensures Sorted(lt, s + [x])
  {}

  /** A nonempty finite set has a least element. */
  lemma {:induction false} LeastExists<T(!new)>(lt: (T, T) -> bool, s: set<T>)
    requires StrictTotal(lt)
    requires s != {}
    ensures exists x :: x in s && forall y :: y in s ==> x == y || lt(x, y)
  {
    var x :| x in s;
    var rest := s - {x};
    assert forall y :: y in s <==> y == x || y in rest;
    if rest != {} {
      LeastExists(lt, rest);
      var m :| m in rest && forall y :: y in rest ==> m == y || lt(m, y);
      var least := if lt(x, m) then x else m;
      assert least in s;
      forall y | y in s
        ensures least == y || lt(least, y)
      {}
    }
  }

  /** The traversal of an ordered container: its keys in ascending order. */
  method InOrder<T(==, !new)>(lt: (T, T) -> bool, keys: set<T>) returns (s: seq<T>)
    requires StrictTotal(lt)
    ensures Sorted(lt, s) && |s| == |keys|
    ensures forall x :: x in s <==> x in keys
  {
    s := [];
    var rest := keys;
    while rest != {}
      invariant rest <= keys && Sorted(lt, s) && |s| + |rest| == |keys|
      invariant forall x :: x in s <==> x in keys && x !in rest
      invariant forall x, y :: x in s && y in rest ==> lt(x, y)
      decreases |rest|
    {
      LeastExists(lt, rest);
      var x :| x in rest && forall y :: y in rest ==> x == y || lt(x, y);
      SortedAppend(lt, s, x);
      s := s + [x];
      rest := rest - {x};
    }
  }
}
