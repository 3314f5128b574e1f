/** Directory listings in `scandir` order: names sorted by byte comparison. */
module Listing {
  import opened PhpStrings

  /** `strcmp($a, $b) < 0`: byte by byte, a proper prefix first. */
  predicate Below(a: Str, b: Str)
    decreases |a|
  {
    if a == [] then b != []
    else if b == [] then false
    else a[0] < b[0] || (a[0] == b[0] && Below(a[1..], b[1..]))
  }

  lemma {:induction false} BelowIrreflexive(a: Str)
    ensures !Below(a, a)
    decreases |a|
  {
    if a != [] {
      BelowIrreflexive(a[1..]);
    }
  }

  lemma {:induction false} BelowTransitive(a: Str, b: Str, c: Str)
    requires Below(a, b) && Below(b, c)
    ensures Below(a, c)
    decreases |a|
  {
    if a != [] && b != [] && c != [] && a[0] == b[0] && b[0] == c[0] {
      BelowTransitive(a[1..], b[1..], c[1..]);
    }
  }

  lemma {:induction false} BelowTotal(a: Str, b: Str)
    ensures a == b || Below(a, b) || Below(b, a)
    decreases |a|
  {
    if a != [] && b != [] && a[0] == b[0] {
      BelowTotal(a[1..], b[1..]);
      assert a == [a[0]] + a[1..] && b == [b[0]] + b[1..];
    }
  }

  lemma BelowAsymmetric(a: Str, b: Str)
    ensures !(Below(a, b) && Below(b, a))
  {
    if Below(a, b) && Below(b, a) {
      BelowTransitive(a, b, a);
      BelowIrreflexive(a);
    }
  }

  /** Strictly ascending, hence without repetitions. */
  predicate Sorted(s: seq<Str>) {
    forall i, j :: 0 <= i < j < |s| ==> Below(s[i], s[j])
  }

  predicate IsSmallest(m: Str, names: set<Str>) {
    m in names && forall x :: x in names && x != m ==> Below(m, x)
  }

  /** The smallest of a non-empty set of names. */
  method Smallest(names: set<Str>) returns (m: Str)
    requires names != {}
    ensures IsSmallest(m, names)
  {
    var rest := names;
    m :| m in rest;
    rest := rest - {m};
    while rest != {}
      invariant rest <= names && m in names && m !in rest
      invariant forall x :: x in names && x !in rest && x != m ==> Below(m, x)
      decreases rest
    {
      var x :| x in rest;
      BelowTotal(m, x);
      if Below(x, m) {
        forall y | y in names && y !in rest && y != m
          ensures Below(x, y)
        {
          BelowTransitive(x, m, y);
        }
        m := x;
      }
      rest := rest - {x};
    }
  }

  /** `scandir`: the names of a directory in ascending byte order. */
  method SortedNames(names: set<Str>) returns (r: seq<Str>)
    ensures Sorted(r) && |r| == |names|
    ensures forall x :: x in r <==> x in names
  {
    r := [];
    var rest := names;
    while rest != {}
      invariant rest <= names
      invariant forall x :: x in r <==> x in names && x !in rest
      invariant Sorted(r)
      invariant forall i, y :: 0 <= i < |r| && y in rest ==> Below(r[i], y)
      invariant |r| + |rest| == |names|
      decreases rest
    {
      var m := Smallest(rest);
      r := r + [m];
      rest := rest - {m};
    }
  }

  lemma {:induction false} SmallestExists(names: set<Str>)
    requires names != {}
    ensures exists m :: IsSmallest(m, names)
    decreases names
  {
    var x :| x in names;
    if names != {x} {
      SmallestExists(names - {x});
      var m :| IsSmallest(m, names - {x});
      BelowTotal(m, x);
      if Below(x, m) {
        forall y | y in names && y != x
          ensures Below(x, y)
        {
          if y != m {
            BelowTransitive(x, m, y);
          }
        }
        assert IsSmallest(x, names);
      } else {
        assert IsSmallest(m, names);
      }
    } else {
      assert IsSmallest(x, names);
    }
  }

  /** The listing order as a function of the set of names. */
  ghost function Listed(names: set<Str>): (r: seq<Str>)
    ensures Sorted(r) && forall x :: x in r <==> x in names
    decreases names
  {
    if names == {} then []
    else
      SmallestExists(names);
      var m :| IsSmallest(m, names);
      var t := Listed(names - {m});
      assert forall j :: 0 <= j < |t| ==> t[j] in names - {m};
      [m] + t
  }

  /** A set of names has exactly one ascending listing. */
  lemma {:induction false} SortedUnique(a: seq<Str>, b: seq<Str>)
    requires Sorted(a) && Sorted(b)
    requires forall x :: x in a <==> x in b
    ensures a == b
    decreases |a|
  {
    if a != [] {
      assert a[0] in b;
      assert b != [];
      assert b[0] in a;
      var i :| 0 <= i < |a| && a[i] == b[0];
      var j :| 0 <= j < |b| && b[j] == a[0];
      BelowAsymmetric(a[0], b[0]);
      assert a[0] == b[0];
      forall x
        ensures x in a[1..] <==> x in b[1..]
      {
        if x in a[1..] {
          var k :| 1 <= k < |a| && a[k] == x;
          BelowIrreflexive(a[0]);
          assert x in b && x != b[0];
        }
        if x in b[1..] {
          var k :| 1 <= k < |b| && b[k] == x;
          BelowIrreflexive(b[0]);
          assert x in a && x != a[0];
        }
      }
      SortedUnique(a[1..], b[1..]);
      assert a == [a[0]] + a[1..] && b == [b[0]] + b[1..];
    } else {
      forall x
        ensures x !in multiset(b)
      {
        assert x !in a;
      }
      assert multiset(b) == multiset{};
    }
  }

  /** The order the ascending listing puts a set's members in. */
  lemma ListedIsSortedNames(r: seq<Str>, names: set<Str>)
    requires Sorted(r) && forall x :: x in r <==> x in names
    ensures r == Listed(names)
  {
    SortedUnique(r, Listed(names));
  }
}
