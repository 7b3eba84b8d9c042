/** Byte strings in the order a `BTreeMap<String, _>` keeps them, and its keys in that order. */
module NameOrder {
  import opened Common

  type Name = Bytes

  /** Lexicographic order of bytes, which is the order of UTF-8 strings. */
  predicate Less(a: Name, b: Name)
    decreases |a|
  {
    b != [] && (a == [] || a[0] < b[0] || (a[0] == b[0] && Less(a[1..], b[1..])))
  }

  lemma {:induction false} LessIrreflexive(a: Name)
    ensures !Less(a, a)
    decreases |a|
  {
    if a == [] {
    } else {
      LessIrreflexive(a[1..]);
    }
  }

  lemma {:induction false} LessTransitive(a: Name, b: Name, c: Name)
    requires Less(a, b) && Less(b, c)
    ensures Less(a, c)
    decreases |a|
  {
    if a == [] || a[0] != b[0] || b[0] != c[0] {
    } else {
      LessTransitive(a[1..], b[1..], c[1..]);
    }
  }

  lemma {:induction false} LessTotal(a: Name, b: Name)
    ensures a == b || Less(a, b) || Less(b, a)
    decreases |a|
  {
    if a == [] || b == [] || a[0] != b[0] {
    } else {
      LessTotal(a[1..], b[1..]);
      if a[1..] == b[1..] { assert a == [a[0]] + a[1..] && b == [b[0]] + b[1..]; }
    }
  }

  predicate IsLeast(m: Name, names: set<Name>) {
    m in names && forall x | x in names :: x == m || Less(m, x)
  }

  lemma LeastIsUnique(m: Name, n: Name, names: set<Name>)
    requires IsLeast(m, names) && IsLeast(n, names)
    ensures m == n
  {
    if m != n {
      LessTransitive(m, n, m);
      LessIrreflexive(m);
    }
  }

  method FindLeast(names: set<Name>) returns (m: Name)
    requires names != {}
    ensures IsLeast(m, names)
  {
    m :| m in names;
    var seen := {m};
    while names - seen != {}
      invariant seen <= names && IsLeast(m, seen)
      decreases names - seen
    {
      var x :| x in names - seen;
      LessTotal(m, x);
      if Less(x, m) {
        forall y | y in seen && y != m ensures Less(x, y) { LessTransitive(x, m, y); }
        m := x;
      }
      seen := seen + {x};
    }
    assert names == seen + (names - seen);
  }

  lemma LeastExists(names: set<Name>) returns (m: Name)
    requires names != {}
    ensures IsLeast(m, names)
    decreases names
  {
    var x :| x in names;
    var rest := names - {x};
    assert names == rest + {x};
    if rest == {} {
      m := x;
    } else {
      var y := LeastExists(rest);
      LessTotal(x, y);
      if Less(x, y) {
        forall n | n in rest && n != y ensures Less(x, n) { LessTransitive(x, y, n); }
        m := x;
      } else {
        m := y;
      }
    }
  }

  predicate Sorted(names: seq<Name>) {
    forall i, j | 0 <= i < j < |names| :: Less(names[i], names[j])
  }

  ghost function Least(names: set<Name>): (m: Name)
    requires names != {}
    ensures IsLeast(m, names)
  {
    assert exists m :: IsLeast(m, names) by { var m := LeastExists(names); }
    var m :| IsLeast(m, names);
    m
  }

  /** The keys in ascending order. */
  ghost function InOrder(names: set<Name>): (r: seq<Name>)
    ensures Sorted(r)
    ensures forall n :: n in r <==> n in names
    ensures |r| == |names|
    decreases names
  {
    if names == {} then []
    else
      var m := Least(names);
      [m] + InOrder(names - {m})
  }

  /** The order an iterator over the map visits the keys in. */
  method SortKeys(names: set<Name>) returns (r: seq<Name>)
    ensures r == InOrder(names)
  {
    r := [];
    var todo := names;
    while todo != {}
      invariant todo <= names
      invariant r + InOrder(todo) == InOrder(names)
    {
      var m := FindLeast(todo);
      LeastIsUnique(m, Least(todo), todo);
      ghost var more := InOrder(todo - {m});
      assert InOrder(todo) == [m] + more;
      Associative(r, [m], more);
      r, todo := r + [m], todo - {m};
    }
    assert r + [] == r;
  }

  lemma SortedDistinct(names: seq<Name>, i: nat, j: nat)
    requires Sorted(names) && i < j < |names|
    ensures names[i] != names[j]
  {
    LessIrreflexive(names[i]);
  }
}
