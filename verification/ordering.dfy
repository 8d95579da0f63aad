/** The fixed total order on inventory-object handles used to choose which
    of several duplicate inventory objects is retained: namespace first, then
    name, each compared lexicographically character by character. */
module Ordering {

  /** Where an object lives in the cluster: its namespace and name. */
  datatype Handle = Handle(namespace: string, name: string)

  /** Lexicographic order on strings; a proper prefix comes first. */
  predicate StrLess(a: string, b: string)
    decreases |a|
  {
    if a == [] then b != []
    else if b == [] then false
    else a[0] < b[0] || (a[0] == b[0] && StrLess(a[1..], b[1..]))
  }

  lemma {:induction false} StrLessIrreflexive(a: string)
    ensures !StrLess(a, a)
    decreases |a|
  {
    if a != [] {
      StrLessIrreflexive(a[1..]);
    }
  }

  lemma {:induction false} StrLessTransitive(a: string, b: string, c: string)
    requires StrLess(a, b) && StrLess(b, c)
    ensures StrLess(a, c)
    decreases |a|
  {
    if a != [] && a[0] == b[0] && b[0] == c[0] {
      StrLessTransitive(a[1..], b[1..], c[1..]);
    }
  }

  lemma {:induction false} StrLessTotal(a: string, b: string)
    ensures StrLess(a, b) || a == b || StrLess(b, a)
    decreases |a|
  {
    if a != [] && b != [] && a[0] == b[0] {
      StrLessTotal(a[1..], b[1..]);
      if a[1..] == b[1..] {
        assert a == [a[0]] + a[1..] && b == [b[0]] + b[1..];
      }
    }
  }

  /** The order on handles: by namespace, then by name. */
  predicate HandleLess(x: Handle, y: Handle)
  {
    StrLess(x.namespace, y.namespace) || (x.namespace == y.namespace && StrLess(x.name, y.name))
  }

  lemma HandleLessIrreflexive(x: Handle)
    ensures !HandleLess(x, x)
  {
    StrLessIrreflexive(x.namespace);
    StrLessIrreflexive(x.name);
  }

  lemma HandleLessTransitive(x: Handle, y: Handle, z: Handle)
    requires HandleLess(x, y) && HandleLess(y, z)
    ensures HandleLess(x, z)
  {
    if StrLess(x.namespace, y.namespace) && StrLess(y.namespace, z.namespace) {
      StrLessTransitive(x.namespace, y.namespace, z.namespace);
    } else if x.namespace == y.namespace && y.namespace == z.namespace {
      StrLessTransitive(x.name, y.name, z.name);
    }
  }

  lemma HandleLessAsymmetric(x: Handle, y: Handle)
    requires HandleLess(x, y)
    ensures !HandleLess(y, x)
  {
    if HandleLess(y, x) {
      HandleLessTransitive(x, y, x);
      HandleLessIrreflexive(x);
    }
  }

  lemma HandleLessTotal(x: Handle, y: Handle)
    ensures HandleLess(x, y) || x == y || HandleLess(y, x)
  {
    StrLessTotal(x.namespace, y.namespace);
    StrLessTotal(x.name, y.name);
  }

  /** `m` is the first of `hs` in handle order. */
  ghost predicate IsLeast(m: Handle, hs: set<Handle>)
  {
    m in hs && forall h :: h in hs && h != m ==> HandleLess(m, h)
  }

  lemma {:induction false} LeastExists(hs: set<Handle>)
    requires hs != {}
    ensures exists m :: IsLeast(m, hs)
    decreases |hs|
  {
    var x :| x in hs;
    if hs != {x} {
      LeastExists(hs - {x});
      var m :| IsLeast(m, hs - {x});
      HandleLessTotal(x, m);
      if HandleLess(x, m) {
        forall h | h in hs && h != x
          ensures HandleLess(x, h)
        {
          if h != m {
            HandleLessTransitive(x, m, h);
          }
        }
        assert IsLeast(x, hs);
      } else {
        assert IsLeast(m, hs);
      }
    } else {
      assert IsLeast(x, hs);
    }
  }

  lemma LeastUnique(m: Handle, n: Handle, hs: set<Handle>)
    requires IsLeast(m, hs) && IsLeast(n, hs)
    ensures m == n
  {
    if m != n {
      HandleLessAsymmetric(m, n);
    }
  }

  /** The first handle of a non-empty set, as a specification. */
  ghost function Least(hs: set<Handle>): (m: Handle)
    requires hs != {}
    ensures IsLeast(m, hs)
  {
    LeastExists(hs);
    var m :| IsLeast(m, hs);
    m
  }

  /** The first handle of a non-empty set in handle order: the element that
      sorting the candidates and taking the head yields. */
  method First(hs: set<Handle>) returns (m: Handle)
    requires hs != {}
    ensures IsLeast(m, hs)
  {
    m :| m in hs;
    var todo := hs - {m};
    while todo != {}
      invariant todo <= hs && m in hs && m !in todo
      invariant forall h :: h in hs - todo && h != m ==> HandleLess(m, h)
      decreases |todo|
    {
      var x :| x in todo;
      HandleLessTotal(x, m);
      if HandleLess(x, m) {
        forall h | h in hs - (todo - {x}) && h != x
          ensures HandleLess(x, h)
        {
          if h != m {
            HandleLessTransitive(x, m, h);
          }
        }
        m := x;
      }
      todo := todo - {x};
    }
  }
}
