/** Python's ordering of `str` values (code point by code point, a proper
    prefix first) and the built-in `sorted` applied to a set of such keys, as
    the report uses them. */
module StrOrder {

  /** `a <= b` for Python strings. */
  predicate AtMost(a: string, b: string)
  {
    |a| == 0 || (|b| > 0 && (a[0] < b[0] || (a[0] == b[0] && AtMost(a[1..], b[1..]))))
  }

  /** `a < b` for Python strings. */
  predicate Less(a: string, b: string)
  {
    AtMost(a, b) && a != b
  }

  lemma {:induction false} AtMostTotal(a: string, b: string)
    ensures AtMost(a, b) || AtMost(b, a)
  {
    if |a| > 0 && |b| > 0 && a[0] == b[0] {
      AtMostTotal(a[1..], b[1..]);
    }
  }

  lemma {:induction false} AtMostAntisymmetric(a: string, b: string)
    requires AtMost(a, b) && AtMost(b, a)
    ensures a == b
  {
    if |a| > 0 && |b| > 0 {
      AtMostAntisymmetric(a[1..], b[1..]);
      assert a == [a[0]] + a[1..];
      assert b == [b[0]] + b[1..];
    }
  }

  lemma {:induction false} AtMostTransitive(a: string, b: string, c: string)
    requires AtMost(a, b) && AtMost(b, c)
    ensures AtMost(a, c)
  {
    if |a| > 0 && |b| > 0 && |c| > 0 && a[0] == b[0] == c[0] {
      AtMostTransitive(a[1..], b[1..], c[1..]);
    }
  }

  predicate IsLeast(m: string, s: set<string>)
  {
    m in s && forall x :: x in s ==> AtMost(m, x)
  }

  lemma {:induction false} LeastExists(s: set<string>)
    requires s != {}
    ensures exists m :: IsLeast(m, s)
    decreases |s|
  {
    var x :| x in s;
    if s == {x} {
      assert AtMost(x, x) by { AtMostTotal(x, x); }
      assert IsLeast(x, s);
    } else {
      var rest := s - {x};
      LeastExists(rest);
      var m :| IsLeast(m, rest);
      AtMostTotal(m, x);
      if AtMost(m, x) {
        assert IsLeast(m, s);
      } else {
        forall y | y in s ensures AtMost(x, y) {
          if y == x {
            AtMostTotal(x, x);
          } else {
            AtMostTransitive(x, m, y);
          }
        }
        assert IsLeast(x, s);
      }
    }
  }

  lemma LeastUnique(s: set<string>)
    ensures forall m, n :: IsLeast(m, s) && IsLeast(n, s) ==> m == n
  {
    forall m, n | IsLeast(m, s) && IsLeast(n, s) ensures m == n {
      AtMostAntisymmetric(m, n);
    }
  }

  /** The smallest key of a non-empty set. */
  function Least(s: set<string>): (m: string)
    requires s != {}
    ensures m in s && forall x :: x in s ==> AtMost(m, x)
  {
    LeastExists(s);
    LeastUnique(s);
    var m :| IsLeast(m, s);
    m
  }

  /** The keys in strictly ascending order, one position per key. */
  predicate StrictlyAscending(r: seq<string>)
  {
    forall i, j :: 0 <= i < j < |r| ==> Less(r[i], r[j])
  }

  /** `sorted(keys)`: every key of the set exactly once, in ascending order. */
  function Sorted(s: set<string>): (r: seq<string>)
    ensures |r| == |s|
    ensures forall k :: k in r <==> k in s
    ensures StrictlyAscending(r)
    decreases |s|
  {
    if s == {} then []
    else
      var m := Least(s);
      [m] + Sorted(s - {m})
  }
}
