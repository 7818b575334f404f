/**
  Python's ordering of `str` values (lexicographic by code point) and the
  built-in `sorted()` applied to a set of dictionary keys.
 */
module PyOrder {

  /** Python's `a < b` on strings. */
  predicate Below(a: string, b: string)
    decreases |a|
  {
    if b == [] then false
    else if a == [] then true
    else if a[0] != b[0] then a[0] < b[0]
    else Below(a[1..], b[1..])
  }

  lemma {:induction false} BelowIrreflexive(a: string)
    ensures !Below(a, a)
    decreases |a|
  {
    if a != [] { BelowIrreflexive(a[1..]); }
  }

  lemma {:induction false} BelowAsymmetric(a: string, b: string)
    ensures Below(a, b) ==> !Below(b, a)
    decreases |a|
  {
    if a != [] && b != [] && a[0] == b[0] { BelowAsymmetric(a[1..], b[1..]); }
  }

  lemma {:induction false} BelowTransitive(a: string, b: string, c: string)
    requires Below(a, b) && Below(b, c)
    ensures Below(a, c)
    decreases |a|
  {
    if a != [] && a[0] == b[0] && b[0] == c[0] { BelowTransitive(a[1..], b[1..], c[1..]); }
  }

  /** Two different strings are always ordered one way or the other. */
  lemma {:induction false} BelowTotal(a: string, b: string)
    requires a != b
    ensures Below(a, b) || Below(b, a)
    decreases |a|
  {
    if a != [] && b != [] && a[0] == b[0] {
      assert a == [a[0]] + a[1..] && b == [b[0]] + b[1..];
      BelowTotal(a[1..], b[1..]);
    }
  }

  /** `m` is the least element of `s`. */
  predicate IsLeast(m: string, s: set<string>) {
    m in s && forall x :: x in s && x != m ==> Below(m, x)
  }

  lemma {:induction false} LeastExists(s: set<string>)
    requires s != {}
    ensures exists m :: IsLeast(m, s)
    decreases |s|
  {
    var x :| x in s;
    if s - {x} == {} {
      assert s == {x};
      assert IsLeast(x, s);
    } else {
      LeastExists(s - {x});
      var m :| IsLeast(m, s - {x});
      if Below(m, x) {
        forall y | y in s && y != m ensures Below(m, y) {
          if y == x {} else {}
        }
        assert IsLeast(m, s);
      } else {
        BelowTotal(m, x);
        forall y | y in s && y != x ensures Below(x, y) {
          if y != m { BelowTransitive(x, m, y); }
        }
        assert IsLeast(x, s);
      }
    }
  }

  /** A set has at most one least element. */
  lemma LeastUnique(s: set<string>)
    ensures forall m1, m2 :: IsLeast(m1, s) && IsLeast(m2, s) ==> m1 == m2
  {
    forall m1, m2 | IsLeast(m1, s) && IsLeast(m2, s) ensures m1 == m2 {
      if m1 != m2 { BelowAsymmetric(m1, m2); }
    }
  }

  /** Every element is strictly below every later one: ascending, no repeats. */
  predicate StrictlySorted(r: seq<string>) {
    forall i, j :: 0 <= i < j < |r| ==> Below(r[i], r[j])
  }

  /** Python's `sorted(keys)` for a set of string keys. */
  function SortedKeys(s: set<string>): (r: seq<string>)
    ensures StrictlySorted(r)
    ensures |r| == |s|
    ensures forall k :: k in r <==> k in s
    decreases |s|
  {
    if s == {} then []
    else
      LeastExists(s);
      LeastUnique(s);
      var m :| IsLeast(m, s);
      var rest := SortedKeys(s - {m});
      assert forall j :: 0 <= j < |rest| ==> rest[j] in rest;
      assert forall j :: 0 <= j < |rest| ==> rest[j] in s && rest[j] != m;
      assert forall j :: 0 <= j < |rest| ==> Below(m, rest[j]);
      [m] + rest
  }

  /** A set has exactly one strictly sorted listing. */
  lemma {:induction false} SortedUnique(r1: seq<string>, r2: seq<string>)
    requires StrictlySorted(r1) && StrictlySorted(r2)
    requires forall k :: k in r1 <==> k in r2
    ensures r1 == r2
    decreases |r1|
  {
    assert r1 != [] ==> r1[0] in r2;
    assert r2 != [] ==> r2[0] in r1;
    if r1 != [] && r2 != [] {
      if r1[0] != r2[0] {
        assert r1[0] in r2 && r2[0] in r1;
        var i :| 0 <= i < |r2| && r2[i] == r1[0];
        var j :| 0 <= j < |r1| && r1[j] == r2[0];
        BelowAsymmetric(r1[0], r2[0]);
        assert false;
      }
      forall k ensures k in r1[1..] <==> k in r2[1..] {
        BelowIrreflexive(r1[0]);
        if k in r1[1..] {
          var i :| 0 <= i < |r1[1..]| && r1[1..][i] == k;
          assert Below(r1[0], r1[i + 1]);
          assert k in r2 && k != r2[0];
          var j :| 0 <= j < |r2| && r2[j] == k;
          assert j != 0;
          assert r2[1..][j - 1] == k;
        }
        if k in r2[1..] {
          var i :| 0 <= i < |r2[1..]| && r2[1..][i] == k;
          assert Below(r2[0], r2[i + 1]);
          assert k in r1 && k != r1[0];
          var j :| 0 <= j < |r1| && r1[j] == k;
          assert j != 0;
          assert r1[1..][j - 1] == k;
        }
      }
      SortedUnique(r1[1..], r2[1..]);
    }
  }
}
