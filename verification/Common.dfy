/** Small datatypes and sequence facts shared by the component models. */
module Common {

  datatype Option<+T> = None | Some(value: T)

  datatype Result<+T, +E> = Ok(value: T) | Err(error: E)

  function Max(a: int, b: int): int { if a < b then b else a }

  function Sum(s: seq<int>): int {
    if s == [] then 0 else s[0] + Sum(s[1..])
  }

  lemma {:induction false} SumConcat(a: seq<int>, b: seq<int>)
    ensures Sum(a + b) == Sum(a) + Sum(b)
  {
    if a == [] {
      assert a + b == b;
    } else {
      assert (a + b)[1..] == a[1..] + b;
      SumConcat(a[1..], b);
    }
  }

  function Concat(parts: seq<string>): string {
    if parts == [] then "" else parts[0] + Concat(parts[1..])
  }

  function Filter<T>(s: seq<T>, keep: T -> bool): seq<T> {
    if s == [] then [] else (if keep(s[0]) then [s[0]] else []) + Filter(s[1..], keep)
  }

  lemma FilterStep<T>(s: seq<T>, keep: T -> bool)
    ensures Filter(s, keep) == if s == [] then [] else (if keep(s[0]) then [s[0]] else []) + Filter(s[1..], keep)
  {}

  lemma {:induction false} FilterConcat<T>(a: seq<T>, b: seq<T>, keep: T -> bool)
    ensures Filter(a + b, keep) == Filter(a, keep) + Filter(b, keep)
  {
    hide Filter;
    FilterStep(a, keep);
    if a == [] {
      assert a + b == b;
      assert [] + Filter(b, keep) == Filter(b, keep);
    } else {
      assert (a + b)[0] == a[0] && (a + b)[1..] == a[1..] + b;
      FilterStep(a + b, keep);
      FilterConcat(a[1..], b, keep);
      var here := if keep(a[0]) then [a[0]] else [];
      assert here + (Filter(a[1..], keep) + Filter(b, keep)) == here + Filter(a[1..], keep) + Filter(b, keep);
    }
  }

  lemma {:induction false} FilterMembers<T>(s: seq<T>, keep: T -> bool, x: T)
    ensures x in Filter(s, keep) <==> x in s && keep(x)
  {
    if s != [] {
      FilterMembers(s[1..], keep, x);
    }
  }

  /** A finite set included in another of the same size is that set. */
  lemma {:induction false} SubsetSize<T>(a: set<T>, b: set<T>)
    requires a <= b
    ensures |a| <= |b|
    ensures |a| == |b| ==> a == b
  {
    if a != {} {
      var x :| x in a;
      SubsetSize(a - {x}, b - {x});
    }
  }
}

/** The alphabetical order that the scripts' `sorted()` puts names in. */
module NameOrder {
  import opened Common

  predicate Leq(a: string, b: string) {
    a == [] || (b != [] && (a[0] < b[0] || (a[0] == b[0] && Leq(a[1..], b[1..]))))
  }

  lemma {:induction false} LeqTotal(a: string, b: string)
    ensures Leq(a, b) || Leq(b, a)
  {
    if a != [] && b != [] {
      LeqTotal(a[1..], b[1..]);
    }
  }

  lemma {:induction false} LeqAntisymmetric(a: string, b: string)
    requires Leq(a, b) && Leq(b, a)
    ensures a == b
  {
    if a != [] && b != [] {
      LeqAntisymmetric(a[1..], b[1..]);
      assert a == [a[0]] + a[1..] && b == [b[0]] + b[1..];
    }
  }

  lemma {:induction false} LeqTransitive(a: string, b: string, c: string)
    requires Leq(a, b) && Leq(b, c)
    ensures Leq(a, c)
  {
    if a != [] && b != [] && c != [] && a[0] == b[0] == c[0] {
      LeqTransitive(a[1..], b[1..], c[1..]);
    }
  }

  /** One name comes before another, or is it, exactly if it is the beginning of the other, or has the
      smaller character where they first differ. */
  lemma {:induction false} LeqExact(a: string, b: string)
    ensures Leq(a, b) <==> exists i: nat :: Parts(a, b, i)
  {
    if a == [] {
      assert Parts(a, b, 0);
    } else if b != [] {
      LeqExact(a[1..], b[1..]);
      if i: nat :| Parts(a[1..], b[1..], i) {
        if a[0] == b[0] {
          assert a[..i + 1] == [a[0]] + a[1..][..i] && b[..i + 1] == [b[0]] + b[1..][..i];
          assert Parts(a, b, i + 1);
        }
      }
      if a[0] < b[0] {
        assert a[..0] == b[..0] && Parts(a, b, 0);
      }
      if i: nat :| Parts(a, b, i) {
        if i > 0 {
          assert a[0] == a[..i][0] == b[..i][0] == b[0];
          assert a[1..][..i - 1] == a[..i][1..] && b[1..][..i - 1] == b[..i][1..];
          assert Parts(a[1..], b[1..], i - 1);
        }
      }
    }
  }

  /** The names are the same up to place `i`, and there the first one ends or has the smaller character. */
  ghost predicate Parts(a: string, b: string, i: nat) {
    i <= |a| && i <= |b| && a[..i] == b[..i] && (i == |a| || (i < |b| && a[i] < b[i]))
  }

  predicate IsLeast(x: string, s: set<string>) {
    x in s && forall y | y in s :: Leq(x, y)
  }

  lemma {:induction false} LeastExists(s: set<string>)
    requires s != {}
    ensures exists x :: IsLeast(x, s)
  {
    var x :| x in s;
    var rest := s - {x};
    if rest == {} {
      LeqTotal(x, x);
      assert s == {x};
      assert IsLeast(x, s);
    } else {
      LeastExists(rest);
      var y :| IsLeast(y, rest);
      LeqTotal(x, y);
      if Leq(x, y) {
        forall z | z in s ensures Leq(x, z) {
          if z == x { LeqTotal(x, x); } else { LeqTransitive(x, y, z); }
        }
        assert IsLeast(x, s);
      } else {
        assert IsLeast(y, s);
      }
    }
  }

  lemma LeastUnique(s: set<string>)
    ensures forall x, y :: IsLeast(x, s) && IsLeast(y, s) ==> x == y
  {
    forall x, y | IsLeast(x, s) && IsLeast(y, s) ensures x == y {
      LeqAntisymmetric(x, y);
    }
  }

  /** The names of `s` in alphabetical order. */
  function Sorted(s: set<string>): (r: seq<string>)
    ensures forall x :: x in r <==> x in s
    ensures |r| == |s|
  {
    if s == {} then [] else
      LeastExists(s); LeastUnique(s);
      var x :| IsLeast(x, s);
      [x] + Sorted(s - {x})
  }

  /** Each name comes before the later ones and is none of them. */
  lemma {:induction false} SortedExact(s: set<string>)
    ensures forall i, j | 0 <= i < j < |Sorted(s)| :: Leq(Sorted(s)[i], Sorted(s)[j]) && Sorted(s)[i] != Sorted(s)[j]
    decreases |s|
  {
    if s != {} {
      LeastExists(s);
      LeastUnique(s);
      var x :| IsLeast(x, s);
      var rest := Sorted(s - {x});
      assert Sorted(s) == [x] + rest;
      SortedExact(s - {x});
      forall i, j | 0 <= i < j < |Sorted(s)| ensures Leq(Sorted(s)[i], Sorted(s)[j]) && Sorted(s)[i] != Sorted(s)[j] {
        assert rest[j - 1] in rest;
        assert i > 0 ==> Sorted(s)[i] == rest[i - 1] && Sorted(s)[j] == rest[j - 1];
      }
    }
  }

  /** Sorting a selection is selecting from the sorted names. */
  lemma {:induction false} SortedSelection(s: set<string>, t: set<string>, keep: string -> bool)
    requires t == set x | x in s && keep(x)
    ensures Sorted(t) == Filter(Sorted(s), keep)
    decreases |s|
  {
    if s != {} {
      LeastExists(s);
      LeastUnique(s);
      var x :| IsLeast(x, s);
      assert Sorted(s) == [x] + Sorted(s - {x});
      if keep(x) {
        LeastUnique(t);
        assert IsLeast(x, t);
        assert Sorted(t) == [x] + Sorted(t - {x});
        SortedSelection(s - {x}, t - {x}, keep);
      } else {
        SortedSelection(s - {x}, t, keep);
      }
    }
  }
}
