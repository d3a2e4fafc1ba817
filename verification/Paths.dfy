/** Paths in a graph given by its successors. */
module Paths {

  ghost predicate Path<T(!new)>(succ: T -> set<T>, from: T, p: seq<T>)
    decreases |p|
  {
    p == [] || (p[0] in succ(from) && Path(succ, p[0], p[1..]))
  }

  function End<T>(from: T, p: seq<T>): T {
    if p == [] then from else p[|p| - 1]
  }

  ghost predicate Leads<T(!new)>(succ: T -> set<T>, from: T, to: T) {
    exists p :: Path(succ, from, p) && End(from, p) == to
  }

  /** A path one step longer at its start. */
  lemma LeadsBefore<T(!new)>(succ: T -> set<T>, from: T, mid: T, to: T)
    requires mid in succ(from) && Leads(succ, mid, to)
    ensures Leads(succ, from, to)
  {
    var p :| Path(succ, mid, p) && End(mid, p) == to;
    assert ([mid] + p)[1..] == p;
    assert Path(succ, from, [mid] + p) && End(from, [mid] + p) == to;
  }

  lemma {:induction false} PathSnoc<T(!new)>(succ: T -> set<T>, from: T, p: seq<T>, to: T)
    requires Path(succ, from, p) && to in succ(End(from, p))
    ensures Path(succ, from, p + [to])
    decreases |p|
  {
    if p == [] {
      assert [to][1..] == [];
    } else {
      PathSnoc(succ, p[0], p[1..], to);
      assert (p + [to])[1..] == p[1..] + [to];
    }
  }

  /** A path one step longer at its end. */
  lemma LeadsAfter<T(!new)>(succ: T -> set<T>, from: T, mid: T, to: T)
    requires Leads(succ, from, mid) && to in succ(mid)
    ensures Leads(succ, from, to)
  {
    var p :| Path(succ, from, p) && End(from, p) == mid;
    PathSnoc(succ, from, p, to);
    assert End(from, p + [to]) == to;
  }

  /** A set that every step from it stays in holds all that its members lead to. */
  lemma {:induction false} StaysIn<T(!new)>(succ: T -> set<T>, s: set<T>, from: T, p: seq<T>)
    requires from in s && Path(succ, from, p) && forall x, y | x in s && y in succ(x) :: y in s
    ensures End(from, p) in s
    decreases |p|
  {
    if p != [] {
      StaysIn(succ, s, p[0], p[1..]);
    }
  }

  /** A set that no step from outside enters holds all that lead to its members. */
  lemma {:induction false} NeverEntered<T(!new)>(succ: T -> set<T>, s: set<T>, from: T, p: seq<T>)
    requires Path(succ, from, p) && End(from, p) in s && forall x, y | y in s && y in succ(x) :: x in s
    ensures from in s
    decreases |p|
  {
    if p != [] {
      NeverEntered(succ, s, p[0], p[1..]);
    }
  }
}
