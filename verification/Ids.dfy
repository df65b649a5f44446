/** Non-zero 32-bit message ids, and the order a B-tree map iterates them in. */
module Ids {
  type Id = u: int | 0 < u < 0x1_0000_0000 witness 1
  const MAX_ID: Id := 0xFFFF_FFFF

  predicate IsLeast(s: set<Id>, m: Id) {
    m in s && forall u :: u in s ==> m <= u
  }

  lemma {:induction false} LeastExists(s: set<Id>) returns (m: Id)
    requires s != {}
    ensures IsLeast(s, m)
    decreases |s|
  {
    m :| m in s;
    var rest := s - {m};
    assert forall u :: u in s ==> u == m || u in rest;
    if rest != {} {
      var m' := LeastExists(rest);
      m := if m < m' then m else m';
    }
  }

  function Least(s: set<Id>): (m: Id)
    requires s != {}
    ensures IsLeast(s, m)
  {
    assert exists m :: IsLeast(s, m) by {
      var m := LeastExists(s);
    }
    var m :| IsLeast(s, m);
    m
  }

  /** The keys of a B-tree map, in its iteration order. */
  function Ascending(s: set<Id>): (r: seq<Id>)
    ensures forall u :: u in r <==> u in s
    ensures forall i, j :: 0 <= i < j < |r| ==> r[i] < r[j]
    decreases |s|
  {
    if s == {} then [] else [Least(s)] + Ascending(s - {Least(s)})
  }

  lemma AscendingCons(u: Id, s: set<Id>)
    requires forall v :: v in s ==> u < v
    ensures Ascending({u} + s) == [u] + Ascending(s)
  {
    assert Least({u} + s) == u;
    assert {u} + s - {u} == s;
  }
}
