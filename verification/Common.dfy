/**
 Shared vocabulary: options and results, identifiers, and the two pieces of SQL that every
 query of the engine leans on, "the first row of a finite set" and "ORDER BY id".
 */
module Common {

  datatype Option<+T> = None | Some(value: T)

  datatype Result<+T, +E> = Ok(value: T) | Err(error: E)

  /** A uuid. Only identity and the total order (ORDER BY id) matter to the engine. */
  type Uuid = nat

  ghost predicate IsLeast(s: set<Uuid>, x: Uuid) {
    x in s && forall y :: y in s ==> x <= y
  }

  lemma LeastExists(s: set<Uuid>) returns (x: Uuid)
    requires s != {}
    ensures IsLeast(s, x)
  {
    x :| x in s;
    var rest := s - {x};
    assert forall y :: y in s ==> y == x || y in rest;
    if rest != {} {
      var z := LeastExists(rest);
      x := if x < z then x else z;
    }
  }

  function Least(s: set<Uuid>): (x: Uuid)
    requires s != {}
    ensures IsLeast(s, x)
  {
    assert exists x :: IsLeast(s, x) by { var z := LeastExists(s); }
    var x :| x in s && forall y :: y in s ==> x <= y;
    x
  }

  /** LIMIT 1 over a set of matching rows. */
  function First(s: set<Uuid>): (r: Option<Uuid>)
    ensures r.None? <==> s == {}
    ensures r.Some? ==> r.value in s
  {
    if s == {} then None else Some(Least(s))
  }

  /** SELECT id ... ORDER BY id. */
  function OrderById(s: set<Uuid>): (q: seq<Uuid>)
    ensures forall x :: x in q <==> x in s
    ensures |q| == |s|
    ensures forall i, j :: 0 <= i < j < |q| ==> q[i] < q[j]
  {
    if s == {} then []
    else
      var x := Least(s);
      [x] + OrderById(s - {x})
  }

  lemma SubsetSize<T>(a: set<T>, b: set<T>)
    requires a <= b
    ensures |a| <= |b| && |b - a| == |b| - |a| && (|a| == |b| ==> a == b)
  {
  }
}
