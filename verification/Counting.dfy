/** Lists of table slots without repetition, and how long they can be. */
module Counting {

  function Elems(order: seq<nat>): set<nat>
  {
    set i | i in order
  }

  ghost predicate NoDup(order: seq<nat>)
  {
    forall i, j :: 0 <= i < j < |order| ==> order[i] != order[j]
  }

  /** An order of the first n slots names each at most once. */
  lemma OrderBound(order: seq<nat>, n: nat)
    requires NoDup(order) && forall i :: i in order ==> i < n
    ensures |order| <= n
  {
    ElemsSize(order);
    assert Elems(order) <= Below(n);
    assert Below(n) == Elems(order) + (Below(n) - Elems(order));
  }

  function Below(n: nat): (r: set<nat>)
    ensures |r| == n && forall i :: i in r <==> 0 <= i < n
  {
    if n == 0 then {} else Below(n - 1) + {n - 1}
  }

  lemma ElemsSize(order: seq<nat>)
    requires NoDup(order)
    ensures |Elems(order)| == |order|
  {
    if order != [] {
      var n := |order| - 1;
      ElemsSize(order[..n]);
      assert order == order[..n] + [order[n]];
      assert Elems(order) == Elems(order[..n]) + {order[n]};
      assert order[n] !in order[..n];
    }
  }

  /** Pigeonhole. */
  lemma Collide(q: seq<nat>, n: nat) returns (i: nat, j: nat)
    requires |q| > n && forall x :: x in q ==> x < n
    ensures i < j < |q| && q[i] == q[j]
  {
    if NoDup(q) {
      OrderBound(q, n);
      assert false;
    }
    i, j :| i < j < |q| && q[i] == q[j];
  }

  /** As many images as arguments, if no two share one. */
  lemma ImageSize<A(!new), B(!new)>(args: set<A>, f: A -> B, images: set<B>)
    requires forall a :: a in args ==> f(a) in images
    requires forall b :: b in images ==> exists a :: a in args && f(a) == b
    requires forall a, b :: a in args && b in args && f(a) == f(b) ==> a == b
    ensures |images| == |args|
    decreases |args|
  {
    if args == {} {
      assert images == {};
    } else {
      var a :| a in args;
      forall b | b in images - {f(a)}
        ensures exists x :: x in args - {a} && f(x) == b
      {
        var x :| x in args && f(x) == b;
        assert x in args - {a};
      }
      ImageSize(args - {a}, f, images - {f(a)});
    }
  }
}
