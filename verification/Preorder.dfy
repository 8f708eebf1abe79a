/** Ways down a tree, as lists of child numbers, and the order in which a preorder walk meets their ends. */
module Preorder {

  type Route = seq<nat>

  /** A node comes before what is below it, and before its later siblings. */
  predicate Before(a: Route, b: Route)
    decreases |a|
  {
    if a == [] then b != []
    else b != [] && (a[0] < b[0] || (a[0] == b[0] && Before(a[1..], b[1..])))
  }

  predicate InOrder(routes: seq<Route>) {
    forall j, k :: 0 <= j < k < |routes| ==> Before(routes[j], routes[k])
  }

  function Through(first: nat, routes: seq<Route>): seq<Route> {
    seq(|routes|, k requires 0 <= k < |routes| => [first] + routes[k])
  }

  lemma InThrough(first: nat, routes: seq<Route>, route: Route)
    ensures route in Through(first, routes) <==> route != [] && route[0] == first && route[1..] in routes
  {
    if route != [] && route[0] == first && route[1..] in routes {
      var k :| 0 <= k < |routes| && routes[k] == route[1..];
      assert Through(first, routes)[k] == [first] + routes[k] == route;
    }
    if route in Through(first, routes) {
      var k :| 0 <= k < |routes| && Through(first, routes)[k] == route;
      assert ([first] + routes[k])[1..] == routes[k];
    }
  }

  lemma ThroughInOrder(first: nat, routes: seq<Route>)
    requires InOrder(routes)
    ensures InOrder(Through(first, routes))
  {
    var all := Through(first, routes);
    forall j, k | 0 <= j < k < |all|
      ensures Before(all[j], all[k])
    {
      assert all[j][1..] == routes[j] && all[k][1..] == routes[k];
    }
  }

  /** Routes through one child come before routes through later ones. */
  lemma OneAfterTheOther(first: nat, routes: seq<Route>, rest: seq<Route>)
    requires InOrder(routes) && InOrder(rest)
    requires forall r :: r in rest ==> r != [] && r[0] > first
    ensures InOrder(Through(first, routes) + rest)
  {
    ThroughInOrder(first, routes);
  }

  lemma {:induction false} NotBeforeItself(a: Route)
    ensures !Before(a, a)
    decreases |a|
  {
    if a != [] {
      NotBeforeItself(a[1..]);
    }
  }
}
