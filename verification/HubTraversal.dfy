/**
 The traversal of a tree of USB hubs (displayusb.c), with requests that succeed: what is printed for each
 port, and how the handles of nested hubs are opened and closed.
 */
module HubTraversal {
  import opened Preorder
  import opened Sequences
  import opened Wrappers

  datatype Port = NotConnected(status: nat) | Device(descriptor: string) | Hub(ports: seq<Port>)

  type Handle = int

  datatype Event =
    | Line(depth: nat, index: nat, port: Port)
    | Open(handle: Handle)
    | Close(handle: Handle)

  /** The events of a traversal, and the number of the next file to be opened. */
  datatype Trace = Trace(events: seq<Event>, next: nat)

  /** The events for the ports from number `i` on, if opening the n-th file gives the handle `give(n)`. */
  function Visit(give: nat -> Handle, ports: seq<Port>, i: nat, depth: nat, next: nat): Trace
    requires i <= |ports|
    decreases ports, |ports| - i
  {
    if i == |ports| then Trace([], next)
    else
      var line := Line(depth, i + 1, ports[i]);
      if ports[i].Hub? then
        assert ports[i] in ports;
        var below := Visit(give, ports[i].ports, 0, depth + 1, next + 1);
        var rest := Visit(give, ports, i + 1, depth, below.next);
        Trace([line, Open(give(next))] + below.events + [Close(give(next))] + rest.events, rest.next)
      else
        var rest := Visit(give, ports, i + 1, depth, next);
        Trace([line] + rest.events, rest.next)
  }

  class System {
    var events: seq<Event>
    const give: nat -> Handle
    var next: nat

    constructor (give: nat -> Handle)
      ensures events == [] && next == 0 && this.give == give
    {
      events, next, this.give := [], 0, give;
    }

    method CreateFile() returns (handle: Handle)
      modifies this
      ensures handle == give(old(next)) && next == old(next) + 1 && events == old(events) + [Open(handle)]
    {
      handle := give(next);
      next := next + 1;
      events := events + [Open(handle)];
    }

    method GetPortData(ports: seq<Port>, hubDepth: nat)
      modifies this
      ensures var t := Visit(give, ports, 0, hubDepth, old(next));
              events == old(events) + t.events && next == t.next
      decreases ports
    {
      hide Visit;
      VisitEnd(give, ports, hubDepth);
      var portIndex := 1;
      while portIndex < |ports| + 1
        invariant 1 <= portIndex <= |ports| + 1
        invariant var rest := Visit(give, ports, portIndex - 1, hubDepth, next);
                  Trace(events + rest.events, rest.next)
                  == var t := Visit(give, ports, 0, hubDepth, old(next)); Trace(old(events) + t.events, t.next)
      {
        var port := ports[portIndex - 1];
        ghost var before, next0 := events, next;
        events := events + [Line(hubDepth, portIndex, port)];
        if port.Hub? {
          assert port in ports;
          var handle := CreateFile();
          GetPortData(port.ports, hubDepth + 1);
          events := events + [Close(handle)];
          HubStep(give, ports, portIndex - 1, hubDepth, next0, before, events);
        } else {
          PortStep(give, ports, portIndex - 1, hubDepth, next0, before);
        }
        portIndex := portIndex + 1;
      }
    }
  }

  lemma VisitEnd(give: nat -> Handle, ports: seq<Port>, depth: nat)
    ensures forall next :: Visit(give, ports, |ports|, depth, next) == Trace([], next)
  {
  }

  lemma PortStep(
    give: nat -> Handle, ports: seq<Port>, i: nat, depth: nat, next: nat, before: seq<Event>)
    requires i < |ports| && !ports[i].Hub?
    ensures var t, rest := Visit(give, ports, i, depth, next), Visit(give, ports, i + 1, depth, next);
            before + t.events == (before + [Line(depth, i + 1, ports[i])]) + rest.events && t.next == rest.next
  {
  }

  lemma HubStep(
    give: nat -> Handle, ports: seq<Port>, i: nat, depth: nat, next: nat, before: seq<Event>, after: seq<Event>)
    requires i < |ports| && ports[i].Hub?
    requires after == before + [Line(depth, i + 1, ports[i])] + [Open(give(next))]
                      + Visit(give, ports[i].ports, 0, depth + 1, next + 1).events + [Close(give(next))]
    ensures var t := Visit(give, ports, i, depth, next);
            var rest := Visit(give, ports, i + 1, depth, Visit(give, ports[i].ports, 0, depth + 1, next + 1).next);
            before + t.events == after + rest.events && t.next == rest.next
  {
    assert [Line(depth, i + 1, ports[i]), Open(give(next))] == [Line(depth, i + 1, ports[i])] + [Open(give(next))];
  }

  // ----- every port once, in preorder, at its depth -----

  /** Port numbers on the way from the root hub, as the user counts them, lead to a port. */
  predicate Reaches(ports: seq<Port>, route: Route)
    decreases |route|
  {
    && route != [] && 1 <= route[0] <= |ports|
    && (|route| == 1 || (ports[route[0] - 1].Hub? && Reaches(ports[route[0] - 1].ports, route[1..])))
  }

  function PortAt(ports: seq<Port>, route: Route): Port
    requires Reaches(ports, route)
    decreases |route|
  {
    if |route| == 1 then ports[route[0] - 1] else PortAt(ports[route[0] - 1].ports, route[1..])
  }

  /** The routes from a hub to its ports from number `i` on, and to all ports below them. */
  function Routes(ports: seq<Port>, i: nat): seq<Route>
    requires i <= |ports|
    decreases ports, |ports| - i
  {
    if i == |ports| then []
    else
      assert ports[i] in ports;
      [[i + 1]]
      + (if ports[i].Hub? then Through(i + 1, Routes(ports[i].ports, 0)) else [])
      + Routes(ports, i + 1)
  }

  function Lines(events: seq<Event>): seq<Event> {
    if events == [] then []
    else (if events[0].Line? then [events[0]] else []) + Lines(events[1..])
  }

  lemma LinesOfFirst(a: seq<Event>, b: seq<Event>)
    requires a != []
    ensures Lines(a + b) == (if a[0].Line? then [a[0]] else []) + Lines(a[1..] + b)
    ensures Lines(a) == (if a[0].Line? then [a[0]] else []) + Lines(a[1..])
  {
    assert (a + b)[1..] == a[1..] + b;
  }

  lemma {:induction false} LinesOfTwo(a: seq<Event>, b: seq<Event>)
    ensures Lines(a + b) == Lines(a) + Lines(b)
    decreases |a|
  {
    if a == [] {
      assert a + b == b;
    } else {
      LinesOfFirst(a, b);
      hide Lines;
      LinesOfTwo(a[1..], b);
      Regroup(if a[0].Line? then [a[0]] else [], Lines(a[1..]), Lines(b));
    }
  }

  /** The line that belongs to a route: its length gives the depth, its last number the port index. */
  predicate Describes(line: Event, ports: seq<Port>, depth: nat, route: Route) {
    Reaches(ports, route) && line == Line(depth + |route| - 1, route[|route| - 1], PortAt(ports, route))
  }

  predicate AllDescribed(lines: seq<Event>, ports: seq<Port>, depth: nat, routes: seq<Route>) {
    |lines| == |routes| && forall k :: 0 <= k < |routes| ==> Describes(lines[k], ports, depth, routes[k])
  }

  lemma DescribedThrough(lines: seq<Event>, ports: seq<Port>, i: nat, depth: nat, routes: seq<Route>)
    requires i < |ports| && ports[i].Hub? && AllDescribed(lines, ports[i].ports, depth + 1, routes)
    ensures AllDescribed(lines, ports, depth, Through(i + 1, routes))
  {
    forall k | 0 <= k < |routes|
      ensures Describes(lines[k], ports, depth, [i + 1] + routes[k])
    {
      assert Describes(lines[k], ports[i].ports, depth + 1, routes[k]);
      assert ([i + 1] + routes[k])[1..] == routes[k];
    }
  }

  lemma DescribedTogether(a: seq<Event>, b: seq<Event>, ports: seq<Port>, depth: nat, r: seq<Route>, q: seq<Route>)
    requires AllDescribed(a, ports, depth, r) && AllDescribed(b, ports, depth, q)
    ensures AllDescribed(a + b, ports, depth, r + q)
  {
  }

  lemma LineDescribed(ports: seq<Port>, i: nat, depth: nat)
    requires i < |ports|
    ensures AllDescribed([Line(depth, i + 1, ports[i])], ports, depth, [[i + 1]])
  {
    assert Describes(Line(depth, i + 1, ports[i]), ports, depth, [i + 1]);
  }

  lemma LinesOfPort(line: Event, rest: seq<Event>)
    requires line.Line?
    ensures Lines([line] + rest) == [line] + Lines(rest)
  {
    assert ([line] + rest)[1..] == rest;
  }

  lemma {:induction false} LinesFollowRoutes(
    give: nat -> Handle, ports: seq<Port>, i: nat, depth: nat, next: nat)
    requires i <= |ports|
    ensures AllDescribed(Lines(Visit(give, ports, i, depth, next).events), ports, depth, Routes(ports, i))
    decreases ports, |ports| - i
  {
    if i < |ports| {
      hide AllDescribed, Describes, Lines;
      assert ports[i] in ports;
      var line, here := Line(depth, i + 1, ports[i]), [[i + 1]];
      LineDescribed(ports, i, depth);
      if ports[i].Hub? {
        var below := Visit(give, ports[i].ports, 0, depth + 1, next + 1);
        var rest := Visit(give, ports, i + 1, depth, below.next);
        var routes := Routes(ports[i].ports, 0);
        LinesFollowRoutes(give, ports[i].ports, 0, depth + 1, next + 1);
        LinesFollowRoutes(give, ports, i + 1, depth, below.next);
        LinesOfHub(line, give(next), below.events, rest.events);
        DescribedThrough(Lines(below.events), ports, i, depth, routes);
        DescribedTogether([line], Lines(below.events), ports, depth, here, Through(i + 1, routes));
        DescribedTogether([line] + Lines(below.events), Lines(rest.events), ports, depth,
                          here + Through(i + 1, routes), Routes(ports, i + 1));
      } else {
        var rest := Visit(give, ports, i + 1, depth, next);
        LinesFollowRoutes(give, ports, i + 1, depth, next);
        LinesOfPort(line, rest.events);
        DescribedTogether([line], Lines(rest.events), ports, depth, here, Routes(ports, i + 1));
        assert here + [] == here;
      }
    }
  }

  lemma LinesOfHub(line: Event, handle: Handle, below: seq<Event>, rest: seq<Event>)
    requires line.Line?
    ensures Lines([line, Open(handle)] + below + [Close(handle)] + rest) == [line] + Lines(below) + Lines(rest)
  {
    LinesOfTwo([line, Open(handle)] + below + [Close(handle)], rest);
    LinesOfTwo([line, Open(handle)] + below, [Close(handle)]);
    LinesOfTwo([line, Open(handle)], below);
    assert [line, Open(handle)][1..] == [Open(handle)] && [Open(handle)][1..] == [] && [Close(handle)][1..] == [];
  }

  /** The routes that go to port `i` or through it. */
  function RoutesVia(ports: seq<Port>, i: nat): seq<Route>
    requires i < |ports|
  {
    [[i + 1]] + if ports[i].Hub? then Through(i + 1, Routes(ports[i].ports, 0)) else []
  }

  lemma {:induction false} RoutesReach(ports: seq<Port>, i: nat, route: Route)
    requires i <= |ports|
    ensures route in Routes(ports, i) <==> Reaches(ports, route) && route[0] > i
    decreases ports, |ports| - i, 1
  {
    if i < |ports| {
      RoutesReach(ports, i + 1, route);
      RoutesViaReach(ports, i, route);
      assert Routes(ports, i) == RoutesVia(ports, i) + Routes(ports, i + 1);
      hide RoutesVia, Routes;
    }
  }

  lemma {:induction false} RoutesViaReach(ports: seq<Port>, i: nat, route: Route)
    requires i < |ports|
    ensures route in RoutesVia(ports, i) <==> Reaches(ports, route) && route[0] == i + 1
    decreases ports, |ports| - i, 0
  {
    if ports[i].Hub? {
      assert ports[i] in ports;
      var below := Routes(ports[i].ports, 0);
      InThrough(i + 1, below, route);
      RoutesReach(ports[i].ports, 0, route[if |route| > 0 then 1 else 0..]);
      hide Routes, Through;
      assert route in RoutesVia(ports, i) <==> route == [i + 1] || route in Through(i + 1, below);
      if route != [] && route[0] == i + 1 {
        assert route == [i + 1] + route[1..];
      }
    } else {
      assert RoutesVia(ports, i) == [[i + 1]];
      assert |route| == 1 && route[0] == i + 1 ==> route == [i + 1];
      assert route in RoutesVia(ports, i) <==> route == [i + 1];
    }
  }

  lemma {:induction false} RoutesInOrder(ports: seq<Port>, i: nat)
    requires i <= |ports|
    ensures InOrder(Routes(ports, i))
    decreases ports, |ports| - i
  {
    if i < |ports| {
      assert ports[i] in ports;
      RoutesInOrder(ports, i + 1);
      var below := if ports[i].Hub? then Routes(ports[i].ports, 0) else [];
      if ports[i].Hub? {
        RoutesInOrder(ports[i].ports, 0);
      }
      forall r | r in below
        ensures r != []
      {
        RoutesReach(ports[i].ports, 0, r);
      }
      var rest := Routes(ports, i + 1);
      forall r | r in rest
        ensures r != [] && r[0] > i + 1
      {
        RoutesReach(ports, i + 1, r);
      }
      hide Before;
      OrderedTogether(i + 1, below, rest);
      assert [[i + 1]] + Through(i + 1, []) == [[i + 1]] + [];
    }
  }

  lemma OrderedTogether(hub: nat, below: seq<Route>, rest: seq<Route>)
    requires InOrder(below) && InOrder(rest)
    requires (forall r :: r in below ==> r != []) && (forall r :: r in rest ==> r != [] && r[0] > hub)
    ensures InOrder([[hub]] + Through(hub, below) + rest)
  {
    var all: seq<Route> := [[]] + below;
    assert forall k :: 0 < k < |all| ==> all[k] in below;
    OneAfterTheOther(hub, all, rest);
    assert [hub] + all[0] == [hub];
    assert Through(hub, all) == [[hub]] + Through(hub, below);
  }

  /**
   One line is printed for each port of the tree, with its depth and index: the routes of the lines are
   exactly the routes that lead to a port, each once, a hub before what is below it.
   */
  lemma EveryPortOnceInPreorder(give: nat -> Handle, ports: seq<Port>, next: nat)
    ensures var lines, routes := Lines(Visit(give, ports, 0, 0, next).events), Routes(ports, 0);
            && AllDescribed(lines, ports, 0, routes)
            && (forall route :: route in routes <==> Reaches(ports, route))
            && InOrder(routes)
            && (forall j, k :: 0 <= j < k < |routes| ==> routes[j] != routes[k])
  {
    LinesFollowRoutes(give, ports, 0, 0, next);
    RoutesInOrder(ports, 0);
    forall route
      ensures route in Routes(ports, 0) <==> Reaches(ports, route)
    {
      RoutesReach(ports, 0, route);
    }
    var routes := Routes(ports, 0);
    forall j, k | 0 <= j < k < |routes|
      ensures routes[j] != routes[k]
    {
      NotBeforeItself(routes[j]);
    }
  }

  // ----- handles -----

  /** Follows opened handles on a stack; `None` if a handle is closed that was not the last opened. */
  function Follow(stack: seq<Handle>, events: seq<Event>): Option<seq<Handle>>
    decreases |events|
  {
    if events == [] then Some(stack)
    else match events[0]
      case Line(_, _, _) => Follow(stack, events[1..])
      case Open(h) => Follow(stack + [h], events[1..])
      case Close(h) =>
        if stack != [] && stack[|stack| - 1] == h then Follow(stack[..|stack| - 1], events[1..]) else None
  }

  lemma {:induction false} FollowTwo(stack: seq<Handle>, a: seq<Event>, b: seq<Event>)
    requires Follow(stack, a).Some?
    ensures Follow(stack, a + b) == Follow(Follow(stack, a).value, b)
    decreases |a|
  {
    if a == [] {
      assert a + b == b;
    } else {
      assert (a + b)[1..] == a[1..] + b;
      match a[0]
      case Line(_, _, _) => FollowTwo(stack, a[1..], b);
      case Open(h) => FollowTwo(stack + [h], a[1..], b);
      case Close(h) => FollowTwo(stack[..|stack| - 1], a[1..], b);
    }
  }

  function Opened(events: seq<Event>): seq<Handle> {
    if events == [] then []
    else (if events[0].Open? then [events[0].handle] else []) + Opened(events[1..])
  }

  lemma OpenedOfFirst(a: seq<Event>, b: seq<Event>)
    requires a != []
    ensures Opened(a + b) == (if a[0].Open? then [a[0].handle] else []) + Opened(a[1..] + b)
    ensures Opened(a) == (if a[0].Open? then [a[0].handle] else []) + Opened(a[1..])
  {
    assert (a + b)[1..] == a[1..] + b;
  }

  lemma {:induction false} OpenedOfTwo(a: seq<Event>, b: seq<Event>)
    ensures Opened(a + b) == Opened(a) + Opened(b)
    decreases |a|
  {
    if a == [] {
      assert a + b == b;
    } else {
      OpenedOfFirst(a, b);
      hide Opened;
      OpenedOfTwo(a[1..], b);
      Regroup(if a[0].Open? then [a[0].handle] else [], Opened(a[1..]), Opened(b));
    }
  }

  /** The handles given for the files from number `first` up to `end`. */
  function Given(give: nat -> Handle, first: nat, end: nat): seq<Handle>
    requires first <= end
  {
    seq(end - first, k requires 0 <= k < end - first => give(first + k))
  }

  lemma HubNests(stack: seq<Handle>, line: Event, h: Handle, below: seq<Event>, rest: seq<Event>)
    requires line.Line? && Follow(stack + [h], below) == Some(stack + [h])
    ensures Follow(stack, [line, Open(h)] + below + [Close(h)] + rest) == Follow(stack, rest)
    ensures Opened([line, Open(h)] + below + [Close(h)] + rest) == [h] + Opened(below) + Opened(rest)
  {
    var start, close := [line, Open(h)], [Close(h)];
    assert start[1..] == [Open(h)] && [Open(h)][1..] == [] && close[1..] == [];
    assert Follow(stack, [Open(h)]) == Follow(stack + [h], []) && Opened([Open(h)]) == [h] + Opened([]);
    assert Follow(stack, start) == Some(stack + [h]) && Opened(start) == [h];
    assert (stack + [h])[..|stack|] == stack;
    assert Follow(stack + [h], close) == Some(stack) && Opened(close) == [];
    FollowTwo(stack, start, below);
    FollowTwo(stack, start + below, close);
    FollowTwo(stack, start + below + close, rest);
    OpenedOfTwo(start, below);
    OpenedOfTwo(start + below, close);
    OpenedOfTwo(start + below + close, rest);
  }

  lemma NoEventNests(stack: seq<Handle>)
    ensures Follow(stack, []) == Some(stack) && Opened([]) == []
  {
  }

  lemma PortNests(stack: seq<Handle>, line: Event, rest: seq<Event>)
    requires line.Line?
    ensures Follow(stack, [line] + rest) == Follow(stack, rest) && Opened([line] + rest) == Opened(rest)
  {
    assert ([line] + rest)[1..] == rest;
  }

  /**
   Whatever handles the system gives, the traversal closes each handle it was given, and no other: always the
   one opened last among those still open, so that it leaves open just what was open before.
   */
  lemma {:induction false} HandlesNest(
    give: nat -> Handle, ports: seq<Port>, i: nat, depth: nat, next: nat, stack: seq<Handle>)
    requires i <= |ports|
    ensures var t := Visit(give, ports, i, depth, next);
            next <= t.next && Opened(t.events) == Given(give, next, t.next) && Follow(stack, t.events) == Some(stack)
    decreases ports, |ports| - i
  {
    hide Opened, Follow;
    NoEventNests(stack);
    if i < |ports| {
      assert ports[i] in ports;
      var line := Line(depth, i + 1, ports[i]);
      if ports[i].Hub? {
        var below := Visit(give, ports[i].ports, 0, depth + 1, next + 1);
        var rest := Visit(give, ports, i + 1, depth, below.next);
        HandlesNest(give, ports[i].ports, 0, depth + 1, next + 1, stack + [give(next)]);
        HandlesNest(give, ports, i + 1, depth, below.next, stack);
        HubNests(stack, line, give(next), below.events, rest.events);
        assert [give(next)] + Given(give, next + 1, below.next) + Given(give, below.next, rest.next)
               == Given(give, next, rest.next);
      } else {
        var rest := Visit(give, ports, i + 1, depth, next);
        HandlesNest(give, ports, i + 1, depth, next, stack);
        PortNests(stack, line, rest.events);
      }
    }
  }
}
