/** Lineage queries over an arbitrary event list, against paths in its graph. */
module Provenance {
  import opened Unicode

  datatype Relationship =
    | DerivedFrom | TrainedOn | FineTunedFrom | MergedFrom | QuantizedFrom | ExportedFrom | PackagedIn
    | SignedBy | BuiltBy | EvaluatedBy | DeployedTo | RevokedBy

  /** subject --relationship--> target; the other fields are opaque. */
  datatype Event = Event(subject: Text, relationship: Relationship, target: Text, details: Text)

  /** LINEAGE_RELATIONSHIPS */
  predicate IsLineage(e: Event) {
    e.relationship in {DerivedFrom, TrainedOn, FineTunedFrom, MergedFrom, QuantizedFrom, ExportedFrom, PackagedIn}
  }

  /** The other five relationships lead to no model a model is made from. */
  lemma LineageKinds(e: Event)
    ensures !IsLineage(e) <==>
      || e.relationship == SignedBy || e.relationship == BuiltBy || e.relationship == EvaluatedBy
      || e.relationship == DeployedTo || e.relationship == RevokedBy
  {
    match e.relationship
    case _ =>
  }

  /* -- the graph ------------------------------------------------------------------------ */

  ghost predicate Edge(events: seq<Event>, x: Text, y: Text) {
    exists e :: e in events && IsLineage(e) && e.subject == x && e.target == y
  }

  ghost predicate IsWalk(events: seq<Event>, p: seq<Text>) {
    p != [] && forall i :: 0 <= i < |p| - 1 ==> Edge(events, p[i], p[i + 1])
  }

  ghost predicate Joins(events: seq<Event>, p: seq<Text>, x: Text, y: Text) {
    IsWalk(events, p) && p[0] == x && p[|p| - 1] == y
  }

  /** A path of zero or more lineage edges from x to y. */
  ghost predicate Reaches(events: seq<Event>, x: Text, y: Text) {
    exists p :: Joins(events, p, x, y)
  }

  /** A path of one or more lineage edges from x to y: x is derived from y. */
  ghost predicate Derives(events: seq<Event>, x: Text, y: Text) {
    exists p :: Joins(events, p, x, y) && |p| >= 2
  }

  lemma ReachesSelf(events: seq<Event>, x: Text)
    ensures Reaches(events, x, x)
  {
    assert Joins(events, [x], x, x);
  }

  lemma ReachesThenEdge(events: seq<Event>, x: Text, y: Text, z: Text)
    requires Reaches(events, x, y) && Edge(events, y, z)
    ensures Reaches(events, x, z) && Derives(events, x, z)
  {
    var p :| Joins(events, p, x, y);
    var q := p + [z];
    forall i | 0 <= i < |q| - 1 ensures Edge(events, q[i], q[i + 1]) {
      if i < |p| - 1 { assert q[i] == p[i] && q[i + 1] == p[i + 1]; }
    }
    assert Joins(events, q, x, z);
  }

  lemma EdgeThenReaches(events: seq<Event>, x: Text, y: Text, z: Text)
    requires Edge(events, x, y) && Reaches(events, y, z)
    ensures Reaches(events, x, z) && Derives(events, x, z)
  {
    var p :| Joins(events, p, y, z);
    var q := [x] + p;
    forall i | 0 <= i < |q| - 1 ensures Edge(events, q[i], q[i + 1]) {
      if i > 0 { assert q[i] == p[i - 1] && q[i + 1] == p[i]; }
    }
    assert Joins(events, q, x, z);
  }

  lemma DerivesReaches(events: seq<Event>, x: Text, y: Text)
    ensures Derives(events, x, y) ==> Reaches(events, x, y)
    ensures Reaches(events, x, y) <==> x == y || Derives(events, x, y)
  {
    if Reaches(events, x, y) {
      var p :| Joins(events, p, x, y);
      assert |p| >= 2 || p == [x];
    }
    ReachesSelf(events, x);
  }

  /** A set that holds x and every target of an edge leaving it holds all x reaches. */
  lemma {:induction false} ForwardClosed(events: seq<Event>, s: set<Text>, p: seq<Text>)
    requires IsWalk(events, p) && p[0] in s
    requires forall x, y :: x in s && Edge(events, x, y) ==> y in s
    ensures p[|p| - 1] in s
  {
    if |p| > 1 {
      assert Edge(events, p[0], p[1]);
      assert IsWalk(events, p[1..]) by {
        forall i | 0 <= i < |p[1..]| - 1 ensures Edge(events, p[1..][i], p[1..][i + 1]) {
          assert Edge(events, p[i + 1], p[i + 2]);
        }
      }
      ForwardClosed(events, s, p[1..]);
    }
  }

  /** A set that holds every source of an edge into y or into the set holds the start of
      every walk of one or more edges to y. */
  lemma {:induction false} BackwardClosed(events: seq<Event>, s: set<Text>, y: Text, p: seq<Text>)
    requires IsWalk(events, p) && |p| >= 2 && p[|p| - 1] == y
    requires forall u, v :: (v == y || v in s) && Edge(events, u, v) ==> u in s
    ensures p[0] in s
  {
    assert Edge(events, p[0], p[1]);
    if |p| > 2 {
      assert IsWalk(events, p[1..]) by {
        forall i | 0 <= i < |p[1..]| - 1 ensures Edge(events, p[1..][i], p[1..][i + 1]) {
          assert Edge(events, p[i + 1], p[i + 2]);
        }
      }
      BackwardClosed(events, s, y, p[1..]);
    }
  }

  /* -- lineage ------------------------------------------------------------------------------ */

  /** The lineage events whose subject is in s, in log order. */
  function EventsFrom(events: seq<Event>, s: set<Text>): seq<Event> {
    if events == [] then []
    else
      var n := |events| - 1;
      EventsFrom(events[..n], s) + if IsLineage(events[n]) && events[n].subject in s then [events[n]] else []
  }

  /** Every lineage event whose subject the start reaches, each once, in log order. */
  ghost function Ancestry(graph: seq<Event>, events: seq<Event>, start: Text): seq<Event> {
    if events == [] then []
    else
      var n := |events| - 1;
      Ancestry(graph, events[..n], start)
      + if IsLineage(events[n]) && Reaches(graph, start, events[n].subject) then [events[n]] else []
  }

  lemma {:induction false} EventsFromAdd(events: seq<Event>, s: set<Text>, x: Text)
    requires x !in s
    ensures multiset(EventsFrom(events, s + {x})) == multiset(EventsFrom(events, s)) + multiset(EventsFrom(events, {x}))
  {
    if events != [] {
      EventsFromAdd(events[..|events| - 1], s, x);
    }
  }

  lemma {:induction false} EventsFromMembers(events: seq<Event>, s: set<Text>)
    ensures forall e :: e in EventsFrom(events, s) <==> e in events && IsLineage(e) && e.subject in s
  {
    if events != [] {
      var n := |events| - 1;
      EventsFromMembers(events[..n], s);
      assert events == events[..n] + [events[n]];
    }
  }

  lemma {:induction false} EventsFromNone(events: seq<Event>)
    ensures EventsFrom(events, {}) == []
  {
    if events != [] { EventsFromNone(events[..|events| - 1]); }
  }

  lemma {:induction false} AncestryIs(graph: seq<Event>, events: seq<Event>, start: Text, s: set<Text>)
    requires forall x :: x in s <==> Reaches(graph, start, x)
    ensures Ancestry(graph, events, start) == EventsFrom(events, s)
  {
    if events != [] { AncestryIs(graph, events[..|events| - 1], start, s); }
  }

  function Nodes(events: seq<Event>): (r: set<Text>)
    ensures forall e :: e in events ==> e.subject in r && e.target in r
  {
    (set e | e in events :: e.subject) + (set e | e in events :: e.target)
  }

  lemma SmallerRest(u: set<Text>, v: set<Text>, x: Text)
    requires x in u && x !in v
    ensures |u - (v + {x})| < |u - v|
  {
    assert u - v == (u - (v + {x})) + {x};
  }

  ghost predicate NoRepeats(s: seq<Text>) {
    forall i, j :: 0 <= i < j < |s| ==> s[i] != s[j]
  }

  function Waiting(frontier: seq<Text>): set<Text> {
    set x | x in frontier
  }

  /** The frontier lists part of visited without repeats, and visited is reachable. */
  ghost predicate Frontier(events: seq<Event>, start: Text, visited: set<Text>, frontier: seq<Text>) {
    && start in visited && Waiting(frontier) <= visited && visited <= Nodes(events) + {start}
    && NoRepeats(frontier)
    && forall x :: x in visited ==> Reaches(events, start, x)
  }

  /** Every name visited and no longer waiting has had its parents visited. */
  ghost predicate Expanded(events: seq<Event>, done: set<Text>, visited: set<Text>) {
    forall x, y :: x in done && Edge(events, x, y) ==> y in visited
  }

  /** What holds between rounds: the events of the names no longer waiting are collected. */
  ghost predicate LineageSoFar(events: seq<Event>, start: Text, visited: set<Text>, frontier: seq<Text>, result: seq<Event>) {
    && Frontier(events, start, visited, frontier)
    && Expanded(events, visited - Waiting(frontier), visited)
    && multiset(result) == multiset(EventsFrom(events, visited - Waiting(frontier)))
  }

  /** Taking one name from the frontier: its events are collected next. */
  lemma TakeCurrent(events: seq<Event>, frontier: seq<Text>, visited: set<Text>, result: seq<Event>, start: Text)
    requires frontier != [] && LineageSoFar(events, start, visited, frontier, result)
    ensures var n := |frontier| - 1;
      && Frontier(events, start, visited, frontier[..n]) && Reaches(events, start, frontier[n])
      && visited - Waiting(frontier[..n]) == (visited - Waiting(frontier)) + {frontier[n]}
      && multiset(result + EventsFrom(events, {frontier[n]}))
         == multiset(EventsFrom(events, visited - Waiting(frontier[..n])))
  {
    hide Reaches, Expanded, EventsFrom;
    var n := |frontier| - 1;
    var current := frontier[n];
    assert frontier == frontier[..n] + [current];
    assert Waiting(frontier) == Waiting(frontier[..n]) + {current};
    assert current in visited by { assert current in frontier; }
    EventsFromAdd(events, visited - Waiting(frontier), current);
  }

  lemma VisitOne(events: seq<Event>, start: Text, current: Text, edge: Event, visited: set<Text>, frontier: seq<Text>)
    requires Frontier(events, start, visited, frontier) && Reaches(events, start, current)
    requires edge in events && IsLineage(edge) && edge.subject == current && edge.target !in visited
    ensures Frontier(events, start, visited + {edge.target}, frontier + [edge.target])
    ensures (visited + {edge.target}) - Waiting(frontier + [edge.target]) == visited - Waiting(frontier)
    ensures |(Nodes(events) + {start}) - (visited + {edge.target})| < |(Nodes(events) + {start}) - visited|
  {
    hide Reaches, IsLineage, NoRepeats, Waiting, Nodes;
    AddTarget(events, start, current, edge);
    SmallerRest(Nodes(events) + {start}, visited, edge.target);
    FrontierGrows(frontier, visited, edge.target);
  }

  /** The inner loop of lineage: visits the targets of the current name's events. */
  method VisitParents(events: seq<Event>, ghost start: Text, ghost current: Text, parents: seq<Event>,
                      visited: set<Text>, frontier: seq<Text>)
    returns (visited': set<Text>, frontier': seq<Text>)
    requires Frontier(events, start, visited, frontier) && Reaches(events, start, current)
    requires forall e :: e in parents ==> e in events && IsLineage(e) && e.subject == current
    ensures Frontier(events, start, visited', frontier') && visited <= visited'
    ensures visited' - Waiting(frontier') == visited - Waiting(frontier)
    ensures forall k :: 0 <= k < |parents| ==> parents[k].target in visited'
    ensures (visited' == visited && frontier' == frontier)
      || |(Nodes(events) + {start}) - visited'| < |(Nodes(events) + {start}) - visited|
  {
    hide *;
    visited', frontier' := visited, frontier;
    ghost var universe := Nodes(events) + {start};
    for i := 0 to |parents|
      invariant Frontier(events, start, visited', frontier') && visited <= visited'
      invariant visited' - Waiting(frontier') == visited - Waiting(frontier)
      invariant forall k :: 0 <= k < i ==> parents[k].target in visited'
      invariant (visited' == visited && frontier' == frontier) || |universe - visited'| < |universe - visited|
    {
      var edge := parents[i];
      assert edge in parents;
      if edge.target !in visited' {
        VisitOne(events, start, current, edge, visited', frontier');
        visited' := visited' + {edge.target};
        frontier' := frontier' + [edge.target];
      }
    }
  }

  /** lineage: terminates on every event list and returns, as a multiset, exactly the
      lineage events whose subject the start reaches. */
  method Lineage(events: seq<Event>, start: Text) returns (result: seq<Event>)
    ensures multiset(result) == multiset(Ancestry(events, events, start))
  {
    hide Reaches, Ancestry, EventsFrom, IsLineage, Frontier, Expanded;
    var visited := {start};
    var frontier := [start];
    result := [];
    LineageStart(events, start);
    while frontier != []
      invariant LineageSoFar(events, start, visited, frontier, result)
      decreases |(Nodes(events) + {start}) - visited|, |frontier|
    {
      var n := |frontier| - 1;
      var current := frontier[n];
      TakeCurrent(events, frontier, visited, result, start);
      ghost var done, seen := visited - Waiting(frontier), visited;
      var parents := EventsFrom(events, {current});
      EventsFromMembers(events, {current});
      visited, frontier := VisitParents(events, start, current, parents, visited, frontier[..n]);
      result := result + parents;
      ExpandedMore(events, done, seen, visited, current, parents);
    }
    Completed(events, start, visited, result);
  }

  lemma ExpandedMore(events: seq<Event>, done: set<Text>, seen: set<Text>, visited: set<Text>, current: Text, parents: seq<Event>)
    requires Expanded(events, done, seen) && seen <= visited
    requires forall e :: e in parents <==> e in events && IsLineage(e) && e.subject in {current}
    requires forall k :: 0 <= k < |parents| ==> parents[k].target in visited
    ensures Expanded(events, done + {current}, visited)
  {
    hide Edge, IsLineage;
    forall x, y | x in done + {current} && Edge(events, x, y) ensures y in visited {
      if x == current { EdgeIsListed(events, current, y, parents); }
    }
  }

  lemma LineageStart(events: seq<Event>, start: Text)
    ensures LineageSoFar(events, start, {start}, [start], [])
  {
    ReachesSelf(events, start);
    EventsFromNone(events);
    assert {start} - Waiting([start]) == {};
  }

  lemma AddTarget(events: seq<Event>, start: Text, current: Text, edge: Event)
    requires Reaches(events, start, current) && edge in events && IsLineage(edge) && edge.subject == current
    ensures Reaches(events, start, edge.target) && edge.target in Nodes(events)
  {
    assert Edge(events, current, edge.target);
    ReachesThenEdge(events, start, current, edge.target);
  }

  lemma FrontierGrows(frontier: seq<Text>, visited: set<Text>, x: Text)
    requires Waiting(frontier) <= visited && x !in visited && NoRepeats(frontier)
    ensures NoRepeats(frontier + [x])
    ensures Waiting(frontier + [x]) == Waiting(frontier) + {x}
    ensures (visited + {x}) - Waiting(frontier + [x]) == visited - Waiting(frontier)
  {
    forall i | 0 <= i < |frontier| ensures frontier[i] != x {
      assert frontier[i] in frontier;
      assert frontier[i] in Waiting(frontier);
    }
  }

  lemma EdgeIsListed(events: seq<Event>, x: Text, y: Text, parents: seq<Event>)
    requires Edge(events, x, y) && forall e :: e in parents <==> e in events && IsLineage(e) && e.subject in {x}
    ensures exists k :: 0 <= k < |parents| && parents[k].target == y
  {
    var e :| e in events && IsLineage(e) && e.subject == x && e.target == y;
    assert e in parents;
  }

  lemma Completed(events: seq<Event>, start: Text, visited: set<Text>, result: seq<Event>)
    requires LineageSoFar(events, start, visited, [], result)
    ensures multiset(result) == multiset(Ancestry(events, events, start))
  {
    hide Edge, EventsFrom;
    assert visited - Waiting([]) == visited;
    forall x ensures x in visited <==> Reaches(events, start, x) {
      if Reaches(events, start, x) {
        var p :| Joins(events, p, start, x);
        ForwardClosed(events, visited, p);
      }
    }
    AncestryIs(events, events, start, visited);
  }

  /* -- derived models ------------------------------------------------------------------------- */

  /** The lineage events with this target. */
  function EventsInto(events: seq<Event>, y: Text): seq<Event> {
    if events == [] then []
    else
      var n := |events| - 1;
      EventsInto(events[..n], y) + if IsLineage(events[n]) && events[n].target == y then [events[n]] else []
  }

  lemma {:induction false} EventsIntoMembers(events: seq<Event>, y: Text)
    ensures forall e :: e in EventsInto(events, y) <==> e in events && IsLineage(e) && e.target == y
  {
    if events != [] {
      var n := |events| - 1;
      EventsIntoMembers(events[..n], y);
      assert events == events[..n] + [events[n]];
    }
  }

  /** Everything visited is derived from the base, and everything visited or the base
      itself is done or waiting. */
  ghost predicate Searching(events: seq<Event>, base: Text, visited: set<Text>, frontier: seq<Text>, done: set<Text>) {
    && visited <= Nodes(events)
    && (forall x :: x in visited ==> Derives(events, x, base))
    && (forall x :: x in frontier ==> x == base || x in visited)
    && (forall x :: x == base || x in visited ==> x in done || x in frontier)
  }

  /** Every source of an edge into a name that is done is visited. */
  ghost predicate Entered(events: seq<Event>, done: set<Text>, visited: set<Text>) {
    forall u, v :: v in done && Edge(events, u, v) ==> u in visited
  }

  lemma SearchingMore(events: seq<Event>, base: Text, visited: set<Text>, frontier: seq<Text>, done: set<Text>, x: Text)
    requires Searching(events, base, visited, frontier, done) && Derives(events, x, base) && x in Nodes(events)
    ensures Searching(events, base, visited + {x}, frontier + [x], done)
  {
    hide Derives;
    assert (frontier + [x])[|frontier|] == x;
  }

  lemma SearchingTake(events: seq<Event>, base: Text, visited: set<Text>, frontier: seq<Text>, done: set<Text>)
    requires frontier != [] && Searching(events, base, visited, frontier, done)
    ensures var n := |frontier| - 1;
      Searching(events, base, visited, frontier[..n], done + {frontier[n]})
      && (frontier[n] == base || Derives(events, frontier[n], base))
  {
    hide Derives;
    var n := |frontier| - 1;
    assert frontier == frontier[..n] + [frontier[n]];
    assert frontier[n] in frontier;
  }

  /** The inner loop of find_models_derived_from: visits the subjects of the edges into
      the current name. */
  method VisitChildren(events: seq<Event>, ghost base: Text, ghost current: Text, children: seq<Event>,
                       visited: set<Text>, frontier: seq<Text>, ghost done: set<Text>)
    returns (visited': set<Text>, frontier': seq<Text>)
    requires Searching(events, base, visited, frontier, done)
    requires current == base || Derives(events, current, base)
    requires forall e :: e in children ==> e in events && IsLineage(e) && e.target == current
    ensures Searching(events, base, visited', frontier', done) && visited <= visited'
    ensures forall k :: 0 <= k < |children| ==> children[k].subject in visited'
    ensures (visited' == visited && frontier' == frontier)
      || |Nodes(events) - visited'| < |Nodes(events) - visited|
  {
    hide *;
    visited', frontier' := visited, frontier;
    for i := 0 to |children|
      invariant Searching(events, base, visited', frontier', done) && visited <= visited'
      invariant forall k :: 0 <= k < i ==> children[k].subject in visited'
      invariant (visited' == visited && frontier' == frontier) || |Nodes(events) - visited'| < |Nodes(events) - visited|
    {
      var edge := children[i];
      assert edge in children;
      if edge.subject !in visited' {
        AddSubject(events, base, current, edge);
        SmallerRest(Nodes(events), visited', edge.subject);
        SearchingMore(events, base, visited', frontier', done, edge.subject);
        visited' := visited' + {edge.subject};
        frontier' := frontier' + [edge.subject];
      }
    }
  }

  /** find_models_derived_from: terminates on every event list, cyclic or not, and returns
      in order exactly the ids with a path of one or more lineage edges to the base. */
  method FindModelsDerivedFrom(events: seq<Event>, base: Text) returns (result: seq<Text>)
    ensures StrictlySorted(result)
    ensures forall x :: x in result <==> Derives(events, x, base)
  {
    hide Derives, EventsInto, IsLineage, Searching, Entered;
    var visited: set<Text> := {};
    var frontier := [base];
    ghost var done: set<Text> := {};
    SearchStart(events, base);
    while frontier != []
      invariant Searching(events, base, visited, frontier, done) && Entered(events, done, visited)
      decreases |Nodes(events) - visited|, |frontier|
    {
      var n := |frontier| - 1;
      var current := frontier[n];
      SearchingTake(events, base, visited, frontier, done);
      ghost var seen, finished := visited, done;
      done := done + {current};
      var children := EventsInto(events, current);
      EventsIntoMembers(events, current);
      visited, frontier := VisitChildren(events, base, current, children, visited, frontier[..n], done);
      EnteredMore(events, finished, seen, visited, current, children);
    }
    SearchEnd(events, base, visited, done);
    return Sort(visited);
  }

  lemma SearchStart(events: seq<Event>, base: Text)
    ensures Searching(events, base, {}, [base], {}) && Entered(events, {}, {})
  {
  }

  lemma EnteredMore(events: seq<Event>, done: set<Text>, seen: set<Text>, visited: set<Text>, current: Text, children: seq<Event>)
    requires Entered(events, done, seen) && seen <= visited
    requires forall e :: e in children <==> e in events && IsLineage(e) && e.target == current
    requires forall k :: 0 <= k < |children| ==> children[k].subject in visited
    ensures Entered(events, done + {current}, visited)
  {
    hide Edge, IsLineage;
    forall u, v | v in done + {current} && Edge(events, u, v) ensures u in visited {
      if v == current { SourceIsListed(events, u, current, children); }
    }
  }

  lemma SearchEnd(events: seq<Event>, base: Text, visited: set<Text>, done: set<Text>)
    requires Searching(events, base, visited, [], done) && Entered(events, done, visited)
    ensures forall x :: x in visited <==> Derives(events, x, base)
  {
    hide Edge;
    forall x | Derives(events, x, base) ensures x in visited {
      var p :| Joins(events, p, x, base) && |p| >= 2;
      BackwardClosed(events, visited, base, p);
    }
  }

  lemma AddSubject(events: seq<Event>, base: Text, current: Text, edge: Event)
    requires current == base || Derives(events, current, base)
    requires edge in events && IsLineage(edge) && edge.target == current
    ensures Derives(events, edge.subject, base) && edge.subject in Nodes(events)
  {
    DerivesReaches(events, current, base);
    assert Edge(events, edge.subject, current);
    EdgeThenReaches(events, edge.subject, current, base);
  }

  lemma SourceIsListed(events: seq<Event>, u: Text, v: Text, children: seq<Event>)
    requires Edge(events, u, v) && forall e :: e in children <==> e in events && IsLineage(e) && e.target == v
    ensures exists k :: 0 <= k < |children| && children[k].subject == u
  {
    var e :| e in events && IsLineage(e) && e.subject == u && e.target == v;
    assert e in children;
  }

  /* -- deployments ------------------------------------------------------------------------------- */

  /** The subject has a path of zero or more lineage edges to a revoked id. */
  ghost predicate Tainted(events: seq<Event>, revoked: set<Text>, x: Text) {
    exists r :: r in revoked && Reaches(events, x, r)
  }

  /** The deployments of tainted subjects, in log order. */
  ghost function TaintedDeployments(graph: seq<Event>, events: seq<Event>, revoked: set<Text>): seq<Event> {
    if events == [] then []
    else
      var n := |events| - 1;
      TaintedDeployments(graph, events[..n], revoked)
      + if events[n].relationship == DeployedTo && Tainted(graph, revoked, events[n].subject) then [events[n]] else []
  }

  /** What is returned: the events of the log that deploy a subject which is revoked itself or
      derived from a revoked id, in log order and as often as they occur. */
  lemma {:induction false} TaintedMembers(graph: seq<Event>, events: seq<Event>, revoked: set<Text>)
    ensures forall e :: multiset(TaintedDeployments(graph, events, revoked))[e] ==
              if e.relationship == DeployedTo && (e.subject in revoked || exists r :: r in revoked && Derives(graph, e.subject, r))
              then multiset(events)[e] else 0
  {
    hide Derives, Reaches;
    if events != [] {
      var n := |events| - 1;
      TaintedMembers(graph, events[..n], revoked);
      assert events == events[..n] + [events[n]];
      TaintedIs(graph, revoked, events[n].subject);
    }
  }

  lemma TaintedIs(events: seq<Event>, revoked: set<Text>, x: Text)
    ensures Tainted(events, revoked, x) <==> x in revoked || exists r :: r in revoked && Derives(events, x, r)
  {
    hide Derives, Reaches;
    forall r ensures Reaches(events, x, r) <==> x == r || Derives(events, x, r) {
      DerivesReaches(events, x, r);
    }
  }

  /** find_deployments_using_revoked_model */
  method FindDeploymentsUsingRevokedModel(events: seq<Event>, revoked: set<Text>) returns (result: seq<Event>)
    ensures result == TaintedDeployments(events, events, revoked)
    ensures forall e :: e in result <==>
      && e in events && e.relationship == DeployedTo
      && (e.subject in revoked || exists r :: r in revoked && Derives(events, e.subject, r))
  {
    hide Reaches, Derives;
    var affected := revoked;
    var pending := revoked;
    while pending != {}
      invariant pending <= revoked
      invariant forall x :: x in affected <==>
        x in revoked || exists r :: r in revoked && r !in pending && Derives(events, x, r)
      decreases pending
    {
      var id :| id in pending;
      pending := pending - {id};
      var derived := FindModelsDerivedFrom(events, id);
      affected := affected + set x | x in derived;
    }
    forall x ensures x in affected <==> Tainted(events, revoked, x) {
      TaintedIs(events, revoked, x);
    }
    result := [];
    for i := 0 to |events|
      invariant result == TaintedDeployments(events, events[..i], revoked)
    {
      assert events[..i + 1][..i] == events[..i];
      if events[i].relationship == DeployedTo && events[i].subject in affected {
        result := result + [events[i]];
      }
    }
    assert events[..|events|] == events;
    TaintedListed(events, revoked);
  }

  lemma TaintedListed(events: seq<Event>, revoked: set<Text>)
    ensures forall e :: e in TaintedDeployments(events, events, revoked) <==>
      && e in events && e.relationship == DeployedTo
      && (e.subject in revoked || exists r :: r in revoked && Derives(events, e.subject, r))
  {
    hide Derives, TaintedDeployments;
    TaintedMembers(events, events, revoked);
    forall e ensures e in TaintedDeployments(events, events, revoked) <==>
      && e in events && e.relationship == DeployedTo
      && (e.subject in revoked || exists r :: r in revoked && Derives(events, e.subject, r))
    {
      assert e in TaintedDeployments(events, events, revoked) <==> multiset(TaintedDeployments(events, events, revoked))[e] > 0;
      assert e in events <==> multiset(events)[e] > 0;
    }
  }

  /* -- the two directions agree ------------------------------------------------------------------- */

  lemma {:induction false} AncestryMembers(graph: seq<Event>, events: seq<Event>, start: Text)
    ensures forall e :: e in Ancestry(graph, events, start) <==>
      e in events && IsLineage(e) && Reaches(graph, start, e.subject)
  {
    if events != [] {
      var n := |events| - 1;
      AncestryMembers(graph, events[..n], start);
      assert events == events[..n] + [events[n]];
    }
  }

  /** x is derived from b exactly when some event of x's lineage has b as its target. */
  lemma DerivedIffInLineage(events: seq<Event>, x: Text, b: Text)
    ensures Derives(events, x, b) <==> exists e :: e in Ancestry(events, events, x) && e.target == b
  {
    AncestryMembers(events, events, x);
    if Derives(events, x, b) {
      var p :| Joins(events, p, x, b) && |p| >= 2;
      var n := |p| - 2;
      assert Edge(events, p[n], p[n + 1]);
      var e :| e in events && IsLineage(e) && e.subject == p[n] && e.target == p[n + 1];
      assert Joins(events, p[..n + 1], x, e.subject) by {
        var q := p[..n + 1];
        forall i | 0 <= i < n ensures Edge(events, q[i], q[i + 1]) {
          assert Edge(events, p[i], p[i + 1]);
        }
      }
      assert e in Ancestry(events, events, x);
    }
    if e :| e in Ancestry(events, events, x) && e.target == b {
      assert Edge(events, e.subject, b);
      ReachesThenEdge(events, x, e.subject, b);
    }
  }
}
