/** The story-graph runtime of story.py: a directed graph of named story nodes, each with an
    ordered list of actions, a list of run-conditions and a dynamic-event table; a `current`
    pointer; a `visited` set that only grows; and a flat context map merged in place.

    The graph is owned here (a node table and an edge map) instead of being inherited from a
    graph library. Run-conditions are callables in the source; here each is named, and the truth
    of each call is supplied by the caller as `holds`. The multinomial draw of `_select` is
    supplied as `pick`, the index of the outcome it lands on. */
module StoryGraph {
  import opened Wrappers
  import opened PyText
  import opened NestedDict

  type NodeId = string

  /** A node action as `add_say`, `add_listen` and `add_play` record it. */
  datatype Action = Say(message: Option<string>) | Listen | Play(filename: Option<string>)

  /** A run-condition: a zero-argument callable, and the fail function, if any, that
      `add_run_condition` wraps around it (called when the condition returns false). */
  datatype Condition = Condition(name: string, failFunc: Option<string>)

  /** What `add_run_condition` is handed as a condition or fail function. */
  datatype Argument = Callable(name: string) | NotCallable

  /** The attributes of a node. A node that only `add_edge` created has an empty attribute
      dict (`Bare`): reading its actions, run-conditions or dynamic events raises KeyError. */
  datatype NodeData =
    | Bare
    | Attrs(actions: seq<Action>, runConditions: seq<Condition>, dynamicEvents: seq<(NodeId, real)>)

  /** The attributes `add_node` gives a node: fresh and empty. */
  const FreshAttrs: NodeData := Attrs([], [], [])

  /** The data dict of an edge. */
  type EdgeAttrs = map<string, Value>

  /** An element of an edge list: a 2-tuple (`data == None`) or a 3-tuple with a data dict. */
  datatype Edge = Edge(u: NodeId, v: NodeId, data: Option<EdgeAttrs>)

  const RephraseMessage := "I'm sorry, " + "I don't understand what you mean. Could you rephrase?"

  /** Python truthiness of an optional node name. */
  predicate Named(n: Option<NodeId>) {
    n.Some? && n.value != ""
  }

  // ------------------------------------------------------------ run-conditions

  /** The outcome of checking a list of conditions: the verdict, the conditions actually
      called (in order) and the fail functions that the wrappers called. */
  datatype Check = Check(ok: bool, evaluated: seq<Condition>, failCalls: seq<string>)

  /** The fail function the wrapper around `c` calls when `c` returned `result`. */
  function FailCalls(c: Condition, result: bool): seq<string> {
    if !result && c.failFunc.Some? then [c.failFunc.value] else []
  }

  /** Calling one wrapped condition. */
  function Call(c: Condition, holds: Condition -> bool): Check {
    Check(holds(c), [c], FailCalls(c, holds(c)))
  }

  /** The position of the first condition that does not hold, or `|l|` when all hold: the
      reference reading of a left-to-right conjunction. */
  function FirstFailure(l: seq<Condition>, holds: Condition -> bool): (k: nat)
    ensures k <= |l|
    ensures forall j :: 0 <= j < k ==> holds(l[j])
    ensures k < |l| ==> !holds(l[k])
  {
    if l == [] || !holds(l[0]) then 0 else 1 + FirstFailure(l[1..], holds)
  }

  /** `_check_conditions(l)`: true on an empty list, otherwise the left-to-right conjunction of
      the calls. The conditions called are those up to and including the first one that
      returns false, and only its fail function is called. */
  function CheckConditions(l: seq<Condition>, holds: Condition -> bool): (r: Check)
    ensures r.ok <==> forall i :: 0 <= i < |l| ==> holds(l[i])
    ensures r.ok <==> FirstFailure(l, holds) == |l|
    ensures r.evaluated == l[..if r.ok then |l| else FirstFailure(l, holds) + 1]
    ensures r.failCalls == if r.ok then [] else FailCalls(l[FirstFailure(l, holds)], false)
  {
    if l == [] then Check(true, [], [])
    else if |l| == 1 then Call(l[0], holds)
    else
      var first := Call(l[0], holds);
      if !first.ok then first
      else
        var rest := CheckConditions(l[1..], holds);
        var k := FirstFailure(l[1..], holds);
        assert FirstFailure(l, holds) == k + 1;
        assert rest.ok || l[1..][k] == l[k + 1];
        assert [l[0]] + l[1..][..|rest.evaluated|] == l[..|rest.evaluated| + 1];
        Check(rest.ok, [l[0]] + rest.evaluated, rest.failCalls)
  }

  // -------------------------------------------------------- dynamic events

  /** The sum of a list of probabilities, left to right. */
  function Sum(ps: seq<real>): real {
    if ps == [] then 0.0 else ps[0] + Sum(ps[1..])
  }

  lemma {:induction false} SumSnoc(ps: seq<real>, p: real)
    ensures Sum(ps + [p]) == Sum(ps) + p
  {
    if ps != [] {
      assert (ps + [p])[1..] == ps[1..] + [p];
      SumSnoc(ps[1..], p);
    }
  }

  /** The destinations of a dynamic-event table, in order. */
  function Destinations(events: seq<(NodeId, real)>): (r: seq<NodeId>)
    ensures |r| == |events| && forall i :: 0 <= i < |events| ==> r[i] == events[i].0
  {
    seq(|events|, i requires 0 <= i < |events| => events[i].0)
  }

  /** The probabilities of a dynamic-event table, in order. */
  function Probabilities(events: seq<(NodeId, real)>): (r: seq<real>)
    ensures |r| == |events| && forall i :: 0 <= i < |events| ==> r[i] == events[i].1
  {
    seq(|events|, i requires 0 <= i < |events| => events[i].1)
  }

  /** The categorical distribution `_select` samples from: outcomes and their weights. */
  datatype Outcomes = Outcomes(nodes: seq<NodeId>, weights: seq<real>)

  /** The outcome list `_select` builds for `node`: the event destinations, and `node` itself
      holding the residual probability when the explicit probabilities sum to less than 1. */
  function OutcomesOf(node: NodeId, events: seq<(NodeId, real)>): (o: Outcomes)
    ensures |o.nodes| == |o.weights| == |events| + (if Sum(Probabilities(events)) < 1.0 then 1 else 0)
    ensures o.nodes[..|events|] == Destinations(events) && o.weights[..|events|] == Probabilities(events)
    ensures Sum(Probabilities(events)) < 1.0 ==> o.nodes == Destinations(events) + [node]
    ensures Sum(Probabilities(events)) >= 1.0 ==> o.nodes == Destinations(events)
    ensures Sum(o.weights) == if Sum(Probabilities(events)) < 1.0 then 1.0 else Sum(Probabilities(events))
  {
    var nodes, probs := Destinations(events), Probabilities(events);
    if Sum(probs) < 1.0 then
      SumSnoc(probs, 1.0 - Sum(probs));
      Outcomes(nodes + [node], probs + [1.0 - Sum(probs)])
    else
      Outcomes(nodes, probs)
  }

  /** The weights numpy's `multinomial` samples with: every outcome but the last keeps its
      weight, and the last one gets what the others leave of 1. */
  function DrawWeights(o: Outcomes): (w: seq<real>)
    requires |o.weights| >= 1
    ensures |w| == |o.weights|
    ensures w[..|w| - 1] == o.weights[..|o.weights| - 1]
    ensures Sum(w) == 1.0
  {
    var init := o.weights[..|o.weights| - 1];
    SumSnoc(init, 1.0 - Sum(init));
    init + [1.0 - Sum(init)]
  }

  /** The message of the ValueError `multinomial` raises. */
  const OverfullMessage := "sum(pvals" + "[:-1]) > 1.0"

  /** `multinomial` raises ValueError when the weights of all outcomes but the last exceed 1. */
  predicate Overfull(o: Outcomes)
    requires |o.weights| >= 1
  {
    Sum(o.weights[..|o.weights| - 1]) > 1.0
  }

  /** What the multinomial draw guarantees: it lands on an outcome of positive weight. */
  predicate ValidDraw(o: Outcomes, pick: nat)
    requires |o.weights| >= 1
  {
    pick < |o.nodes| && pick < |o.weights| && DrawWeights(o)[pick] > 0.0
  }

  /** When the node takes up the residual probability, the sampler accepts the outcome list and
      draws with exactly the weights `_select` lists. */
  lemma ResidualDrawWeights(node: NodeId, events: seq<(NodeId, real)>)
    requires Sum(Probabilities(events)) < 1.0
    ensures !Overfull(OutcomesOf(node, events))
    ensures DrawWeights(OutcomesOf(node, events)) == OutcomesOf(node, events).weights
  {
    var o := OutcomesOf(node, events);
    var n := |events|;
    assert o.weights == o.weights[..n] + [o.weights[n]];
    SumSnoc(o.weights[..n], o.weights[n]);
  }

  /** `events.get(d)`: the probability the table gives destination `d`, if any. */
  function EventProbability(events: seq<(NodeId, real)>, d: NodeId): (r: Option<real>)
    ensures r.None? <==> d !in Destinations(events)
    ensures r.Some? ==> exists i :: 0 <= i < |events| && events[i] == (d, r.value)
  {
    if events == [] then None
    else
      assert Destinations(events) == [events[0].0] + Destinations(events[1..]);
      if events[0].0 == d then Some(events[0].1)
      else
        var r := EventProbability(events[1..], d);
        if r.Some? then
          ghost var i :| 0 <= i < |events| - 1 && events[1..][i] == (d, r.value);
          assert events[i + 1] == (d, r.value);
          r
        else r
  }

  lemma DestinationsCons(x: (NodeId, real), events: seq<(NodeId, real)>)
    ensures Destinations([x] + events) == [x.0] + Destinations(events)
  {
  }

  lemma EventProbabilityCons(x: (NodeId, real), events: seq<(NodeId, real)>, d: NodeId)
    ensures EventProbability([x] + events, d) == if x.0 == d then Some(x.1) else EventProbability(events, d)
  {
    assert ([x] + events)[1..] == events;
  }

  /** Python dict item assignment `events[dest] = p`. A Python 2 dict has no defined order;
      the model fixes one, with an existing entry for `dest` keeping its place and a new one
      going last. The order only decides which `pick` names which outcome. */
  function PutEvent(events: seq<(NodeId, real)>, dest: NodeId, p: real): (r: seq<(NodeId, real)>)
    ensures dest in Destinations(events) ==> Destinations(r) == Destinations(events)
    ensures dest !in Destinations(events) ==> Destinations(r) == Destinations(events) + [dest]
  {
    if events == [] then [(dest, p)]
    else
      var x, tail := events[0], events[1..];
      assert events == [x] + tail;
      DestinationsCons(x, tail);
      var rest := if x.0 == dest && dest !in Destinations(tail) then tail else PutEvent(tail, dest, p);
      var head := if x.0 == dest then (dest, p) else x;
      DestinationsCons(head, rest);
      [head] + rest
  }

  /** After `events[dest] = p` the table gives `dest` the probability `p` and every other
      destination what it gave before. */
  lemma {:induction false} PutEventLookup(events: seq<(NodeId, real)>, dest: NodeId, p: real, d: NodeId)
    ensures EventProbability(PutEvent(events, dest, p), d) == if d == dest then Some(p) else EventProbability(events, d)
  {
    if events != [] {
      var x, tail := events[0], events[1..];
      assert events == [x] + tail;
      var rest := if x.0 == dest && dest !in Destinations(tail) then tail else PutEvent(tail, dest, p);
      var head := if x.0 == dest then (dest, p) else x;
      assert PutEvent(events, dest, p) == [head] + rest;
      EventProbabilityCons(head, rest, d);
      EventProbabilityCons(x, tail, d);
      if !(x.0 == dest && dest !in Destinations(tail)) {
        PutEventLookup(tail, dest, p, d);
      } else if d == dest {
        assert EventProbability(tail, d).None?;
      }
    }
  }

  // --------------------------------------------------------------------- edges

  /** `g.add_node` as `add_edge` does it: an absent endpoint becomes a bare node. */
  function WithNode(nodes: map<NodeId, NodeData>, n: NodeId): (r: map<NodeId, NodeData>)
    ensures r.Keys == nodes.Keys + {n}
    ensures forall m :: m in nodes ==> r[m] == nodes[m]
    ensures n !in nodes ==> r[n] == Bare
  {
    if n in nodes then nodes else nodes[n := Bare]
  }

  /** The data an edge list element contributes: the call's keyword data, then its own dict. */
  function EdgeData(e: Edge, attrs: EdgeAttrs): EdgeAttrs {
    attrs + (if e.data.Some? then e.data.value else map[])
  }

  /** Every key of `part` is in `data` with the value `part` gives it. */
  predicate Carries(data: EdgeAttrs, part: EdgeAttrs) {
    forall key :: key in part ==> key in data && data[key] == part[key]
  }

  /** The edge map after `(u, v)` receives `extra`, merged into any existing data dict as
      `dict.update` does: the keys of `extra` take its values, the other keys keep theirs. */
  function AddEdgeData(edges: map<(NodeId, NodeId), EdgeAttrs>, u: NodeId, v: NodeId, extra: EdgeAttrs)
    : (r: map<(NodeId, NodeId), EdgeAttrs>)
    ensures r.Keys == edges.Keys + {(u, v)}
    ensures forall p :: p in edges ==> edges[p].Keys <= r[p].Keys
    ensures extra.Keys <= r[(u, v)].Keys
    ensures r[(u, v)].Keys == (if (u, v) in edges then edges[(u, v)].Keys else {}) + extra.Keys
    ensures Carries(r[(u, v)], extra)
    ensures (u, v) in edges ==> forall key :: key in edges[(u, v)] && key !in extra ==> r[(u, v)][key] == edges[(u, v)][key]
    ensures forall p :: p in edges && p != (u, v) ==> r[p] == edges[p]
  {
    edges[(u, v) := (if (u, v) in edges then edges[(u, v)] else map[]) + extra]
  }

  /** The edge map after adding an edge list in order. */
  function AddEdges(edges: map<(NodeId, NodeId), EdgeAttrs>, ebunch: seq<Edge>, attrs: EdgeAttrs)
    : map<(NodeId, NodeId), EdgeAttrs>
    decreases |ebunch|
  {
    if ebunch == [] then edges
    else
      var e := ebunch[|ebunch| - 1];
      AddEdgeData(AddEdges(edges, ebunch[..|ebunch| - 1], attrs), e.u, e.v, EdgeData(e, attrs))
  }

  /** The node table after adding the endpoints of an edge list in order. */
  function AddEndpoints(nodes: map<NodeId, NodeData>, ebunch: seq<Edge>): map<NodeId, NodeData>
    decreases |ebunch|
  {
    if ebunch == [] then nodes
    else
      var e := ebunch[|ebunch| - 1];
      WithNode(WithNode(AddEndpoints(nodes, ebunch[..|ebunch| - 1]), e.u), e.v)
  }

  /** The node pairs an edge list names. */
  function Pairs(ebunch: seq<Edge>): set<(NodeId, NodeId)> {
    set i | 0 <= i < |ebunch| :: (ebunch[i].u, ebunch[i].v)
  }

  /** The endpoints an edge list names. */
  function Endpoints(ebunch: seq<Edge>): set<NodeId> {
    (set i | 0 <= i < |ebunch| :: ebunch[i].u) + (set i | 0 <= i < |ebunch| :: ebunch[i].v)
  }

  /** An edge list element with its endpoints swapped and its data dict carried over. */
  function Reversed(e: Edge): Edge {
    Edge(e.v, e.u, e.data)
  }

  /** The reversed list `add_undirected_edges_from` builds. */
  function ReversedEdges(ebunch: seq<Edge>): (r: seq<Edge>)
    ensures |r| == |ebunch| && forall i :: 0 <= i < |ebunch| ==> r[i] == Reversed(ebunch[i])
  {
    seq(|ebunch|, i requires 0 <= i < |ebunch| => Reversed(ebunch[i]))
  }

  /** The edge map after adding an edge list and then its reversal. */
  function AddUndirected(edges: map<(NodeId, NodeId), EdgeAttrs>, ebunch: seq<Edge>, attrs: EdgeAttrs)
    : map<(NodeId, NodeId), EdgeAttrs>
  {
    AddEdges(AddEdges(edges, ebunch, attrs), ReversedEdges(ebunch), attrs)
  }

  /** The pairs of a set of edges, each turned around. */
  function Flip(keys: set<(NodeId, NodeId)>): set<(NodeId, NodeId)> {
    set p | p in keys :: (p.1, p.0)
  }

  /** Every edge has its reverse. */
  ghost predicate Symmetric(keys: set<(NodeId, NodeId)>) {
    forall p :: p in keys ==> (p.1, p.0) in keys
  }

  lemma PairsSnoc(ebunch: seq<Edge>)
    requires ebunch != []
    ensures Pairs(ebunch) == Pairs(ebunch[..|ebunch| - 1]) + {(ebunch[|ebunch| - 1].u, ebunch[|ebunch| - 1].v)}
  {
    var init := ebunch[..|ebunch| - 1];
    forall p | p in Pairs(ebunch) ensures p in Pairs(init) + {(ebunch[|ebunch| - 1].u, ebunch[|ebunch| - 1].v)} {
      var i :| 0 <= i < |ebunch| && p == (ebunch[i].u, ebunch[i].v);
      if i < |init| { assert init[i] == ebunch[i]; }
    }
    forall p | p in Pairs(init) ensures p in Pairs(ebunch) {
      var i :| 0 <= i < |init| && p == (init[i].u, init[i].v);
      assert ebunch[i] == init[i];
    }
  }

  lemma EndpointsSnoc(ebunch: seq<Edge>)
    requires ebunch != []
    ensures Endpoints(ebunch) == Endpoints(ebunch[..|ebunch| - 1]) + {ebunch[|ebunch| - 1].u, ebunch[|ebunch| - 1].v}
  {
    var init := ebunch[..|ebunch| - 1];
    forall x | x in Endpoints(ebunch) ensures x in Endpoints(init) + {ebunch[|ebunch| - 1].u, ebunch[|ebunch| - 1].v} {
      var i :| 0 <= i < |ebunch| && (x == ebunch[i].u || x == ebunch[i].v);
      if i < |init| { assert init[i] == ebunch[i]; }
    }
    forall x | x in Endpoints(init) ensures x in Endpoints(ebunch) {
      var i :| 0 <= i < |init| && (x == init[i].u || x == init[i].v);
      assert ebunch[i] == init[i];
    }
  }

  /** Adding an edge list adds exactly the pairs it names. */
  lemma {:induction false} AddEdgesKeys(edges: map<(NodeId, NodeId), EdgeAttrs>, ebunch: seq<Edge>, attrs: EdgeAttrs)
    ensures AddEdges(edges, ebunch, attrs).Keys == edges.Keys + Pairs(ebunch)
    decreases |ebunch|
  {
    if ebunch != [] {
      AddEdgesKeys(edges, ebunch[..|ebunch| - 1], attrs);
      PairsSnoc(ebunch);
    }
  }

  /** Adding an edge list never drops a data key of an existing edge. */
  lemma {:induction false} AddEdgesKeepsData(edges: map<(NodeId, NodeId), EdgeAttrs>, ebunch: seq<Edge>, attrs: EdgeAttrs,
                                             p: (NodeId, NodeId))
    requires p in edges
    ensures p in AddEdges(edges, ebunch, attrs) && edges[p].Keys <= AddEdges(edges, ebunch, attrs)[p].Keys
    decreases |ebunch|
  {
    if ebunch != [] {
      AddEdgesKeepsData(edges, ebunch[..|ebunch| - 1], attrs, p);
    }
  }

  /** No element of `ebunch` after the i-th names the i-th element's pair. */
  predicate LastNaming(ebunch: seq<Edge>, i: nat) {
    i < |ebunch| && forall j :: i < j < |ebunch| ==> (ebunch[j].u, ebunch[j].v) != (ebunch[i].u, ebunch[i].v)
  }

  /** After adding an edge list, each of its edges holds at least the keys of the call's data
      and of its own data dict; when no later element names the same pair, it holds their
      values too (the dict is updated in list order, so a later element's data wins). */
  lemma {:induction false} AddEdgesHasData(edges: map<(NodeId, NodeId), EdgeAttrs>, ebunch: seq<Edge>, attrs: EdgeAttrs,
                                           i: nat)
    requires i < |ebunch|
    ensures (ebunch[i].u, ebunch[i].v) in AddEdges(edges, ebunch, attrs)
    ensures EdgeData(ebunch[i], attrs).Keys <= AddEdges(edges, ebunch, attrs)[(ebunch[i].u, ebunch[i].v)].Keys
    ensures LastNaming(ebunch, i) ==>
              Carries(AddEdges(edges, ebunch, attrs)[(ebunch[i].u, ebunch[i].v)], EdgeData(ebunch[i], attrs))
    decreases |ebunch|
  {
    var init := ebunch[..|ebunch| - 1];
    if i < |init| {
      assert init[i] == ebunch[i];
      if LastNaming(ebunch, i) {
        forall j | i < j < |init| ensures (init[j].u, init[j].v) != (init[i].u, init[i].v) {
          assert init[j] == ebunch[j];
        }
      }
      AddEdgesHasData(edges, init, attrs, i);
    }
  }

  /** An edge no element of the list names keeps its data dict. */
  lemma {:induction false} AddEdgesUntouched(edges: map<(NodeId, NodeId), EdgeAttrs>, ebunch: seq<Edge>, attrs: EdgeAttrs,
                                             p: (NodeId, NodeId))
    requires p in edges
    requires forall j :: 0 <= j < |ebunch| ==> (ebunch[j].u, ebunch[j].v) != p
    ensures p in AddEdges(edges, ebunch, attrs) && AddEdges(edges, ebunch, attrs)[p] == edges[p]
    decreases |ebunch|
  {
    if ebunch != [] {
      var init := ebunch[..|ebunch| - 1];
      forall j | 0 <= j < |init| ensures (init[j].u, init[j].v) != p {
        assert init[j] == ebunch[j];
      }
      AddEdgesUntouched(edges, init, attrs, p);
    }
  }

  /** Adding an edge list adds exactly its endpoints, as bare nodes, and keeps every existing node. */
  lemma {:induction false} AddEndpointsKeys(nodes: map<NodeId, NodeData>, ebunch: seq<Edge>)
    ensures AddEndpoints(nodes, ebunch).Keys == nodes.Keys + Endpoints(ebunch)
    ensures forall m :: m in nodes ==> AddEndpoints(nodes, ebunch)[m] == nodes[m]
    ensures forall m :: m in AddEndpoints(nodes, ebunch) && m !in nodes ==> AddEndpoints(nodes, ebunch)[m] == Bare
    decreases |ebunch|
  {
    if ebunch != [] {
      AddEndpointsKeys(nodes, ebunch[..|ebunch| - 1]);
      EndpointsSnoc(ebunch);
    }
  }

  lemma PairsReversed(ebunch: seq<Edge>)
    ensures Pairs(ReversedEdges(ebunch)) == Flip(Pairs(ebunch))
  {
    var rev := ReversedEdges(ebunch);
    forall p | p in Pairs(rev) ensures p in Flip(Pairs(ebunch)) {
      var i :| 0 <= i < |rev| && p == (rev[i].u, rev[i].v);
      assert (ebunch[i].u, ebunch[i].v) in Pairs(ebunch);
    }
    forall p | p in Flip(Pairs(ebunch)) ensures p in Pairs(rev) {
      var q :| q in Pairs(ebunch) && p == (q.1, q.0);
      var i :| 0 <= i < |ebunch| && q == (ebunch[i].u, ebunch[i].v);
      assert p == (rev[i].u, rev[i].v);
    }
  }

  /** The edges `add_undirected_edges_from` adds are those of the list and their reversals. */
  lemma UndirectedKeys(edges: map<(NodeId, NodeId), EdgeAttrs>, ebunch: seq<Edge>, attrs: EdgeAttrs)
    ensures AddUndirected(edges, ebunch, attrs).Keys == edges.Keys + Pairs(ebunch) + Flip(Pairs(ebunch))
  {
    AddEdgesKeys(edges, ebunch, attrs);
    AddEdgesKeys(AddEdges(edges, ebunch, attrs), ReversedEdges(ebunch), attrs);
    PairsReversed(ebunch);
  }

  /** Adding a set of pairs and their reversals keeps a symmetric relation symmetric. */
  lemma FlipSymmetric(keys: set<(NodeId, NodeId)>, pairs: set<(NodeId, NodeId)>)
    requires Symmetric(keys)
    ensures Symmetric(keys + pairs + Flip(pairs))
  {
    forall p | p in keys + pairs + Flip(pairs) ensures (p.1, p.0) in keys + pairs + Flip(pairs) {
      if p in pairs {
        assert (p.1, p.0) in Flip(pairs);
      } else if p in Flip(pairs) {
        var q :| q in pairs && p == (q.1, q.0);
        assert (p.1, p.0) == q;
      }
    }
  }

  /** No other element of `ebunch` names the i-th element's pair or its reversal. */
  predicate Unshared(ebunch: seq<Edge>, i: nat) {
    i < |ebunch| &&
    forall j :: 0 <= j < |ebunch| && j != i ==>
      (ebunch[j].u, ebunch[j].v) != (ebunch[i].u, ebunch[i].v) && (ebunch[j].u, ebunch[j].v) != (ebunch[i].v, ebunch[i].u)
  }

  /** Both directions of the i-th edge exist and hold its data keys; when no other element
      names the edge in either direction, both hold its data values too. */
  lemma UndirectedData(edges: map<(NodeId, NodeId), EdgeAttrs>, ebunch: seq<Edge>, attrs: EdgeAttrs, i: nat)
    requires i < |ebunch|
    ensures (ebunch[i].u, ebunch[i].v) in AddUndirected(edges, ebunch, attrs)
    ensures (ebunch[i].v, ebunch[i].u) in AddUndirected(edges, ebunch, attrs)
    ensures EdgeData(ebunch[i], attrs).Keys <= AddUndirected(edges, ebunch, attrs)[(ebunch[i].u, ebunch[i].v)].Keys
    ensures EdgeData(ebunch[i], attrs).Keys <= AddUndirected(edges, ebunch, attrs)[(ebunch[i].v, ebunch[i].u)].Keys
    ensures Unshared(ebunch, i) ==>
              && Carries(AddUndirected(edges, ebunch, attrs)[(ebunch[i].u, ebunch[i].v)], EdgeData(ebunch[i], attrs))
              && Carries(AddUndirected(edges, ebunch, attrs)[(ebunch[i].v, ebunch[i].u)], EdgeData(ebunch[i], attrs))
  {
    var once := AddEdges(edges, ebunch, attrs);
    var rev := ReversedEdges(ebunch);
    var u, v := ebunch[i].u, ebunch[i].v;
    AddEdgesHasData(edges, ebunch, attrs, i);
    AddEdgesKeepsData(once, rev, attrs, (u, v));
    AddEdgesHasData(once, rev, attrs, i);
    assert EdgeData(rev[i], attrs) == EdgeData(ebunch[i], attrs);
    if Unshared(ebunch, i) {
      assert LastNaming(ebunch, i);
      assert LastNaming(rev, i) by {
        forall j | i < j < |rev| ensures (rev[j].u, rev[j].v) != (rev[i].u, rev[i].v) {
          assert (ebunch[j].u, ebunch[j].v) != (u, v);
        }
      }
      if u != v {
        forall j | 0 <= j < |rev| ensures (rev[j].u, rev[j].v) != (u, v) {
          if j != i {
            assert (ebunch[j].u, ebunch[j].v) != (v, u);
          }
        }
        AddEdgesUntouched(once, rev, attrs, (u, v));
      }
    }
  }

  /** `add_undirected_edges_from` adds each edge and its reverse: the new edges are those of the
      list and their reversals, a symmetric edge relation stays symmetric, and both directions
      of every edge carry the keys of that edge's data, and its values when no other element
      names the edge in either direction. */
  lemma UndirectedEdgesEffect(edges: map<(NodeId, NodeId), EdgeAttrs>, ebunch: seq<Edge>, attrs: EdgeAttrs)
    ensures AddUndirected(edges, ebunch, attrs).Keys == edges.Keys + Pairs(ebunch) + Flip(Pairs(ebunch))
    ensures Symmetric(edges.Keys) ==> Symmetric(AddUndirected(edges, ebunch, attrs).Keys)
    ensures forall i :: 0 <= i < |ebunch| ==>
              && (ebunch[i].u, ebunch[i].v) in AddUndirected(edges, ebunch, attrs)
              && (ebunch[i].v, ebunch[i].u) in AddUndirected(edges, ebunch, attrs)
              && EdgeData(ebunch[i], attrs).Keys <= AddUndirected(edges, ebunch, attrs)[(ebunch[i].u, ebunch[i].v)].Keys
              && EdgeData(ebunch[i], attrs).Keys <= AddUndirected(edges, ebunch, attrs)[(ebunch[i].v, ebunch[i].u)].Keys
    ensures forall i :: 0 <= i < |ebunch| && Unshared(ebunch, i) ==>
              && Carries(AddUndirected(edges, ebunch, attrs)[(ebunch[i].u, ebunch[i].v)], EdgeData(ebunch[i], attrs))
              && Carries(AddUndirected(edges, ebunch, attrs)[(ebunch[i].v, ebunch[i].u)], EdgeData(ebunch[i], attrs))
  {
    UndirectedKeys(edges, ebunch, attrs);
    if Symmetric(edges.Keys) {
      FlipSymmetric(edges.Keys, Pairs(ebunch));
    }
    forall i | 0 <= i < |ebunch|
      ensures && (ebunch[i].u, ebunch[i].v) in AddUndirected(edges, ebunch, attrs)
              && (ebunch[i].v, ebunch[i].u) in AddUndirected(edges, ebunch, attrs)
              && EdgeData(ebunch[i], attrs).Keys <= AddUndirected(edges, ebunch, attrs)[(ebunch[i].u, ebunch[i].v)].Keys
              && EdgeData(ebunch[i], attrs).Keys <= AddUndirected(edges, ebunch, attrs)[(ebunch[i].v, ebunch[i].u)].Keys
              && (Unshared(ebunch, i) ==>
                    && Carries(AddUndirected(edges, ebunch, attrs)[(ebunch[i].u, ebunch[i].v)], EdgeData(ebunch[i], attrs))
                    && Carries(AddUndirected(edges, ebunch, attrs)[(ebunch[i].v, ebunch[i].u)], EdgeData(ebunch[i], attrs)))
    {
      UndirectedData(edges, ebunch, attrs, i);
    }
  }

  /** A one-element edge list is one `add_edge`. */
  lemma SingletonEdges(nodes: map<NodeId, NodeData>, edges: map<(NodeId, NodeId), EdgeAttrs>,
                       u: NodeId, v: NodeId, attrs: EdgeAttrs)
    ensures AddEndpoints(nodes, [Edge(u, v, None)]) == WithNode(WithNode(nodes, u), v)
    ensures AddEdges(edges, [Edge(u, v, None)], attrs) == AddEdgeData(edges, u, v, attrs)
  {
    assert [Edge(u, v, None)][..0] == [];
    assert attrs + map[] == attrs;
  }

  /** One more element of an edge list is one more `add_edge`. */
  lemma AddEdgesPrefix(edges: map<(NodeId, NodeId), EdgeAttrs>, ebunch: seq<Edge>, attrs: EdgeAttrs, i: nat)
    requires i < |ebunch|
    ensures AddEdges(edges, ebunch[..i + 1], attrs)
            == AddEdgeData(AddEdges(edges, ebunch[..i], attrs), ebunch[i].u, ebunch[i].v, EdgeData(ebunch[i], attrs))
  {
    assert ebunch[..i + 1][..i] == ebunch[..i];
  }

  /** One more element of an edge list adds at most its two endpoints. */
  lemma AddEndpointsPrefix(nodes: map<NodeId, NodeData>, ebunch: seq<Edge>, i: nat)
    requires i < |ebunch|
    ensures AddEndpoints(nodes, ebunch[..i + 1]) == WithNode(WithNode(AddEndpoints(nodes, ebunch[..i]), ebunch[i].u), ebunch[i].v)
  {
    assert ebunch[..i + 1][..i] == ebunch[..i];
  }

  /** Appending to an edge list is adding the two parts one after the other. */
  lemma {:induction false} AddEdgesAppend(edges: map<(NodeId, NodeId), EdgeAttrs>, a: seq<Edge>, b: seq<Edge>, attrs: EdgeAttrs)
    ensures AddEdges(edges, a + b, attrs) == AddEdges(AddEdges(edges, a, attrs), b, attrs)
    decreases |b|
  {
    if b == [] {
      assert a + b == a;
    } else {
      assert (a + b)[..|a + b| - 1] == a + b[..|b| - 1];
      AddEdgesAppend(edges, a, b[..|b| - 1], attrs);
    }
  }

  /** `add_undirected_edges_from` has the effect of one `add_edges_from` of the list followed by
      its reversal. */
  lemma UndirectedAsOneList(edges: map<(NodeId, NodeId), EdgeAttrs>, ebunch: seq<Edge>, attrs: EdgeAttrs)
    ensures AddUndirected(edges, ebunch, attrs) == AddEdges(edges, ebunch + ReversedEdges(ebunch), attrs)
  {
    AddEdgesAppend(edges, ebunch, ReversedEdges(ebunch), attrs);
  }

  // --------------------------------------------------------------------- story

  /** One pass through the body of the `_get_next` loop, or what precedes the loop. */
  datatype StepResult =
    | NoCurrent                // no current node: `_get_next` returns None
    | Finished                 // the current node is a leaf
    | Chosen(node: NodeId)     // the input named a runnable neighbour; `_select` chose `node`
    | Emitted(message: string) // a message for the user; the loop asks again
    | Raised(error: Error)     // an exception escaped
    | Waiting                  // every input so far was rejected; the loop asks again

  /** Edges join nodes of the story; visited nodes are nodes of the story; a current node is
      named and visited. */
  ghost predicate Consistent(nodeData: map<NodeId, NodeData>, edges: map<(NodeId, NodeId), EdgeAttrs>,
                             visited: set<NodeId>, current: Option<NodeId>)
  {
    && (forall p :: p in edges ==> p.0 in nodeData && p.1 in nodeData)
    && visited <= nodeData.Keys
    && (current.Some? ==> current.value != "" && current.value in visited)
  }

  /** Adding one edge, with its endpoints, keeps the story consistent. */
  lemma AddEdgeConsistent(nodeData: map<NodeId, NodeData>, edges: map<(NodeId, NodeId), EdgeAttrs>,
                          visited: set<NodeId>, current: Option<NodeId>, u: NodeId, v: NodeId, extra: EdgeAttrs)
    requires Consistent(nodeData, edges, visited, current)
    ensures Consistent(WithNode(WithNode(nodeData, u), v), AddEdgeData(edges, u, v, extra), visited, current)
  {
  }

  class Story {
    var nodeData: map<NodeId, NodeData>
    var edges: map<(NodeId, NodeId), EdgeAttrs>
    var current: Option<NodeId>
    var visited: set<NodeId>
    var context: map<string, Value>
    var isFinished: bool

    /** Edges join nodes of the story; visited nodes are nodes of the story; a current node is
        named and visited. */
    ghost predicate Valid()
      reads this
    {
      Consistent(nodeData, edges, visited, current)
    }

    /** `Story()`: no nodes, no edges, no current node, nothing visited, an empty context. */
    constructor ()
      ensures Valid()
      ensures nodeData == map[] && edges == map[] && current == None && visited == {}
      ensures context == map[] && !isFinished
    {
      nodeData, edges, current, visited, context, isFinished := map[], map[], None, {}, map[], false;
    }

    /** `g.neighbors(u)`: the successors of `u`, which are nodes of the story. */
    function Neighbors(u: NodeId): (r: set<NodeId>)
      reads this
      ensures forall v :: v in r ==> (u, v) in edges
      ensures forall v :: (u, v) in edges ==> v in r
      ensures Valid() ==> r <= nodeData.Keys
    {
      set p | p in edges && p.0 == u :: p.1
    }

    /** Whether `_run_current` gets past its guard: the story is not finished and has a current
        node, which is then a visited node of the story. */
    predicate RunsCurrent()
      reads this
      ensures RunsCurrent() ==> !isFinished && current.Some?
      ensures Valid() && RunsCurrent() ==> current.value in visited && current.value in nodeData
    {
      !isFinished && Named(current)
    }

    /** `self.node[n]` as a node with attributes; `key` is the attribute about to be read. */
    function AttrsOf(n: NodeId, key: string): (r: Result<NodeData>)
      reads this
      ensures r.Ok? <==> n in nodeData && nodeData[n].Attrs?
      ensures r.Ok? ==> r.value == nodeData[n]
      ensures n !in nodeData ==> r == Err(KeyError(n))
      ensures n in nodeData && nodeData[n].Bare? ==> r == Err(KeyError(key))
    {
      if n !in nodeData then Err(KeyError(n))
      else if nodeData[n].Bare? then Err(KeyError(key))
      else Ok(nodeData[n])
    }

    /** The node whose tables the accessors `run_conditions(n)` and `dynamic_events(n)` read:
        `n` when it is truthy, else the current node when there is one, else none. */
    function AccessorTarget(n: Option<NodeId>): (r: Option<NodeId>)
      reads this
      ensures Named(n) ==> r == n
      ensures !Named(n) && Named(current) ==> r == current
      ensures r.Some? ==> Named(r)
      ensures r.None? <==> !Named(n) && !Named(current)
      ensures Valid() && !Named(n) && r.Some? ==> r.value in nodeData
    {
      if Named(n) then n else if Named(current) then current else None
    }

    /** `run_conditions(n)`. */
    function RunConditions(n: Option<NodeId>): (r: Result<seq<Condition>>)
      reads this
      ensures AccessorTarget(n).None? ==> r == Ok([])
      ensures AccessorTarget(n).Some? ==>
                r.Ok? == AttrsOf(AccessorTarget(n).value, "run_conditions").Ok?
                && (r.Ok? ==> r.value == nodeData[AccessorTarget(n).value].runConditions)
                && (r.Err? ==> r.error == AttrsOf(AccessorTarget(n).value, "run_conditions").error)
    {
      match AccessorTarget(n)
      case None => Ok([])
      case Some(t) =>
        var a :- AttrsOf(t, "run_conditions");
        Ok(a.runConditions)
    }

    /** `dynamic_events(n)`. */
    function DynamicEvents(n: Option<NodeId>): (r: Result<seq<(NodeId, real)>>)
      reads this
      ensures AccessorTarget(n).None? ==> r == Ok([])
      ensures AccessorTarget(n).Some? ==>
                r.Ok? == AttrsOf(AccessorTarget(n).value, "dynamic_events").Ok?
                && (r.Ok? ==> r.value == nodeData[AccessorTarget(n).value].dynamicEvents)
                && (r.Err? ==> r.error == AttrsOf(AccessorTarget(n).value, "dynamic_events").error)
    {
      match AccessorTarget(n)
      case None => Ok([])
      case Some(t) =>
        var a :- AttrsOf(t, "dynamic_events");
        Ok(a.dynamicEvents)
    }

    /** `current = node`. A falsy node changes nothing; a node of the story becomes current and
        is visited; any other node raises StoryError and changes nothing. */
    method SetCurrent(node: Option<NodeId>) returns (err: Option<Error>)
      requires Valid()
      modifies this`current, this`visited
      ensures Valid()
      ensures old(visited) <= visited
      ensures !Named(node) ==> err == None && current == old(current) && visited == old(visited)
      ensures Named(node) && node.value in nodeData ==>
                err == None && current == node && visited == old(visited) + {node.value}
      ensures Named(node) && node.value !in nodeData ==>
                err == Some(StoryError(node.value + " not in the story"))
                && current == old(current) && visited == old(visited)
    {
      if !Named(node) {
        err := None;
      } else if node.value in nodeData {
        current := node;
        visited := visited + {node.value};
        err := None;
      } else {
        err := Some(StoryError(node.value + " not in the story"));
      }
    }

    /** `context = d`: the context becomes a copy of `d`. */
    method SetContext(d: map<string, Value>)
      modifies this`context
      ensures context == d
    {
      context := d;
    }

    /** `update_context(d)`: every key of `d` now has its value from `d`; every other key keeps
        its old value; no key is removed. */
    method UpdateContext(d: map<string, Value>)
      modifies this`context
      ensures context.Keys == old(context).Keys + d.Keys
      ensures forall k :: k in d ==> context[k] == d[k]
      ensures forall k :: k in old(context) && k !in d ==> context[k] == old(context)[k]
    {
      var rest := d.Keys;
      while rest != {}
        invariant rest <= d.Keys
        invariant context.Keys == old(context).Keys + (d.Keys - rest)
        invariant forall k :: k in d.Keys - rest ==> context[k] == d[k]
        invariant forall k :: k in old(context) && k !in d.Keys - rest ==> context[k] == old(context)[k]
        decreases rest
      {
        var k :| k in rest;
        context := context[k := d[k]];
        rest := rest - {k};
      }
    }

    /** `add_node(s)`: `s` becomes a node with fresh, empty actions, run-conditions and dynamic
        events, whether or not it was a node before; its edges stay. */
    method AddNode(s: NodeId)
      requires Valid()
      modifies this`nodeData
      ensures Valid()
      ensures nodeData == old(nodeData)[s := FreshAttrs]
    {
      nodeData := nodeData[s := FreshAttrs];
    }

    /** `add_nodes_from(nodes)`: `add_node` for each node of the list. */
    method AddNodesFrom(nodes: seq<NodeId>)
      requires Valid()
      modifies this`nodeData
      ensures Valid()
      ensures nodeData.Keys == old(nodeData).Keys + set n | n in nodes
      ensures forall n :: n in nodes ==> nodeData[n] == FreshAttrs
      ensures forall n :: n in old(nodeData) && n !in nodes ==> nodeData[n] == old(nodeData)[n]
    {
      var i := 0;
      while i < |nodes|
        invariant 0 <= i <= |nodes|
        invariant Valid()
        invariant nodeData.Keys == old(nodeData).Keys + set n | n in nodes[..i]
        invariant forall n :: n in nodes[..i] ==> nodeData[n] == FreshAttrs
        invariant forall n :: n in old(nodeData) && n !in nodes[..i] ==> nodeData[n] == old(nodeData)[n]
      {
        AddNode(nodes[i]);
        assert nodes[..i + 1] == nodes[..i] + [nodes[i]];
        i := i + 1;
      }
      assert nodes[..i] == nodes;
    }

    /** `add_edge(u, v, **attrs)`: absent endpoints become bare nodes and the edge's data dict
        is updated with `attrs`. */
    method AddEdge(u: NodeId, v: NodeId, attrs: EdgeAttrs)
      requires Valid()
      modifies this`nodeData, this`edges
      ensures Valid()
      ensures nodeData == AddEndpoints(old(nodeData), [Edge(u, v, None)])
      ensures edges == AddEdges(old(edges), [Edge(u, v, None)], attrs)
    {
      AddEdgeConsistent(nodeData, edges, visited, current, u, v, attrs);
      SingletonEdges(nodeData, edges, u, v, attrs);
      nodeData := WithNode(WithNode(nodeData, u), v);
      edges := AddEdgeData(edges, u, v, attrs);
    }

    /** `add_edges_from(ebunch, **attrs)`: each element in order, as `add_edge` would, with the
        element's own data dict applied after `attrs`. */
    method AddEdgesFrom(ebunch: seq<Edge>, attrs: EdgeAttrs)
      requires Valid()
      modifies this`nodeData, this`edges
      ensures Valid()
      ensures nodeData == AddEndpoints(old(nodeData), ebunch)
      ensures edges == AddEdges(old(edges), ebunch, attrs)
    {
      var i := 0;
      while i < |ebunch|
        invariant 0 <= i <= |ebunch|
        invariant Valid()
        invariant nodeData == AddEndpoints(old(nodeData), ebunch[..i])
        invariant edges == AddEdges(old(edges), ebunch[..i], attrs)
      {
        var e := ebunch[i];
        AddEdgesPrefix(old(edges), ebunch, attrs, i);
        AddEndpointsPrefix(old(nodeData), ebunch, i);
        AddEdgeConsistent(nodeData, edges, visited, current, e.u, e.v, EdgeData(e, attrs));
        nodeData := WithNode(WithNode(nodeData, e.u), e.v);
        edges := AddEdgeData(edges, e.u, e.v, EdgeData(e, attrs));
        i := i + 1;
      }
      assert ebunch[..i] == ebunch;
    }

    /** `add_undirected_edge(u, v, **attrs)`: the edge in both directions. */
    method AddUndirectedEdge(u: NodeId, v: NodeId, attrs: EdgeAttrs)
      requires Valid()
      modifies this`nodeData, this`edges
      ensures Valid()
      ensures (u, v) in edges && (v, u) in edges
      ensures nodeData == AddEndpoints(old(nodeData), [Edge(u, v, None)])
      ensures edges == AddUndirected(old(edges), [Edge(u, v, None)], attrs)
    {
      AddEdge(u, v, attrs);
      AddEdge(v, u, attrs);
      assert ReversedEdges([Edge(u, v, None)]) == [Edge(v, u, None)];
    }

    /** `add_undirected_edges_from(ebunch, **attrs)`: the list, then the list reversed
        element by element with each data dict carried over. */
    method AddUndirectedEdgesFrom(ebunch: seq<Edge>, attrs: EdgeAttrs)
      requires Valid()
      modifies this`nodeData, this`edges
      ensures Valid()
      ensures nodeData == AddEndpoints(AddEndpoints(old(nodeData), ebunch), ReversedEdges(ebunch))
      ensures edges == AddUndirected(old(edges), ebunch, attrs)
    {
      AddEdgesFrom(ebunch, attrs);
      var reversed := [];
      var i := 0;
      while i < |ebunch|
        invariant 0 <= i <= |ebunch|
        invariant reversed == ReversedEdges(ebunch)[..i]
      {
        var e := ebunch[i];
        var ne := Edge(e.v, e.u, e.data);
        reversed := reversed + [ne];
        i := i + 1;
      }
      assert reversed == ReversedEdges(ebunch);
      AddEdgesFrom(reversed, attrs);
    }

    /** `self.node[node]['actions'].append(action)`: KeyError for a node that is missing or bare,
        otherwise the node's action list grows by `action` and nothing else changes. */
    method AppendAction(node: NodeId, action: Action) returns (err: Option<Error>)
      requires Valid()
      modifies this`nodeData
      ensures Valid()
      ensures old(AttrsOf(node, "actions")).Err? ==>
                err == Some(old(AttrsOf(node, "actions")).error) && nodeData == old(nodeData)
      ensures old(AttrsOf(node, "actions")).Ok? ==>
                err == None
                && nodeData == old(nodeData)[node := old(nodeData)[node].(actions := old(nodeData)[node].actions + [action])]
    {
      var a := AttrsOf(node, "actions");
      if a.Err? {
        err := Some(a.error);
      } else {
        nodeData := nodeData[node := a.value.(actions := a.value.actions + [action])];
        err := None;
      }
    }

    /** `add_say(node, message)`: appends a say action. */
    method AddSay(node: NodeId, message: Option<string>) returns (err: Option<Error>)
      requires Valid()
      modifies this`nodeData
      ensures Valid()
      ensures node !in old(nodeData) ==> err == Some(KeyError(node)) && nodeData == old(nodeData)
      ensures node in old(nodeData) && old(nodeData)[node].Bare? ==>
                err == Some(KeyError("actions")) && nodeData == old(nodeData)
      ensures node in old(nodeData) && old(nodeData)[node].Attrs? ==>
                err == None
                && nodeData == old(nodeData)[node := old(nodeData)[node].(actions := old(nodeData)[node].actions + [Say(message)])]
    {
      err := AppendAction(node, Say(message));
    }

    /** `add_listen(node)`: appends a listen action. */
    method AddListen(node: NodeId) returns (err: Option<Error>)
      requires Valid()
      modifies this`nodeData
      ensures Valid()
      ensures node !in old(nodeData) ==> err == Some(KeyError(node)) && nodeData == old(nodeData)
      ensures node in old(nodeData) && old(nodeData)[node].Bare? ==>
                err == Some(KeyError("actions")) && nodeData == old(nodeData)
      ensures node in old(nodeData) && old(nodeData)[node].Attrs? ==>
                err == None
                && nodeData == old(nodeData)[node := old(nodeData)[node].(actions := old(nodeData)[node].actions + [Listen])]
    {
      err := AppendAction(node, Listen);
    }

    /** `add_play(node, filename)`: appends a play action. */
    method AddPlay(node: NodeId, filename: Option<string>) returns (err: Option<Error>)
      requires Valid()
      modifies this`nodeData
      ensures Valid()
      ensures node !in old(nodeData) ==> err == Some(KeyError(node)) && nodeData == old(nodeData)
      ensures node in old(nodeData) && old(nodeData)[node].Bare? ==>
                err == Some(KeyError("actions")) && nodeData == old(nodeData)
      ensures node in old(nodeData) && old(nodeData)[node].Attrs? ==>
                err == None
                && nodeData == old(nodeData)[node := old(nodeData)[node].(actions := old(nodeData)[node].actions + [Play(filename)])]
    {
      err := AppendAction(node, Play(filename));
    }

    /** `add_run_condition(node, condition, fail_func)`: checks its arguments in order, then
        appends the wrapped condition to the node's run-conditions. */
    method AddRunCondition(node: NodeId, condition: Argument, failFunc: Option<Argument>)
      returns (err: Option<Error>)
      requires Valid()
      modifies this`nodeData
      ensures Valid()
      ensures node !in old(nodeData) ==> err == Some(StoryError("Node [" + node + "] does not exist"))
      ensures node in old(nodeData) && condition.NotCallable? ==>
                err == Some(StoryError("Condition passed is not a callable"))
      ensures node in old(nodeData) && condition.Callable? && failFunc == Some(NotCallable) ==>
                err == Some(StoryError("Fail function passed it not a callable"))
      ensures (node in old(nodeData) && condition.Callable? && failFunc != Some(NotCallable)
               && old(nodeData)[node].Bare?) ==> err == Some(KeyError("run_conditions"))
      ensures err.None? <==>
                node in old(nodeData) && old(nodeData)[node].Attrs? && condition.Callable?
                && failFunc != Some(NotCallable)
      ensures err.Some? ==> nodeData == old(nodeData)
      ensures err.None? ==>
                node in old(nodeData) && old(nodeData)[node].Attrs? && condition.Callable?
                && nodeData == old(nodeData)[node := old(nodeData)[node].(runConditions :=
                     old(nodeData)[node].runConditions
                     + [Condition(condition.name, if failFunc.Some? then Some(failFunc.value.name) else None)])]
    {
      if node !in nodeData {
        return Some(StoryError("Node [" + node + "] does not exist"));
      }
      if condition.NotCallable? {
        return Some(StoryError("Condition passed is not a callable"));
      }
      if failFunc == Some(NotCallable) {
        return Some(StoryError("Fail function passed it not a callable"));
      }
      var a := AttrsOf(node, "run_conditions");
      if a.Err? {
        return Some(a.error);
      }
      var wrapped := Condition(condition.name, if failFunc.Some? then Some(failFunc.value.name) else None);
      nodeData := nodeData[node := a.value.(runConditions := a.value.runConditions + [wrapped])];
      err := None;
    }

    /** `dynamic_events(n)[dest] = p`: writes one entry of the table the accessor returns. With
        neither `n` nor a current node the accessor returns a throwaway dict, so nothing changes. */
    method SetDynamicEvent(n: Option<NodeId>, dest: NodeId, p: real) returns (err: Option<Error>)
      requires Valid()
      modifies this`nodeData
      ensures Valid()
      ensures err.None? <==> old(DynamicEvents(n)).Ok?
      ensures err.Some? ==> err == Some(old(DynamicEvents(n)).error)
      ensures err.Some? || AccessorTarget(n).None? ==> nodeData == old(nodeData)
      ensures err.None? && AccessorTarget(n).Some? ==>
                var t := AccessorTarget(n).value;
                nodeData == old(nodeData)[t := old(nodeData)[t].(dynamicEvents :=
                  PutEvent(old(nodeData)[t].dynamicEvents, dest, p))]
    {
      var target := AccessorTarget(n);
      if target.None? {
        return None;
      }
      var a := AttrsOf(target.value, "dynamic_events");
      if a.Err? {
        return Some(a.error);
      }
      nodeData := nodeData[target.value := a.value.(dynamicEvents := PutEvent(a.value.dynamicEvents, dest, p))];
      err := None;
    }

    /** `_is_runnable(n)`: the check of `n`'s run-conditions. */
    function IsRunnable(n: NodeId, holds: Condition -> bool): (r: Result<Check>)
      reads this
      ensures r.Ok? <==> RunConditions(Some(n)).Ok?
      ensures r.Err? ==> r.error == RunConditions(Some(n)).error
      ensures r.Ok? ==> (r.value.ok <==> forall i :: 0 <= i < |RunConditions(Some(n)).value| ==>
                                                   holds(RunConditions(Some(n)).value[i]))
    {
      var conds :- RunConditions(Some(n));
      Ok(CheckConditions(conds, holds))
    }

    /** The draw `pick` is one the multinomial sampler could make for `node`'s outcome list. */
    predicate DrawFits(node: NodeId, pick: nat)
      reads this
    {
      var ev := DynamicEvents(Some(node));
      ev.Ok? && ev.value != [] && !Overfull(OutcomesOf(node, ev.value)) ==> ValidDraw(OutcomesOf(node, ev.value), pick)
    }

    /** `_select(node)`: with no dynamic events, `node`; otherwise the outcome the draw lands on,
        which is one of the event destinations or, when they leave residual probability, `node`.
        The sampler raises ValueError when all weights but the last sum to more than 1. */
    function Select(node: NodeId, pick: nat): (r: Result<NodeId>)
      reads this
      requires DrawFits(node, pick)
      ensures r.Err? <==>
                DynamicEvents(Some(node)).Err?
                || (DynamicEvents(Some(node)).value != [] && Overfull(OutcomesOf(node, DynamicEvents(Some(node)).value)))
      ensures r.Err? ==>
                r.error == if DynamicEvents(Some(node)).Err? then DynamicEvents(Some(node)).error
                           else ValueError(OverfullMessage)
      ensures r.Ok? && DynamicEvents(Some(node)).value == [] ==> r.value == node
      ensures r.Ok? ==> r.value == node || r.value in Destinations(DynamicEvents(Some(node)).value)
      ensures r.Ok? && DynamicEvents(Some(node)).value != [] ==>
                var o := OutcomesOf(node, DynamicEvents(Some(node)).value);
                exists i :: 0 <= i < |o.nodes| && o.nodes[i] == r.value && DrawWeights(o)[i] > 0.0
      ensures r.Ok? && DynamicEvents(Some(node)).value != [] ==>
                var o := OutcomesOf(node, DynamicEvents(Some(node)).value);
                pick < |o.nodes| && r.value == o.nodes[pick] && DrawWeights(o)[pick] > 0.0
      ensures r.Ok? && DynamicEvents(Some(node)).value != []
              && Sum(Probabilities(DynamicEvents(Some(node)).value)) >= 1.0 ==>
                r.value in Destinations(DynamicEvents(Some(node)).value)
    {
      var events :- DynamicEvents(Some(node));
      if events != [] then
        var o := OutcomesOf(node, events);
        if Overfull(o) then Err(ValueError(OverfullMessage))
        else
          assert o.nodes[pick] == o.nodes[pick] && DrawWeights(o)[pick] > 0.0;
          Ok(o.nodes[pick])
      else
        Ok(node)
    }

    /** The body of the `_get_next` loop for one input, in direct matching mode: a runnable
        neighbour is passed to `_select`; a neighbour that is not runnable gets "You can't go
        to the X yet", with X the input with underscores turned into spaces; anything else
        gets the rephrase message. */
    function Respond(input: string, pick: nat, holds: Condition -> bool): (r: StepResult)
      reads this
      requires Valid() && current.Some?
      requires input in Neighbors(current.value) ==> DrawFits(input, pick)
      ensures r != NoCurrent && r != Finished && r != Waiting
      ensures r == Emitted(RephraseMessage) <==> input !in Neighbors(current.value)
      ensures r.Chosen? ==>
                input in Neighbors(current.value) && IsRunnable(input, holds).Ok?
                && IsRunnable(input, holds).value.ok && Select(input, pick) == Ok(r.node)
      ensures input in Neighbors(current.value) && IsRunnable(input, holds).Ok?
              && !IsRunnable(input, holds).value.ok ==>
                r == Emitted("You can't go to the " + Replace(input, '_', ' ') + " yet")
      ensures r.Emitted? ==>
                r == Emitted(RephraseMessage)
                || (input in Neighbors(current.value) && IsRunnable(input, holds).Ok? && !IsRunnable(input, holds).value.ok)
      ensures r.Raised? ==>
                input in Neighbors(current.value)
                && (IsRunnable(input, holds).Err?
                    || (IsRunnable(input, holds).value.ok && Select(input, pick) == Err(r.error)))
      ensures input in Neighbors(current.value) && IsRunnable(input, holds).Err? ==>
                r == Raised(IsRunnable(input, holds).error)
      ensures input in Neighbors(current.value) && IsRunnable(input, holds).Ok? && IsRunnable(input, holds).value.ok ==>
                r == match Select(input, pick) case Ok(m) => Chosen(m) case Err(e) => Raised(e)
    {
      if input in Neighbors(current.value) then
        match IsRunnable(input, holds)
        case Err(e) => Raised(e)
        case Ok(check) =>
          if check.ok then
            match Select(input, pick)
            case Ok(n) => Chosen(n)
            case Err(e) => Raised(e)
          else
            JoinSplitIsReplace(input, '_', ' ');
            assert ("You can't go to the " + Join(" ", SplitOn(input, '_')) + " yet")[0] == 'Y' != RephraseMessage[0];
            Emitted("You can't go to the " + Join(" ", SplitOn(input, '_')) + " yet")
      else
        Emitted(RephraseMessage)
    }

    /** One iteration of `_get_next` with the input already read: no current node gives None;
        a current node with no neighbours marks the story finished; otherwise the loop body.
        Only `is_finished` can change. */
    method Step(input: string, pick: nat, holds: Condition -> bool) returns (r: StepResult)
      requires Valid()
      requires current.Some? && input in Neighbors(current.value) ==> DrawFits(input, pick)
      modifies this`isFinished
      ensures Valid()
      ensures current.None? ==> r == NoCurrent && isFinished == old(isFinished)
      ensures current.Some? && Neighbors(current.value) == {} ==> r == Finished && isFinished && !RunsCurrent()
      ensures current.Some? && Neighbors(current.value) != {} ==>
                r == Respond(input, pick, holds) && isFinished == old(isFinished)
    {
      if current.None? {
        return NoCurrent;
      }
      if Neighbors(current.value) == {} {
        isFinished := true;
        return Finished;
      }
      r := Respond(input, pick, holds);
    }

    /** `_get_next` fed a finite list of inputs: before reading input, no current node gives
        None and a leaf marks the story finished; then each input goes through the loop body
        until one is accepted or raises. The messages are those output for the rejected inputs,
        in order; `Waiting` means every input was rejected and the loop asks for another. */
    method GetNext(inputs: seq<string>, picks: seq<nat>, holds: Condition -> bool)
      returns (r: StepResult, messages: seq<string>)
      requires Valid() && |picks| == |inputs|
      requires forall i :: 0 <= i < |inputs| && current.Some? && inputs[i] in Neighbors(current.value) ==>
                 DrawFits(inputs[i], picks[i])
      modifies this`isFinished
      ensures Valid()
      ensures current.None? ==> r == NoCurrent && messages == [] && isFinished == old(isFinished)
      ensures current.Some? && Neighbors(current.value) == {} ==> r == Finished && messages == [] && isFinished
      ensures current.Some? && Neighbors(current.value) != {} ==>
                isFinished == old(isFinished) && |messages| <= |inputs|
                && (forall i :: 0 <= i < |messages| ==> old(Respond(inputs[i], picks[i], holds)) == Emitted(messages[i]))
                && (r == Waiting <==> |messages| == |inputs|)
                && (r != Waiting ==> r == old(Respond(inputs[|messages|], picks[|messages|], holds)) && !r.Emitted?)
    {
      messages := [];
      if current.None? {
        return NoCurrent, [];
      }
      if Neighbors(current.value) == {} {
        isFinished := true;
        return Finished, [];
      }
      var i := 0;
      while i < |inputs|
        invariant 0 <= i <= |inputs| && |messages| == i
        invariant forall j :: 0 <= j < i ==> Respond(inputs[j], picks[j], holds) == Emitted(messages[j])
      {
        var out := Respond(inputs[i], picks[i], holds);
        if !out.Emitted? {
          return out, messages;
        }
        messages := messages + [out.message];
        i := i + 1;
      }
      r := Waiting;
    }

    /** One time step, `story()`: `_run_current` (whose guard is `RunsCurrent`; its body is not
        part of this model), then `current = _get_next()`. An exception from `_get_next` leaves
        `current` as it was; a chosen node that is not in the story raises StoryError from the
        setter; None changes nothing. */
    method Tick(inputs: seq<string>, picks: seq<nat>, holds: Condition -> bool)
      returns (r: StepResult, messages: seq<string>, err: Option<Error>)
      requires Valid() && |picks| == |inputs|
      requires forall i :: 0 <= i < |inputs| && current.Some? && inputs[i] in Neighbors(current.value) ==>
                 DrawFits(inputs[i], picks[i])
      modifies this`isFinished, this`current, this`visited
      ensures Valid()
      ensures nodeData == old(nodeData) && edges == old(edges) && context == old(context)
      ensures old(current).None? ==> r == NoCurrent && messages == [] && isFinished == old(isFinished)
      ensures old(current).Some? && old(Neighbors(current.value)) == {} ==> r == Finished && messages == [] && isFinished
      ensures old(current).Some? && old(Neighbors(current.value)) != {} ==>
                isFinished == old(isFinished) && |messages| <= |inputs|
                && (forall i :: 0 <= i < |messages| ==> old(Respond(inputs[i], picks[i], holds)) == Emitted(messages[i]))
                && (r == Waiting <==> |messages| == |inputs|)
                && (r != Waiting ==> r == old(Respond(inputs[|messages|], picks[|messages|], holds)) && !r.Emitted?)
      ensures old(visited) <= visited
      ensures r.Raised? ==> err == Some(r.error) && current == old(current) && visited == old(visited)
      ensures r.Chosen? && r.node == "" ==> err == None && current == old(current) && visited == old(visited)
      ensures r.Chosen? && r.node != "" && r.node in nodeData ==>
                err == None && current == Some(r.node) && visited == old(visited) + {r.node}
      ensures r.Chosen? && r.node != "" && r.node !in nodeData ==>
                err == Some(StoryError(r.node + " not in the story")) && current == old(current)
                && visited == old(visited)
      ensures !r.Chosen? ==> current == old(current) && visited == old(visited)
      ensures r == NoCurrent || r == Finished || r == Waiting ==> err == None
    {
      r, messages := GetNext(inputs, picks, holds);
      if r.Raised? {
        return r, messages, Some(r.error);
      }
      if r.Chosen? {
        err := SetCurrent(Some(r.node));
      } else {
        err := None;
      }
    }
  }
}
