/** Concrete stories built through the `Story` operations, and what their contracts let a
    client conclude about them. */
module StoryExamples {
  import opened Wrappers
  import opened StoryGraph

  /** One undirected edge and then a list of two more make every pair of `a`, `b` and `c`
      neighbours both ways. */
  method UndirectedTriangle() returns (s: Story)
    ensures fresh(s) && s.Valid()
    ensures "b" in s.Neighbors("a") && "a" in s.Neighbors("b")
    ensures "c" in s.Neighbors("b") && "b" in s.Neighbors("c")
    ensures "a" in s.Neighbors("c") && "c" in s.Neighbors("a")
  {
    s := new Story();
    s.AddUndirectedEdge("a", "b", map[]);
    assert ("a", "b") in s.edges && ("b", "a") in s.edges;
    var before := s.edges;
    var ebunch := [Edge("b", "c", None), Edge("c", "a", None)];
    s.AddUndirectedEdgesFrom(ebunch, map[]);
    UndirectedEdgesEffect(before, ebunch, map[]);
    assert ebunch[0].u == "b" && ebunch[0].v == "c" && ebunch[1].u == "c" && ebunch[1].v == "a";
    assert ("b", "c") in s.edges && ("c", "b") in s.edges;
    assert ("c", "a") in s.edges && ("a", "c") in s.edges;
    assert ("a", "b") in s.edges && ("b", "a") in s.edges;
  }

  const Cinema := {"g", "o", "c", "a"}

  const CinemaNames := ["g", "o", "c", "a"]

  const CinemaDirected := [Edge("g", "o", None), Edge("g", "c", None),
                           Edge("o", "a", None), Edge("c", "a", None)]

  const CinemaEdges := {("g", "o"), ("g", "c"),
                        ("o", "a"), ("c", "a"),
                        ("o", "c"), ("c", "o")}

  lemma CinemaDirectedFacts(dir: seq<Edge>)
    requires dir == CinemaDirected
    ensures Pairs(dir) == {("g", "o"), ("g", "c"), ("o", "a"), ("c", "a")}
    ensures Endpoints(dir) <= Cinema
  {
    assert (dir[0].u, dir[0].v) == ("g", "o");
    assert (dir[1].u, dir[1].v) == ("g", "c");
    assert (dir[2].u, dir[2].v) == ("o", "a");
    assert (dir[3].u, dir[3].v) == ("c", "a");
    forall x | x in Endpoints(dir) ensures x in Cinema {
      var i :| 0 <= i < |dir| && (x == dir[i].u || x == dir[i].v);
    }
  }

  lemma SingleEdge(e: Edge)
    ensures Pairs([e]) == {(e.u, e.v)} && Flip(Pairs([e])) == {(e.v, e.u)} && Endpoints([e]) == {e.u, e.v}
  {
    assert [e][0] == e;
  }

  /** Edges between existing nodes add no node and change none. */
  lemma AddEndpointsWithin(nodes: map<NodeId, NodeData>, ebunch: seq<Edge>)
    requires Endpoints(ebunch) <= nodes.Keys
    ensures AddEndpoints(nodes, ebunch) == nodes
  {
    AddEndpointsKeys(nodes, ebunch);
  }

  /** The four cinema nodes, with the greeting current; nodes are named by one letter: the
      greeting `g`, the box office `o`, the concessions `c` and the auditorium `a`. */
  method CinemaNodes() returns (s: Story)
    ensures fresh(s) && s.Valid()
    ensures s.nodeData.Keys == Cinema && forall n :: n in s.nodeData ==> s.nodeData[n] == FreshAttrs
    ensures s.edges == map[]
    ensures s.current == Some("g") && s.visited == {"g"} && !s.isFinished
  {
    s := new Story();
    s.AddNodesFrom(CinemaNames);
    assert (set n | n in CinemaNames) == Cinema;
    var err := s.SetCurrent(Some("g"));
  }

  /** The directed cinema edges, for any keyword data `attrs`: from the greeting to the box
      office and the concessions, and from both to the auditorium. */
  method AddCinemaDirected(s: Story, dir: seq<Edge>, attrs: EdgeAttrs)
    requires Pairs(dir) == {("g", "o"), ("g", "c"), ("o", "a"), ("c", "a")} && Endpoints(dir) <= Cinema
    requires s.Valid() && s.nodeData.Keys == Cinema && s.edges == map[]
    modifies s
    ensures s.Valid() && s.nodeData == old(s.nodeData)
    ensures s.edges.Keys == {("g", "o"), ("g", "c"), ("o", "a"), ("c", "a")}
    ensures s.current == old(s.current) && s.visited == old(s.visited) && s.isFinished == old(s.isFinished)
  {
    AddEndpointsWithin(s.nodeData, dir);
    s.AddEdgesFrom(dir, attrs);
    AddEdgesKeys(map[], dir, attrs);
  }

  /** The undirected cinema edge, between the box office and the concessions. */
  method AddCinemaUndirected(s: Story, attrs: EdgeAttrs)
    requires s.Valid() && s.nodeData.Keys == Cinema
    requires s.edges.Keys == {("g", "o"), ("g", "c"), ("o", "a"), ("c", "a")}
    modifies s
    ensures s.Valid() && s.nodeData == old(s.nodeData) && s.edges.Keys == CinemaEdges
    ensures s.current == old(s.current) && s.visited == old(s.visited) && s.isFinished == old(s.isFinished)
  {
    var e := Edge("o", "c", None);
    var once := s.edges;
    SingleEdge(e);
    AddEndpointsWithin(s.nodeData, [e]);
    s.AddUndirectedEdge("o", "c", attrs);
    UndirectedKeys(once, [e], attrs);
  }

  /** The cinema story. */
  method CinemaStory(attrs: EdgeAttrs) returns (s: Story)
    ensures fresh(s) && s.Valid()
    ensures s.nodeData.Keys == Cinema && forall n :: n in s.nodeData ==> s.nodeData[n] == FreshAttrs
    ensures s.edges.Keys == CinemaEdges
    ensures s.current == Some("g") && s.visited == {"g"} && !s.isFinished
  {
    s := CinemaNodes();
    CinemaDirectedFacts(CinemaDirected);
    AddCinemaDirected(s, CinemaDirected, attrs);
    AddCinemaUndirected(s, attrs);
  }

  /** From the greeting, asking for the auditorium is rejected with the rephrase message, since
      no edge leads there; asking for the box office, which has no run-conditions and no
      dynamic events, then moves there. */
  method CinemaWalk(attrs: EdgeAttrs, holds: Condition -> bool) returns (s: Story, r: StepResult, messages: seq<string>)
    ensures fresh(s) && s.Valid()
    ensures messages == [RephraseMessage]
    ensures r == Chosen("o")
    ensures s.current == Some("o") && s.visited == {"g", "o"}
    ensures !s.isFinished
  {
    s := CinemaStory(attrs);
    assert ("g", "o") in s.edges;
    assert "o" in s.Neighbors("g");
    assert "a" !in s.Neighbors("g");
    assert s.DynamicEvents(Some("o")) == Ok([]);
    assert s.DynamicEvents(Some("a")) == Ok([]);
    assert s.RunConditions(Some("o")) == Ok([]);
    assert s.Respond("a", 0, holds) == Emitted(RephraseMessage);
    assert s.Respond("o", 0, holds) == Chosen("o");
    var err;
    var inputs := ["a", "o"];
    assert inputs[0] == "a" && inputs[1] == "o";
    r, messages, err := s.Tick(inputs, [0, 0], holds);
    assert |messages| != 0;
  }
}
