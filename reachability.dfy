/**
 * Hovering a node highlights everything downstream of it: a breadth-first
 * search along edge direction (`highlightReachableNodes`), specified against
 * reachability by paths.
 */
module Reachability {
  import opened Graph
  import opened Sequences

  /**
   * `outgoers().edges()` of a node: the edges of the graph leaving `id`, in the
   * order of the edge list.
   */
  function Outgoing(edges: seq<Edge>, id: NodeId): (out: seq<Edge>)
    ensures |out| <= |edges|
    ensures forall e :: e in out <==> e in edges && e.source == id
    decreases |edges|
  {
    if edges == [] then []
    else
      var rest := Outgoing(edges[1..], id);
      assert forall e :: e in edges <==> e == edges[0] || e in edges[1..];
      if edges[0].source == id then [edges[0]] + rest else rest
  }

  /** `path` is a chain of graph edges, each starting where the previous one ends, from `from` to `to`. */
  ghost predicate IsPath(edges: seq<Edge>, path: seq<Edge>, from: NodeId, to: NodeId) {
    (forall e :: e in path ==> e in edges)
    && (forall i :: 0 <= i < |path| - 1 ==> path[i].target == path[i + 1].source)
    && if path == [] then from == to else path[0].source == from && path[|path| - 1].target == to
  }

  /** `to` can be reached from `from` by following edges from source to target. */
  ghost predicate Reachable(edges: seq<Edge>, from: NodeId, to: NodeId) {
    exists path :: IsPath(edges, path, from, to)
  }

  /** Every node reaches itself by the empty path. */
  lemma ReachableSelf(edges: seq<Edge>, v: NodeId)
    ensures Reachable(edges, v, v)
  {
    assert IsPath(edges, [], v, v);
  }

  /** A reachable node's outgoing edges lead to reachable nodes. */
  lemma ReachableStep(edges: seq<Edge>, from: NodeId, e: Edge)
    requires Reachable(edges, from, e.source)
    requires e in edges
    ensures Reachable(edges, from, e.target)
  {
    var path :| IsPath(edges, path, from, e.source);
    var longer := path + [e];
    assert IsPath(edges, longer, from, e.target);
  }

  /** Every node a path from `from` reaches lies in any set that holds `from` and is closed under edges. */
  lemma {:induction false} ClosedSetHoldsPathEnd(edges: seq<Edge>, closed: set<NodeId>, path: seq<Edge>,
                                                 from: NodeId, to: NodeId)
    requires from in closed
    requires forall e :: e in edges && e.source in closed ==> e.target in closed
    requires IsPath(edges, path, from, to)
    ensures to in closed
    decreases |path|
  {
    if path != [] {
      var front := path[..|path| - 1];
      var last := path[|path| - 1];
      var mid := if front == [] then from else front[|front| - 1].target;
      assert forall e :: e in front ==> e in path;
      assert IsPath(edges, front, from, mid);
      ClosedSetHoldsPathEnd(edges, closed, front, from, mid);
      assert last in path;
    }
  }

  /** A set that holds `from` and is closed under edges holds everything reachable from `from`. */
  lemma ClosedSetHoldsReachable(edges: seq<Edge>, closed: set<NodeId>, from: NodeId)
    requires from in closed
    requires forall e :: e in edges && e.source in closed ==> e.target in closed
    ensures forall v :: Reachable(edges, from, v) ==> v in closed
  {
    forall v | Reachable(edges, from, v) ensures v in closed {
      var path :| IsPath(edges, path, from, v);
      ClosedSetHoldsPathEnd(edges, closed, path, from, v);
    }
  }

  /** Every node some edge leads to: the search never queues anything else. */
  ghost function Targets(edges: seq<Edge>): (targets: set<NodeId>)
    ensures forall e :: e in edges ==> e.target in targets
    decreases |edges|
  {
    if edges == [] then {}
    else
      assert forall e :: e in edges ==> e == edges[0] || e in edges[1..];
      Targets(edges[1..]) + {edges[0].target}
  }

  /** The ids of the edges leaving a node of `sources`. */
  ghost function EdgesFrom(edges: seq<Edge>, sources: set<NodeId>): set<string> {
    set e | e in edges && e.source in sources :: e.id
  }

  lemma IdsPrefix(s: seq<Edge>, j: nat)
    requires j < |s|
    ensures EdgeIds(s[..j + 1]) == EdgeIds(s[..j]) + {s[j].id}
  {
    assert s[..j + 1] == s[..j] + [s[j]];
    assert forall x :: x in s[..j + 1] <==> x in s[..j] || x == s[j];
  }

  /** Expanding one more node adds the ids of its outgoing edges. */
  lemma EdgesFromExpand(edges: seq<Edge>, sources: set<NodeId>, current: NodeId)
    ensures EdgesFrom(edges, sources + {current})
            == EdgesFrom(edges, sources) + EdgeIds(Outgoing(edges, current))
  {
    var out := Outgoing(edges, current);
    forall x | x in EdgesFrom(edges, sources + {current})
      ensures x in EdgesFrom(edges, sources) + EdgeIds(out)
    {
      var e :| e in edges && e.source in sources + {current} && e.id == x;
      if e.source !in sources {
        assert e in out;
      }
    }
    forall x | x in EdgeIds(out) ensures x in EdgesFrom(edges, sources + {current}) {
      var e :| e in out && e.id == x;
      assert e in edges && e.source in sources + {current};
    }
  }

  /**
   * The targets the `forEach` over `out` queues: each edge's target unless it
   * was visited, in edge order and with repeats.
   */
  function Unvisited(out: seq<Edge>, visited: set<NodeId>): (queued: seq<NodeId>)
    ensures forall v :: v in queued ==> v !in visited
    ensures forall e :: e in out ==> e.target in visited || e.target in queued
    decreases |out|
  {
    if out == [] then []
    else
      var front, last := out[..|out| - 1], out[|out| - 1];
      var rest := Unvisited(front, visited);
      assert forall e :: e in out ==> e in front || e == last;
      rest + if last.target in visited then [] else [last.target]
  }

  /** Whatever holds of the targets of `out` holds of what the `forEach` queues. */
  lemma {:induction false} UnvisitedWithin(out: seq<Edge>, visited: set<NodeId>, bound: set<NodeId>)
    requires forall e :: e in out ==> e.target in bound
    ensures forall v :: v in Unvisited(out, visited) ==> v in bound
    decreases |out|
  {
    if out != [] {
      var front := out[..|out| - 1];
      assert forall e :: e in front ==> e in out;
      UnvisitedWithin(front, visited, bound);
      assert out[|out| - 1] in out;
    }
  }

  /** Edges leaving reachable nodes queue only reachable nodes. */
  lemma {:induction false} UnvisitedReachable(edges: seq<Edge>, start: NodeId, out: seq<Edge>, visited: set<NodeId>)
    requires forall e :: e in out ==> e in edges && Reachable(edges, start, e.source)
    ensures forall v :: v in Unvisited(out, visited) ==> Reachable(edges, start, v)
    decreases |out|
  {
    if out != [] {
      var front, last := out[..|out| - 1], out[|out| - 1];
      assert forall e :: e in front ==> e in out;
      UnvisitedReachable(edges, start, front, visited);
      assert last in out;
      ReachableStep(edges, start, last);
    }
  }

  /** Every target of an edge list lies in `Targets` of any list holding those edges. */
  lemma TargetsWithin(out: seq<Edge>, edges: seq<Edge>)
    requires forall e :: e in out ==> e in edges
    ensures forall e :: e in out ==> e.target in Targets(edges)
  {
  }

  /** The `forEach` step: one more edge queues its target if that was not visited. */
  lemma UnvisitedPrefix(out: seq<Edge>, j: nat, visited: set<NodeId>)
    requires j < |out|
    ensures Unvisited(out[..j + 1], visited)
            == Unvisited(out[..j], visited) + if out[j].target in visited then [] else [out[j].target]
  {
    assert out[..j + 1][..j] == out[..j];
  }

  lemma AppendSnoc(a: seq<NodeId>, b: seq<NodeId>, x: NodeId)
    ensures a + b + [x] == a + (b + [x])
    ensures Elems(b + [x]) == Elems(b) + {x}
  {
  }

  /** The nodes a queue holds. */
  ghost function Elems(queue: seq<NodeId>): set<NodeId> {
    set v | v in queue
  }

  /**
   * What holds of the search before each turn of its loop, with `queued` the
   * nodes in `toVisit`: everything seen is reachable and within reach of the
   * edge list, the start was seen, the highlighted nodes are the visited ones
   * plus some queued ones, every edge out of a visited node leads to a seen
   * node, and the highlighted edges are exactly those out of visited nodes.
   */
  ghost predicate SearchInvariant(edges: seq<Edge>, start: NodeId, visited: set<NodeId>, queued: set<NodeId>,
                                  highlightedNodes: set<NodeId>, highlightedEdges: set<string>) {
    && visited + queued <= {start} + Targets(edges)
    && start in visited + queued
    && visited <= highlightedNodes <= visited + queued
    && (forall v :: v in visited + queued ==> Reachable(edges, start, v))
    && (forall e :: e in edges && e.source in visited ==> e.target in visited + queued)
    && highlightedEdges == EdgesFrom(edges, visited)
  }

  /** The search starts with only `start` queued and nothing highlighted. */
  lemma SearchStarts(edges: seq<Edge>, start: NodeId)
    ensures SearchInvariant(edges, start, {}, Elems([start]), {}, {})
  {
    ReachableSelf(edges, start);
    assert Elems([start]) == {start};
  }

  /** Dropping a visited node from the front of the queue keeps the invariant. */
  lemma SkipVisited(edges: seq<Edge>, start: NodeId, visited: set<NodeId>, toVisit: seq<NodeId>,
                    highlightedNodes: set<NodeId>, highlightedEdges: set<string>)
    requires SearchInvariant(edges, start, visited, Elems(toVisit), highlightedNodes, highlightedEdges)
    requires |toVisit| > 0 && toVisit[0] in visited
    ensures SearchInvariant(edges, start, visited, Elems(toVisit[1..]), highlightedNodes, highlightedEdges)
  {
    HeadTail(toVisit);
    assert Elems(toVisit) == {toVisit[0]} + Elems(toVisit[1..]);
  }

  /**
   * Expanding the node at the front of the queue: it becomes visited and
   * highlighted, and the `forEach` over its outgoing edges keeps the invariant.
   */
  lemma ExpandFront(edges: seq<Edge>, start: NodeId, visited: set<NodeId>, toVisit: seq<NodeId>,
                    highlightedNodes: set<NodeId>, highlightedEdges: set<string>)
    requires SearchInvariant(edges, start, visited, Elems(toVisit), highlightedNodes, highlightedEdges)
    requires |toVisit| > 0 && toVisit[0] !in visited
    ensures var current := toVisit[0];
            var out := Outgoing(edges, current);
            var queued := Unvisited(out, visited + {current});
            SearchInvariant(edges, start, visited + {current}, Elems(toVisit[1..] + queued),
                            highlightedNodes + {current} + Elems(queued),
                            highlightedEdges + EdgeIds(out))
  {
    var current := toVisit[0];
    var queued := Unvisited(Outgoing(edges, current), visited + {current});
    HeadTail(toVisit);
    assert Elems(toVisit) == {current} + Elems(toVisit[1..]);
    assert Elems(toVisit[1..] + queued) == Elems(toVisit[1..]) + Elems(queued);
    ExpandStep(edges, start, visited, current, Elems(toVisit[1..]), highlightedNodes, highlightedEdges);
  }

  /** `ExpandFront` on sets: `current` was queued, `waiting` is the rest of the queue. */
  lemma ExpandStep(edges: seq<Edge>, start: NodeId, visited: set<NodeId>, current: NodeId, waiting: set<NodeId>,
                   highlightedNodes: set<NodeId>, highlightedEdges: set<string>)
    requires SearchInvariant(edges, start, visited, {current} + waiting, highlightedNodes, highlightedEdges)
    requires current !in visited
    ensures var out := Outgoing(edges, current);
            var queued := Unvisited(out, visited + {current});
            SearchInvariant(edges, start, visited + {current}, waiting + Elems(queued),
                            highlightedNodes + {current} + Elems(queued),
                            highlightedEdges + EdgeIds(out))
  {
    var out := Outgoing(edges, current);
    var seen := visited + {current};
    var queued := Unvisited(out, seen);
    var pending := waiting + Elems(queued);
    var universe := {start} + Targets(edges);
    assert seen + waiting == visited + ({current} + waiting);
    TargetsWithin(out, edges);
    UnvisitedWithin(out, seen, universe);
    assert seen + pending <= universe;
    assert forall v :: v in seen + pending ==> Reachable(edges, start, v) by {
      assert Reachable(edges, start, current);
      UnvisitedReachable(edges, start, out, seen);
    }
    assert forall e :: e in edges && e.source in seen ==> e.target in seen + pending by {
      forall e | e in edges && e.source in seen ensures e.target in seen + pending {
        if e.source == current {
          assert e in out;
        }
      }
    }
    EdgesFromExpand(edges, visited, current);
  }

  /** Once the queue is empty the visited set is closed under edges, so it is the reachable set. */
  lemma SearchEnds(edges: seq<Edge>, start: NodeId, visited: set<NodeId>,
                   highlightedNodes: set<NodeId>, highlightedEdges: set<string>)
    requires SearchInvariant(edges, start, visited, {}, highlightedNodes, highlightedEdges)
    ensures highlightedNodes == visited
    ensures forall v :: v in visited <==> Reachable(edges, start, v)
    ensures highlightedEdges == set e | e in edges && Reachable(edges, start, e.source) :: e.id
  {
    ClosedSetHoldsReachable(edges, visited, start);
  }

  /**
   * The callback of `outgoingEdges.forEach`: marks every edge of `out`, and
   * marks and queues every target not yet visited.
   */
  method VisitOutgoing(out: seq<Edge>, visited: set<NodeId>, toVisit: seq<NodeId>,
                       highlightedNodes: set<NodeId>, highlightedEdges: set<string>)
    returns (queue: seq<NodeId>, markedNodes: set<NodeId>, markedEdges: set<string>)
    ensures queue == toVisit + Unvisited(out, visited)
    ensures markedNodes == highlightedNodes + Elems(Unvisited(out, visited))
    ensures markedEdges == highlightedEdges + EdgeIds(out)
  {
    queue, markedNodes, markedEdges := toVisit, highlightedNodes, highlightedEdges;
    for j := 0 to |out|
      invariant queue == toVisit + Unvisited(out[..j], visited)
      invariant markedNodes == highlightedNodes + Elems(Unvisited(out[..j], visited))
      invariant markedEdges == highlightedEdges + EdgeIds(out[..j])
    {
      var edge := out[j];
      UnvisitedPrefix(out, j, visited);
      IdsPrefix(out, j);
      markedEdges := markedEdges + {edge.id};
      if edge.target !in visited {
        AppendSnoc(toVisit, Unvisited(out[..j], visited), edge.target);
        markedNodes := markedNodes + {edge.target};
        queue := queue + [edge.target];
      }
    }
    assert out[..|out|] == out;
  }

  /** Visiting one more node of the universe leaves fewer unvisited. */
  lemma VisitShrinks(universe: set<NodeId>, visited: set<NodeId>, current: NodeId)
    requires current in universe && current !in visited
    ensures |universe - (visited + {current})| < |universe - visited|
  {
    assert universe - (visited + {current}) == (universe - visited) - {current};
  }

  /**
   * The search from `start`: a FIFO queue `toVisit`, the `visited` set and the
   * two result sets that the page then marks as highlighted. `expansions` lists
   * the nodes in the order their outgoing edges are walked.
   */
  method HighlightReachableNodes(edges: seq<Edge>, start: NodeId)
    returns (highlightedNodes: set<NodeId>, highlightedEdges: set<string>, ghost expansions: seq<NodeId>)
    ensures start in highlightedNodes
    ensures forall v :: v in highlightedNodes <==> Reachable(edges, start, v)
    ensures highlightedEdges == set e | e in edges && Reachable(edges, start, e.source) :: e.id
    ensures Distinct(expansions) && (forall v :: v in expansions <==> v in highlightedNodes)
  {
    var visited: set<NodeId> := {};
    var toVisit: seq<NodeId> := [start];
    highlightedNodes := {};
    highlightedEdges := {};
    expansions := [];
    ghost var universe := {start} + Targets(edges);
    SearchStarts(edges, start);
    while |toVisit| > 0
      invariant SearchInvariant(edges, start, visited, Elems(toVisit), highlightedNodes, highlightedEdges)
      invariant Distinct(expansions) && forall v :: v in expansions <==> v in visited
      decreases |universe - visited|, |toVisit|
    {
      var current := toVisit[0];
      if current in visited {
        SkipVisited(edges, start, visited, toVisit, highlightedNodes, highlightedEdges);
        toVisit := toVisit[1..];
        continue;
      }
      ExpandFront(edges, start, visited, toVisit, highlightedNodes, highlightedEdges);
      assert current in Elems(toVisit);
      VisitShrinks(universe, visited, current);
      DistinctSnoc(expansions, current);
      toVisit := toVisit[1..];
      visited := visited + {current};
      highlightedNodes := highlightedNodes + {current};
      expansions := expansions + [current];
      var out := Outgoing(edges, current);
      toVisit, highlightedNodes, highlightedEdges :=
        VisitOutgoing(out, visited, toVisit, highlightedNodes, highlightedEdges);
    }
    SearchEnds(edges, start, visited, highlightedNodes, highlightedEdges);
  }

}
