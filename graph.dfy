/** The graph the viewer draws: nodes named by string ids and directed edges between them. */
module Graph {
  import opened Wrappers

  type NodeId = string

  /**
   * An edge as handed to the render surface: its synthetic id, its endpoints
   * and the raw weight cell (`None` where the row had no such cell).
   */
  datatype Edge = Edge(id: string, source: NodeId, target: NodeId, weight: Option<string>)

  /** The ids of a list of edges. */
  function EdgeIds(edges: seq<Edge>): set<string> {
    set e | e in edges :: e.id
  }

  /** No element occurs twice. */
  predicate Distinct<T(==)>(s: seq<T>) {
    forall i, j :: 0 <= i < j < |s| ==> s[i] != s[j]
  }

  /** Appending a new element keeps a list free of repeats. */
  lemma DistinctSnoc<T>(s: seq<T>, x: T)
    requires Distinct(s) && x !in s
    ensures Distinct(s + [x])
  {
    var t := s + [x];
    forall i, j | 0 <= i < j < |t| ensures t[i] != t[j] {
      if j == |s| {
        assert t[i] == s[i];
      }
    }
  }

}
