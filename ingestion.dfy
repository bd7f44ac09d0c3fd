/**
 * Loading an edge file (the `reader.onload` handler of app.js): the header
 * names the columns, every data row that names both endpoints becomes one edge
 * with a fresh id `edge_k`, its endpoints become nodes in order of first
 * appearance, and the row's weight, papers and organizations become the edge's
 * metadata.
 */
module EdgeIngestion {
  import opened Wrappers
  import opened Strings
  import opened CsvParsing
  import opened Graph
  import opened Sequences
  import opened Reachability

  /** What is kept per edge id in `edgeMetadata`. */
  datatype EdgeMeta = EdgeMeta(
    weight: Option<string>,
    papers: seq<string>,
    organizations: seq<string>,
    organizationNames: seq<string>)

  /** Column positions in the header; `None` stands for `indexOf` returning -1. */
  datatype Columns = Columns(
    source: nat,
    target: nat,
    weight: Option<nat>,
    papers: Option<nat>,
    organization: Option<nat>,
    organizationName: Option<nat>)

  datatype LoadError = EmptyFile | MissingSourceOrTarget | NoValidNodes

  /** What a load reports: the counts of the success message, or the error. */
  datatype LoadOutcome = Loaded(nodeCount: nat, edgeCount: nat) | Failed(error: LoadError)

  /** `header.indexOf(name)`: the first position holding `name`. */
  function IndexOf(header: seq<string>, name: string): (r: Option<nat>)
    ensures r.None? <==> name !in header
    ensures r.Some? ==> r.value < |header| && header[r.value] == name && name !in header[..r.value]
    decreases |header|
  {
    if header == [] then None
    else if header[0] == name then Some(0)
    else
      match IndexOf(header[1..], name)
      case None => None
      case Some(k) =>
        assert header[..k + 1] == [header[0]] + header[1..][..k];
        Some(k + 1)
  }

  /** `csv.trim().split('\n')`: the lines of the trimmed text, which they rejoin to. */
  function Lines(csv: string): (lines: seq<string>)
    ensures |lines| == 1 + multiset(Trim(csv))['\n']
    ensures forall line :: line in lines ==> '\n' !in line
    ensures Join(lines, '\n') == Trim(csv)
  {
    SplitCount(Trim(csv), '\n');
    JoinSplit(Trim(csv), '\n');
    SplitOn(Trim(csv), '\n')
  }

  /**
   * `lines[0].split(',').map(h => h.trim())`: the header is split on every
   * comma, quotes or not, into one trimmed, comma-free cell more than it has commas.
   */
  function HeaderCells(line: string): (cells: seq<string>)
    ensures |cells| == |SplitOn(line, ',')| == 1 + multiset(line)[',']
    ensures forall cell :: cell in cells ==> IsTrimmed(cell) && ',' !in cell
    ensures var raw := SplitOn(line, ',');
            forall i :: 0 <= i < |cells| ==> IsCoreAt(raw[i], cells[i], |raw[i]| - |TrimStart(raw[i])|)
  {
    var raw := SplitOn(line, ',');
    SplitCount(line, ',');
    seq(|raw|, i requires 0 <= i < |raw| => Trim(raw[i]))
  }

  /** The column positions, or `None` when `Source` or `Target` is missing. */
  function LocateColumns(header: seq<string>): (r: Option<Columns>)
    ensures r.Some? <==> "Source" in header && "Target" in header
    ensures r.Some? ==> r.value.source < |header| && header[r.value.source] == "Source"
                        && "Source" !in header[..r.value.source]
    ensures r.Some? ==> r.value.target < |header| && header[r.value.target] == "Target"
                        && "Target" !in header[..r.value.target]
    ensures r.Some? ==> r.value.weight == IndexOf(header, "EdgeWeight")
                        && r.value.papers == IndexOf(header, "AffiliatedPapers")
                        && r.value.organization == IndexOf(header, "AffiliatedOrganization")
                        && r.value.organizationName == IndexOf(header, "AffiliatedOrganizationName")
  {
    match (IndexOf(header, "Source"), IndexOf(header, "Target"))
    case (Some(s), Some(t)) =>
      Some(Columns(s, t, IndexOf(header, "EdgeWeight"), IndexOf(header, "AffiliatedPapers"),
                   IndexOf(header, "AffiliatedOrganization"), IndexOf(header, "AffiliatedOrganizationName")))
    case _ => None
  }

  function Max(a: nat, b: nat): nat {
    if a < b then b else a
  }

  /** What one accepted row contributes: its endpoints and its edge's metadata. */
  datatype Row = Row(source: NodeId, target: NodeId, meta: EdgeMeta)

  /** Both endpoints are non-empty and free of surrounding whitespace. */
  predicate CleanEndpoints(row: Row) {
    row.source != "" && IsTrimmed(row.source) && row.target != "" && IsTrimmed(row.target)
  }

  /** What the loop does with one data line. */
  datatype RowVerdict = Blank | TooShort | MissingEndpoint | Accepted(row: Row)

  /**
   * An optional column's cell, trimmed: `''` when the header lacks the column,
   * `undefined` (`None`) when the row is too short to reach it.
   */
  function OptionalCell(parts: seq<string>, column: Option<nat>): (cell: Option<string>)
    ensures cell.None? <==> column.Some? && column.value >= |parts|
    ensures column.None? ==> cell == Some("")
    ensures column.Some? && cell.Some? ==> cell.value == Trim(parts[column.value])
    ensures cell.Some? ==> IsTrimmed(cell.value)
  {
    match column
    case None => Some("")
    case Some(k) => if k < |parts| then Some(Trim(parts[k])) else None
  }

  /**
   * What the row loop decides for a data line: it is blank when it trims to
   * nothing, too short when it has no cell at the `Source` or `Target`
   * position, and accepted exactly when both endpoint cells trim to non-empty
   * ids; an accepted row holds those ids, the raw trimmed weight cell and the
   * parsed list cells. Any other line is skipped for a missing endpoint.
   */
  predicate IsVerdictOn(line: string, columns: Columns, verdict: RowVerdict) {
    var trimmed := Trim(line);
    var parts := CsvFields(trimmed);
    (verdict == Blank <==> trimmed == "")
    && (verdict == TooShort <==> trimmed != "" && |parts| <= Max(columns.source, columns.target))
    && (verdict.Accepted? <==>
          trimmed != "" && |parts| > Max(columns.source, columns.target)
          && Trim(parts[columns.source]) != "" && Trim(parts[columns.target]) != "")
    && (verdict.Accepted? ==>
          verdict.row == Row(Trim(parts[columns.source]), Trim(parts[columns.target]),
                             EdgeMeta(OptionalCell(parts, columns.weight),
                                      ParseListField(OptionalCell(parts, columns.papers)),
                                      ParseListField(OptionalCell(parts, columns.organization)),
                                      ParseListField(OptionalCell(parts, columns.organizationName)))))
  }

  /** One iteration of the row loop: skip a blank, short or endpoint-less row, or accept it. */
  function ClassifyRow(line: string, columns: Columns): (verdict: RowVerdict)
    ensures IsVerdictOn(line, columns, verdict)
    ensures verdict.Accepted? ==> CleanEndpoints(verdict.row)
  {
    var trimmed := Trim(line);
    if trimmed == "" then Blank
    else
      var parts := CsvFields(trimmed);
      if |parts| <= Max(columns.source, columns.target) then TooShort
      else
        var source := Trim(parts[columns.source]);
        var target := Trim(parts[columns.target]);
        if source == "" || target == "" then MissingEndpoint
        else
          var meta := EdgeMeta(OptionalCell(parts, columns.weight),
                               ParseListField(OptionalCell(parts, columns.papers)),
                               ParseListField(OptionalCell(parts, columns.organization)),
                               ParseListField(OptionalCell(parts, columns.organizationName)));
          Accepted(Row(source, target, meta))
  }

  /** The description `IsVerdictOn` leaves no choice: it fixes the verdict on every line. */
  lemma VerdictDetermined(line: string, columns: Columns, verdict: RowVerdict)
    requires IsVerdictOn(line, columns, verdict)
    ensures verdict == ClassifyRow(line, columns)
  {
    var other := ClassifyRow(line, columns);
    if verdict.Accepted? {
      assert other.Accepted?;
    } else if verdict == MissingEndpoint {
      assert !other.Accepted? && other != Blank && other != TooShort;
    }
  }

  /**
   * The body of the row loop up to its `continue`s: trims the line, splits it
   * with `ParseCsvLine`, reads the endpoint and optional cells and parses the
   * list cells.
   */
  method ReadRow(line: string, columns: Columns) returns (verdict: RowVerdict)
    ensures IsVerdictOn(line, columns, verdict)
    ensures verdict == ClassifyRow(line, columns)
  {
    var trimmed := Trim(line);
    if trimmed == "" {
      return Blank;
    }
    var parts := ParseCsvLine(trimmed);
    if |parts| <= Max(columns.source, columns.target) {
      return TooShort;
    }
    var source := Trim(parts[columns.source]);
    var target := Trim(parts[columns.target]);
    var edgeWeight := OptionalCell(parts, columns.weight);
    var papers := OptionalCell(parts, columns.papers);
    var organization := OptionalCell(parts, columns.organization);
    var organizationName := OptionalCell(parts, columns.organizationName);
    if source == "" || target == "" {
      return MissingEndpoint;
    }
    var meta := EdgeMeta(edgeWeight, ParseListField(papers), ParseListField(organization),
                         ParseListField(organizationName));
    return Accepted(Row(source, target, meta));
  }

  /** The id of the edge made from the `k`-th accepted row: `edge_${k}`. */
  function EdgeId(k: nat): string {
    "edge_" + NatToDecimal(k)
  }

  /** Edge ids never repeat within a load. */
  lemma EdgeIdInjective(i: nat, j: nat)
    requires i != j
    ensures EdgeId(i) != EdgeId(j)
  {
    NatToDecimalInjective(i, j);
    assert EdgeId(i)[5..] == NatToDecimal(i);
    assert EdgeId(j)[5..] == NatToDecimal(j);
  }

  /** What a load has built so far: node list, edge list and the metadata map. */
  datatype Ingested = Ingested(nodes: seq<NodeId>, edges: seq<Edge>, metadata: map<string, EdgeMeta>)

  /** Registers `id` unless it is already a node. */
  function AddNode(nodes: seq<NodeId>, id: NodeId): (r: seq<NodeId>)
    ensures forall n :: n in r <==> n in nodes || n == id
    ensures |nodes| <= |r| <= |nodes| + 1 && r[..|nodes|] == nodes
    ensures Distinct(nodes) ==> Distinct(r)
  {
    if id in nodes then nodes
    else
      assert Distinct(nodes) ==> Distinct(nodes + [id]) by {
        if Distinct(nodes) {
          DistinctSnoc(nodes, id);
        }
      }
      nodes + [id]
  }

  /**
   * The effect of one classified data line on what has been built: a skipped
   * line changes nothing; an accepted one registers its endpoints, appends
   * edge `edge_k` for the `k` edges so far, and stores its metadata under that id.
   */
  function AddVerdict(g: Ingested, verdict: RowVerdict): (r: Ingested)
    ensures !verdict.Accepted? ==> r == g
    ensures verdict.Accepted? ==>
              var row := verdict.row;
              (forall n :: n in r.nodes <==> n in g.nodes || n == row.source || n == row.target)
              && |g.nodes| <= |r.nodes| && r.nodes[..|g.nodes|] == g.nodes
              && r.edges == g.edges + [Edge(EdgeId(|g.edges|), row.source, row.target, row.meta.weight)]
              && r.metadata == g.metadata[EdgeId(|g.edges|) := row.meta]
    ensures Distinct(g.nodes) ==> Distinct(r.nodes)
  {
    match verdict
    case Accepted(row) =>
      var id := EdgeId(|g.edges|);
      var withSource := AddNode(g.nodes, row.source);
      assert withSource[..|g.nodes|] == g.nodes;
      Ingested(AddNode(withSource, row.target),
               g.edges + [Edge(id, row.source, row.target, row.meta.weight)],
               g.metadata[id := row.meta])
    case _ => g
  }

  /** What the row loop builds from the verdicts on the data lines, in order. */
  function Build(verdicts: seq<RowVerdict>): Ingested
    decreases |verdicts|
  {
    if verdicts == [] then Ingested([], [], map[])
    else AddVerdict(Build(verdicts[..|verdicts| - 1]), verdicts[|verdicts| - 1])
  }

  /** The verdict on each data line. */
  function Verdicts(rows: seq<string>, columns: Columns): (verdicts: seq<RowVerdict>)
    ensures |verdicts| == |rows|
    ensures forall v :: v in verdicts && v.Accepted? ==> CleanEndpoints(v.row)
    decreases |rows|
  {
    if rows == [] then []
    else Verdicts(rows[..|rows| - 1], columns) + [ClassifyRow(rows[|rows| - 1], columns)]
  }

  /** What the row loop builds from the data lines. */
  function IngestRows(rows: seq<string>, columns: Columns): Ingested {
    Build(Verdicts(rows, columns))
  }

  /** The rows accepted, in order. */
  function AcceptedRows(verdicts: seq<RowVerdict>): seq<Row>
    decreases |verdicts|
  {
    if verdicts == [] then []
    else
      var before := AcceptedRows(verdicts[..|verdicts| - 1]);
      match verdicts[|verdicts| - 1]
      case Accepted(row) => before + [row]
      case _ => before
  }

  /** Both endpoints of every edge, edge by edge: the order the loop meets node ids in. */
  function Endpoints(edges: seq<Edge>): (ends: seq<NodeId>)
    ensures |ends| == 2 * |edges|
    decreases |edges|
  {
    if edges == [] then []
    else Endpoints(edges[..|edges| - 1]) + [edges[|edges| - 1].source, edges[|edges| - 1].target]
  }

  /** The first position of `x` in `s`. */
  function FirstIndex(s: seq<NodeId>, x: NodeId): (i: nat)
    requires x in s
    ensures i < |s| && s[i] == x && x !in s[..i]
    decreases |s|
  {
    if s[0] == x then 0
    else
      var k := FirstIndex(s[1..], x);
      assert s[..k + 1] == [s[0]] + s[1..][..k];
      k + 1
  }

  /** `s` with every repeat dropped, each element kept where it first occurs. */
  function Dedup(s: seq<NodeId>): (d: seq<NodeId>)
    ensures forall x :: x in d <==> x in s
    ensures Distinct(d)
    decreases |s|
  {
    if s == [] then []
    else
      var before := Dedup(s[..|s| - 1]);
      assert forall x :: x in s <==> x in s[..|s| - 1] || x == s[|s| - 1] by {
        assert s == s[..|s| - 1] + [s[|s| - 1]];
      }
      AddNode(before, s[|s| - 1])
  }

  /** In a prefix, first positions are those of the whole sequence. */
  lemma FirstIndexOfPrefix(s: seq<NodeId>, x: NodeId, y: NodeId)
    requires y in s
    ensures FirstIndex(s + [x], y) == FirstIndex(s, y)
  {
    var i := FirstIndex(s, y);
    var t := s + [x];
    assert t[i] == y;
    assert forall k :: 0 <= k < i ==> t[k] != y by {
      assert t[..i] == s[..i];
      forall k | 0 <= k < i ensures t[k] != y {
        assert t[k] == s[..i][k];
      }
    }
    var j := FirstIndex(t, y);
    assert forall k :: 0 <= k < j ==> t[k] != y by {
      forall k | 0 <= k < j ensures t[k] != y {
        assert t[k] == t[..j][k];
      }
    }
  }

  /** Dedup lists elements in the order of their first occurrence. */
  lemma {:induction false} DedupFirstOccurrenceOrder(s: seq<NodeId>)
    ensures forall i, j :: 0 <= i < j < |Dedup(s)| ==>
              FirstIndex(s, Dedup(s)[i]) < FirstIndex(s, Dedup(s)[j])
    decreases |s|
  {
    if s != [] {
      var p, x := s[..|s| - 1], s[|s| - 1];
      SnocLast(s);
      DedupFirstOccurrenceOrder(p);
      var d := Dedup(p);
      forall y | y in p ensures FirstIndex(s, y) == FirstIndex(p, y) {
        FirstIndexOfPrefix(p, x, y);
      }
      if x !in d {
        assert Dedup(s) == d + [x];
        assert FirstIndex(s, x) == |p|;
        forall i, j | 0 <= i < j < |Dedup(s)|
          ensures FirstIndex(s, Dedup(s)[i]) < FirstIndex(s, Dedup(s)[j])
        {
          assert Dedup(s)[i] == d[i] && d[i] in p;
          if j < |d| {
            assert Dedup(s)[j] == d[j] && d[j] in p;
          } else {
            assert FirstIndex(p, d[i]) < |p|;
          }
        }
      } else {
        assert Dedup(s) == d;
        forall i, j | 0 <= i < j < |d|
          ensures FirstIndex(s, d[i]) < FirstIndex(s, d[j])
        {
          assert d[i] in p && d[j] in p;
        }
      }
    }
  }

  /** No node id repeats, and every endpoint is a node. */
  ghost predicate GraphShape(nodes: seq<NodeId>, edges: seq<Edge>) {
    Distinct(nodes)
    && (forall e :: e in edges ==> e.source in nodes && e.target in nodes)
  }

  /** Edge `k` has id `edge_k`. */
  ghost predicate NumberedEdges(edges: seq<Edge>) {
    forall k :: 0 <= k < |edges| ==> edges[k].id == EdgeId(k)
  }

  /** `e`'s endpoints are among the endpoints of `edges`, and only such ids are. */
  lemma {:induction false} EndpointsOf(edges: seq<Edge>)
    ensures forall e :: e in edges ==> e.source in Endpoints(edges) && e.target in Endpoints(edges)
    ensures forall n :: n in Endpoints(edges) ==> exists e :: e in edges && (n == e.source || n == e.target)
    decreases |edges|
  {
    if edges != [] {
      var front, last := edges[..|edges| - 1], edges[|edges| - 1];
      EndpointsOf(front);
      assert edges == front + [last];
      assert forall e :: e in edges ==> e in front || e == last;
      assert forall e :: e in front ==> e in edges;
    }
  }

  lemma DedupSnoc(s: seq<NodeId>, x: NodeId)
    ensures Dedup(s + [x]) == AddNode(Dedup(s), x)
  {
    assert (s + [x])[..|s|] == s;
  }

  lemma EndpointsSnoc(edges: seq<Edge>, e: Edge)
    ensures Endpoints(edges + [e]) == Endpoints(edges) + [e.source] + [e.target]
  {
    DropLastOfAppend(edges, [e]);
    AppendEmpty(edges);
    AppendAssoc(Endpoints(edges), [e.source], [e.target]);
  }

  /** The node list is the endpoint stream with repeats dropped. */
  lemma {:induction false} BuildNodesFirstSeen(verdicts: seq<RowVerdict>)
    ensures Build(verdicts).nodes == Dedup(Endpoints(Build(verdicts).edges))
    decreases |verdicts|
  {
    if verdicts != [] {
      var front, verdict := verdicts[..|verdicts| - 1], verdicts[|verdicts| - 1];
      BuildNodesFirstSeen(front);
      var prev := Build(front);
      if verdict.Accepted? {
        var row := verdict.row;
        var e := Edge(EdgeId(|prev.edges|), row.source, row.target, row.meta.weight);
        var ends := Endpoints(prev.edges);
        EndpointsSnoc(prev.edges, e);
        DedupSnoc(ends, row.source);
        DedupSnoc(ends + [row.source], row.target);
      }
    }
  }

  /**
   * Edge `k` has id `edge_k`, the metadata is keyed exactly by the edge ids,
   * and every edge's endpoints are those of an accepted row.
   */
  lemma {:induction false} BuildEdges(verdicts: seq<RowVerdict>)
    requires forall v :: v in verdicts && v.Accepted? ==> CleanEndpoints(v.row)
    ensures var g := Build(verdicts);
            NumberedEdges(g.edges) && g.metadata.Keys == EdgeIds(g.edges) && CleanEdges(g.edges)
    decreases |verdicts|
  {
    if verdicts != [] {
      var front, verdict := verdicts[..|verdicts| - 1], verdicts[|verdicts| - 1];
      assert verdict in verdicts;
      assert forall v :: v in front ==> v in verdicts;
      BuildEdges(front);
      var prev := Build(front);
      if verdict.Accepted? {
        var row := verdict.row;
        var e := Edge(EdgeId(|prev.edges|), row.source, row.target, row.meta.weight);
        NumberedSnoc(prev.edges, e);
        CleanSnoc(prev.edges, e);
        EdgeIdsSnoc(prev.edges, e);
      }
    }
  }

  /** Both endpoints of every edge are non-empty and free of surrounding whitespace. */
  predicate CleanEdges(edges: seq<Edge>) {
    forall e :: e in edges ==> e.source != "" && IsTrimmed(e.source) && e.target != "" && IsTrimmed(e.target)
  }

  lemma NumberedSnoc(edges: seq<Edge>, e: Edge)
    requires NumberedEdges(edges) && e.id == EdgeId(|edges|)
    ensures NumberedEdges(edges + [e])
  {
    var longer := edges + [e];
    forall k | 0 <= k < |longer| ensures longer[k].id == EdgeId(k) {
      if k < |edges| {
        assert longer[k] == edges[k];
      }
    }
  }

  lemma CleanSnoc(edges: seq<Edge>, e: Edge)
    requires CleanEdges(edges)
    requires e.source != "" && IsTrimmed(e.source) && e.target != "" && IsTrimmed(e.target)
    ensures CleanEdges(edges + [e])
  {
    assert forall x :: x in edges + [e] ==> x in edges || x == e;
  }

  lemma EdgeIdsSnoc(edges: seq<Edge>, e: Edge)
    ensures EdgeIds(edges + [e]) == EdgeIds(edges) + {e.id}
  {
    assert forall x :: x in edges + [e] <==> x in edges || x == e;
  }

  /**
   * What the loop builds from any verdicts: the nodes are exactly the
   * endpoints, deduplicated in order of first appearance, so every edge's
   * endpoints are nodes and no node repeats; edge `k` is `edge_k`; the metadata
   * is keyed exactly by the edge ids; no node id is empty or untrimmed; and
   * there are nodes exactly when there are edges.
   */
  lemma BuildShape(verdicts: seq<RowVerdict>)
    requires forall v :: v in verdicts && v.Accepted? ==> CleanEndpoints(v.row)
    ensures var g := Build(verdicts);
            g.nodes == Dedup(Endpoints(g.edges))
            && GraphShape(g.nodes, g.edges)
            && NumberedEdges(g.edges)
            && g.metadata.Keys == EdgeIds(g.edges)
            && (forall n :: n in g.nodes ==> n != "" && IsTrimmed(n))
            && (g.nodes == [] <==> g.edges == [])
  {
    var g := Build(verdicts);
    BuildNodesFirstSeen(verdicts);
    BuildEdges(verdicts);
    DedupEndpointsShape(g.edges);
  }

  /** Deduplicated endpoints of clean edges form clean, repeat-free nodes that every edge stays within. */
  lemma DedupEndpointsShape(edges: seq<Edge>)
    requires CleanEdges(edges)
    ensures var nodes := Dedup(Endpoints(edges));
            GraphShape(nodes, edges)
            && (forall n :: n in nodes ==> n != "" && IsTrimmed(n))
            && (nodes == [] <==> edges == [])
  {
    var nodes := Dedup(Endpoints(edges));
    EndpointsOf(edges);
    if edges != [] {
      assert edges[0] in edges;
      assert edges[0].source in nodes;
    }
    forall n | n in nodes ensures n != "" && IsTrimmed(n) {
      var e :| e in edges && (n == e.source || n == e.target);
    }
  }

  /** Edge `k` and its metadata come from the `k`-th accepted row: one edge per accepted row. */
  lemma {:induction false} BuildFollowsAcceptedRows(verdicts: seq<RowVerdict>)
    ensures var g := Build(verdicts);
            var accepted := AcceptedRows(verdicts);
            |g.edges| == |accepted|
            && forall k :: 0 <= k < |accepted| ==>
                 g.edges[k] == Edge(EdgeId(k), accepted[k].source, accepted[k].target, accepted[k].meta.weight)
                 && EdgeId(k) in g.metadata && g.metadata[EdgeId(k)] == accepted[k].meta
    decreases |verdicts|
  {
    if verdicts != [] {
      var front := verdicts[..|verdicts| - 1];
      BuildFollowsAcceptedRows(front);
      var prev := Build(front);
      if verdicts[|verdicts| - 1].Accepted? {
        var n := |prev.edges|;
        forall k | 0 <= k < n ensures EdgeId(k) != EdgeId(n) {
          EdgeIdInjective(k, n);
        }
      }
    }
  }

  /** Verdicts that reject their row change nothing, wherever they stand. */
  lemma {:induction false} SkippedVerdictsChangeNothing(before: seq<RowVerdict>, skipped: seq<RowVerdict>,
                                                        after: seq<RowVerdict>)
    requires forall v :: v in skipped ==> !v.Accepted?
    ensures Build(before + skipped + after) == Build(before + after)
    decreases |skipped| + |after|
  {
    if after != [] {
      var front, last := after[..|after| - 1], after[|after| - 1];
      SkippedVerdictsChangeNothing(before, skipped, front);
      SnocLast(after);
      AppendAssoc(before + skipped, front, [last]);
      AppendAssoc(before, front, [last]);
      BuildSnoc(before + skipped + front, last);
      BuildSnoc(before + front, last);
    } else if skipped != [] {
      var front, last := skipped[..|skipped| - 1], skipped[|skipped| - 1];
      assert last in skipped;
      assert forall v :: v in front ==> v in skipped;
      SkippedVerdictsChangeNothing(before, front, []);
      SnocLast(skipped);
      AppendAssoc(before, front, [last]);
      BuildSnoc(before + front, last);
      AppendEmpty(before + skipped);
      AppendEmpty(before + front);
    } else {
      AppendEmpty(before);
    }
  }

  /** One more verdict adds its effect. */
  lemma BuildSnoc(verdicts: seq<RowVerdict>, verdict: RowVerdict)
    ensures Build(verdicts + [verdict]) == AddVerdict(Build(verdicts), verdict)
  {
    DropLastOfAppend(verdicts, [verdict]);
    AppendEmpty(verdicts);
  }

  /**
   * What every load builds from its data lines has the shape of `BuildShape`,
   * and no node id is empty or carries surrounding whitespace.
   */
  lemma IngestShape(rows: seq<string>, columns: Columns)
    ensures var g := IngestRows(rows, columns);
            g.nodes == Dedup(Endpoints(g.edges))
            && GraphShape(g.nodes, g.edges)
            && NumberedEdges(g.edges)
            && g.metadata.Keys == EdgeIds(g.edges)
            && (forall n :: n in g.nodes ==> n != "" && IsTrimmed(n))
            && (g.nodes == [] <==> g.edges == [])
  {
    BuildShape(Verdicts(rows, columns));
  }

  /** The part of `IngestShape` a viewer's state relies on. */
  lemma IngestKeepsValid(rows: seq<string>, columns: Columns)
    ensures var g := IngestRows(rows, columns);
            GraphShape(g.nodes, g.edges)
            && g.metadata.Keys == EdgeIds(g.edges)
            && (g.nodes == [] ==> g.edges == [])
  {
    IngestShape(rows, columns);
  }

  /** Lines the loop skips (blank, short or missing an endpoint) add no node, edge or metadata. */
  lemma SkippedRowsChangeNothing(before: seq<string>, skipped: seq<string>, after: seq<string>,
                                 columns: Columns)
    requires forall line :: line in skipped ==> !ClassifyRow(line, columns).Accepted?
    ensures IngestRows(before + skipped + after, columns) == IngestRows(before + after, columns)
  {
    VerdictsAppend(before + skipped, after, columns);
    VerdictsAppend(before, skipped, columns);
    VerdictsAppend(before, after, columns);
    NoneAccepted(skipped, columns);
    SkippedVerdictsChangeNothing(Verdicts(before, columns), Verdicts(skipped, columns), Verdicts(after, columns));
  }

  /** Lines none of which is accepted get no accepted verdict. */
  lemma {:induction false} NoneAccepted(rows: seq<string>, columns: Columns)
    requires forall line :: line in rows ==> !ClassifyRow(line, columns).Accepted?
    ensures forall v :: v in Verdicts(rows, columns) ==> !v.Accepted?
    decreases |rows|
  {
    if rows != [] {
      var front := rows[..|rows| - 1];
      assert forall line :: line in front ==> line in rows;
      NoneAccepted(front, columns);
      assert rows[|rows| - 1] in rows;
    }
  }

  /** One more data line adds its verdict's effect. */
  lemma IngestRowsSnoc(rows: seq<string>, line: string, columns: Columns)
    ensures IngestRows(rows + [line], columns) == AddVerdict(IngestRows(rows, columns), ClassifyRow(line, columns))
  {
    DropLastOfAppend(rows, [line]);
    assert rows + [line][..0] == rows;
    var vs := Verdicts(rows + [line], columns);
    assert vs == Verdicts(rows, columns) + [ClassifyRow(line, columns)];
    assert vs[..|vs| - 1] == Verdicts(rows, columns);
  }

  /** The row loop's step, stated on prefixes of the data lines. */
  lemma IngestRowsPrefix(rows: seq<string>, i: nat, columns: Columns)
    requires i < |rows|
    ensures IngestRows(rows[..i + 1], columns) == AddVerdict(IngestRows(rows[..i], columns), ClassifyRow(rows[i], columns))
  {
    PrefixSnoc(rows, i);
    IngestRowsSnoc(rows[..i], rows[i], columns);
  }

  /** The verdicts on two runs of lines, one after the other. */
  lemma {:induction false} VerdictsAppend(a: seq<string>, b: seq<string>, columns: Columns)
    ensures Verdicts(a + b, columns) == Verdicts(a, columns) + Verdicts(b, columns)
    decreases |b|
  {
    if b == [] {
      assert a + b == a;
    } else {
      var front, last := b[..|b| - 1], b[|b| - 1];
      VerdictsAppend(a, front, columns);
      DropLastOfAppend(a, b);
      assert (a + b)[|a + b| - 1] == last;
      AppendAssoc(Verdicts(a, columns), Verdicts(front, columns), [ClassifyRow(last, columns)]);
    }
  }

  /** A node id that can be written bare in a cell: non-empty, trimmed, with no comma or quote. */
  predicate PlainId(id: string) {
    id != "" && IsTrimmed(id) && ',' !in id && '"' !in id
  }

  /** The columns of the header `Source,Target`. */
  const PairColumns := Columns(0, 1, None, None, None, None)

  /** The metadata of a row with no optional columns: raw weight `''`, no list items. */
  const BareMeta := EdgeMeta(Some(""), [], [], [])

  /** The line `a,b` of two bare ids is already trimmed and parses to the cells `a` and `b`. */
  lemma PairLineFields(a: string, b: string)
    requires PlainId(a) && PlainId(b)
    ensures Trim(a + "," + b) == a + "," + b
    ensures CsvFields(a + "," + b) == [a, b]
  {
    var line := a + "," + b;
    assert Join([a, b], ',') == line by {
      assert [a, b][1..] == [b];
    }
    SplitJoin([a, b], ',');
    assert '"' !in line;
    UnquotedLineRoundTrip(line);
    assert line[0] == a[0] && line[|line| - 1] == b[|b| - 1];
    assert IsTrimmed(line);
  }

  /** Under the header `Source,Target`, the line `a,b` is accepted as an edge from `a` to `b`. */
  lemma PairRow(a: string, b: string)
    requires PlainId(a) && PlainId(b)
    ensures ClassifyRow(a + "," + b, PairColumns) == Accepted(Row(a, b, BareMeta))
  {
    PairLineFields(a, b);
    assert Trim(a) == a && Trim(b) == b;
  }

  /** Two data lines get the verdicts on each, in order. */
  lemma VerdictsOfTwo(x: string, y: string, columns: Columns)
    ensures Verdicts([x, y], columns) == [ClassifyRow(x, columns), ClassifyRow(y, columns)]
  {
    assert [x, y][..1] == [x];
    assert [x][..0] == [];
  }

  /** The lines `a,b` and `b,c` are both accepted. */
  lemma PairVerdicts(a: string, b: string, c: string)
    requires PlainId(a) && PlainId(b) && PlainId(c)
    ensures Verdicts([a + "," + b, b + "," + c], PairColumns)
            == [Accepted(Row(a, b, BareMeta)), Accepted(Row(b, c, BareMeta))]
  {
    VerdictsOfTwo(a + "," + b, b + "," + c, PairColumns);
    PairRow(a, b);
    PairRow(b, c);
  }

  /** Two verdicts are applied to the empty graph one after the other. */
  lemma BuildOfTwo(v: RowVerdict, w: RowVerdict)
    ensures Build([v, w]) == AddVerdict(AddVerdict(Ingested([], [], map[]), v), w)
  {
    BuildSnoc([], v);
    AppendEmpty([v]);
    BuildSnoc([v], w);
  }

  /** Accepting `a`-`b` and then `b`-`c` builds the path a, b, c. */
  lemma PairBuild(a: string, b: string, c: string)
    requires a != b && b != c && a != c
    ensures Build([Accepted(Row(a, b, BareMeta)), Accepted(Row(b, c, BareMeta))])
            == Ingested([a, b, c],
                        [Edge(EdgeId(0), a, b, Some("")), Edge(EdgeId(1), b, c, Some(""))],
                        map[EdgeId(0) := BareMeta, EdgeId(1) := BareMeta])
  {
    BuildOfTwo(Accepted(Row(a, b, BareMeta)), Accepted(Row(b, c, BareMeta)));
    FirstPair(a, b);
    SecondPair(a, b, c);
  }

  /** The first accepted row registers both its endpoints and makes `edge_0`. */
  lemma FirstPair(a: string, b: string)
    requires a != b
    ensures AddVerdict(Ingested([], [], map[]), Accepted(Row(a, b, BareMeta)))
            == Ingested([a, b], [Edge(EdgeId(0), a, b, Some(""))], map[EdgeId(0) := BareMeta])
  {
    var r := AddVerdict(Ingested([], [], map[]), Accepted(Row(a, b, BareMeta)));
    assert r.nodes == [a, b] by {
      assert AddNode([], a) == [a];
      assert AddNode([a], b) == [a, b];
    }
    assert r.edges == [] + [Edge(EdgeId(0), a, b, Some(""))];
  }

  /** The second row registers only its new target and makes `edge_1`. */
  lemma SecondPair(a: string, b: string, c: string)
    requires a != b && b != c && a != c
    ensures AddVerdict(Ingested([a, b], [Edge(EdgeId(0), a, b, Some(""))], map[EdgeId(0) := BareMeta]),
                       Accepted(Row(b, c, BareMeta)))
            == Ingested([a, b, c],
                        [Edge(EdgeId(0), a, b, Some("")), Edge(EdgeId(1), b, c, Some(""))],
                        map[EdgeId(0) := BareMeta, EdgeId(1) := BareMeta])
  {
    var r := AddVerdict(Ingested([a, b], [Edge(EdgeId(0), a, b, Some(""))], map[EdgeId(0) := BareMeta]),
                        Accepted(Row(b, c, BareMeta)));
    assert r.nodes == [a, b, c] by {
      assert AddNode([a, b], b) == [a, b];
      assert AddNode([a, b], c) == [a, b, c];
    }
  }

  /**
   * The file `Source,Target` / `a,b` / `b,c` loads as three nodes `a`, `b`, `c`
   * and the two edges `edge_0` (a to b) and `edge_1` (b to c), each with raw
   * weight `''` and no list items.
   */
  lemma PairExample(a: string, b: string, c: string)
    requires PlainId(a) && PlainId(b) && PlainId(c)
    requires a != b && b != c && a != c
    ensures var g := IngestRows([a + "," + b, b + "," + c], PairColumns);
            g.nodes == [a, b, c]
            && g.edges == [Edge(EdgeId(0), a, b, Some("")), Edge(EdgeId(1), b, c, Some(""))]
            && g.metadata == map[EdgeId(0) := BareMeta, EdgeId(1) := BareMeta]
  {
    PairVerdicts(a, b, c);
    PairBuild(a, b, c);
  }

  /** The header `Source,Target` locates the endpoints at 0 and 1 and no optional column. */
  lemma PairHeader()
    ensures LocateColumns(["Source", "Target"]) == Some(PairColumns)
  {
    var header := ["Source", "Target"];
    assert header[1..] == ["Target"];
    assert header[1..][1..] == [];
  }

  /**
   * The viewer's session state: the graph on the render surface (node list and
   * edge list) and the global `edgeMetadata` map.
   */
  class GraphViewer {
    var nodes: seq<NodeId>
    var edges: seq<Edge>
    var edgeMetadata: map<string, EdgeMeta>

    /** The graph is well shaped and metadata exists only for edges on the surface. */
    ghost predicate Valid()
      reads this
    {
      GraphShape(nodes, edges) && edgeMetadata.Keys <= EdgeIds(edges)
    }

    /** An empty surface and an empty metadata map. */
    constructor ()
      ensures Valid()
      ensures nodes == [] && edges == [] && edgeMetadata == map[]
    {
      nodes := [];
      edges := [];
      edgeMetadata := map[];
    }

    /** Adds `id` to the node list unless `nodeSet`, which mirrors the list, already holds it. */
    static method RegisterNode(nodes: seq<NodeId>, nodeSet: set<NodeId>, id: NodeId)
      returns (nodes': seq<NodeId>, nodeSet': set<NodeId>)
      requires forall n :: n in nodeSet <==> n in nodes
      ensures nodes' == AddNode(nodes, id)
      ensures forall n :: n in nodeSet' <==> n in nodes'
    {
      nodes', nodeSet' := nodes, nodeSet;
      if id !in nodeSet {
        nodeSet' := nodeSet + {id};
        nodes' := nodes + [id];
      }
    }

    /**
     * The row loop: reads each data line in order and grows the node list, the
     * edge list and `edgeMetadata`, which it expects to start empty.
     */
    method IngestDataLines(rows: seq<string>, columns: Columns) returns (newNodes: seq<NodeId>, newEdges: seq<Edge>)
      requires edgeMetadata == map[]
      modifies `edgeMetadata
      ensures Ingested(newNodes, newEdges, edgeMetadata) == IngestRows(rows, columns)
    {
      newNodes := [];
      newEdges := [];
      var nodeSet: set<NodeId> := {};
      var edgeCount := 0;
      for i := 0 to |rows|
        invariant Ingested(newNodes, newEdges, edgeMetadata) == IngestRows(rows[..i], columns)
        invariant forall n :: n in nodeSet <==> n in newNodes
        invariant edgeCount == |newEdges|
      {
        ghost var before := Ingested(newNodes, newEdges, edgeMetadata);
        var verdict := ReadRow(rows[i], columns);
        IngestRowsPrefix(rows, i, columns);
        if !verdict.Accepted? {
          assert AddVerdict(before, verdict) == before;
          continue;
        }
        var source, target, meta := verdict.row.source, verdict.row.target, verdict.row.meta;
        newNodes, nodeSet := RegisterNode(newNodes, nodeSet, source);
        newNodes, nodeSet := RegisterNode(newNodes, nodeSet, target);
        var edgeId := EdgeId(edgeCount);
        edgeCount := edgeCount + 1;
        newEdges := newEdges + [Edge(edgeId, source, target, meta.weight)];
        edgeMetadata := edgeMetadata[edgeId := meta];
        assert Ingested(newNodes, newEdges, edgeMetadata) == AddVerdict(before, verdict);
      }
      assert rows[..|rows|] == rows;
    }

    /**
     * Everything after the header: clears `edgeMetadata`, runs the row loop, and
     * replaces the graph with what it built unless no node was found.
     */
    method LoadDataLines(rows: seq<string>, columns: Columns) returns (outcome: LoadOutcome)
      requires Valid()
      modifies this
      ensures Valid()
      ensures var g := IngestRows(rows, columns);
              edgeMetadata == g.metadata
              && if g.nodes == [] then
                   outcome == Failed(NoValidNodes) && nodes == old(nodes) && edges == old(edges)
                 else
                   outcome == Loaded(|g.nodes|, |g.edges|) && nodes == g.nodes && edges == g.edges
    {
      edgeMetadata := map[];
      var newNodes, newEdges := IngestDataLines(rows, columns);
      IngestKeepsValid(rows, columns);
      if newNodes == [] {
        return Failed(NoValidNodes);
      }
      nodes := newNodes;
      edges := newEdges;
      outcome := Loaded(|nodes|, |edges|);
    }

    /**
     * Hovering over a node of the surface: highlights what `highlightReachableNodes`
     * finds from it, which stays within the surface's nodes and edges.
     */
    method HoverNode(start: NodeId) returns (highlightedNodes: set<NodeId>, highlightedEdges: set<string>)
      requires Valid() && start in nodes
      ensures forall v :: v in highlightedNodes <==> Reachable(edges, start, v)
      ensures highlightedEdges == set e | e in edges && Reachable(edges, start, e.source) :: e.id
      ensures forall v :: v in highlightedNodes ==> v in nodes
      ensures highlightedEdges <= EdgeIds(edges)
    {
      ghost var expansions;
      highlightedNodes, highlightedEdges, expansions := HighlightReachableNodes(edges, start);
      ClosedSetHoldsReachable(edges, (set n | n in nodes), start);
    }

    /**
     * The `reader.onload` handler without its messages and layout call. Fails,
     * changing nothing, on text with fewer than two lines or a header without
     * `Source` or `Target`. Otherwise it clears and refills `edgeMetadata`, and
     * replaces the graph only if some row was accepted.
     */
    method LoadEdgeFile(csv: string) returns (outcome: LoadOutcome)
      requires Valid()
      modifies this
      ensures Valid()
      ensures var lines := Lines(csv);
              if |lines| < 2 then
                outcome == Failed(EmptyFile) && unchanged(this)
              else
                match LocateColumns(HeaderCells(lines[0]))
                case None => outcome == Failed(MissingSourceOrTarget) && unchanged(this)
                case Some(columns) =>
                  var g := IngestRows(lines[1..], columns);
                  edgeMetadata == g.metadata
                  && if g.nodes == [] then
                       outcome == Failed(NoValidNodes) && nodes == old(nodes) && edges == old(edges)
                     else
                       outcome == Loaded(|g.nodes|, |g.edges|) && nodes == g.nodes && edges == g.edges
    {
      var lines := Lines(csv);
      if |lines| < 2 {
        return Failed(EmptyFile);
      }
      var header := HeaderCells(lines[0]);
      var located := LocateColumns(header);
      if located.None? {
        return Failed(MissingSourceOrTarget);
      }
      var columns := located.value;
      outcome := LoadDataLines(lines[1..], columns);
    }
  }

}
