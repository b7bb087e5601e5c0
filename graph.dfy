/**
 * `build_graph` of article_info_network_generator.py: one association
 * network per category, built row by row. The builder remembers the node
 * ids and edge keys it has added; the calls it makes on the network object
 * (`add_node`, `add_edge`) are kept, in order, as a log.
 */
module Graph {
  import opened Wrappers
  import opened Text
  import opened Seqs
  import opened Network
  import opened Csv

  /** One call on the network object. */
  datatype Call =
    | AddNode(id: string, name: string, shape: string, color: string)
    | AddEdge(source: string, target: string)

  const ARTICLE_PREFIX: string := "ARTICLE::"

  function ArticleId(article: string): string {
    ARTICLE_PREFIX + article
  }

  /** An entity's node id: the upper-cased column name, "::", the item. */
  function EntityId(column: string, item: string): string {
    Upper(column) + "::" + item
  }

  /** The `add_node` call for an article: labelled with its name, drawn as a light blue box. */
  function ArticleNode(article: string): Call {
    AddNode(ArticleId(article), article, "box", "lightblue")
  }

  /** The `add_node` call for an item: labelled with the item, drawn as a light green ellipse. */
  function ItemNode(column: string, item: string): Call {
    AddNode(EntityId(column, item), item, "ellipse", "lightgreen")
  }

  /**
   * `str(row["Article Name"]).strip()`. A missing cell is read as NaN, whose
   * string is "nan", so it names an article "nan".
   */
  function ArticleName(cell: Option<string>): string {
    match cell
    case None => "nan"
    case Some(s) => Strip(s)
  }

  // ---------------------------------------------------------------------
  // What the graph should contain
  // ---------------------------------------------------------------------

  /** The edges from one article node to the nodes of the given items. */
  function ItemEdges(aid: string, column: string, items: seq<string>): set<(string, string)> {
    if items == [] then {}
    else ItemEdges(aid, column, items[..|items| - 1]) + {(aid, EntityId(column, items[|items| - 1]))}
  }

  /** The node ids of the given items. */
  function ItemNodes(column: string, items: seq<string>): set<string> {
    if items == [] then {}
    else ItemNodes(column, items[..|items| - 1]) + {EntityId(column, items[|items| - 1])}
  }

  /** The `add_node` calls for the given items. */
  function ItemNodeCalls(column: string, items: seq<string>): set<Call> {
    if items == [] then {}
    else ItemNodeCalls(column, items[..|items| - 1]) + {ItemNode(column, items[|items| - 1])}
  }

  /** A row as `build_graph` reads it: its stripped article name and its items. */
  type Parsed = (string, seq<string>)

  /** The rows of a table as `build_graph` reads them. */
  function ParseRows(rows: seq<(Option<string>, Option<string>)>): (parsed: seq<Parsed>)
    ensures |parsed| == |rows|
    ensures forall i :: 0 <= i < |rows| ==> parsed[i] == (ArticleName(rows[i].0), UpperItems(rows[i].1))
  {
    if rows == [] then []
    else
      var last := rows[|rows| - 1];
      ParseRows(rows[..|rows| - 1]) + [(ArticleName(last.0), UpperItems(last.1))]
  }

  /** The edges one row contributes: its article to each of its items. */
  function RowEdges(column: string, row: Parsed): set<(string, string)> {
    if row.0 == [] then {} else ItemEdges(ArticleId(row.0), column, row.1)
  }

  /** The nodes one row contributes: nothing unless it has an article and an item. */
  function RowNodes(column: string, row: Parsed): set<string> {
    if row.0 == [] || row.1 == [] then {} else {ArticleId(row.0)} + ItemNodes(column, row.1)
  }

  /** The `add_node` calls one row may make: none unless it has an article and an item. */
  function RowNodeCalls(column: string, row: Parsed): set<Call> {
    if row.0 == [] || row.1 == [] then {} else {ArticleNode(row.0)} + ItemNodeCalls(column, row.1)
  }

  /**
   * The calls one item of a row makes: its node, labelled with the item and
   * drawn as a light green ellipse, unless that id was added already, then
   * the edge from the article, unless that pair was added already.
   */
  function LinkCalls(nodes: set<string>, edges: set<(string, string)>, aid: string, column: string, item: string): seq<Call> {
    var eid := EntityId(column, item);
    (if eid in nodes then [] else [AddNode(eid, item, "ellipse", "lightgreen")])
    + (if (aid, eid) in edges then [] else [AddEdge(aid, eid)])
  }

  /** The edges of the graph for a table: the distinct (article, item) pairs. */
  function GraphEdges(column: string, rows: seq<Parsed>): set<(string, string)> {
    if rows == [] then {}
    else GraphEdges(column, rows[..|rows| - 1]) + RowEdges(column, rows[|rows| - 1])
  }

  /** The nodes of the graph for a table. */
  function GraphNodes(column: string, rows: seq<Parsed>): set<string> {
    if rows == [] then {}
    else GraphNodes(column, rows[..|rows| - 1]) + RowNodes(column, rows[|rows| - 1])
  }

  /** The `add_node` calls the table may make, with their labels, shapes and colours. */
  function GraphNodeCalls(column: string, rows: seq<Parsed>): set<Call> {
    if rows == [] then {}
    else GraphNodeCalls(column, rows[..|rows| - 1]) + RowNodeCalls(column, rows[|rows| - 1])
  }

  /** One more row adds its own edges, nodes and node calls to the graph. */
  lemma GraphAppend(column: string, rows: seq<Parsed>, row: Parsed)
    ensures GraphEdges(column, rows + [row]) == GraphEdges(column, rows) + RowEdges(column, row)
    ensures GraphNodes(column, rows + [row]) == GraphNodes(column, rows) + RowNodes(column, row)
    ensures GraphNodeCalls(column, rows + [row]) == GraphNodeCalls(column, rows) + RowNodeCalls(column, row)
  {
    assert (rows + [row])[..|rows|] == rows;
  }

  // ---------------------------------------------------------------------
  // The call log
  // ---------------------------------------------------------------------

  /** The ids of the nodes added so far. */
  function NodeIds(calls: seq<Call>): set<string> {
    if calls == [] then {}
    else
      var last := calls[|calls| - 1];
      NodeIds(calls[..|calls| - 1]) + (if last.AddNode? then {last.id} else {})
  }

  /** The `add_node` calls made so far, with their labels, shapes and colours. */
  function NodeCalls(calls: seq<Call>): set<Call> {
    if calls == [] then {}
    else
      var last := calls[|calls| - 1];
      NodeCalls(calls[..|calls| - 1]) + (if last.AddNode? then {last} else {})
  }

  /** The (source, target) keys of the edges added so far. */
  function EdgeSet(calls: seq<Call>): set<(string, string)> {
    if calls == [] then {}
    else
      var last := calls[|calls| - 1];
      EdgeSet(calls[..|calls| - 1]) + (if last.AddEdge? then {(last.source, last.target)} else {})
  }

  /** The ids that are an end of some edge. */
  function Endpoints(calls: seq<Call>): set<string> {
    if calls == [] then {}
    else
      var last := calls[|calls| - 1];
      Endpoints(calls[..|calls| - 1]) + (if last.AddEdge? then {last.source, last.target} else {})
  }

  /** The edges, in the order they were added. */
  function EdgeList(calls: seq<Call>): (es: seq<(string, string)>)
    ensures forall e :: e in es <==> e in EdgeSet(calls)
  {
    if calls == [] then []
    else
      var last := calls[|calls| - 1];
      EdgeList(calls[..|calls| - 1]) + (if last.AddEdge? then [(last.source, last.target)] else [])
  }

  /**
   * The log's own invariant, call by call: a node is added only under a new
   * id, an edge only under a new key and only between nodes already added.
   */
  predicate WellLogged(calls: seq<Call>) {
    calls == [] ||
    var init := calls[..|calls| - 1];
    var last := calls[|calls| - 1];
    && WellLogged(init)
    && match last
       case AddNode(id, _, _, _) => id !in NodeIds(init)
       case AddEdge(s, t) => (s, t) !in EdgeSet(init) && s in NodeIds(init) && t in NodeIds(init)
  }

  /** Adding a node with a new id. */
  lemma AppendNode(calls: seq<Call>, c: Call)
    requires WellLogged(calls) && c.AddNode? && c.id !in NodeIds(calls)
    ensures WellLogged(calls + [c])
    ensures NodeIds(calls + [c]) == NodeIds(calls) + {c.id}
    ensures NodeCalls(calls + [c]) == NodeCalls(calls) + {c}
    ensures EdgeSet(calls + [c]) == EdgeSet(calls)
    ensures Endpoints(calls + [c]) == Endpoints(calls)
  {
    assert (calls + [c])[..|calls|] == calls;
  }

  /** Adding a new edge between two added nodes. */
  lemma AppendEdge(calls: seq<Call>, c: Call)
    requires WellLogged(calls) && c.AddEdge?
    requires (c.source, c.target) !in EdgeSet(calls)
    requires c.source in NodeIds(calls) && c.target in NodeIds(calls)
    ensures WellLogged(calls + [c])
    ensures NodeIds(calls + [c]) == NodeIds(calls)
    ensures NodeCalls(calls + [c]) == NodeCalls(calls)
    ensures EdgeSet(calls + [c]) == EdgeSet(calls) + {(c.source, c.target)}
    ensures Endpoints(calls + [c]) == Endpoints(calls) + {c.source, c.target}
  {
    assert (calls + [c])[..|calls|] == calls;
  }

  /** Every end of a logged edge is a logged node. */
  lemma {:induction false} EndpointsAreNodes(calls: seq<Call>)
    requires WellLogged(calls)
    ensures Endpoints(calls) <= NodeIds(calls)
  {
    if calls != [] {
      EndpointsAreNodes(calls[..|calls| - 1]);
    }
  }

  /** A logged edge's ends are among the endpoints. */
  lemma {:induction false} EdgeEnds(calls: seq<Call>, s: string, t: string)
    requires (s, t) in EdgeSet(calls)
    ensures s in Endpoints(calls) && t in Endpoints(calls)
  {
    var init := calls[..|calls| - 1];
    if (s, t) in EdgeSet(init) {
      EdgeEnds(init, s, t);
    }
  }

  // ---------------------------------------------------------------------
  // The builder
  // ---------------------------------------------------------------------

  class GraphBuilder {
    /** The category column this network links articles to. */
    const column: string
    var seenNodes: set<string>
    var seenEdges: set<(string, string)>
    /** The calls made on the network object so far. */
    var calls: seq<Call>
    /** The rows processed so far, as `build_graph` reads them. */
    ghost var rows: seq<Parsed>

    /**
     * The seen sets are exactly the logged node ids and edges, the log is
     * well formed, every node is the end of an edge, the graph holds
     * exactly the nodes and edges the processed rows call for, and every
     * node was added with the label, shape and colour its row gives it.
     */
    ghost predicate Valid()
      reads this
    {
      && seenNodes == NodeIds(calls)
      && seenEdges == EdgeSet(calls)
      && WellLogged(calls)
      && NodeIds(calls) == Endpoints(calls)
      && seenEdges == GraphEdges(column, rows)
      && seenNodes == GraphNodes(column, rows)
      && NodeCalls(calls) <= GraphNodeCalls(column, rows)
    }

    constructor(column: string)
      ensures Valid()
      ensures this.column == column && calls == [] && rows == []
    {
      this.column := column;
      seenNodes := {};
      seenEdges := {};
      calls := [];
      rows := [];
    }

    /** The log invariant and the seen sets, without the link to the rows. */
    ghost predicate Logged()
      reads this
    {
      && seenNodes == NodeIds(calls)
      && seenEdges == EdgeSet(calls)
      && WellLogged(calls)
    }

    /**
     * One pass of `build_graph`'s loop. A row with a blank article name or no
     * items adds nothing; otherwise the article node (once per title), each
     * item's node (once per id) and each article-item edge (once per pair).
     */
    method AddRow(articleCell: Option<string>, entityCell: Option<string>)
      requires Valid()
      modifies this
      ensures Valid()
      ensures rows == old(rows) + [(ArticleName(articleCell), UpperItems(entityCell))]
      ensures |old(calls)| <= |calls| && calls[..|old(calls)|] == old(calls)
      ensures ArticleName(articleCell) == [] || UpperItems(entityCell) == [] ==> calls == old(calls)
    {
      var article := ArticleName(articleCell);
      var items := ParseItemsToUpper(entityCell);
      AddParsed(article, items);
    }

    /** The graph part of a row, once its cells are parsed. */
    method AddParsed(article: string, items: seq<string>)
      requires Valid()
      modifies this
      ensures Valid()
      ensures rows == old(rows) + [(article, items)]
      ensures |old(calls)| <= |calls| && calls[..|old(calls)|] == old(calls)
      ensures article == [] || items == [] ==> calls == old(calls)
    {
      if article != [] && items != [] {
        AddLinked(article, items);
      }
      GraphAppend(column, rows, (article, items));
      rows := rows + [(article, items)];
    }

    /** A row with an article and items: its article node, then its items. */
    method AddLinked(article: string, items: seq<string>)
      requires Logged() && NodeIds(calls) == Endpoints(calls)
      requires article != [] && items != []
      modifies this
      ensures Logged() && NodeIds(calls) == Endpoints(calls)
      ensures seenEdges == old(seenEdges) + RowEdges(column, (article, items))
      ensures seenNodes == old(seenNodes) + RowNodes(column, (article, items))
      ensures NodeCalls(calls) <= old(NodeCalls(calls)) + RowNodeCalls(column, (article, items))
      ensures |old(calls)| <= |calls| && calls[..|old(calls)|] == old(calls)
      ensures rows == old(rows)
    {
      var aid := ArticleId(article);
      AddArticle(aid, article);
      LinkItems(aid, items);
    }

    /** The article node, unless a row with the same title added it already. */
    method AddArticle(aid: string, article: string)
      requires Logged() && NodeIds(calls) == Endpoints(calls)
      modifies this
      ensures Logged()
      ensures NodeIds(calls) == Endpoints(calls) + {aid}
      ensures seenNodes == old(seenNodes) + {aid} && seenEdges == old(seenEdges)
      ensures calls == old(calls) + (if aid in old(seenNodes) then [] else [AddNode(aid, article, "box", "lightblue")])
      ensures NodeCalls(calls) <= old(NodeCalls(calls)) + {AddNode(aid, article, "box", "lightblue")}
      ensures rows == old(rows)
    {
      if aid !in seenNodes {
        AppendNode(calls, AddNode(aid, article, "box", "lightblue"));
        calls := calls + [AddNode(aid, article, "box", "lightblue")];
        seenNodes := seenNodes + {aid};
      }
    }

    /** The items' nodes and the article's edges to them, each at most once. */
    method LinkItems(aid: string, items: seq<string>)
      requires Logged() && aid in seenNodes && items != []
      requires NodeIds(calls) == Endpoints(calls) + {aid}
      modifies this
      ensures Logged()
      ensures NodeIds(calls) == Endpoints(calls)
      ensures seenEdges == old(seenEdges) + ItemEdges(aid, column, items)
      ensures seenNodes == old(seenNodes) + ItemNodes(column, items)
      ensures NodeCalls(calls) <= old(NodeCalls(calls)) + ItemNodeCalls(column, items)
      ensures |old(calls)| <= |calls| && calls[..|old(calls)|] == old(calls)
      ensures rows == old(rows)
    {
      ghost var nodes0, edges0, nodeCalls0, calls0 := seenNodes, seenEdges, NodeCalls(calls), calls;
      assert items[..0] == [];
      for k := 0 to |items|
        invariant LinkedUpTo(aid, items, k, nodes0, edges0, nodeCalls0, calls0)
        invariant rows == old(rows)
      {
        LinkNext(aid, items, k, nodes0, edges0, nodeCalls0, calls0);
      }
      assert items[..|items|] == items;
    }

    /** The state after linking the first `k` items, from the given start. */
    ghost predicate LinkedUpTo(aid: string, items: seq<string>, k: nat,
      nodes0: set<string>, edges0: set<(string, string)>, nodeCalls0: set<Call>, calls0: seq<Call>)
      reads this
    {
      && k <= |items|
      && Logged() && aid in seenNodes
      && NodeIds(calls) == Endpoints(calls) + (if k == 0 then {aid} else {})
      && seenEdges == edges0 + ItemEdges(aid, column, items[..k])
      && seenNodes == nodes0 + ItemNodes(column, items[..k])
      && NodeCalls(calls) <= nodeCalls0 + ItemNodeCalls(column, items[..k])
      && |calls0| <= |calls| && calls[..|calls0|] == calls0
    }

    /** One pass of the item loop: link item `k`. */
    method LinkNext(aid: string, items: seq<string>, k: nat,
      ghost nodes0: set<string>, ghost edges0: set<(string, string)>, ghost nodeCalls0: set<Call>, ghost calls0: seq<Call>)
      requires k < |items| && LinkedUpTo(aid, items, k, nodes0, edges0, nodeCalls0, calls0)
      modifies this
      ensures LinkedUpTo(aid, items, k + 1, nodes0, edges0, nodeCalls0, calls0)
      ensures rows == old(rows)
    {
      LinkStep(aid, column, items, k);
      Link(aid, items[k]);
    }

    /** One item: its node unless seen, then the edge to it unless seen. */
    method Link(aid: string, item: string)
      requires Logged() && aid in seenNodes
      modifies this
      ensures Logged()
      ensures seenNodes == old(seenNodes) + {EntityId(column, item)}
      ensures seenEdges == old(seenEdges) + {(aid, EntityId(column, item))}
      ensures Endpoints(calls) == old(Endpoints(calls)) + {aid, EntityId(column, item)}
      ensures calls == old(calls) + LinkCalls(old(seenNodes), old(seenEdges), aid, column, item)
      ensures NodeCalls(calls) <= old(NodeCalls(calls)) + {ItemNode(column, item)}
      ensures |old(calls)| <= |calls| && calls[..|old(calls)|] == old(calls)
      ensures rows == old(rows)
    {
      var eid := EntityId(column, item);
      ghost var calls0 := calls;
      AddItemNode(eid, item);
      ghost var calls1 := calls;
      AddItemEdge(aid, eid);
      AppendAssoc(calls0, calls1[|calls0|..], calls[|calls1|..]);
    }

    /** An item's node, labelled with the item, unless its id was added already. */
    method AddItemNode(eid: string, item: string)
      requires Logged()
      modifies this
      ensures Logged()
      ensures seenNodes == old(seenNodes) + {eid} && seenEdges == old(seenEdges)
      ensures Endpoints(calls) == old(Endpoints(calls))
      ensures calls == old(calls) + (if eid in old(seenNodes) then [] else [AddNode(eid, item, "ellipse", "lightgreen")])
      ensures NodeCalls(calls) <= old(NodeCalls(calls)) + {AddNode(eid, item, "ellipse", "lightgreen")}
      ensures rows == old(rows)
    {
      if eid !in seenNodes {
        AppendNode(calls, AddNode(eid, item, "ellipse", "lightgreen"));
        calls := calls + [AddNode(eid, item, "ellipse", "lightgreen")];
        seenNodes := seenNodes + {eid};
      }
    }

    /** The edge from the article to an item, unless that pair was added already. */
    method AddItemEdge(aid: string, eid: string)
      requires Logged() && aid in seenNodes && eid in seenNodes
      modifies this
      ensures Logged()
      ensures seenNodes == old(seenNodes) && seenEdges == old(seenEdges) + {(aid, eid)}
      ensures Endpoints(calls) == old(Endpoints(calls)) + {aid, eid}
      ensures calls == old(calls) + (if (aid, eid) in old(seenEdges) then [] else [AddEdge(aid, eid)])
      ensures NodeCalls(calls) == old(NodeCalls(calls))
      ensures rows == old(rows)
    {
      if (aid, eid) !in seenEdges {
        AppendEdge(calls, AddEdge(aid, eid));
        calls := calls + [AddEdge(aid, eid)];
        seenEdges := seenEdges + {(aid, eid)};
      } else {
        EdgeEnds(calls, aid, eid);
      }
    }
  }

  /** `build_graph`'s loop over the rows of the table. */
  method BuildGraph(column: string, rows: seq<(Option<string>, Option<string>)>) returns (g: GraphBuilder)
    ensures fresh(g) && g.Valid()
    ensures g.column == column && g.rows == ParseRows(rows)
    ensures BuiltFrom(g.calls, column, rows)
  {
    g := new GraphBuilder(column);
    for i := 0 to |rows|
      invariant g.Valid() && g.column == column && g.rows == ParseRows(rows[..i])
    {
      assert rows[..i + 1][..i] == rows[..i];
      g.AddRow(rows[i].0, rows[i].1);
    }
    assert rows[..|rows|] == rows;
  }

  /**
   * A call log that builds exactly the graph the rows call for, without
   * isolated nodes, each node added with its row's label, shape and colour.
   */
  ghost predicate BuiltFrom(calls: seq<Call>, column: string, rows: seq<(Option<string>, Option<string>)>) {
    && WellLogged(calls)
    && EdgeSet(calls) == GraphEdges(column, ParseRows(rows))
    && NodeIds(calls) == GraphNodes(column, ParseRows(rows))
    && NodeIds(calls) == Endpoints(calls)
    && NodeCalls(calls) <= GraphNodeCalls(column, ParseRows(rows))
  }

  // ---------------------------------------------------------------------
  // The generator's main
  // ---------------------------------------------------------------------

  /** The (article cell, entity cell) pairs `build_graph` reads for one column. */
  function Project(rows: seq<map<string, string>>, column: string): seq<(Option<string>, Option<string>)> {
    seq(|rows|, i requires 0 <= i < |rows| => (Cell(rows[i], "Article Name"), Cell(rows[i], column)))
  }

  /** What `main` produces: the validation error, or one call log per output file. */
  datatype Outcome =
    | Failed(error: ColumnError)
    | Written(networks: seq<(string, seq<Call>)>)

  /**
   * `main`: validate the columns first, then build the networks of
   * `ASSOCIATIONS` in order, each from the whole table.
   */
  method GenerateNetworks(table: Table) returns (out: Outcome)
    ensures ValidateColumns(table.columns).Some? ==> out == Failed(ValidateColumns(table.columns).value)
    ensures ValidateColumns(table.columns).None? ==> out.Written? && |out.networks| == |ASSOCIATIONS|
    ensures out.Written? ==> forall k :: 0 <= k < |out.networks| ==>
      (k < |ASSOCIATIONS| && out.networks[k].0 == ASSOCIATIONS[k].1 &&
      BuiltFrom(out.networks[k].1, ASSOCIATIONS[k].0, Project(table.rows, ASSOCIATIONS[k].0)))
  {
    var err := ValidateColumns(table.columns);
    if err.Some? {
      return Failed(err.value);
    }
    var networks: seq<(string, seq<Call>)> := [];
    for k := 0 to |ASSOCIATIONS|
      invariant |networks| == k && NetworksFrom(networks, table.rows)
    {
      var column := ASSOCIATIONS[k].0;
      var g := BuildGraph(column, Project(table.rows, column));
      NetworksFromAppend(networks, table.rows, g.calls);
      networks := networks + [(ASSOCIATIONS[k].1, g.calls)];
    }
    out := Written(networks);
  }

  /** The first networks of `ASSOCIATIONS`, each named and built from the table's rows. */
  ghost predicate NetworksFrom(networks: seq<(string, seq<Call>)>, rows: seq<map<string, string>>) {
    forall k :: 0 <= k < |networks| ==>
      (k < |ASSOCIATIONS| && networks[k].0 == ASSOCIATIONS[k].1 &&
      BuiltFrom(networks[k].1, ASSOCIATIONS[k].0, Project(rows, ASSOCIATIONS[k].0)))
  }

  /** The next association's network extends the list. */
  lemma NetworksFromAppend(networks: seq<(string, seq<Call>)>, rows: seq<map<string, string>>, calls: seq<Call>)
    requires NetworksFrom(networks, rows) && |networks| < |ASSOCIATIONS|
    requires BuiltFrom(calls, ASSOCIATIONS[|networks|].0, Project(rows, ASSOCIATIONS[|networks|].0))
    ensures NetworksFrom(networks + [(ASSOCIATIONS[|networks|].1, calls)], rows)
  {
    var more := networks + [(ASSOCIATIONS[|networks|].1, calls)];
    forall k | 0 <= k < |more|
      ensures k < |ASSOCIATIONS| && more[k].0 == ASSOCIATIONS[k].1 &&
        BuiltFrom(more[k].1, ASSOCIATIONS[k].0, Project(rows, ASSOCIATIONS[k].0))
    {
      if k < |networks| {
        assert more[k] == networks[k];
      }
    }
  }

  // ---------------------------------------------------------------------
  // Properties of the log
  // ---------------------------------------------------------------------

  /**
   * In a well-formed log no node id is added twice, no edge key is added
   * twice, and both ends of an edge were added before it.
   */
  lemma {:induction false} LogDistinct(calls: seq<Call>)
    requires WellLogged(calls)
    ensures forall i, j :: 0 <= i < j < |calls| && calls[i].AddNode? && calls[j].AddNode? ==> calls[i].id != calls[j].id
    ensures forall i, j :: 0 <= i < j < |calls| && calls[i].AddEdge? && calls[j].AddEdge? ==>
      (calls[i].source, calls[i].target) != (calls[j].source, calls[j].target)
    ensures forall j :: 0 <= j < |calls| && calls[j].AddEdge? ==>
      calls[j].source in NodeIds(calls[..j]) && calls[j].target in NodeIds(calls[..j])
  {
    LogNodesDistinct(calls);
    LogEdgesDistinct(calls);
    LogEndsFirst(calls);
  }

  lemma {:induction false} LogNodesDistinct(calls: seq<Call>)
    requires WellLogged(calls)
    ensures forall i, j :: 0 <= i < j < |calls| && calls[i].AddNode? && calls[j].AddNode? ==> calls[i].id != calls[j].id
  {
    if calls != [] {
      var n := |calls| - 1;
      var init := calls[..n];
      LogNodesDistinct(init);
      forall i, j | 0 <= i < j < |calls| && calls[i].AddNode? && calls[j].AddNode?
        ensures calls[i].id != calls[j].id
      {
        assert calls[i] == init[i];
        if j < n {
          assert calls[j] == init[j];
        } else {
          NodeLogged(init, i);
        }
      }
    }
  }

  lemma {:induction false} LogEdgesDistinct(calls: seq<Call>)
    requires WellLogged(calls)
    ensures forall i, j :: 0 <= i < j < |calls| && calls[i].AddEdge? && calls[j].AddEdge? ==>
      (calls[i].source, calls[i].target) != (calls[j].source, calls[j].target)
  {
    if calls != [] {
      var n := |calls| - 1;
      var init := calls[..n];
      LogEdgesDistinct(init);
      forall i, j | 0 <= i < j < |calls| && calls[i].AddEdge? && calls[j].AddEdge?
        ensures (calls[i].source, calls[i].target) != (calls[j].source, calls[j].target)
      {
        assert calls[i] == init[i];
        if j < n {
          assert calls[j] == init[j];
        } else {
          EdgeLogged(init, i);
        }
      }
    }
  }

  lemma {:induction false} LogEndsFirst(calls: seq<Call>)
    requires WellLogged(calls)
    ensures forall j :: 0 <= j < |calls| && calls[j].AddEdge? ==>
      calls[j].source in NodeIds(calls[..j]) && calls[j].target in NodeIds(calls[..j])
  {
    if calls != [] {
      var n := |calls| - 1;
      var init := calls[..n];
      LogEndsFirst(init);
      forall j | 0 <= j < |calls| && calls[j].AddEdge?
        ensures calls[j].source in NodeIds(calls[..j]) && calls[j].target in NodeIds(calls[..j])
      {
        if j < n {
          assert calls[j] == init[j] && calls[..j] == init[..j];
        } else {
          assert calls[..j] == init;
        }
      }
    }
  }

  /** A logged node call's id is among the node ids. */
  lemma {:induction false} NodeLogged(calls: seq<Call>, i: nat)
    requires i < |calls| && calls[i].AddNode?
    ensures calls[i].id in NodeIds(calls)
  {
    var n := |calls| - 1;
    if i < n {
      NodeLogged(calls[..n], i);
    }
  }

  /** A logged edge call's key is among the edge keys. */
  lemma {:induction false} EdgeLogged(calls: seq<Call>, i: nat)
    requires i < |calls| && calls[i].AddEdge?
    ensures (calls[i].source, calls[i].target) in EdgeSet(calls)
  {
    var n := |calls| - 1;
    if i < n {
      EdgeLogged(calls[..n], i);
    }
  }

  /** The edge list of a well-formed log repeats no key. */
  lemma {:induction false} EdgeListDistinct(calls: seq<Call>)
    requires WellLogged(calls)
    ensures NoDuplicates(EdgeList(calls))
  {
    if calls != [] {
      EdgeListDistinct(calls[..|calls| - 1]);
    }
  }

  /**
   * The number of `add_edge` calls is the number of distinct
   * (article, item) pairs the table calls for.
   */
  lemma EdgeCount(calls: seq<Call>, column: string, rows: seq<Parsed>)
    requires WellLogged(calls) && EdgeSet(calls) == GraphEdges(column, rows)
    ensures |EdgeList(calls)| == |GraphEdges(column, rows)|
  {
    EdgeListDistinct(calls);
    DistinctCardinality(EdgeList(calls));
    assert (set e | e in EdgeList(calls)) == EdgeSet(calls);
  }

  // ---------------------------------------------------------------------
  // Properties of the expected graph
  // ---------------------------------------------------------------------

  /** The edges, nodes and node calls of the first `k + 1` items. */
  lemma LinkStep(aid: string, column: string, items: seq<string>, k: nat)
    requires k < |items|
    ensures ItemEdges(aid, column, items[..k + 1]) == ItemEdges(aid, column, items[..k]) + {(aid, EntityId(column, items[k]))}
    ensures ItemNodes(column, items[..k + 1]) == ItemNodes(column, items[..k]) + {EntityId(column, items[k])}
    ensures ItemNodeCalls(column, items[..k + 1]) == ItemNodeCalls(column, items[..k]) + {ItemNode(column, items[k])}
  {
    assert items[..k + 1][..k] == items[..k];
  }

  /** Where an item edge comes from. */
  lemma {:induction false} ItemEdgeOrigin(aid: string, column: string, items: seq<string>, s: string, t: string)
    returns (item: string)
    requires (s, t) in ItemEdges(aid, column, items)
    ensures item in items && s == aid && t == EntityId(column, item)
  {
    var init := items[..|items| - 1];
    if (s, t) in ItemEdges(aid, column, init) {
      item := ItemEdgeOrigin(aid, column, init, s, t);
    } else {
      item := items[|items| - 1];
    }
  }

  /** Every item gets its edge. */
  lemma {:induction false} ItemEdgePresent(aid: string, column: string, items: seq<string>, item: string)
    requires item in items
    ensures (aid, EntityId(column, item)) in ItemEdges(aid, column, items)
  {
    var init := items[..|items| - 1];
    if item in init {
      ItemEdgePresent(aid, column, init, item);
    }
  }

  /**
   * Every edge of the graph joins the article node of some row with a
   * non-blank article name to the node of one of that row's items, so it
   * runs from an "ARTICLE::" id to an id prefixed by the upper-cased column.
   */
  lemma {:induction false} EdgeOrigin(column: string, rows: seq<Parsed>, s: string, t: string)
    returns (i: nat, item: string)
    requires (s, t) in GraphEdges(column, rows)
    ensures i < |rows| && rows[i].0 != [] && item in rows[i].1
    ensures s == ArticleId(rows[i].0) && t == EntityId(column, item)
    ensures StartsWith(s, ARTICLE_PREFIX) && StartsWith(t, Upper(column) + "::")
  {
    var n := |rows| - 1;
    if (s, t) in GraphEdges(column, rows[..n]) {
      i, item := EdgeOrigin(column, rows[..n], s, t);
      assert rows[..n][i] == rows[i];
    } else {
      i := n;
      item := ItemEdgeOrigin(ArticleId(rows[n].0), column, rows[n].1, s, t);
    }
    assert s[..|ARTICLE_PREFIX|] == ARTICLE_PREFIX;
    assert t[..|Upper(column) + "::"|] == Upper(column) + "::";
  }

  /** Every item of every row with an article name is linked to that article. */
  lemma {:induction false} EdgePresent(column: string, rows: seq<Parsed>, i: nat, item: string)
    requires i < |rows| && rows[i].0 != [] && item in rows[i].1
    ensures (ArticleId(rows[i].0), EntityId(column, item)) in GraphEdges(column, rows)
  {
    var n := |rows| - 1;
    if i < n {
      assert rows[..n][i] == rows[i];
      EdgePresent(column, rows[..n], i, item);
    } else {
      ItemEdgePresent(ArticleId(rows[n].0), column, rows[n].1, item);
    }
  }

  /**
   * Every node of the graph is the article node of a row with an article
   * name and an item, or the node of one of a row's items.
   */
  lemma {:induction false} NodeOrigin(column: string, rows: seq<Parsed>, x: string)
    returns (i: nat)
    requires x in GraphNodes(column, rows)
    ensures i < |rows| && rows[i].0 != [] && rows[i].1 != []
    ensures x == ArticleId(rows[i].0) || exists item :: item in rows[i].1 && x == EntityId(column, item)
  {
    var n := |rows| - 1;
    if x in GraphNodes(column, rows[..n]) {
      i := NodeOrigin(column, rows[..n], x);
      assert rows[..n][i] == rows[i];
    } else {
      i := n;
      if x != ArticleId(rows[n].0) {
        var item := ItemNodeOrigin(column, rows[n].1, x);
      }
    }
  }

  /** Where an item node comes from. */
  lemma {:induction false} ItemNodeOrigin(column: string, items: seq<string>, x: string) returns (item: string)
    requires x in ItemNodes(column, items)
    ensures item in items && x == EntityId(column, item)
  {
    var init := items[..|items| - 1];
    if x in ItemNodes(column, init) {
      item := ItemNodeOrigin(column, init, x);
    } else {
      item := items[|items| - 1];
    }
  }

  /**
   * Every `add_node` call of a built network is either an article's light
   * blue box labelled with the name of a row that has items, or a light green
   * ellipse labelled with one of such a row's items.
   */
  lemma LoggedNodeShape(calls: seq<Call>, column: string, rows: seq<(Option<string>, Option<string>)>, i: nat)
    requires BuiltFrom(calls, column, rows) && i < |calls| && calls[i].AddNode?
    ensures exists j :: (0 <= j < |rows| && ParseRows(rows)[j].0 != [] && ParseRows(rows)[j].1 != []
      && (calls[i] == AddNode(ArticleId(ParseRows(rows)[j].0), ParseRows(rows)[j].0, "box", "lightblue")
        || exists item :: item in ParseRows(rows)[j].1 && calls[i] == AddNode(EntityId(column, item), item, "ellipse", "lightgreen")))
  {
    NodeCallLogged(calls, i);
    var j := NodeCallOrigin(column, ParseRows(rows), calls[i]);
    assert ParseRows(rows)[j].0 != [];
  }

  /** A logged node call is among the node calls. */
  lemma {:induction false} NodeCallLogged(calls: seq<Call>, i: nat)
    requires i < |calls| && calls[i].AddNode?
    ensures calls[i] in NodeCalls(calls)
  {
    var n := |calls| - 1;
    if i < n {
      NodeCallLogged(calls[..n], i);
    }
  }

  /** Where a node call of the graph comes from. */
  lemma {:induction false} NodeCallOrigin(column: string, rows: seq<Parsed>, c: Call) returns (i: nat)
    requires c in GraphNodeCalls(column, rows)
    ensures i < |rows| && rows[i].0 != [] && rows[i].1 != []
    ensures c == ArticleNode(rows[i].0) || exists item :: item in rows[i].1 && c == ItemNode(column, item)
  {
    var n := |rows| - 1;
    if c in GraphNodeCalls(column, rows[..n]) {
      i := NodeCallOrigin(column, rows[..n], c);
      assert rows[..n][i] == rows[i];
    } else {
      i := n;
      if c != ArticleNode(rows[n].0) {
        var item := ItemNodeCallOrigin(column, rows[n].1, c);
      }
    }
  }

  /** Where an item's node call comes from. */
  lemma {:induction false} ItemNodeCallOrigin(column: string, items: seq<string>, c: Call) returns (item: string)
    requires c in ItemNodeCalls(column, items)
    ensures item in items && c == ItemNode(column, item)
  {
    var init := items[..|items| - 1];
    if c in ItemNodeCalls(column, init) {
      item := ItemNodeCallOrigin(column, init, c);
    } else {
      item := items[|items| - 1];
    }
  }

  /** Rows that add nothing leave the graph as it was. */
  lemma SkippedRow(column: string, rows: seq<Parsed>, row: Parsed)
    requires row.0 == [] || row.1 == []
    ensures GraphEdges(column, rows + [row]) == GraphEdges(column, rows)
    ensures GraphNodes(column, rows + [row]) == GraphNodes(column, rows)
  {
    assert (rows + [row])[..|rows|] == rows;
  }
}
