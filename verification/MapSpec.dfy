/** Validating a map artifact: texts, identifiers, references and edges, and the forest of its parent links. */
module MapSpec {
  import opened Wrappers
  import opened Text
  import opened ParentForest

  datatype MapNode = MapNode(
    id: string, name: string, summary: string, parentId: Option<string>, sourceRefs: seq<string>)

  datatype MapEdge = MapEdge(
    id: string, source: string, target: string, name: string, relation: string, sourceRefs: seq<string>)

  datatype Map = Map(schemaVersion: nat, title: string, nodes: seq<MapNode>, edges: seq<MapEdge>)

  const SCHEMA_VERSION: nat := 1
  const MAX_NODES: nat := 200
  const MAX_EDGES: nat := 400
  const MAX_TEXT_BYTES: nat := 1_048_576
  const MAX_TITLE_BYTES: nat := 256
  const MAX_NODE_LABEL_BYTES: nat := 256
  const MAX_NODE_SUMMARY_BYTES: nat := 4_096
  const MAX_EDGE_LABEL_BYTES: nat := 256
  const MAX_EDGE_RELATION_BYTES: nat := 128
  const MAX_IDENTIFIER_BYTES: nat := 128
  const MAX_SOURCE_REFS: nat := 16

  // ----- texts, identifiers and references -----

  function Utf8Size(c: char): nat {
    if c as int < 0x80 then 1 else if c as int < 0x800 then 2 else if c as int < 0x1_0000 then 3 else 4
  }

  function ByteLength(s: string): nat {
    if s == [] then 0 else Utf8Size(s[0]) + ByteLength(s[1..])
  }

  predicate IsControl(c: char) {
    c as int < 0x20 || 0x7F <= c as int <= 0x9F
  }

  predicate IsPrintable(s: string) {
    AllChars(s, c => !IsControl(c) || c in "\n\r\t")
  }

  predicate IsRequiredText(value: string, maxBytes: nat) {
    Trim(value) != [] && ByteLength(value) <= maxBytes && IsPrintable(value)
  }

  predicate IsIdentifier(value: string) {
    && value != [] && ByteLength(value) <= MAX_IDENTIFIER_BYTES
    && AllChars(value, c => IsAsciiAlphanumeric(c) || c in "_-.:")
  }

  /** At most 16 distinct identifiers, all of them owned by the run. */
  ghost predicate AreSourceRefs(refs: seq<string>, allowed: set<string>) {
    && |refs| <= MAX_SOURCE_REFS && Distinct(refs)
    && forall k :: 0 <= k < |refs| ==> IsIdentifier(refs[k]) && refs[k] in allowed
  }

  method ValidateRequiredText(value: string, maxBytes: nat) returns (r: Result<(), MapError>)
    ensures r.Ok? <==> IsRequiredText(value, maxBytes)
  {
    hide Trim, ByteLength, IsPrintable;
    if Trim(value) == [] { return Err(EmptyText); }
    if ByteLength(value) > maxBytes { return Err(TextTooLong); }
    if !IsPrintable(value) { return Err(ControlCharacter); }
    return Ok(());
  }

  method ValidateSourceRefs(refs: seq<string>, allowed: set<string>) returns (r: Result<(), MapError>)
    ensures r.Ok? <==> AreSourceRefs(refs, allowed)
  {
    hide IsIdentifier;
    if |refs| > MAX_SOURCE_REFS { return Err(TooManyItems); }
    var seen: set<string> := {};
    for k := 0 to |refs|
      invariant forall id :: id in seen <==> exists j :: 0 <= j < k && refs[j] == id
      invariant forall i, j :: 0 <= i < j < k ==> refs[i] != refs[j]
      invariant forall j :: 0 <= j < k ==> IsIdentifier(refs[j]) && refs[j] in allowed
    {
      if !IsIdentifier(refs[k]) { return Err(InvalidIdentifier(refs[k])); }
      if refs[k] in seen { return Err(DuplicateIdentifier(refs[k])); }
      seen := seen + {refs[k]};
      if refs[k] !in allowed { return Err(UnknownReference(refs[k])); }
    }
    return Ok(());
  }

  // ----- what a valid map is -----

  function NodeIds(nodes: seq<MapNode>): set<string> {
    set n | n in nodes :: n.id
  }

  function ParentsOf(nodes: seq<MapNode>): Parents {
    if nodes == [] then map[] else ParentsOf(nodes[..|nodes| - 1])[nodes[|nodes| - 1].id := nodes[|nodes| - 1].parentId]
  }

  function NodeText(nodes: seq<MapNode>): nat {
    if nodes == [] then 0
    else NodeText(nodes[..|nodes| - 1]) + ByteLength(nodes[|nodes| - 1].name) + ByteLength(nodes[|nodes| - 1].summary)
  }

  function EdgeText(edges: seq<MapEdge>): nat {
    if edges == [] then 0
    else EdgeText(edges[..|edges| - 1]) + ByteLength(edges[|edges| - 1].name) + ByteLength(edges[|edges| - 1].relation)
  }

  function AllIds(nodes: seq<MapNode>, edges: seq<MapEdge>): seq<string> {
    seq(|nodes|, i requires 0 <= i < |nodes| => nodes[i].id) + seq(|edges|, i requires 0 <= i < |edges| => edges[i].id)
  }

  ghost predicate IsSoundNode(node: MapNode, allowed: set<string>) {
    && IsIdentifier(node.id)
    && IsRequiredText(node.name, MAX_NODE_LABEL_BYTES) && IsRequiredText(node.summary, MAX_NODE_SUMMARY_BYTES)
    && (node.parentId.Some? ==> IsIdentifier(node.parentId.value))
    && AreSourceRefs(node.sourceRefs, allowed)
  }

  ghost predicate IsSoundEdge(edge: MapEdge, allowed: set<string>, nodeIds: set<string>) {
    && IsIdentifier(edge.id) && IsIdentifier(edge.source) && IsIdentifier(edge.target)
    && edge.source in nodeIds && edge.target in nodeIds
    && IsRequiredText(edge.name, MAX_EDGE_LABEL_BYTES) && IsRequiredText(edge.relation, MAX_EDGE_RELATION_BYTES)
    && AreSourceRefs(edge.sourceRefs, allowed)
  }

  /**
   A valid map: the limits are kept, nodes and edges are sound and uniquely named
   across both, edges join nodes, and the parent links form a forest.
   */
  ghost predicate IsValidMap(m: Map, allowed: set<string>) {
    && m.schemaVersion == SCHEMA_VERSION && IsRequiredText(m.title, MAX_TITLE_BYTES)
    && 1 <= |m.nodes| <= MAX_NODES && |m.edges| <= MAX_EDGES
    && Distinct(AllIds(m.nodes, m.edges))
    && (forall k :: 0 <= k < |m.nodes| ==> IsSoundNode(m.nodes[k], allowed))
    && (forall k :: 0 <= k < |m.edges| ==> IsSoundEdge(m.edges[k], allowed, NodeIds(m.nodes)))
    && ParentsExist(ParentsOf(m.nodes), NodeIds(m.nodes)) && IsForest(ParentsOf(m.nodes))
    && ByteLength(m.title) + NodeText(m.nodes) + EdgeText(m.edges) <= MAX_TEXT_BYTES
  }

  // ----- the loops -----

  ghost predicate InFirst(ids: seq<string>, n: nat, id: string) {
    exists j :: 0 <= j < n && j < |ids| && ids[j] == id
  }

  ghost predicate DistinctFirst(ids: seq<string>, n: nat) {
    forall i, j :: 0 <= i < j < n && j < |ids| ==> ids[i] != ids[j]
  }

  lemma NoNodes(nodes: seq<MapNode>)
    ensures NodeIds(nodes[..0]) == {} && ParentsOf(nodes[..0]) == map[] && NodeText(nodes[..0]) == 0
  {
  }

  lemma NextNode(nodes: seq<MapNode>, k: nat)
    requires k < |nodes|
    ensures NodeIds(nodes[..k + 1]) == NodeIds(nodes[..k]) + {nodes[k].id}
    ensures ParentsOf(nodes[..k + 1]) == ParentsOf(nodes[..k])[nodes[k].id := nodes[k].parentId]
    ensures NodeText(nodes[..k + 1]) == NodeText(nodes[..k]) + ByteLength(nodes[k].name) + ByteLength(nodes[k].summary)
  {
    hide ByteLength;
    assert nodes[..k + 1] == nodes[..k] + [nodes[k]] && nodes[..k + 1][..k] == nodes[..k];
  }

  lemma NextEdge(edges: seq<MapEdge>, k: nat)
    requires k < |edges|
    ensures EdgeText(edges[..k + 1]) == EdgeText(edges[..k]) + ByteLength(edges[k].name) + ByteLength(edges[k].relation)
  {
    hide ByteLength;
    assert edges[..k + 1][..k] == edges[..k];
  }

  /** What one node must satisfy besides having a new identifier. */
  method CheckNode(node: MapNode, allowed: set<string>) returns (r: Result<(), MapError>)
    ensures r.Ok? <==> IsSoundNode(node, allowed)
  {
    hide IsIdentifier, IsRequiredText, AreSourceRefs;
    if !IsIdentifier(node.id) { return Err(InvalidIdentifier(node.id)); }
    r := ValidateRequiredText(node.name, MAX_NODE_LABEL_BYTES);
    if r.Err? { return; }
    r := ValidateRequiredText(node.summary, MAX_NODE_SUMMARY_BYTES);
    if r.Err? { return; }
    if node.parentId.Some? && !IsIdentifier(node.parentId.value) {
      return Err(InvalidIdentifier(node.parentId.value));
    }
    r := ValidateSourceRefs(node.sourceRefs, allowed);
  }

  method CheckEdge(edge: MapEdge, allowed: set<string>, nodeIds: set<string>) returns (r: Result<(), MapError>)
    ensures r.Ok? <==> IsSoundEdge(edge, allowed, nodeIds)
  {
    hide IsIdentifier, IsRequiredText, AreSourceRefs;
    if !IsIdentifier(edge.id) { return Err(InvalidIdentifier(edge.id)); }
    if !IsIdentifier(edge.source) { return Err(InvalidIdentifier(edge.source)); }
    if !IsIdentifier(edge.target) { return Err(InvalidIdentifier(edge.target)); }
    if edge.source !in nodeIds || edge.target !in nodeIds { return Err(InvalidEndpoint(edge.id)); }
    r := ValidateRequiredText(edge.name, MAX_EDGE_LABEL_BYTES);
    if r.Err? { return; }
    r := ValidateRequiredText(edge.relation, MAX_EDGE_RELATION_BYTES);
    if r.Err? { return; }
    r := ValidateSourceRefs(edge.sourceRefs, allowed);
  }

  /** The node loop: sound nodes with unique identifiers, collected with their parents and the size of their texts. */
  method ReadNodes(nodes: seq<MapNode>, allowed: set<string>, ghost ids: seq<string>)
    returns (r: Result<(set<string>, Parents, nat), MapError>)
    requires |nodes| <= |ids| && forall k :: 0 <= k < |nodes| ==> ids[k] == nodes[k].id
    ensures r.Ok? <==>
      DistinctFirst(ids, |nodes|) && forall k :: 0 <= k < |nodes| ==> IsSoundNode(nodes[k], allowed)
    ensures r.Ok? ==> r.value == (NodeIds(nodes), ParentsOf(nodes), NodeText(nodes))
    ensures r.Ok? ==> forall id :: id in r.value.0 <==> InFirst(ids, |nodes|, id)
  {
    hide NodeIds, ParentsOf, NodeText, IsSoundNode, ByteLength;
    var nodeIds: set<string>, parents: Parents, text: nat := {}, map[], 0;
    NoNodes(nodes);
    for k := 0 to |nodes|
      invariant forall id :: id in nodeIds <==> InFirst(ids, k, id)
      invariant DistinctFirst(ids, k)
      invariant nodeIds == NodeIds(nodes[..k]) && parents == ParentsOf(nodes[..k]) && text == NodeText(nodes[..k])
      invariant forall j :: 0 <= j < k ==> IsSoundNode(nodes[j], allowed)
    {
      var node := nodes[k];
      NextNode(nodes, k);
      if node.id in nodeIds { return Err(DuplicateIdentifier(node.id)); }
      var checked := CheckNode(node, allowed);
      if checked.Err? { return Err(checked.error); }
      nodeIds := nodeIds + {node.id};
      parents := parents[node.id := node.parentId];
      text := text + ByteLength(node.name) + ByteLength(node.summary);
    }
    assert nodes[..|nodes|] == nodes;
    return Ok((nodeIds, parents, text));
  }

  /** The edge loop: sound edges whose identifiers no node or other edge has. */
  method CheckEdges(
    nodes: seq<MapNode>, edges: seq<MapEdge>, allowed: set<string>, nodeIds: set<string>, ghost ids: seq<string>)
    returns (r: Result<nat, MapError>)
    requires ids == AllIds(nodes, edges) && DistinctFirst(ids, |nodes|)
    requires forall id :: id in nodeIds <==> InFirst(ids, |nodes|, id)
    ensures r.Ok? <==> Distinct(ids) && forall k :: 0 <= k < |edges| ==> IsSoundEdge(edges[k], allowed, nodeIds)
    ensures r.Ok? ==> r.value == EdgeText(edges)
  {
    hide EdgeText, IsSoundEdge, ByteLength;
    var allIds, text := nodeIds, 0;
    assert EdgeText(edges[..0]) == 0 by { NoEdges(edges); }
    for k := 0 to |edges|
      invariant forall id :: id in allIds <==> InFirst(ids, |nodes| + k, id)
      invariant DistinctFirst(ids, |nodes| + k)
      invariant text == EdgeText(edges[..k])
      invariant forall j :: 0 <= j < k ==> IsSoundEdge(edges[j], allowed, nodeIds)
    {
      var edge := edges[k];
      assert ids[|nodes| + k] == edge.id;
      NextEdge(edges, k);
      if edge.id in allIds { return Err(DuplicateIdentifier(edge.id)); }
      var checked := CheckEdge(edge, allowed, nodeIds);
      if checked.Err? { return Err(checked.error); }
      allIds := allIds + {edge.id};
      text := text + ByteLength(edge.name) + ByteLength(edge.relation);
    }
    assert edges[..|edges|] == edges;
    return Ok(text);
  }

  lemma NoEdges(edges: seq<MapEdge>)
    ensures EdgeText(edges[..0]) == 0
  {
  }

  method ValidateMap(m: Map, allowed: set<string>) returns (r: Result<(), MapError>)
    ensures r.Ok? <==> IsValidMap(m, allowed)
  {
    hide IsForest, ParentsExist, ParentsOf, NodeIds, NodeText, EdgeText;
    hide IsSoundNode, IsSoundEdge, IsRequiredText, ByteLength;
    if m.schemaVersion != SCHEMA_VERSION { return Err(UnsupportedSchemaVersion); }
    r := ValidateRequiredText(m.title, MAX_TITLE_BYTES);
    if r.Err? { return; }
    if m.nodes == [] { return Err(MissingValue); }
    if |m.nodes| > MAX_NODES || |m.edges| > MAX_EDGES { return Err(TooManyItems); }
    var read := ReadNodes(m.nodes, allowed, AllIds(m.nodes, m.edges));
    if read.Err? { return Err(read.error); }
    var (nodeIds, parents, nodeText) := read.value;
    var edgeText := CheckEdges(m.nodes, m.edges, allowed, nodeIds, AllIds(m.nodes, m.edges));
    if edgeText.Err? { return Err(edgeText.error); }
    r := ValidateParentGraph(parents, nodeIds);
    if r.Ok? && ByteLength(m.title) + nodeText + edgeText.value > MAX_TEXT_BYTES { return Err(TextTooLong); }
  }
}
