/** The hierarchy writer of the contractor's processing chain: the
    contracted-graph serialiser (a compressed-sparse-row layout of the sorted
    contracted edges) and the core-node marker encoder.

    The output files are modelled as sequences of records instead of bytes.
    Node ids, edge counts and sizes are `unsigned` (32 bits) in the program;
    here they are unbounded and the bounds the program relies on are stated
    as preconditions. */
module ProcessingChain {

  /** Largest value of a 32-bit `unsigned`. */
  const UnsignedMax: nat := 0xFFFF_FFFF
  /** Largest value of a 32-bit signed `int`. */
  const IntMax: nat := 0x7FFF_FFFF
  /** The reserved "no node" id, the largest `unsigned` value. */
  const SpecialNodeId: nat := UnsignedMax

  /** The payload of a query edge. Only `distance` is read by the writer;
      the remaining fields are copied as they are. */
  datatype EdgeData = EdgeData(distance: int, attributes: seq<int>)

  /** An edge of the contracted graph as handed over by the contractor. */
  datatype QueryEdge = QueryEdge(source: nat, target: nat, data: EdgeData)

  /** One record of the contracted-graph file, in the place of its bytes. */
  datatype Record =
    | Fingerprint
    | Checksum(crc32: nat)
    | NodeArraySize(nodes: nat)
    | EdgeCount(edges: nat)
    | NodeEntry(firstEdge: nat)
    | EdgeEntry(target: nat, data: EdgeData)

  /** How a call of the serialiser ends: it returns a value, or (in a debug
      build) a failed assertion aborts the program. */
  datatype Outcome = Returned(value: nat) | AssertionFailed

  // ---------------------------------------------------------------------
  // Specification of the compressed-sparse-row layout

  predicate SortedBySource(edges: seq<QueryEdge>) {
    forall i, j :: 0 <= i < j < |edges| ==> edges[i].source <= edges[j].source
  }

  /** The number of edges whose source is less than `v`: where the edges of
      node `v` begin in the edge array. */
  function CountBelow(edges: seq<QueryEdge>, v: nat): (c: nat)
    ensures c <= |edges|
  {
    if edges == [] then 0
    else (if edges[0].source < v then 1 else 0) + CountBelow(edges[1..], v)
  }

  /** Reference definition of the node array of a graph with `size` entries:
      entry `v` is the offset of node `v`'s first edge. */
  function Offsets(edges: seq<QueryEdge>, size: nat): seq<nat> {
    seq(size, v requires 0 <= v => CountBelow(edges, v))
  }

  /** The edge-array record of one edge: its target and its data. */
  function Project(e: QueryEdge): Record {
    EdgeEntry(e.target, e.data)
  }

  function EdgeEntries(edges: seq<QueryEdge>): seq<Record> {
    seq(|edges|, i requires 0 <= i < |edges| => Project(edges[i]))
  }

  function NodeEntries(firstEdge: seq<nat>): seq<Record> {
    seq(|firstEdge|, i requires 0 <= i < |firstEdge| => NodeEntry(firstEdge[i]))
  }

  /** The edge records of node `v`'s outgoing edges, in list order. */
  function OutEdges(edges: seq<QueryEdge>, v: nat): seq<Record> {
    if edges == [] then []
    else (if edges[0].source == v then [Project(edges[0])] else []) + OutEdges(edges[1..], v)
  }

  // ---------------------------------------------------------------------
  // Lemmas about the layout

  lemma {:induction false} CountBelowNone(edges: seq<QueryEdge>, v: nat)
    requires forall i :: 0 <= i < |edges| ==> v <= edges[i].source
    ensures CountBelow(edges, v) == 0
  {
    if edges != [] {
      CountBelowNone(edges[1..], v);
    }
  }

  /** When every source is below `v`, every edge lies before node `v`. */
  lemma {:induction false} CountBelowAll(edges: seq<QueryEdge>, v: nat)
    requires forall i :: 0 <= i < |edges| ==> edges[i].source < v
    ensures CountBelow(edges, v) == |edges|
  {
    if edges != [] {
      CountBelowAll(edges[1..], v);
    }
  }

  lemma {:induction false} CountBelowMonotone(edges: seq<QueryEdge>, u: nat, w: nat)
    requires u <= w
    ensures CountBelow(edges, u) <= CountBelow(edges, w)
  {
    if edges != [] {
      CountBelowMonotone(edges[1..], u, w);
    }
  }

  /** In a list sorted by source, the edges before offset `CountBelow(edges, v)`
      are exactly those whose source is less than `v`. */
  lemma {:induction false} CountBelowSorted(edges: seq<QueryEdge>, v: nat, i: nat)
    requires SortedBySource(edges)
    requires i < |edges|
    ensures i < CountBelow(edges, v) <==> edges[i].source < v
  {
    if edges[0].source < v {
      if i > 0 {
        assert SortedBySource(edges[1..]) by {
          forall a, b | 0 <= a < b < |edges| - 1
            ensures edges[1..][a].source <= edges[1..][b].source
          {
            assert edges[1..][a] == edges[a + 1] && edges[1..][b] == edges[b + 1];
          }
        }
        CountBelowSorted(edges[1..], v, i - 1);
      }
    } else {
      CountBelowNone(edges, v);
    }
  }

  /** A boundary `b` that separates the sources below `v` from the others
      in a sorted list is `CountBelow(edges, v)`. */
  lemma CountBelowIsBoundary(edges: seq<QueryEdge>, v: nat, b: nat)
    requires SortedBySource(edges)
    requires b <= |edges|
    requires forall k :: 0 <= k < b ==> edges[k].source < v
    requires b < |edges| ==> v <= edges[b].source
    ensures CountBelow(edges, v) == b
  {
    var c := CountBelow(edges, v);
    if b < c {
      CountBelowSorted(edges, v, b);
    } else if c < b {
      CountBelowSorted(edges, v, c);
    }
  }

  /** The node array is non-decreasing. */
  lemma OffsetsNonDecreasing(edges: seq<QueryEdge>, size: nat, u: nat, w: nat)
    requires u <= w < size
    ensures Offsets(edges, size)[u] <= Offsets(edges, size)[w]
  {
    CountBelowMonotone(edges, u, w);
  }

  /** When every source is a node below the last entry, that last entry
      (a sentinel) is the edge count. */
  lemma OffsetsLastIsEdgeCount(edges: seq<QueryEdge>, size: nat)
    requires size > 0
    requires forall i :: 0 <= i < |edges| ==> edges[i].source < size - 1
    ensures Offsets(edges, size)[size - 1] == |edges|
  {
    CountBelowAll(edges, size - 1);
  }

  lemma {:induction false} CountBelowMissesEdge(edges: seq<QueryEdge>, v: nat, i: nat)
    requires i < |edges| && v <= edges[i].source
    ensures CountBelow(edges, v) < |edges|
  {
    if i > 0 {
      CountBelowMissesEdge(edges[1..], v, i - 1);
    }
  }

  /** When some edge starts at the last index (an id of `max_node_id + 1`),
      the node array has no sentinel: its last entry is below the edge count,
      so that node's edges have no end offset. */
  lemma NoSentinelForLastNode(edges: seq<QueryEdge>, size: nat, i: nat)
    requires size > 0
    requires i < |edges| && edges[i].source == size - 1
    ensures Offsets(edges, size)[size - 1] < |edges|
  {
    CountBelowMissesEdge(edges, size - 1, i);
  }

  /** Node `v`'s edges are exactly the indices in
      `[first_edge[v], first_edge[v + 1])`. */
  lemma AdjacencyIndices(edges: seq<QueryEdge>, size: nat, v: nat, i: nat)
    requires SortedBySource(edges)
    requires v + 1 < size && i < |edges|
    ensures var first := Offsets(edges, size);
            edges[i].source == v <==> first[v] <= i < first[v + 1]
  {
    CountBelowSorted(edges, v, i);
    CountBelowSorted(edges, v + 1, i);
  }

  lemma {:induction false} OutEdgesConcat(a: seq<QueryEdge>, b: seq<QueryEdge>, v: nat)
    ensures OutEdges(a + b, v) == OutEdges(a, v) + OutEdges(b, v)
  {
    if a == [] {
      assert a + b == b;
    } else {
      var head := if a[0].source == v then [Project(a[0])] else [];
      assert (a + b)[0] == a[0];
      assert (a + b)[1..] == a[1..] + b;
      OutEdgesConcat(a[1..], b, v);
      calc {
        OutEdges(a + b, v);
        head + OutEdges(a[1..] + b, v);
        head + (OutEdges(a[1..], v) + OutEdges(b, v));
        (head + OutEdges(a[1..], v)) + OutEdges(b, v);
        OutEdges(a, v) + OutEdges(b, v);
      }
    }
  }

  lemma {:induction false} OutEdgesNone(edges: seq<QueryEdge>, v: nat)
    requires forall i :: 0 <= i < |edges| ==> edges[i].source != v
    ensures OutEdges(edges, v) == []
  {
    if edges != [] {
      OutEdgesNone(edges[1..], v);
    }
  }

  lemma {:induction false} OutEdgesAll(edges: seq<QueryEdge>, v: nat)
    requires forall i :: 0 <= i < |edges| ==> edges[i].source == v
    ensures OutEdges(edges, v) == EdgeEntries(edges)
  {
    if edges != [] {
      OutEdgesAll(edges[1..], v);
      assert EdgeEntries(edges) == [Project(edges[0])] + EdgeEntries(edges[1..]);
    }
  }

  /** Node `v`'s outgoing edges, read from the whole list, are those of the
      slice between two boundaries when nothing outside it starts at `v`. */
  lemma OutEdgesOfSlice(edges: seq<QueryEdge>, v: nat, a: nat, b: nat)
    requires a <= b <= |edges|
    requires forall i :: 0 <= i < a ==> edges[i].source != v
    requires forall i :: a <= i < b ==> edges[i].source == v
    requires forall i :: b <= i < |edges| ==> edges[i].source != v
    ensures OutEdges(edges, v) == EdgeEntries(edges[a..b])
  {
    assert edges == (edges[..a] + edges[a..b]) + edges[b..];
    OutEdgesConcat(edges[..a] + edges[a..b], edges[b..], v);
    OutEdgesConcat(edges[..a], edges[a..b], v);
    OutEdgesNone(edges[..a], v);
    OutEdgesAll(edges[a..b], v);
    OutEdgesNone(edges[b..], v);
  }

  /** Reading the edge array between node `v`'s offset and the next one
      gives back exactly `v`'s outgoing edges, in list order. */
  lemma AdjacencyRecords(edges: seq<QueryEdge>, size: nat, v: nat)
    requires SortedBySource(edges)
    requires v + 1 < size
    ensures var first := Offsets(edges, size);
            first[v] <= first[v + 1] <= |edges| &&
            EdgeEntries(edges)[first[v]..first[v + 1]] == OutEdges(edges, v)
  {
    var a, b := CountBelow(edges, v), CountBelow(edges, v + 1);
    CountBelowMonotone(edges, v, v + 1);
    forall i | 0 <= i < |edges| ensures (i < a <==> edges[i].source < v) && (i < b <==> edges[i].source < v + 1) {
      CountBelowSorted(edges, v, i);
      CountBelowSorted(edges, v + 1, i);
    }
    OutEdgesOfSlice(edges, v, a, b);
    assert EdgeEntries(edges)[a..b] == EdgeEntries(edges[a..b]);
  }

  // ---------------------------------------------------------------------
  // Rejection of edges in a debug build

  /** An edge the debug build refuses: a self-loop (an assertion) or a
      non-positive distance (an early return). */
  predicate Rejected(e: QueryEdge) {
    e.source == e.target || e.data.distance <= 0
  }

  /** Index of the first rejected edge, or the edge count when none is. */
  function FirstRejected(edges: seq<QueryEdge>): (k: nat)
    ensures k <= |edges|
    ensures forall i :: 0 <= i < k ==> !Rejected(edges[i])
    ensures k < |edges| ==> Rejected(edges[k])
  {
    if edges == [] then 0
    else if Rejected(edges[0]) then 0
    else 1 + FirstRejected(edges[1..])
  }

  /** How many edges reach the edge array: all of them in a release build,
      those before the first rejected one in a debug build. */
  function WrittenEdges(edges: seq<QueryEdge>, debug: bool): (k: nat)
    ensures k <= |edges|
  {
    if debug then FirstRejected(edges) else |edges|
  }

  // ---------------------------------------------------------------------
  // The serialiser

  /** The largest node id used by any edge, source or target; 0 for an empty
      list. The program asserts (in a debug build) that no id is the
      reserved "no node" id. */
  method MaxUsedNodeId(edges: seq<QueryEdge>) returns (m: nat)
    requires forall i :: 0 <= i < |edges| ==> edges[i].source != SpecialNodeId && edges[i].target != SpecialNodeId
    ensures forall i :: 0 <= i < |edges| ==> edges[i].source <= m && edges[i].target <= m
    ensures edges == [] ==> m == 0
    ensures edges != [] ==> exists i :: 0 <= i < |edges| && (m == edges[i].source || m == edges[i].target)
  {
    var tmpMax := 0;
    for i := 0 to |edges|
      invariant forall k :: 0 <= k < i ==> edges[k].source <= tmpMax && edges[k].target <= tmpMax
      invariant i == 0 ==> tmpMax == 0
      invariant i > 0 ==> exists k :: 0 <= k < i && (tmpMax == edges[k].source || tmpMax == edges[k].target)
    {
      // the debug build's two assertions that no id is the "no node" id
      assert SpecialNodeId != edges[i].source;
      assert SpecialNodeId != edges[i].target;
      if tmpMax < edges[i].source {
        tmpMax := edges[i].source;
      }
      if tmpMax < edges[i].target {
        tmpMax := edges[i].target;
      }
    }
    m := tmpMax;
  }

  /** Fills the node array: running offsets for the nodes up to the largest
      used id, then sentinels equal to the edge count. The result agrees with
      the reference definition `Offsets`. */
  method BuildNodeArray(edges: seq<QueryEdge>, maxNodeId: nat, maxUsedNodeId: nat)
    returns (firstEdge: seq<nat>)
    requires SortedBySource(edges)
    requires forall i :: 0 <= i < |edges| ==> edges[i].source <= maxUsedNodeId
    requires maxUsedNodeId <= maxNodeId + 1
    ensures |firstEdge| == maxNodeId + 2
    ensures forall v :: 0 <= v <= maxUsedNodeId ==> firstEdge[v] == CountBelow(edges, v)
    ensures forall v :: maxUsedNodeId < v < |firstEdge| ==> firstEdge[v] == |edges|
    ensures firstEdge == Offsets(edges, maxNodeId + 2)
  {
    var nodeArray := new nat[maxNodeId + 2];
    var edge, position := 0, 0;
    CountBelowNone(edges, 0);
    for node := 0 to maxUsedNodeId + 1
      invariant edge == position == CountBelow(edges, node)
      invariant forall v :: 0 <= v < node ==> nodeArray[v] == CountBelow(edges, v)
    {
      var lastEdge := edge;
      while edge < |edges| && edges[edge].source == node
        invariant lastEdge <= edge <= |edges|
        invariant forall k :: lastEdge <= k < edge ==> edges[k].source == node
      {
        edge := edge + 1;
      }
      nodeArray[node] := position;
      position := position + (edge - lastEdge);
      forall k | 0 <= k < edge ensures edges[k].source < node + 1 {
        if k < lastEdge {
          CountBelowSorted(edges, node, k);
        }
      }
      if edge < |edges| {
        CountBelowSorted(edges, node, edge);
      }
      CountBelowIsBoundary(edges, node + 1, edge);
    }
    // every edge has been passed: its source is at most maxUsedNodeId
    CountBelowAll(edges, maxUsedNodeId + 1);
    assert edge == |edges|;

    for sentinel := maxUsedNodeId + 1 to nodeArray.Length
      invariant forall v :: 0 <= v <= maxUsedNodeId ==> nodeArray[v] == CountBelow(edges, v)
      invariant forall v :: maxUsedNodeId < v < sentinel ==> nodeArray[v] == |edges|
    {
      nodeArray[sentinel] := |edges|;
    }
    firstEdge := nodeArray[..];

    forall v | maxUsedNodeId < v < |firstEdge| ensures firstEdge[v] == CountBelow(edges, v) {
      CountBelowAll(edges, v);
    }
  }

  /** Serialises the contracted graph: fingerprint, the checksum as given,
      node-array size, edge count, the node array and the edge array. A debug
      build stops at the first rejected edge: a self-loop fails an assertion,
      a non-positive distance makes the call return 1. Otherwise the call
      returns the number of edges written, which is the edge count. */
  method WriteContractedGraph(maxNodeId: nat, edgesCrc32: nat, edges: seq<QueryEdge>, debug: bool)
    returns (result: Outcome, output: seq<Record>)
    requires SortedBySource(edges)
    requires |edges| <= IntMax
    requires maxNodeId + 2 <= UnsignedMax
    requires forall i :: 0 <= i < |edges| ==> edges[i].source <= maxNodeId + 1 && edges[i].target <= maxNodeId + 1
    ensures |output| == 4 + maxNodeId + 2 + WrittenEdges(edges, debug)
    ensures output[..4] == [Fingerprint, Checksum(edgesCrc32), NodeArraySize(maxNodeId + 2), EdgeCount(|edges|)]
    ensures output[4..4 + maxNodeId + 2] == NodeEntries(Offsets(edges, maxNodeId + 2))
    ensures output[4 + maxNodeId + 2..] == EdgeEntries(edges[..WrittenEdges(edges, debug)])
    ensures WrittenEdges(edges, debug) == |edges| ==> result == Returned(|edges|)
    ensures WrittenEdges(edges, debug) < |edges| ==>
              var bad := edges[WrittenEdges(edges, debug)];
              result == if bad.source == bad.target then AssertionFailed else Returned(1)
  {
    output := [Fingerprint];
    var maxUsedNodeId := MaxUsedNodeId(edges);
    var firstEdge := BuildNodeArray(edges, maxNodeId, maxUsedNodeId);

    var nodeArraySize := |firstEdge|;
    output := output + [Checksum(edgesCrc32), NodeArraySize(nodeArraySize), EdgeCount(|edges|)];
    if nodeArraySize > 0 {
      output := output + NodeEntries(firstEdge);
    }
    ghost var header := output;
    assert |header| == 4 + maxNodeId + 2;

    var numberOfUsedEdges := 0;
    for edge := 0 to |edges|
      invariant edge <= WrittenEdges(edges, debug)
      invariant numberOfUsedEdges == edge
      invariant output == header + EdgeEntries(edges[..edge])
    {
      if debug && edges[edge].source == edges[edge].target {
        return AssertionFailed, output;
      }
      var currentEdge := Project(edges[edge]);
      // every target is at most the largest used id
      assert currentEdge.target <= maxUsedNodeId;
      if debug && currentEdge.data.distance <= 0 {
        return Returned(1), output;
      }
      assert EdgeEntries(edges[..edge + 1]) == EdgeEntries(edges[..edge]) + [currentEdge];
      output := output + [currentEdge];
      numberOfUsedEdges := numberOfUsedEdges + 1;
    }
    assert edges[..|edges|] == edges;
    return Returned(numberOfUsedEdges), output;
  }

  // ---------------------------------------------------------------------
  // The core-node marker

  newtype Byte = b: int | 0 <= b < 0x100

  /** The core-marker file: a count followed by one byte per node. */
  datatype CoreMarkerFile = CoreMarkerFile(size: nat, flags: seq<Byte>)

  /** Encodes the per-node core flags: a count equal to the number of flags,
      then one byte per node, 1 exactly when the node is a core node. */
  method WriteCoreNodeMarker(isCoreNode: seq<bool>) returns (file: CoreMarkerFile)
    requires |isCoreNode| <= UnsignedMax
    ensures file.size == |isCoreNode| && |file.flags| == |isCoreNode|
    ensures forall i :: 0 <= i < |isCoreNode| ==>
              (file.flags[i] == 1 <==> isCoreNode[i]) && (file.flags[i] == 0 <==> !isCoreNode[i])
    ensures ReadCoreNodeMarker(file) == Some(isCoreNode)
  {
    var unpackedBoolFlags := new Byte[|isCoreNode|];
    for i := 0 to |isCoreNode|
      invariant forall k :: 0 <= k < i ==> unpackedBoolFlags[k] == if isCoreNode[k] then 1 else 0
    {
      unpackedBoolFlags[i] := if isCoreNode[i] then 1 else 0;
    }
    var size := unpackedBoolFlags.Length;
    file := CoreMarkerFile(size, unpackedBoolFlags[..]);
    CoreMarkerRoundTrip(isCoreNode, file);
  }

  /** A reference decoder for the core-marker file, against which the writer
      is proved lossless: the count must match the bytes and every byte must
      be 0 or 1. The program's own reader is not part of this model. */
  function ReadCoreNodeMarker(file: CoreMarkerFile): (flags: Option<seq<bool>>)
    ensures flags.Some? ==> |flags.value| == file.size
  {
    if file.size == |file.flags| && forall i :: 0 <= i < |file.flags| ==> file.flags[i] <= 1 then
      Some(seq(|file.flags|, i requires 0 <= i < |file.flags| => file.flags[i] == 1))
    else
      None
  }

  datatype Option<T> = None | Some(value: T)

  /** Any file with the writer's contract reads back as the flags written. */
  lemma CoreMarkerRoundTrip(isCoreNode: seq<bool>, file: CoreMarkerFile)
    requires file.size == |isCoreNode| && |file.flags| == |isCoreNode|
    requires forall i :: 0 <= i < |isCoreNode| ==>
               (file.flags[i] == 1 <==> isCoreNode[i]) && (file.flags[i] == 0 <==> !isCoreNode[i])
    ensures ReadCoreNodeMarker(file) == Some(isCoreNode)
  {
    assert forall i :: 0 <= i < |file.flags| ==> file.flags[i] <= 1;
    var read := seq(|file.flags|, i requires 0 <= i < |file.flags| => file.flags[i] == 1);
    assert read == isCoreNode;
  }
}
