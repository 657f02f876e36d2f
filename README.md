# Contraction-hierarchy writer and strong typedefs, modelled in Dafny

This project models the work the contractor's processing chain does after
contraction: it serialises the contracted graph and writes the core-node
marker. It also models the strong-typedef wrapper used for typed scalars.

- `processing_chain.dfy`, module `ProcessingChain`, models
  `Prepare::WriteContractedGraph` and `Prepare::WriteCoreNodeMarker`.
  - The contracted edges, sorted by source, are laid out as a
    compressed-sparse-row graph. A node array holds, for each node, the offset
    of its first edge. Entries after the largest used id are sentinels equal
    to the edge count. There is at least one sentinel exactly when every id is
    at most `max_node_id` (see "## Left out"). An edge array holds one
    (target, data) record per edge.
  - The file is modelled as a sequence of records in write order: fingerprint,
    the checksum argument, node-array size, edge count, node entries, edge
    entries.
  - The reference definition of the node array is `Offsets`: entry `v` is the
    number of edges whose source is less than `v`. `BuildNodeArray` is the
    loop with running counters (`edge`, `position`, `last_edge`) and
    sentinels. It is proved equal to `Offsets`, and the lemmas prove what a
    reader of the layout relies on.
  - A debug build is a `debug` parameter. With it, a self-loop fails an
    assertion (`AssertionFailed`), and a non-positive distance makes the call
    return 1 after writing the edges before it. The other debug assertions
    are Dafny `assert`s proved from the preconditions. Those assertions are:
    no id equals the reserved "no node" id, and every target is at most the
    largest used id.
  - The core marker is a count followed by one byte per node.
- `strong_typedef.dfy`, module `StrongTypedef`, models the class that the
  strong-typedef macro declares. It has an explicit constructor, a const
  conversion, an assignment through the mutable conversion, and the
  `To_to_From` unwrap function. Each macro use is a distinct type, so the
  class carries a `Tag` type parameter.

The writer's own behaviour, as the model states it:
- The writer does not recompute a checksum. It writes the `edges_crc32`
  argument unchanged.
- The contracted graph and the core marker go to two separate files, each
  with its own header.
- No atomic write-to-temporary-then-rename step happens. The stream is
  written directly.
- No error is raised for a negative weight. Only a debug build rejects
  edges, at distance `<= 0`, by returning 1.

## Model

| member | source | states |
|---|---|---|
| `ProcessingChain.MaxUsedNodeId` | contractor/processing_chain.cpp:167-178 | the result is at least every edge's source and target and equals one of them; it is 0 for an empty list; requires that no id is the reserved "no node" id, as the debug assertions demand |
| `ProcessingChain.BuildNodeArray` | contractor/processing_chain.cpp:183-209 | the node array has `max_node_id + 2` entries; entry `v <= max_used_node_id` is the number of edges whose source is below `v`; every later entry is the edge count; the whole array equals the reference `Offsets`; its loop invariant keeps `position == edge`, and a proved assertion gives `edge` equal to the edge count when the loop ends |
| `ProcessingChain.WriteContractedGraph` | contractor/processing_chain.cpp:154-262 | the output is the fingerprint, the checksum argument unchanged, node-array size `max_node_id + 2`, the edge count, the node array (equal to `Offsets`), then one (target, data) record per edge in list order; a release build writes every edge and returns the edge count; a debug build stops at the first rejected edge, failing an assertion on a self-loop and returning 1 on a non-positive distance |
| `ProcessingChain.FirstRejected` | contractor/processing_chain.cpp:234-253 | the index of the first edge that is a self-loop or has distance `<= 0`: no edge before it is rejected, and it is rejected unless it is the edge count |
| `ProcessingChain.CountBelowSorted` | contractor/processing_chain.cpp:193-201 | in a list sorted by source, index `i` lies before node `v`'s offset exactly when edge `i`'s source is less than `v` |
| `ProcessingChain.CountBelowAll` | contractor/processing_chain.cpp:204-209 | when every source is below `v`, the offset of `v` is the edge count, so the sentinels agree with the reference offsets |
| `ProcessingChain.OffsetsNonDecreasing` | contractor/processing_chain.cpp:188-209 | the node array is non-decreasing |
| `ProcessingChain.OffsetsLastIsEdgeCount` | contractor/processing_chain.cpp:183-209 | when every source is below the last index, the last entry (the sentinel) is the edge count |
| `ProcessingChain.NoSentinelForLastNode` | contractor/processing_chain.cpp:183-209 | when some edge's source is the last index (`max_node_id + 1`), the last entry is below the edge count: the node array has no sentinel, despite the comment at line 184 |
| `ProcessingChain.AdjacencyIndices` | contractor/processing_chain.cpp:188-209 | for sorted edges, edge `i` has source `v` exactly when `first_edge[v] <= i < first_edge[v + 1]` |
| `ProcessingChain.AdjacencyRecords` | contractor/processing_chain.cpp:183-259 | for sorted edges, the edge array between `first_edge[v]` and `first_edge[v + 1]` is exactly node `v`'s outgoing edges as (target, data) records, in list order |
| `ProcessingChain.WriteCoreNodeMarker` | contractor/processing_chain.cpp:137-152 | the count equals the number of flags; there is one byte per node, in node order; a byte is 1 exactly when the node's flag is true and 0 exactly when it is false; the reference decoder `ReadCoreNodeMarker` reads the file back as the flags given |
| `ProcessingChain.CoreMarkerRoundTrip` | contractor/processing_chain.cpp:139-151 | any marker meeting the writer's per-byte contract reads back, through the reference decoder `ReadCoreNodeMarker`, as the flags written, so the encoding loses nothing |
| `StrongTypedef.Strong.constructor` | strong_typedef.hpp:45 | the explicit constructor stores its argument: unwrapping the new wrapper gives it back |
| `StrongTypedef.Strong.AssignThroughRef` | strong_typedef.hpp:46 | assigning through the mutable conversion makes the next unwrap return the assigned value; only this wrapper is modified |
| `StrongTypedef.WrapUnwrap` | strong_typedef.hpp:45-49 | wrapping a value with the explicit constructor and unwrapping it with the `To_to_From` function (`Unwrap`) returns the original value |
| `StrongTypedef.AssignThenUnwrap` | strong_typedef.hpp:46-49 | after an assignment through one wrapper's mutable conversion, `Unwrap` of that wrapper gives the assigned value and `Unwrap` of every other wrapper is unchanged |
| `StrongTypedef.ConstRefAfterWrap` | strong_typedef.hpp:45-47 | the const conversion (`ConstRef`) of a wrapper built from `v` by the explicit constructor yields `v` |
| `StrongTypedef.ConstRefAfterAssign` | strong_typedef.hpp:46-47 | after an assignment through one wrapper's mutable conversion, its const conversion yields the assigned value and another wrapper's const conversion yields what it did before |

## Left out

- `Prepare::Run` is orchestration only: timers, logging, struct-size
  compile-time checks and floating-point throughput figures.
- `Prepare::LoadEdgeExpandedGraph` reads raw structs from a binary stream.
  It depends on the fingerprint check and on `DeallocatingVector`'s
  `resize`/`emplace_back` behaviour, neither of which is part of this model.
  Its checksum is read and passed on without being validated.
- `Prepare::ContractGraph` is a thin call into `Contractor`. contractor.hpp
  is not part of this model, so the witness search, node ordering and core
  partitioning are not modelled.
- `Prepare::FindComponents` is only declared. No definition exists to model.
- WriteContractedGraph: the parallel sort at the start is not modelled. It is
  an external parallel routine that relies on `QueryEdge::operator<`, which
  is not part of this model. The method starts from the sorted list. It
  requires the list sorted by source, which is what that order is assumed to
  give.
- WriteContractedGraph: the 32-bit `unsigned` arithmetic is not modelled.
  The method requires `max_node_id + 2` not to wrap and the edge count to fit
  the `int` counter. It also requires every id to be at most
  `max_node_id + 1`, because the node-array writes stay in bounds only then.
  The code does not check any of these.
- WriteContractedGraph: an id equal to `max_node_id + 1` is accepted, as the
  code's bounds allow, but then the layout has no sentinel. If a source
  equals `max_node_id + 1`, the offset loop writes the last entry itself and
  the sentinel loop runs over an empty range. The last entry is then below
  the edge count (`NoSentinelForLastNode`), and that node's edge range has no
  end offset. `OffsetsLastIsEdgeCount` and the adjacency lemmas therefore
  apply only below the last index. `Prepare::Run` builds the contractor
  with `max_edge_id + 1` nodes and passes the same `max_edge_id` here, so
  ids from the contractor are expected to be at most `max_node_id`. The
  contractor is not part of this model.
- WriteContractedGraph: logging is not modelled. That covers the progress
  messages and the two warnings printed before `return 1`.
- WriteContractedGraph: a failed assertion aborts the program. The model
  returns the records handed to the stream up to that point. It does not
  model whether buffered bytes reach the disk.
- WriteCoreNodeMarker: requires at most `2^32 - 1` flags. The loop counter
  is a 32-bit `unsigned` compared with the vector's size, so with more flags
  it would wrap and never end. The count written would also be truncated.
- The byte layout of `FingerPrint`, `NodeArrayEntry` and `EdgeArrayEntry`,
  and the fingerprint's value, are not modelled. The output is a sequence of
  abstract records. Only the `distance` field of the edge data is
  interpreted. The remaining fields are carried unchanged as `attributes`.
- The default constructor `To() = default` is not modelled. Declaring
  `To t;` default-initialises the wrapper and leaves the scalar
  indeterminate. `To()` and `To{}` value-initialise it to zero, because the
  defaulted constructor is not user-provided. The model has no indeterminate
  value, and no zero for an arbitrary `From`.
- Strong: the C++ class is a value type. It is copied on assignment, and
  `To_to_From` takes its argument by value. The model's class is a Dafny
  reference type, so a Dafny alias stands for one C++ object. Copies are not
  modelled: after `To b = a;`, an assignment through `a` leaves `b`
  unchanged in C++, but it would change `b` in the model if `b` were an
  alias of `a`. Held references are not modelled either: the const
  conversion returns a reference that aliases the field, while `ConstRef`
  returns the value at the time of the call.
- The compile-time check that `From` is a scalar type is not modelled.
  Dafny type parameters cannot be restricted to scalar types, so `From` is
  any type.
- There are no implicit conversions. `Strong<Tag, From>` is a class type
  distinct from `From` and from every other `Tag`. Dafny has no user-defined
  conversions, so this holds by construction. No member states it.
