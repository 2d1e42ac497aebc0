# Node and connection layer of a generic graph library, in Dafny

This project models the ownership layer of a small C++ graph library. It covers three pieces.

- **Connections** (`connection.dfy`, module `Connections`): a connection is one directed half of an undirected edge. It holds a non-owning reference to the node it targets. For a non-void edge type it also holds a handle on the edge's payload. `MakeConnections` builds the two mirrored halves of one edge. Each half targets the other node, and both hold the same newly allocated payload object. `Valueless` and `Blank` build the two sentinel forms. Equality and ordering are lexicographic over (target, payload value), and they read the payload value only when the targets are equal. The hash xors the hash of the target pointer with the hash of the payload value.
- **The view adaptor `cfprism`** (`prism.dfy`, module `Prisms`): a non-owning, read-only view over a backing container. Each iterator combines a container position with the view's fixed extra context. The view forwards `size` and `empty` to the container and builds `front`, `back` and `operator[]` from its iterators.
- **Nodes without a node value** (`node.dfy`, module `Adjacency`): a `Node` class holds a stable id and a container of connections, with at most one connection per neighbour. It exposes that container through a nodes view and an edges view. `Connect` and `Disconnect` are the operations the owning graph calls.

How the model represents the C++ entities:

- Node identity (the node's address, `std::uintptr_t`) is an abstract `nat`. A null node pointer is `None`.
- Pointer order is the order on ids, with null below every node.
- The edge payload is a heap object (`class Payload`), so the two halves of an edge really alias one cell. A write through one half is visible through the other.
- Whether the edge type `E` is `void` is the parameter `EdgeKind` (`VoidEdge` or `ValuedEdge`). Under `VoidEdge` a connection never carries a payload.
- `std::hash` of a node pointer and `std::hash<E>` are parameters (`ptrHash`, `valueHash`). `size_t` is `bv64`, so `xor` is bit-vector xor.
- `E`'s `operator<` is a parameter `less`. The ordering laws are proved under the hypothesis that `less` is a strict total order (`StrictTotalOrder`). `E`'s `operator==` is Dafny's equality on `E`.
- A container iterator is a position in a `seq`. The view's extra context is a projection `proj`, applied when an iterator is dereferenced. The nodes view projects a connection to its target (`Arrow`, i.e. `operator->`). The edges view projects a connection to itself.
- Every view operation is a Dafny function, so none of them can change the backing container. The same holds for `AdjacentNodes` and `Edges` on a node: they are functions that only read the node.
- `get()` is `Connections.Get`. The C++ `const` and non-const overloads of `adjacent_nodes()`, `edges()`, `begin()`/`cbegin()` and `end()`/`cend()` build the same iterator from the same position. They are modelled by one function each, except that `CBegin` and `CEnd` are kept and proved equal to `Begin` and `End`.

The bodies of the node's member functions (`node_void_E.inl`) are not part of this model. Their behaviour here is a documented choice that keeps the one-connection-per-neighbour invariant:

- `Connect` puts one half of the new edge into each of the two nodes.
- `Connect` refuses a self-loop, and it refuses a pair that either side already lists as adjacent. It returns `false` and changes nothing.
- `Disconnect` removes only this node's half; the caller removes the other half. If there is no connection to remove, nothing changes.

Comparing connections needs payloads only where the code reads them. For a void edge type no connection carries a payload. For a non-void edge type, `operator==` and `operator<` test the targets first (connection.inl:100, 116-117) and call `value()` only when the targets are equal. So `Eq`, `Less` and the derived operators require `ComparablePair(kind, a, b)`: under `VoidEdge` neither side has a payload, and under `ValuedEdge` both sides have one whenever their targets are equal. Comparing `blank()` or a valueless connection with a connection to another node is therefore well defined, and `BlankComparisons` proves that `blank()` is below, and unequal to, every connection that has a target. The hash reads `value()` unconditionally (connection.inl:149), so `Hash` requires `Comparable(kind, c)`: no payload under `VoidEdge`, a payload under `ValuedEdge`. Comparing a connection with itself reads its value too, so reflexivity and irreflexivity are stated for comparable connections.

## Model

| member | source | states |
|---|---|---|
| `Connections.Valueless` | graph/zh/graph/connection/connection.inl:39-42 | `valueless(n)` targets `n` and has no payload, so it is comparable under a void edge type |
| `Connections.Blank` | graph/zh/graph/connection/connection.inl:44-47 | `blank()` has neither target nor payload, and it differs from every valueless connection; how it compares with other connections is `BlankComparisons` |
| `Connections.NewConnection` | graph/zh/graph/connection/connection.inl:79-86 | the forwarding constructor targets `where` and owns a freshly allocated payload built from the argument |
| `Connections.MakeConnections` | graph/zh/graph/connection/connection.inl:19-29 | for a non-void edge type, the first half targets `second` and the second half targets `first`; both hold the same fresh payload object, and both read back the constructor argument |
| `Connections.MakeVoidConnections` | graph/zh/graph/connection/connection.inl:10-17 | for a void edge type, the halves target the other node and carry no payload; the function has no payload argument to supply |
| `Connections.Deref` | graph/zh/graph/connection/connection.inl:49-52 | `operator*` is defined only on a connection with a target, and it denotes the node `get()` points at |
| `Connections.Arrow` | graph/zh/graph/connection/connection.inl:54-62 | `operator->` returns the same pointer as `get()`, and when that pointer is non-null it is the node `operator*` denotes |
| `Connections.Get` | graph/zh/graph/connection/connection.inl:54-57 | `get()` of `valueless(n)` is `n`, and `get()` of `blank()` is null |
| `Connections.Value` | graph/zh/graph/connection/connection.inl:64-67 | `value()` depends only on the payload handle: every connection holding that handle, whatever its target, reads the same value |
| `Connections.AssignValue` | graph/zh/graph/connection/connection.inl:64-67 | writing through the reference `value()` returns makes `value()` read the new value |
| `Connections.WriteThroughOneHalf` | graph/zh/graph/connection/connection.inl:23-28 | right after creation, the second half reads the constructor argument; after a write through the first half, the second half reads the written value |
| `Connections.Eq` | graph/zh/graph/connection/connection.inl:94-102 | defined whenever the source does not read a missing value; `a == b` implies equal targets; for a void edge type it holds iff the targets are equal; two connections with the same target and the same payload handle are equal |
| `Connections.Ne` | graph/zh/graph/connection/connection.inl:104-107 | connections with different targets are `!=`, and `!=` never holds between identical connections |
| `Connections.Less` | graph/zh/graph/connection/connection.inl:109-119 | a target lower in pointer order (null lowest) gives `a < b`, and `a < b` never has `b`'s target below `a`'s; for a void edge type, equal targets never give `<` |
| `Connections.Gt` | graph/zh/graph/connection/connection.inl:121-124 | a target higher in pointer order gives `a > b`, and `a > b` never has `a`'s target below `b`'s |
| `Connections.Le` | graph/zh/graph/connection/connection.inl:126-129 | a lower target gives `a <= b`, and a higher target refutes it |
| `Connections.Ge` | graph/zh/graph/connection/connection.inl:131-134 | a higher target gives `a >= b`, and a lower target refutes it |
| `Connections.TargetLessIsStrictTotal` | graph/zh/graph/connection/connection.inl:110-112 | pointer order on targets, with null first, is irreflexive, transitive, asymmetric and total on distinct targets |
| `Connections.LessIrreflexive` | graph/zh/graph/connection/connection.inl:109-119 | a connection that may be compared with itself (it has a payload exactly when the edge type is non-void) is not `<` itself, when `less` is a strict total order |
| `Connections.LessTransitive` | graph/zh/graph/connection/connection.inl:109-119 | on every pair the source can compare, `a < b` and `b < c` give that `a` and `c` can be compared and `a < c`, when `less` is a strict total order; this covers pairs with different targets and no payloads, such as `blank() < b < c` |
| `Connections.Trichotomy` | graph/zh/graph/connection/connection.inl:94-119 | for every pair the source can compare, including `blank()` or a valueless connection against a connection to another node, exactly one of `a < b`, `a == b` and `b < a` holds |
| `Connections.DerivedComparisons` | graph/zh/graph/connection/connection.inl:104-134 | on every pair the source can compare, `!=` holds iff `a < b` or `a > b`; `<=` holds iff `a < b` or `a == b`; `>=` holds iff `a > b` or `a == b` |
| `Connections.EqIsEquivalence` | graph/zh/graph/connection/connection.inl:94-102 | `==` is reflexive on every connection that may be compared with itself; it is symmetric on every pair the source can compare; and `a == b`, `b == c` give that `a` and `c` can be compared and `a == c` |
| `Connections.HashConsistentWithEq` | graph/zh/graph/connection/connection.inl:140-151 | equal connections have equal hashes, for every choice of pointer hash and value hash |
| `Connections.VoidPairComparisons` | graph/zh/graph/connection/connection.inl:94-98 | for a void edge type, the two halves of an edge are equal only for a self-loop, and `blank()` equals neither half |
| `Connections.BlankComparisons` | graph/zh/graph/connection/connection.inl:44-47 | for either edge kind, `blank()` can be compared with any connection that has a target (for a void edge type, one without a payload); it is `!=` to it and `<` and `<=` it, and the other connection is `>` it and not `<` it |
| `Connections.Hash` | graph/zh/graph/connection/connection.inl:140-151 | for a void edge type the hash is the pointer hash of the target; otherwise xor-ing out the hash of the value leaves the pointer hash of the target |
| `Prisms.Begin` | graph/deps/zh/prism/cfprism.inl:27-36 | `begin()` carries the container and the view's context; its distance to `end()` is `size()`; advancing it by `i` reads the projection of element `i` |
| `Prisms.CBegin` | graph/deps/zh/prism/cfprism.inl:38-46 | `cbegin()` is the same iterator as `begin()` |
| `Prisms.End` | graph/deps/zh/prism/cfprism.inl:48-56 | `end()` sits at the container's end with the view's context; on a non-empty view, the iterator before it reads the projection of the last element |
| `Prisms.CEnd` | graph/deps/zh/prism/cfprism.inl:58-66 | `cend()` is the same iterator as `end()` |
| `Prisms.Front` | graph/deps/zh/prism/cfprism.inl:69-72 | on a non-empty view, `front()` (`*begin()`) is the projection of the first backing element |
| `Prisms.Back` | graph/deps/zh/prism/cfprism.inl:74-77 | on a non-empty view, `back()` (`*prev(end())`) is the projection of the last backing element |
| `Prisms.At` | graph/deps/zh/prism/cfprism.inl:79-82 | for `0 <= i < size()`, `view[i]` (`begin()[i]`) is the projection of backing element `i` |
| `Prisms.Size` | graph/deps/zh/prism/cfprism.inl:85-88 | `size()` is the backing container's size |
| `Prisms.Empty` | graph/deps/zh/prism/cfprism.inl:90-93 | `empty()` holds iff `size()` is 0 |
| `Prisms.WalkIsProjectedSlice` | graph/deps/zh/prism/cfprism.inl:28-36 | walking from one iterator up to a later one reads the projection of the backing elements between them, in order |
| `Prisms.IterationIsProjection` | graph/deps/zh/prism/cfprism.inl:27-66 | iterating from `begin()` to `end()`, or from `cbegin()` to `cend()`, yields the projection mapped over the whole backing sequence in order, `size()` elements in all |
| `Adjacency.RemoveTargetMembers` | graph/zh/graph/node/node_void_E.hpp:82 | removing the connection to `t` keeps exactly the connections that do not target `t` |
| `Adjacency.RemoveTargetAt` | graph/zh/graph/node/node_void_E.hpp:82 | with unique targets, removing the connection to `t` at position `i` splices out position `i` and keeps the rest in order |
| `Adjacency.RemoveTargetAbsent` | graph/zh/graph/node/node_void_E.hpp:82 | removing a target that no connection has leaves the container unchanged |
| `Adjacency.RemoveTargetKeepsUnique` | graph/zh/graph/node/node_void_E.hpp:17-22 | removal keeps targets pairwise distinct, and no connection to `t` remains |
| `Adjacency.AppendKeepsUnique` | graph/zh/graph/node/node_void_E.hpp:17-22 | appending a connection to a node not yet targeted keeps targets pairwise distinct |
| `Adjacency.Node.constructor` | graph/zh/graph/node/node_void_E.hpp:26-31 | a new node has no connections and its id is its address; an address no live node occupies keeps all live ids distinct; `id` is a `const` field and cannot change |
| `Adjacency.Node.AdjacentNodes` | graph/zh/graph/node/node_void_E.hpp:69-70 | the nodes view has one element per connection, and element `i` is the target of connection `i` |
| `Adjacency.Node.Edges` | graph/zh/graph/node/node_void_E.hpp:72-73 | the edges view has one element per connection, and element `i` is connection `i` itself |
| `Adjacency.Node.ViewsAgree` | graph/zh/graph/node/node_void_E.hpp:33-43 | both views have equal size, and the i-th adjacent node is the target of the i-th edge |
| `Adjacency.Node.AdjacentNodesDistinct` | graph/zh/graph/node/node_void_E.hpp:17-22 | in a valid node, no node appears twice in the nodes view |
| `Adjacency.TargetsViewDistinct` | graph/zh/graph/node/node_void_E.hpp:17-22 | over a container with unique targets, the nodes view never shows the same node at two positions |
| `Adjacency.Node.Valid` | graph/zh/graph/node/node_void_E.hpp:17-22 | a valid node holds at most one connection to any other node: two positions with the same target are the same position; and any two of its connections can be compared |
| `Adjacency.Node.ViewsIterateInOrder` | graph/zh/graph/node/node_void_E.hpp:69-73 | iterating the nodes view yields the connections' targets, and iterating the edges view yields the connections, in container order |
| `Adjacency.Node.Find` | graph/zh/graph/node/node_void_E.hpp:80-82 | a lookup the model's `connect` and `disconnect` bodies use (the source's bodies are not part of this model): returns the position of the connection to `t` if there is one, and none exactly when no connection targets `t` |
| `Adjacency.Node.Connect` | graph/zh/graph/node/node_void_E.hpp:80-81 | for a non-void edge type, adds the edge iff it is not a self-loop and neither side already lists the other. When added, each node gains one half at the end targeting the other node, both halves share one fresh payload holding the argument, and both nodes stay valid; otherwise nothing changes |
| `Adjacency.Node.ConnectVoid` | graph/zh/graph/node/node_void_E.hpp:80-81 | the same for a void edge type; the added halves are valueless connections to the other node |
| `Adjacency.Node.Disconnect` | graph/zh/graph/node/node_void_E.hpp:82 | removes this node's connection to `n` if it has one, keeps the others in order, and keeps the node valid; the other node is not touched |
| `Adjacency.BuildPath` | graph/zh/graph/node/node_void_E.hpp:80-81 | connecting fresh nodes a-b with `x` and then b-c succeeds both times: a's one connection targets b and carries `x`, and b's connections target a then c |
| `Adjacency.ThreeNodeScenario` | graph/zh/graph/node/node_void_E.hpp:69-82 | on that path, b's adjacent nodes are a then c, and a's one edge carries `x`; after a-b is removed on both sides, a has no edges and b's only neighbour is c |

## Left out

- Reference counting and deallocation of the payload (`manual_ptr`, `make_manual`) are not part of this model, because their definitions are not part of it either. The payload is an aliased heap object. Nothing is claimed about counts, release or freeing, or about a connection's destructor.
- `value_ptr()` (connection.inl:69-77) returns the handle itself. In the model that handle is the `payload` field of `Connection`.
- The hash of a node pointer and the hash of `E` are arbitrary function parameters. Only the way they combine is modelled.
- The `static_assert` checks (connection.inl:11, 20, 84) are compile-time checks. They are represented by types: `MakeVoidConnections` has no payload argument, and `MakeConnections` and `NewConnection` take a value of type `E`.
- `make_connections` passes a reference where the void constructor takes a pointer (connection.inl:15-16). That constructor also stores `&node_ptr`, the address of its own parameter (connection.inl:88-91). Neither compiles as intended. The model follows the evident intent: the stored target is the other node.
- The hash builds `std::hash` for `const node<T, void>*` (connection.inl:143), which is not the pointer type `get()` returns for a node with a value. The model's `ptrHash` takes the target id whatever the node's value type.
- `make_from_tuple`/`tuple_cat` argument splicing, the CRTP `args()` cast (cfprism.inl:9-17) and `std::prev` are replaced by a cursor that carries the projection.
- `Prisms.Offset` does not check that an offset stays inside the container. As in the source, `operator[]` is only meaningful for an in-range offset, and `At` requires one.
- Iterator invalidation is not modelled. Views are values computed from the node's container at the moment they are taken.
- `~node()` is defaulted and does nothing to other nodes (node_void_E.hpp:64-66). Dafny has no destructors, and no operation in the model touches another node's connections except `Connect` and `ConnectVoid`, which update both ends of the edge they add.
- The graph container that owns nodes, allocates their addresses and keeps both halves of each edge in step is not part of this model. So the property that every connection has a mirror in its target node is not stated.
- The node value type `T` is not part of this model; the node shown holds no value.
