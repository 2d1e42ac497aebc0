/**
 * A connection is one directed half of an undirected edge: a non-owning
 * reference to the node it points at, plus (for a non-void edge type) a
 * handle on the edge's payload, which the two halves of one edge share.
 *
 * Node identity is an abstract `nat` (the node's address); a null node
 * pointer is `None`. The payload is a heap object, so two connections that
 * hold the same `Payload` really alias it.
 */
module Connections {
  import opened Wrappers

  /** Whether the edge type E is `void` (no payload) or carries a value. */
  datatype EdgeKind = VoidEdge | ValuedEdge

  /** The heap cell the shared payload handle points to. */
  class Payload<E> {
    var val: E

    constructor (v: E)
      ensures val == v
    {
      val := v;
    }
  }

  datatype Connection<E> = Connection(target: Option<nat>, payload: Option<Payload<E>>)

  /** The objects a connection's value lives in. */
  function Footprint<E>(c: Connection<E>): set<object>
  {
    if c.payload.Some? then {c.payload.value} else {}
  }

  /**
   * Whether a connection may be hashed, or compared with itself, under edge
   * kind `kind`: for a void edge type it carries no payload, otherwise the
   * hash reads its value, which must therefore exist.
   */
  predicate Comparable<E>(kind: EdgeKind, c: Connection<E>)
  {
    match kind
    case VoidEdge => c.payload.None?
    case ValuedEdge => c.payload.Some?
  }

  // Construction ===========================================================

  /** A connection to `where` that holds no payload. */
  function Valueless<E>(where: nat): (c: Connection<E>)
    ensures c.target == Some(where) && c.payload.None?
    ensures Comparable(VoidEdge, c)
  {
    Connection(Some(where), None)
  }

  /** The sentinel: neither target nor payload. */
  function Blank<E>(): (c: Connection<E>)
    ensures c.target.None? && c.payload.None?
    ensures forall n: nat :: c != Valueless(n)
  {
    Connection(None, None)
  }

  /** The forwarding constructor: a connection to `where` owning a new payload built from `arg`. */
  method NewConnection<E>(where: nat, arg: E) returns (c: Connection<E>)
    ensures c.target == Some(where) && c.payload.Some?
    ensures fresh(c.payload.value) && c.payload.value.val == arg
  {
    var p := new Payload(arg);
    c := Connection(Some(where), Some(p));
  }

  /**
   * The pair of half-edges for one edge between `first` and `second` when the
   * edge type is not void: one payload is allocated from `arg` and both halves
   * hold it. The first half is stored in `first` and targets `second`.
   */
  method MakeConnections<E>(first: nat, second: nat, arg: E) returns (toSecond: Connection<E>, toFirst: Connection<E>)
    ensures toSecond.target == Some(second) && toFirst.target == Some(first)
    ensures toSecond.payload.Some? && toSecond.payload == toFirst.payload
    ensures fresh(toSecond.payload.value)
    ensures Value(toSecond) == arg && Value(toFirst) == arg
  {
    var shared := new Payload(arg);
    toSecond := Connection(Some(second), Some(shared));
    toFirst := Connection(Some(first), Some(shared));
  }

  /**
   * The pair of half-edges for one edge when the edge type is void. It takes
   * no payload argument: supplying one is rejected by the type.
   */
  function MakeVoidConnections<E>(first: nat, second: nat): (pair: (Connection<E>, Connection<E>))
    ensures pair.0.target == Some(second) && pair.1.target == Some(first)
    ensures pair.0.payload.None? && pair.1.payload.None?
    ensures Comparable(VoidEdge, pair.0) && Comparable(VoidEdge, pair.1)
  {
    (Valueless(second), Valueless(first))
  }

  // Access =================================================================

  /** get(): the stored target pointer, null for a blank connection. */
  function Get<E>(c: Connection<E>): (p: Option<nat>)
    ensures forall n: nat :: c == Valueless(n) ==> p == Some(n)
    ensures c == Blank() ==> p.None?
  {
    c.target
  }

  /** operator*: the target node itself; undefined on a blank connection. */
  function Deref<E>(c: Connection<E>): (n: nat)
    requires c.target.Some?
    ensures Get(c) == Some(n)
  {
    c.target.value
  }

  /** operator->: the same pointer get() returns. */
  function Arrow<E>(c: Connection<E>): (p: Option<nat>)
    ensures p == Get(c)
    ensures p.Some? ==> p.value == Deref(c)
  {
    c.target
  }

  /**
   * value(): the shared payload; undefined when there is none. What it reads
   * depends only on the handle, so every connection holding that handle,
   * whatever its target, reads the same value.
   */
  function Value<E>(c: Connection<E>): (v: E)
    requires c.payload.Some?
    reads Footprint(c)
    ensures forall t: Option<nat> :: Connection(t, c.payload).payload.value.val == v
  {
    c.payload.value.val
  }

  /** Assignment through the reference value() returns. */
  method AssignValue<E>(c: Connection<E>, v: E)
    requires c.payload.Some?
    modifies c.payload.value
    ensures Value(c) == v
  {
    c.payload.value.val := v;
  }

  /**
   * Both halves of a fresh edge are created with `arg`; writing `v` through
   * the first half is then what the second half reads.
   */
  method WriteThroughOneHalf<E>(first: nat, second: nat, arg: E, v: E) returns (before: E, after: E)
    ensures before == arg && after == v
  {
    var toSecond, toFirst := MakeConnections(first, second, arg);
    before := Value(toFirst);
    AssignValue(toSecond, v);
    after := Value(toFirst);
  }

  // Comparison =============================================================

  /** Pointer order on targets; the null pointer is below every node. */
  predicate TargetLess(x: Option<nat>, y: Option<nat>)
  {
    match (x, y)
    case (None, Some(_)) => true
    case (Some(a), Some(b)) => a < b
    case _ => false
  }

  /**
   * Whether `a` and `b` may be compared under edge kind `kind`. For a void
   * edge type neither carries a payload. Otherwise `==` and `<` test the
   * targets first and read the values only when the targets are equal, so
   * only then must both payloads exist.
   */
  predicate ComparablePair<E>(kind: EdgeKind, a: Connection<E>, b: Connection<E>)
  {
    match kind
    case VoidEdge => a.payload.None? && b.payload.None?
    case ValuedEdge => Get(a) == Get(b) ==> a.payload.Some? && b.payload.Some?
  }

  /** operator== : same target and, unless E is void, equal payload values. */
  function Eq<E(==)>(kind: EdgeKind, a: Connection<E>, b: Connection<E>): (r: bool)
    requires ComparablePair(kind, a, b)
    reads Footprint(a), Footprint(b)
    ensures r ==> Get(a) == Get(b)
    ensures kind == VoidEdge ==> (r <==> Get(a) == Get(b))
    ensures Get(a) == Get(b) && a.payload == b.payload ==> r
  {
    match kind
    case VoidEdge => Get(a) == Get(b)
    case ValuedEdge => Get(a) == Get(b) && Value(a) == Value(b)
  }

  /** operator!= */
  function Ne<E(==)>(kind: EdgeKind, a: Connection<E>, b: Connection<E>): (r: bool)
    requires ComparablePair(kind, a, b)
    reads Footprint(a), Footprint(b)
    ensures Get(a) != Get(b) ==> r
    ensures r ==> a != b
  {
    !Eq(kind, a, b)
  }

  /** operator< : lexicographic on (target, payload value) with `less` ordering E. */
  function Less<E>(kind: EdgeKind, less: (E, E) -> bool, a: Connection<E>, b: Connection<E>): (r: bool)
    requires ComparablePair(kind, a, b)
    reads Footprint(a), Footprint(b)
    ensures TargetLess(Get(a), Get(b)) ==> r
    ensures r ==> !TargetLess(Get(b), Get(a))
    ensures kind == VoidEdge && Get(a) == Get(b) ==> !r
  {
    match kind
    case VoidEdge => TargetLess(Get(a), Get(b))
    case ValuedEdge =>
      TargetLess(Get(a), Get(b)) || (Get(a) == Get(b) && less(Value(a), Value(b)))
  }

  /** operator> */
  function Gt<E>(kind: EdgeKind, less: (E, E) -> bool, a: Connection<E>, b: Connection<E>): (r: bool)
    requires ComparablePair(kind, a, b)
    reads Footprint(a), Footprint(b)
    ensures TargetLess(Get(b), Get(a)) ==> r
    ensures r ==> !TargetLess(Get(a), Get(b))
  {
    Less(kind, less, b, a)
  }

  /** operator<= */
  function Le<E>(kind: EdgeKind, less: (E, E) -> bool, a: Connection<E>, b: Connection<E>): (r: bool)
    requires ComparablePair(kind, a, b)
    reads Footprint(a), Footprint(b)
    ensures TargetLess(Get(a), Get(b)) ==> r
    ensures TargetLess(Get(b), Get(a)) ==> !r
  {
    !Gt(kind, less, a, b)
  }

  /** operator>= */
  function Ge<E>(kind: EdgeKind, less: (E, E) -> bool, a: Connection<E>, b: Connection<E>): (r: bool)
    requires ComparablePair(kind, a, b)
    reads Footprint(a), Footprint(b)
    ensures TargetLess(Get(b), Get(a)) ==> r
    ensures TargetLess(Get(a), Get(b)) ==> !r
  {
    !Less(kind, less, a, b)
  }

  /** `less` is a strict total order on E, with E's own equality. */
  ghost predicate StrictTotalOrder<E(!new)>(less: (E, E) -> bool)
  {
    && (forall x :: !less(x, x))
    && (forall x, y, z :: less(x, y) && less(y, z) ==> less(x, z))
    && (forall x, y :: x != y ==> less(x, y) || less(y, x))
  }

  // Hashing ================================================================

  /**
   * std::hash<connection>: the hash of the target pointer, xor-ed with the
   * hash of the payload value unless E is void. Both underlying hashes are
   * parameters; size_t is 64 bits wide.
   */
  function Hash<E>(kind: EdgeKind, ptrHash: Option<nat> -> bv64, valueHash: E -> bv64, c: Connection<E>): (h: bv64)
    requires Comparable(kind, c)
    reads Footprint(c)
    ensures kind == VoidEdge ==> h == ptrHash(Get(c))
    ensures kind == ValuedEdge ==> h ^ valueHash(Value(c)) == ptrHash(Get(c))
  {
    match kind
    case VoidEdge => ptrHash(Get(c))
    case ValuedEdge => ptrHash(Get(c)) ^ valueHash(Value(c))
  }

  // Laws ===================================================================

  lemma TargetLessIsStrictTotal(x: Option<nat>, y: Option<nat>, z: Option<nat>)
    ensures !TargetLess(x, x)
    ensures TargetLess(x, y) && TargetLess(y, z) ==> TargetLess(x, z)
    ensures x != y ==> TargetLess(x, y) || TargetLess(y, x)
    ensures !(TargetLess(x, y) && TargetLess(y, x))
  {
  }

  /** `<` never relates a connection to itself. */
  lemma LessIrreflexive<E(!new)>(kind: EdgeKind, less: (E, E) -> bool, a: Connection<E>)
    requires StrictTotalOrder(less)
    requires Comparable(kind, a)
    ensures ComparablePair(kind, a, a) && !Less(kind, less, a, a)
  {
  }

  /**
   * `<` is transitive. Two steps of `<` never pass through equal targets
   * without reading values, so `a` and `c` are comparable as well.
   */
  lemma LessTransitive<E(!new)>(kind: EdgeKind, less: (E, E) -> bool, a: Connection<E>, b: Connection<E>, c: Connection<E>)
    requires StrictTotalOrder(less)
    requires ComparablePair(kind, a, b) && ComparablePair(kind, b, c)
    requires Less(kind, less, a, b) && Less(kind, less, b, c)
    ensures ComparablePair(kind, a, c) && Less(kind, less, a, c)
  {
  }

  /** Exactly one of a < b, a == b and b < a holds. */
  lemma Trichotomy<E(!new)>(kind: EdgeKind, less: (E, E) -> bool, a: Connection<E>, b: Connection<E>)
    requires StrictTotalOrder(less)
    requires ComparablePair(kind, a, b)
    ensures Less(kind, less, a, b) || Eq(kind, a, b) || Less(kind, less, b, a)
    ensures !(Less(kind, less, a, b) && Eq(kind, a, b))
    ensures !(Less(kind, less, b, a) && Eq(kind, a, b))
    ensures !(Less(kind, less, a, b) && Less(kind, less, b, a))
  {
  }

  /**
   * The derived operators mean what their names say: != is "less or
   * greater", <= is "less or equal", >= is "greater or equal".
   */
  lemma DerivedComparisons<E(!new)>(kind: EdgeKind, less: (E, E) -> bool, a: Connection<E>, b: Connection<E>)
    requires StrictTotalOrder(less)
    requires ComparablePair(kind, a, b)
    ensures Ne(kind, a, b) <==> Less(kind, less, a, b) || Gt(kind, less, a, b)
    ensures Le(kind, less, a, b) <==> Less(kind, less, a, b) || Eq(kind, a, b)
    ensures Ge(kind, less, a, b) <==> Gt(kind, less, a, b) || Eq(kind, a, b)
  {
  }

  /**
   * `==` is an equivalence relation: reflexive wherever a connection may be
   * compared with itself, symmetric, and transitive (two equal steps keep the
   * target, so `a` and `c` are comparable).
   */
  lemma EqIsEquivalence<E>(kind: EdgeKind, a: Connection<E>, b: Connection<E>, c: Connection<E>)
    requires ComparablePair(kind, a, b) && ComparablePair(kind, b, c)
    ensures Comparable(kind, a) ==> ComparablePair(kind, a, a) && Eq(kind, a, a)
    ensures Eq(kind, a, b) ==> Eq(kind, b, a)
    ensures Eq(kind, a, b) && Eq(kind, b, c) ==> ComparablePair(kind, a, c) && Eq(kind, a, c)
  {
  }

  /** Equal connections hash equally, whatever the two underlying hashes are. */
  lemma HashConsistentWithEq<E>(kind: EdgeKind, ptrHash: Option<nat> -> bv64, valueHash: E -> bv64, a: Connection<E>, b: Connection<E>)
    requires Comparable(kind, a) && Comparable(kind, b)
    requires Eq(kind, a, b)
    ensures Hash(kind, ptrHash, valueHash, a) == Hash(kind, ptrHash, valueHash, b)
  {
  }

  /**
   * The two halves of one void edge are never equal to each other unless the
   * edge is a self-loop, and the blank sentinel equals neither.
   */
  lemma VoidPairComparisons<E>(first: nat, second: nat)
    ensures var pair := MakeVoidConnections<E>(first, second);
      && (Eq(VoidEdge, pair.0, pair.1) <==> first == second)
      && !Eq(VoidEdge, Blank<E>(), pair.0)
      && !Eq(VoidEdge, Blank<E>(), pair.1)
  {
  }

  /**
   * The blank sentinel sorts below, and is unequal to, every connection that
   * has a target: for a non-void edge type the comparison never reaches the
   * values, so the other side need not be comparable on its own.
   */
  lemma BlankComparisons<E(!new)>(kind: EdgeKind, less: (E, E) -> bool, c: Connection<E>)
    requires c.target.Some?
    requires kind == VoidEdge ==> c.payload.None?
    ensures ComparablePair(kind, Blank(), c) && ComparablePair(kind, c, Blank())
    ensures !Eq(kind, Blank(), c) && Ne(kind, Blank(), c) && !Eq(kind, c, Blank())
    ensures Less(kind, less, Blank(), c) && Le(kind, less, Blank(), c)
    ensures Gt(kind, less, c, Blank()) && !Less(kind, less, c, Blank())
  {
  }
}
