/**
 * A prism is a non-owning, read-only view over a backing container. Its
 * iterators are the container's iterators combined with fixed extra context;
 * here the container is a sequence, a container iterator is a position in
 * it, and the extra context is the projection `proj` that dereferencing an
 * iterator applies to the element it stands on.
 *
 * Every operation is a function: none of them can change the container.
 */
module Prisms {

  datatype Prism<!C, V> = Prism(data: seq<C>, proj: C -> V)

  /** A view iterator: a position in the backing sequence plus the projection. */
  datatype Cursor<!C, V> = Cursor(data: seq<C>, pos: nat, proj: C -> V)

  /** The projection applied to every element, in order. */
  function MapSeq<C, V>(f: C -> V, s: seq<C>): (r: seq<V>)
    ensures |r| == |s|
    ensures forall i | 0 <= i < |s| :: r[i] == f(s[i])
  {
    seq(|s|, i requires 0 <= i < |s| => f(s[i]))
  }

  // Iterators ==============================================================

  /** Dereference: the projection of the element the cursor stands on. */
  function Read<C, V>(it: Cursor<C, V>): V
    requires it.pos < |it.data|
  {
    it.proj(it.data[it.pos])
  }

  /** ++it */
  function Next<C, V>(it: Cursor<C, V>): Cursor<C, V>
  {
    it.(pos := it.pos + 1)
  }

  /** std::prev(it) */
  function Prev<C, V>(it: Cursor<C, V>): Cursor<C, V>
    requires it.pos > 0
  {
    it.(pos := it.pos - 1)
  }

  /** it + offset, for a random-access iterator. */
  function Offset<C, V>(it: Cursor<C, V>, offset: int): Cursor<C, V>
    requires 0 <= it.pos + offset
  {
    it.(pos := it.pos + offset)
  }

  /** last - first */
  function Distance<C, V>(first: Cursor<C, V>, last: Cursor<C, V>): int
  {
    last.pos - first.pos
  }

  /** The projected elements met walking from `first` up to (not including) `last`. */
  function Walk<C, V>(first: Cursor<C, V>, last: Cursor<C, V>): seq<V>
    requires first.data == last.data && first.pos <= last.pos <= |last.data|
    decreases last.pos - first.pos
  {
    if first.pos == last.pos then [] else [Read(first)] + Walk(Next(first), last)
  }

  // View members ===========================================================

  /** begin(): the container's first position with the view's fixed context. */
  function Begin<C, V>(p: Prism<C, V>): (it: Cursor<C, V>)
    ensures it.data == p.data && it.proj == p.proj
    ensures Distance(it, End(p)) == Size(p)
    ensures forall i | 0 <= i < Size(p) :: Read(Offset(it, i)) == p.proj(p.data[i])
  {
    Cursor(p.data, 0, p.proj)
  }

  /** cbegin(): the same position and context as begin(). */
  function CBegin<C, V>(p: Prism<C, V>): (it: Cursor<C, V>)
    ensures it == Begin(p)
  {
    Cursor(p.data, 0, p.proj)
  }

  /** end(): the container's past-the-end position with the view's fixed context. */
  function End<C, V>(p: Prism<C, V>): (it: Cursor<C, V>)
    ensures it.data == p.data && it.proj == p.proj
    ensures it.pos == |p.data|
    ensures |p.data| > 0 ==> Read(Prev(it)) == p.proj(p.data[|p.data| - 1])
  {
    Cursor(p.data, |p.data|, p.proj)
  }

  /** cend(): the same position and context as end(). */
  function CEnd<C, V>(p: Prism<C, V>): (it: Cursor<C, V>)
    ensures it == End(p)
  {
    Cursor(p.data, |p.data|, p.proj)
  }

  /** front(): *begin(); undefined on an empty view. */
  function Front<C, V>(p: Prism<C, V>): (v: V)
    requires !Empty(p)
    ensures v == p.proj(p.data[0])
  {
    Read(Begin(p))
  }

  /** back(): *std::prev(end()); undefined on an empty view. */
  function Back<C, V>(p: Prism<C, V>): (v: V)
    requires !Empty(p)
    ensures v == p.proj(p.data[Size(p) - 1])
  {
    Read(Prev(End(p)))
  }

  /** operator[]: begin()[offset], for an offset within the view. */
  function At<C, V>(p: Prism<C, V>, offset: int): (v: V)
    requires 0 <= offset < Size(p)
    ensures v == p.proj(p.data[offset])
  {
    Read(Offset(Begin(p), offset))
  }

  /** size(): forwarded from the backing container. */
  function Size<C, V>(p: Prism<C, V>): (n: nat)
    ensures n == |p.data|
  {
    |p.data|
  }

  /** empty(): forwarded from the backing container. */
  function Empty<C, V>(p: Prism<C, V>): (b: bool)
    ensures b <==> Size(p) == 0
  {
    p.data == []
  }

  // Iteration ==============================================================

  /** Walking from any cursor to a later one reads the projected slice between them. */
  lemma {:induction false} WalkIsProjectedSlice<C, V>(first: Cursor<C, V>, last: Cursor<C, V>)
    requires first.data == last.data && first.proj == last.proj
    requires first.pos <= last.pos <= |last.data|
    ensures Walk(first, last) == MapSeq(first.proj, first.data[first.pos..last.pos])
    decreases last.pos - first.pos
  {
    if first.pos < last.pos {
      WalkIsProjectedSlice(Next(first), last);
      assert first.data[first.pos..last.pos] == [first.data[first.pos]] + first.data[first.pos + 1..last.pos];
    }
  }

  /**
   * Iterating a view from begin() to end() yields the projection of every
   * backing element in the container's order, size() elements in all.
   */
  lemma IterationIsProjection<C, V>(p: Prism<C, V>)
    ensures Walk(Begin(p), End(p)) == MapSeq(p.proj, p.data)
    ensures |Walk(Begin(p), End(p))| == Size(p)
    ensures Walk(CBegin(p), CEnd(p)) == Walk(Begin(p), End(p))
  {
    WalkIsProjectedSlice(Begin(p), End(p));
    assert p.data[0..|p.data|] == p.data;
  }
}
