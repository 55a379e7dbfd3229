/**
 * An intrusive singly linked list whose nodes carry a back-reference to the
 * slot that points at them, so that a node can be spliced out in O(1).
 *
 * Memory is modelled as an arena: every node lives at a stable index of
 * `Heap.nodes`, and the external slots a host structure keeps (the heads of
 * its lists, for instance an allocator's bins) live in `Heap.roots`.  A
 * pointer to a slot is a `Slot`, resolved through the arena by `Read` and
 * `Write`.  `Inserted` and `Removed` are the operations as functions of the
 * whole heap; the class `Memory` performs the same writes in place, and the
 * class `IterMut` is the forward iterator with its mutable cursor.
 */
module Llist {

  datatype Option<T> = None | Some(value: T)

  /** A pointer to a storage location that holds an `Option<nat>` link. */
  datatype Slot =
    | Null            // the null back-pointer of a node that was never inserted
    | Root(r: nat)    // an external slot owned by the host structure
    | NextOf(i: nat)  // the `next` field of node `i`

  /** The two link fields embedded in a host structure. */
  datatype Node = Node(next: Option<nat>, nextOfPrev: Slot)

  /** The memory the list operations read and write. */
  datatype Heap = Heap(nodes: seq<Node>, roots: seq<Option<nat>>)

  /** The address of node `i`'s `next` field. */
  function NextPtr(i: nat): Slot {
    NextOf(i)
  }

  /** `s` designates a location of the heap (the null pointer does not). */
  predicate ValidSlot(h: Heap, s: Slot) {
    match s
    case Null => false
    case Root(r) => r < |h.roots|
    case NextOf(i) => i < |h.nodes|
  }

  /** The link stored at slot `s`. */
  function Read(h: Heap, s: Slot): Option<nat>
    requires ValidSlot(h, s)
  {
    match s
    case Root(r) => h.roots[r]
    case NextOf(i) => h.nodes[i].next
  }

  /** Stores `v` at slot `s`; every other location keeps its value. */
  function Write(h: Heap, s: Slot, v: Option<nat>): (r: Heap)
    requires ValidSlot(h, s)
    ensures |r.nodes| == |h.nodes| && |r.roots| == |h.roots|
    ensures ValidSlot(r, s) && Read(r, s) == v
    ensures forall i :: 0 <= i < |h.nodes| && s != NextPtr(i) ==> r.nodes[i].next == h.nodes[i].next
    ensures forall i :: 0 <= i < |h.nodes| ==> r.nodes[i].nextOfPrev == h.nodes[i].nextOfPrev
    ensures forall j :: 0 <= j < |h.roots| && s != Root(j) ==> r.roots[j] == h.roots[j]
  {
    match s
    case Root(j) => h.(roots := h.roots[j := v])
    case NextOf(i) => h.(nodes := h.nodes[i := h.nodes[i].(next := v)])
  }

  /** Node `i`'s back-reference, overwritten with `s`. */
  function SetNextOfPrev(h: Heap, i: nat, s: Slot): (r: Heap)
    requires i < |h.nodes|
    ensures |r.nodes| == |h.nodes| && r.roots == h.roots
    ensures r.nodes[i] == Node(h.nodes[i].next, s)
    ensures forall k :: 0 <= k < |h.nodes| && k != i ==> r.nodes[k] == h.nodes[k]
  {
    h.(nodes := h.nodes[i := h.nodes[i].(nextOfPrev := s)])
  }

  /**
   * `insert(node, slot, next)`: write the node's fields, make the slot point
   * at the node, and point the successor's back-reference at the node's
   * `next` field, in that order.  The writes happen exactly as written even
   * when they alias (a slot that is the node's own `next` field, or a
   * successor that is the node itself).
   */
  function Inserted(h: Heap, node: nat, slot: Slot, next: Option<nat>): (r: Heap)
    requires node < |h.nodes| && ValidSlot(h, slot)
    requires next.Some? ==> next.value < |h.nodes|
    ensures |r.nodes| == |h.nodes| && |r.roots| == |h.roots|
    ensures ValidSlot(r, slot) && Read(r, slot) == Some(node)
    ensures slot != NextPtr(node) ==> r.nodes[node].next == next
    ensures next != Some(node) ==> r.nodes[node].nextOfPrev == slot
    ensures next.Some? ==> r.nodes[next.value].nextOfPrev == NextPtr(node)
    ensures forall i :: 0 <= i < |h.nodes| && i != node && slot != NextPtr(i) ==> r.nodes[i].next == h.nodes[i].next
    ensures forall i :: 0 <= i < |h.nodes| && i != node && Some(i) != next ==> r.nodes[i].nextOfPrev == h.nodes[i].nextOfPrev
    ensures forall j :: 0 <= j < |h.roots| && slot != Root(j) ==> r.roots[j] == h.roots[j]
    ensures forall t :: ValidSlot(h, t) && t != slot && t != NextPtr(node) ==> Read(r, t) == Read(h, t)
    ensures InArena(h) ==> InArena(r)
  {
    var written := h.(nodes := h.nodes[node := Node(next, slot)]);
    var linked := Write(written, slot, Some(node));
    if next.Some? then SetNextOfPrev(linked, next.value, NextPtr(node)) else linked
  }

  /**
   * `remove(node)`: store the node's `next` in the slot its back-reference
   * designates, then point the successor's back-reference at that slot.  The
   * node itself is not written.
   */
  function Removed(h: Heap, node: nat): (r: Heap)
    requires node < |h.nodes| && ValidSlot(h, h.nodes[node].nextOfPrev)
    requires h.nodes[node].next.Some? ==> h.nodes[node].next.value < |h.nodes|
    ensures |r.nodes| == |h.nodes| && |r.roots| == |h.roots|
    ensures ValidSlot(r, h.nodes[node].nextOfPrev) && Read(r, h.nodes[node].nextOfPrev) == h.nodes[node].next
    ensures h.nodes[node].next.Some? ==> r.nodes[h.nodes[node].next.value].nextOfPrev == h.nodes[node].nextOfPrev
    ensures forall i :: 0 <= i < |h.nodes| && h.nodes[node].nextOfPrev != NextPtr(i) ==> r.nodes[i].next == h.nodes[i].next
    ensures forall i :: 0 <= i < |h.nodes| && h.nodes[node].next != Some(i) ==> r.nodes[i].nextOfPrev == h.nodes[i].nextOfPrev
    ensures forall j :: 0 <= j < |h.roots| && h.nodes[node].nextOfPrev != Root(j) ==> r.roots[j] == h.roots[j]
    ensures forall t :: ValidSlot(h, t) && t != h.nodes[node].nextOfPrev ==> Read(r, t) == Read(h, t)
    ensures InArena(h) ==> InArena(r)
  {
    var Node(next, nextOfPrev) := h.nodes[node];
    var bridged := Write(h, nextOfPrev, next);
    if next.Some? then SetNextOfPrev(bridged, next.value, nextOfPrev) else bridged
  }

  /** Every link stored in the heap designates a node of the arena. */
  predicate InArena(h: Heap) {
    && (forall i :: 0 <= i < |h.nodes| && h.nodes[i].next.Some? ==> h.nodes[i].next.value < |h.nodes|)
    && (forall j :: 0 <= j < |h.roots| && h.roots[j].Some? ==> h.roots[j].value < |h.nodes|)
  }

  /** One call of `IterMut::next` with cursor `cursor`: the item it returns and the new cursor. */
  function IterStep(h: Heap, cursor: Option<nat>): (r: (Option<nat>, Option<nat>))
    requires cursor.Some? ==> cursor.value < |h.nodes|
    ensures r.0 == cursor
    ensures cursor.None? ==> r.1.None?
    ensures cursor.Some? ==> r.1 == h.nodes[cursor.value].next
    ensures InArena(h) ==> (r.1.Some? ==> r.1.value < |h.nodes|)
  {
    match cursor
    case None => (None, None)
    case Some(c) => (Some(c), h.nodes[c].next)
  }

  /** The results of `n` successive calls of `IterMut::next` starting from `cursor`. */
  function Drain(h: Heap, cursor: Option<nat>, n: nat): (r: seq<Option<nat>>)
    requires InArena(h) && (cursor.Some? ==> cursor.value < |h.nodes|)
    ensures |r| == n
    ensures n > 0 ==> r[0] == cursor
    decreases n
  {
    if n == 0 then []
    else
      var (item, rest) := IterStep(h, cursor);
      [item] + Drain(h, rest, n - 1)
  }

  /** The iterator's cursor after `i` calls of `next` starting from `cursor`. */
  function CursorAfter(h: Heap, cursor: Option<nat>, i: nat): (c: Option<nat>)
    requires InArena(h) && (cursor.Some? ==> cursor.value < |h.nodes|)
    ensures c.Some? ==> c.value < |h.nodes|
    decreases i
  {
    if i == 0 then cursor else CursorAfter(h, IterStep(h, cursor).1, i - 1)
  }

  /** The first `i + 1` results are the first `i` followed by the step from where they leave the cursor. */
  lemma {:induction false} DrainExtend(h: Heap, cursor: Option<nat>, i: nat)
    requires InArena(h) && (cursor.Some? ==> cursor.value < |h.nodes|)
    ensures Drain(h, cursor, i + 1) == Drain(h, cursor, i) + [IterStep(h, CursorAfter(h, cursor, i)).0]
    ensures CursorAfter(h, cursor, i + 1) == IterStep(h, CursorAfter(h, cursor, i)).1
    decreases i
  {
    if i > 0 {
      var next := IterStep(h, cursor).1;
      DrainExtend(h, next, i - 1);
      assert Drain(h, cursor, i + 1) == [cursor] + Drain(h, next, i);
      assert Drain(h, cursor, i) == [cursor] + Drain(h, next, i - 1);
    }
  }

  // ---------------------------------------------------------------------
  // The abstract chain

  function Head(xs: seq<nat>): Option<nat> {
    if xs == [] then None else Some(xs[0])
  }

  /** What `xs[k]`'s `next` field holds when `xs` is a chain. */
  function After(xs: seq<nat>, k: nat): Option<nat>
    requires k < |xs|
  {
    if k + 1 < |xs| then Some(xs[k + 1]) else None
  }

  /** The slot that points at `xs[k]` in the chain hanging off slot `s`. */
  function SlotBefore(s: Slot, xs: seq<nat>, k: nat): Slot
    requires k <= |xs|
  {
    if k == 0 then s else NextPtr(xs[k - 1])
  }

  /** The items iteration over `xs` returns. */
  function Yields(xs: seq<nat>): (ys: seq<Option<nat>>)
    ensures |ys| == |xs|
    ensures forall k :: 0 <= k < |xs| ==> ys[k] == Some(xs[k])
  {
    if xs == [] then [] else [Some(xs[0])] + Yields(xs[1..])
  }

  predicate Distinct(xs: seq<nat>) {
    forall j, k :: 0 <= j < k < |xs| ==> xs[j] != xs[k]
  }

  /** Following `next` from `cursor` visits exactly `xs` and then reaches `None`. */
  predicate Linked(h: Heap, cursor: Option<nat>, xs: seq<nat>) {
    && cursor == Head(xs)
    && (forall k :: 0 <= k < |xs| ==> xs[k] < |h.nodes|)
    && (forall k {:trigger h.nodes[xs[k]]} :: 0 <= k < |xs| ==> h.nodes[xs[k]].next == After(xs, k))
  }

  /**
   * The well-formed list hanging off slot `s` is `xs`: its nodes are in the
   * arena and pairwise distinct (the chain is acyclic), `s` and the `next`
   * fields link them in order, and every node's back-reference designates
   * the slot that points at it (`s` for the first node, the predecessor's
   * `next` field for the others).
   */
  predicate ListAt(h: Heap, s: Slot, xs: seq<nat>) {
    && ValidSlot(h, s)
    && Linked(h, Read(h, s), xs)
    && Distinct(xs)
    && (forall k {:trigger h.nodes[xs[k]]} :: 0 <= k < |xs| ==> h.nodes[xs[k]].nextOfPrev == SlotBefore(s, xs, k))
  }

  // ---------------------------------------------------------------------
  // The operations on memory in place

  /** The arena, updated in place by `insert` and `remove`. */
  class Memory {
    var nodes: seq<Node>
    var roots: seq<Option<nat>>

    function State(): Heap
      reads this
    {
      Heap(nodes, roots)
    }

    /** Nodes built as `LlistNode { next: None, next_of_prev: null }`, and empty external slots. */
    constructor (nodeCount: nat, rootCount: nat)
      ensures |nodes| == nodeCount && |roots| == rootCount
      ensures forall i :: 0 <= i < nodeCount ==> nodes[i] == Node(None, Null)
      ensures forall j :: 0 <= j < rootCount ==> roots[j] == None
      ensures InArena(State())
    {
      nodes := seq(nodeCount, _ => Node(None, Null));
      roots := seq(rootCount, _ => None);
    }

    /** `*slot = v`. */
    method WriteSlot(s: Slot, v: Option<nat>)
      requires ValidSlot(State(), s)
      modifies this
      ensures State() == Write(old(State()), s, v)
    {
      match s
      case Root(j) =>
        roots := roots[j := v];
      case NextOf(i) =>
        nodes := nodes[i := nodes[i].(next := v)];
    }

    /** `LlistNode::insert(node, slot, next)`. */
    method Insert(node: nat, slot: Slot, next: Option<nat>)
      requires node < |nodes| && ValidSlot(State(), slot)
      requires next.Some? ==> next.value < |nodes|
      modifies this
      ensures State() == Inserted(old(State()), node, slot, next)
    {
      nodes := nodes[node := Node(next, slot)];
      WriteSlot(slot, Some(node));
      if next.Some? {
        var successor := next.value;
        nodes := nodes[successor := nodes[successor].(nextOfPrev := NextPtr(node))];
      }
    }

    /** `LlistNode::remove(node)`. */
    method Remove(node: nat)
      requires node < |nodes| && ValidSlot(State(), nodes[node].nextOfPrev)
      requires nodes[node].next.Some? ==> nodes[node].next.value < |nodes|
      modifies this
      ensures State() == Removed(old(State()), node)
    {
      var Node(next, nextOfPrev) := nodes[node];
      WriteSlot(nextOfPrev, next);
      if next.Some? {
        var successor := next.value;
        nodes := nodes[successor := nodes[successor].(nextOfPrev := nextOfPrev)];
      }
    }
  }

  /** The forward iterator: its one field is the node it returns next. */
  class IterMut {
    var cursor: Option<nat>

    /** `IterMut::new(first)`, also reached through `LlistNode::iter_mut(first)`. */
    constructor (first: Option<nat>)
      ensures cursor == first
    {
      cursor := first;
    }

    /**
     * `Iterator::next`: `None` when the cursor is `None`; otherwise the
     * cursor, which advances to that node's `next` as it is at this call.
     */
    method Next(mem: Memory) returns (item: Option<nat>)
      requires cursor.Some? ==> cursor.value < |mem.nodes|
      modifies this
      ensures item == old(cursor)
      ensures old(cursor).None? ==> cursor.None?
      ensures old(cursor).Some? ==> cursor == mem.nodes[old(cursor).value].next
      ensures (item, cursor) == IterStep(mem.State(), old(cursor))
    {
      if cursor.None? {
        return None;
      }
      var current := cursor.value;
      cursor := mem.nodes[current].next;
      item := Some(current);
    }
  }

  /** The items of `n` successive `next` calls on a fresh `iter_mut(first)`. */
  method IterateN(mem: Memory, first: Option<nat>, n: nat) returns (run: seq<Option<nat>>)
    requires InArena(mem.State()) && (first.Some? ==> first.value < |mem.nodes|)
    ensures run == Drain(mem.State(), first, n)
  {
    ghost var h := mem.State();
    var iter := new IterMut(first);
    run := [];
    var i := 0;
    while i < n
      invariant i <= n && mem.State() == h
      invariant run == Drain(h, first, i) && iter.cursor == CursorAfter(h, first, i)
    {
      var item := iter.Next(mem);
      DrainExtend(h, first, i);
      run := run + [item];
      i := i + 1;
    }
  }
}
