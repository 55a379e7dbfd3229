/**
 * What `insert`, `remove` and the iterator do to the abstract chain: the
 * list invariant `ListAt` is preserved, `insert` adds exactly the node at the
 * chosen position, `remove` deletes exactly the node, an insertion undone by a
 * removal leaves every other location as it was, a removal undone by an
 * insertion restores the whole heap, repeated insertions at the front stack
 * the nodes most recent first, and iteration yields the start node, then its
 * chain, then `None`.
 */
module LlistProofs {
  import opened Llist

  /**
   * `next_ptr(i)` designates node `i`'s `next` field: reading it gives that
   * field, writing it changes that field, and distinct nodes have distinct
   * `next` fields.
   */
  lemma NextPtrDesignatesNext(h: Heap, i: nat, j: nat, v: Option<nat>)
    requires i < |h.nodes|
    ensures ValidSlot(h, NextPtr(i)) && Read(h, NextPtr(i)) == h.nodes[i].next
    ensures Write(h, NextPtr(i), v).nodes[i] == Node(v, h.nodes[i].nextOfPrev)
    ensures NextPtr(i) == NextPtr(j) ==> i == j
  {
  }

  /**
   * In a well-formed list, a node's successor points back at the node's
   * `next` field, and every node's back-reference designates a slot that
   * holds that very node.
   */
  lemma ListAtInvariants(h: Heap, s: Slot, xs: seq<nat>)
    requires ListAt(h, s, xs)
    ensures forall k :: 0 <= k < |xs| && h.nodes[xs[k]].next.Some? ==>
      h.nodes[xs[k]].next.value < |h.nodes| && h.nodes[h.nodes[xs[k]].next.value].nextOfPrev == NextPtr(xs[k])
    ensures forall k :: 0 <= k < |xs| ==>
      ValidSlot(h, h.nodes[xs[k]].nextOfPrev) && Read(h, h.nodes[xs[k]].nextOfPrev) == Some(xs[k])
  {
    forall k | 0 <= k < |xs| && h.nodes[xs[k]].next.Some?
      ensures h.nodes[xs[k]].next.value < |h.nodes| && h.nodes[h.nodes[xs[k]].next.value].nextOfPrev == NextPtr(xs[k])
    {
      assert h.nodes[xs[k]].next == After(xs, k);
      assert h.nodes[xs[k + 1]].nextOfPrev == SlotBefore(s, xs, k + 1);
    }
    forall k | 0 <= k < |xs|
      ensures ValidSlot(h, h.nodes[xs[k]].nextOfPrev) && Read(h, h.nodes[xs[k]].nextOfPrev) == Some(xs[k])
    {
      ReadSlotBefore(h, s, xs, k);
      assert h.nodes[xs[k]].nextOfPrev == SlotBefore(s, xs, k);
    }
  }

  /** The slot before position `p` holds the node at position `p` (or `None` past the end). */
  lemma ReadSlotBefore(h: Heap, s: Slot, xs: seq<nat>, p: nat)
    requires ListAt(h, s, xs) && p <= |xs|
    ensures ValidSlot(h, SlotBefore(s, xs, p))
    ensures Read(h, SlotBefore(s, xs, p)) == if p < |xs| then Some(xs[p]) else None
  {
    if p > 0 {
      assert h.nodes[xs[p - 1]].next == After(xs, p - 1);
    }
  }

  /** The slot a list hangs off is not the `next` field of one of its own nodes. */
  lemma RootNotInList(h: Heap, s: Slot, xs: seq<nat>)
    requires ListAt(h, s, xs)
    ensures forall k :: 0 <= k < |xs| ==> s != NextPtr(xs[k])
  {
    forall k | 0 <= k < |xs|
      ensures s != NextPtr(xs[k])
    {
      // s holds the first node, while xs[k]'s next field holds a later one or None
      assert Read(h, s) == Some(xs[0]);
      assert h.nodes[xs[k]].next == After(xs, k);
      assert k + 1 < |xs| ==> xs[k + 1] != xs[0];
    }
  }

  /** The chain that follows the `next` links from a cursor is unique. */
  lemma {:induction false} LinkedUnique(h: Heap, cursor: Option<nat>, xs: seq<nat>, ys: seq<nat>)
    requires Linked(h, cursor, xs) && Linked(h, cursor, ys)
    ensures xs == ys
    decreases |xs|
  {
    if xs != [] {
      assert ys != [] && ys[0] == xs[0];
      LinkedTail(h, cursor, xs);
      LinkedTail(h, cursor, ys);
      LinkedUnique(h, h.nodes[xs[0]].next, xs[1..], ys[1..]);
      assert xs == [xs[0]] + xs[1..];
      assert ys == [ys[0]] + ys[1..];
    } else {
      assert ys == [];
    }
  }

  /** The list hanging off a slot is determined by the heap. */
  lemma ListAtUnique(h: Heap, s: Slot, xs: seq<nat>, ys: seq<nat>)
    requires ListAt(h, s, xs) && ListAt(h, s, ys)
    ensures xs == ys
  {
    LinkedUnique(h, Read(h, s), xs, ys);
  }

  lemma LinkedTail(h: Heap, cursor: Option<nat>, xs: seq<nat>)
    requires Linked(h, cursor, xs) && xs != []
    ensures Linked(h, h.nodes[xs[0]].next, xs[1..])
  {
    assert h.nodes[xs[0]].next == After(xs, 0);
    forall k | 0 <= k < |xs| - 1
      ensures h.nodes[xs[1..][k]].next == After(xs[1..], k)
    {
      assert h.nodes[xs[k + 1]].next == After(xs, k + 1);
    }
  }

  // ---------------------------------------------------------------------
  // insert

  /**
   * `n` may be inserted at position `p` of the list hanging off `s`: it is a
   * node of the arena, not linked into this list, and not the owner of `s`.
   */
  ghost predicate CanInsert(h: Heap, s: Slot, xs: seq<nat>, p: nat, n: nat) {
    ListAt(h, s, xs) && p <= |xs| && n < |h.nodes| && n !in xs && s != NextPtr(n)
  }

  /** `insert(n, slot, current)` with the slot before position `p` and its current content. */
  ghost function InsertAt(h: Heap, s: Slot, xs: seq<nat>, p: nat, n: nat): Heap
    requires CanInsert(h, s, xs, p, n)
  {
    ReadSlotBefore(h, s, xs, p);
    Inserted(h, n, SlotBefore(s, xs, p), Read(h, SlotBefore(s, xs, p)))
  }

  /** The list with `n` placed at position `p`. */
  function Spliced(xs: seq<nat>, p: nat, n: nat): (ys: seq<nat>)
    requires p <= |xs|
    ensures |ys| == |xs| + 1
    ensures forall k :: 0 <= k < |ys| ==> ys[k] == if k < p then xs[k] else if k == p then n else xs[k - 1]
  {
    xs[..p] + [n] + xs[p..]
  }

  lemma InsertedHead(h: Heap, s: Slot, xs: seq<nat>, p: nat, n: nat)
    requires CanInsert(h, s, xs, p, n)
    ensures ValidSlot(InsertAt(h, s, xs, p, n), s)
    ensures Read(InsertAt(h, s, xs, p, n), s) == Head(Spliced(xs, p, n))
  {
    RootNotInList(h, s, xs);
    ReadSlotBefore(h, s, xs, p);
    var ys := Spliced(xs, p, n);
    var r := InsertAt(h, s, xs, p, n);
    assert ys != [];
    if p == 0 {
      assert ys[0] == n;
    } else {
      assert s != SlotBefore(s, xs, p);
      assert Read(r, s) == Read(h, s);
      assert ys[0] == xs[0];
    }
  }

  lemma InsertedLinkAt(h: Heap, s: Slot, xs: seq<nat>, p: nat, n: nat, k: nat)
    requires CanInsert(h, s, xs, p, n) && k <= |xs|
    ensures Spliced(xs, p, n)[k] < |InsertAt(h, s, xs, p, n).nodes|
    ensures InsertAt(h, s, xs, p, n).nodes[Spliced(xs, p, n)[k]].next == After(Spliced(xs, p, n), k)
  {
    RootNotInList(h, s, xs);
    ReadSlotBefore(h, s, xs, p);
    var ys := Spliced(xs, p, n);
    var r := InsertAt(h, s, xs, p, n);
    var slot := SlotBefore(s, xs, p);
    if k < p - 1 {
      assert slot != NextPtr(xs[k]);
      assert h.nodes[xs[k]].next == After(xs, k);
    } else if k == p - 1 {
      assert Read(r, slot) == r.nodes[xs[k]].next;
    } else if k == p {
      assert slot != NextPtr(n);
    } else {
      assert slot != NextPtr(xs[k - 1]);
      assert h.nodes[xs[k - 1]].next == After(xs, k - 1);
    }
  }

  lemma InsertedBackRefAt(h: Heap, s: Slot, xs: seq<nat>, p: nat, n: nat, k: nat)
    requires CanInsert(h, s, xs, p, n) && k <= |xs|
    ensures Spliced(xs, p, n)[k] < |InsertAt(h, s, xs, p, n).nodes|
    ensures InsertAt(h, s, xs, p, n).nodes[Spliced(xs, p, n)[k]].nextOfPrev == SlotBefore(s, Spliced(xs, p, n), k)
  {
    ReadSlotBefore(h, s, xs, p);
    var c := Read(h, SlotBefore(s, xs, p));
    assert c != Some(n);
    if k < p {
      assert Some(xs[k]) != c;
      assert h.nodes[xs[k]].nextOfPrev == SlotBefore(s, xs, k);
    } else if k > p + 1 {
      assert Some(xs[k - 1]) != c;
      assert h.nodes[xs[k - 1]].nextOfPrev == SlotBefore(s, xs, k - 1);
    }
  }

  lemma SplicedDistinct(xs: seq<nat>, p: nat, n: nat)
    requires Distinct(xs) && p <= |xs| && n !in xs
    ensures Distinct(Spliced(xs, p, n))
  {
    var ys := Spliced(xs, p, n);
    forall j, k | 0 <= j < k < |ys|
      ensures ys[j] != ys[k]
    {
      var xj := if j < p then j else j - 1;
      var xk := if k < p then k else k - 1;
      if j == p {
        assert ys[k] == xs[xk] && xs[xk] in xs;
      } else if k == p {
        assert ys[j] == xs[xj] && xs[xj] in xs;
      } else {
        assert ys[j] == xs[xj] && ys[k] == xs[xk] && xj < xk;
      }
    }
  }

  /**
   * Inserting a node that is not linked into the list, after the slot
   * before position `p` and with that slot's current content as `next`,
   * keeps the list well formed and puts the node at position `p`.
   */
  lemma InsertPreservesList(h: Heap, s: Slot, xs: seq<nat>, p: nat, n: nat)
    requires ListAt(h, s, xs) && p <= |xs|
    requires n < |h.nodes| && n !in xs && s != NextPtr(n)
    ensures ListAt(InsertAt(h, s, xs, p, n), s, Spliced(xs, p, n))
  {
    var ys := Spliced(xs, p, n);
    var r := InsertAt(h, s, xs, p, n);
    InsertedHead(h, s, xs, p, n);
    forall k | 0 <= k < |ys|
      ensures ys[k] < |r.nodes| && r.nodes[ys[k]].next == After(ys, k)
    {
      InsertedLinkAt(h, s, xs, p, n, k);
    }
    forall k | 0 <= k < |ys|
      ensures r.nodes[ys[k]].nextOfPrev == SlotBefore(s, ys, k)
    {
      InsertedBackRefAt(h, s, xs, p, n, k);
    }
    SplicedDistinct(xs, p, n);
  }

  // ---------------------------------------------------------------------
  // remove

  /** `remove(xs[p])` on the list hanging off `s`. */
  ghost function RemoveAt(h: Heap, s: Slot, xs: seq<nat>, p: nat): (r: Heap)
    requires ListAt(h, s, xs) && p < |xs|
    ensures InArena(h) ==> InArena(r)
  {
    ReadSlotBefore(h, s, xs, p);
    Removed(h, xs[p])
  }

  /** The list without its element at position `p`. */
  function Cut(xs: seq<nat>, p: nat): (ys: seq<nat>)
    requires p < |xs|
    ensures |ys| == |xs| - 1
    ensures forall k :: 0 <= k < |ys| ==> ys[k] == if k < p then xs[k] else xs[k + 1]
  {
    xs[..p] + xs[p + 1..]
  }

  lemma RemovedHead(h: Heap, s: Slot, xs: seq<nat>, p: nat)
    requires ListAt(h, s, xs) && p < |xs|
    ensures ValidSlot(RemoveAt(h, s, xs, p), s)
    ensures Read(RemoveAt(h, s, xs, p), s) == Head(Cut(xs, p))
  {
    RootNotInList(h, s, xs);
    ReadSlotBefore(h, s, xs, p);
    var ys := Cut(xs, p);
    var r := RemoveAt(h, s, xs, p);
    if p == 0 {
      assert h.nodes[xs[0]].next == After(xs, 0);
      assert ys != [] ==> ys[0] == xs[1];
    } else {
      assert s != SlotBefore(s, xs, p);
      assert Read(r, s) == Read(h, s);
      assert ys != [] && ys[0] == xs[0];
    }
  }

  lemma RemovedLinkAt(h: Heap, s: Slot, xs: seq<nat>, p: nat, k: nat)
    requires ListAt(h, s, xs) && p < |xs| && k < |xs| - 1
    ensures Cut(xs, p)[k] < |RemoveAt(h, s, xs, p).nodes|
    ensures RemoveAt(h, s, xs, p).nodes[Cut(xs, p)[k]].next == After(Cut(xs, p), k)
  {
    RootNotInList(h, s, xs);
    ReadSlotBefore(h, s, xs, p);
    var r := RemoveAt(h, s, xs, p);
    var slot := SlotBefore(s, xs, p);
    assert h.nodes[xs[p]] == Node(After(xs, p), slot);
    if k < p - 1 {
      assert slot != NextPtr(xs[k]);
      assert h.nodes[xs[k]].next == After(xs, k);
    } else if k == p - 1 {
      assert Read(r, slot) == r.nodes[xs[k]].next;
    } else {
      assert slot != NextPtr(xs[k + 1]);
      assert h.nodes[xs[k + 1]].next == After(xs, k + 1);
    }
  }

  lemma RemovedBackRefAt(h: Heap, s: Slot, xs: seq<nat>, p: nat, k: nat)
    requires ListAt(h, s, xs) && p < |xs| && k < |xs| - 1
    ensures Cut(xs, p)[k] < |RemoveAt(h, s, xs, p).nodes|
    ensures RemoveAt(h, s, xs, p).nodes[Cut(xs, p)[k]].nextOfPrev == SlotBefore(s, Cut(xs, p), k)
  {
    ReadSlotBefore(h, s, xs, p);
    var c := After(xs, p);
    assert h.nodes[xs[p]] == Node(c, SlotBefore(s, xs, p));
    if k < p {
      assert Some(xs[k]) != c;
      assert h.nodes[xs[k]].nextOfPrev == SlotBefore(s, xs, k);
    } else if k > p {
      assert Some(xs[k + 1]) != c;
      assert h.nodes[xs[k + 1]].nextOfPrev == SlotBefore(s, xs, k + 1);
    }
  }

  /**
   * Removing the node at position `p` keeps the list well formed, deletes
   * exactly that node (the others keep their order), and leaves the removed
   * node's own fields as they were.
   */
  lemma RemovePreservesList(h: Heap, s: Slot, xs: seq<nat>, p: nat)
    requires ListAt(h, s, xs) && p < |xs|
    ensures ListAt(RemoveAt(h, s, xs, p), s, Cut(xs, p))
    ensures RemoveAt(h, s, xs, p).nodes[xs[p]] == h.nodes[xs[p]]
  {
    var ys := Cut(xs, p);
    var r := RemoveAt(h, s, xs, p);
    RemovedHead(h, s, xs, p);
    forall k | 0 <= k < |ys|
      ensures ys[k] < |r.nodes| && r.nodes[ys[k]].next == After(ys, k)
    {
      RemovedLinkAt(h, s, xs, p, k);
    }
    forall k | 0 <= k < |ys|
      ensures r.nodes[ys[k]].nextOfPrev == SlotBefore(s, ys, k)
    {
      RemovedBackRefAt(h, s, xs, p, k);
    }
    CutDistinct(xs, p);
    RemovedKeepsNode(h, s, xs, p);
  }

  lemma CutDistinct(xs: seq<nat>, p: nat)
    requires Distinct(xs) && p < |xs|
    ensures Distinct(Cut(xs, p))
  {
    var ys := Cut(xs, p);
    forall j, k | 0 <= j < k < |ys|
      ensures ys[j] != ys[k]
    {
      var xj := if j < p then j else j + 1;
      var xk := if k < p then k else k + 1;
      assert ys[j] == xs[xj] && ys[k] == xs[xk] && xj < xk;
    }
  }

  lemma RemovedKeepsNode(h: Heap, s: Slot, xs: seq<nat>, p: nat)
    requires ListAt(h, s, xs) && p < |xs|
    ensures RemoveAt(h, s, xs, p).nodes[xs[p]] == h.nodes[xs[p]]
  {
    RootNotInList(h, s, xs);
    ReadSlotBefore(h, s, xs, p);
    assert h.nodes[xs[p]] == Node(After(xs, p), SlotBefore(s, xs, p));
    assert SlotBefore(s, xs, p) != NextPtr(xs[p]) && After(xs, p) != Some(xs[p]);
  }

  /**
   * Inserting a node after a slot, with the slot's current content as
   * `next`, and removing it straight away restores the slot and every
   * other node's fields; only the inserted node's own fields differ.
   */
  lemma InsertThenRemoveRestores(h: Heap, n: nat, slot: Slot)
    requires n < |h.nodes| && ValidSlot(h, slot) && slot != NextPtr(n)
    requires Read(h, slot) != Some(n)
    requires Read(h, slot).Some? ==> Read(h, slot).value < |h.nodes|
    requires Read(h, slot).Some? ==> h.nodes[Read(h, slot).value].nextOfPrev == slot
    ensures Removed(Inserted(h, n, slot, Read(h, slot)), n) == h.(nodes := h.nodes[n := Node(Read(h, slot), slot)])
  {
    var c := Read(h, slot);
    var mid := Inserted(h, n, slot, c);
    var r := Removed(mid, n);
    var expected := h.(nodes := h.nodes[n := Node(c, slot)]);
    assert mid.nodes[n] == Node(c, slot);
    forall i | 0 <= i < |h.nodes|
      ensures r.nodes[i] == expected.nodes[i]
    {
      if i != n && slot == NextPtr(i) {
        assert Read(r, slot) == r.nodes[i].next;
      }
    }
    assert r.nodes == expected.nodes;
    forall j | 0 <= j < |h.roots|
      ensures r.roots[j] == h.roots[j]
    {
      if slot == Root(j) {
        assert Read(r, slot) == r.roots[j];
      }
    }
    assert r.roots == h.roots;
  }

  /**
   * On a well-formed list, inserting a node at any position and removing it
   * straight away gives back the same list.
   */
  lemma InsertThenRemoveKeepsList(h: Heap, s: Slot, xs: seq<nat>, p: nat, n: nat)
    requires CanInsert(h, s, xs, p, n)
    ensures n < |InsertAt(h, s, xs, p, n).nodes|
    ensures ValidSlot(InsertAt(h, s, xs, p, n), InsertAt(h, s, xs, p, n).nodes[n].nextOfPrev)
    ensures ListAt(Removed(InsertAt(h, s, xs, p, n), n), s, xs)
  {
    RootNotInList(h, s, xs);
    ReadSlotBefore(h, s, xs, p);
    var slot := SlotBefore(s, xs, p);
    var c := Read(h, slot);
    assert p < |xs| ==> h.nodes[xs[p]].nextOfPrev == slot;
    InsertThenRemoveRestores(h, n, slot);
    var r := Removed(InsertAt(h, s, xs, p, n), n);
    assert r == h.(nodes := h.nodes[n := Node(c, slot)]);
    assert Read(r, s) == Read(h, s);
    forall k | 0 <= k < |xs|
      ensures r.nodes[xs[k]] == h.nodes[xs[k]]
    {
      assert xs[k] != n;
    }
  }

  /**
   * Inserting `y` and then `z` after the same slot puts the most recent one
   * first: the list becomes `[z, y] + xs`.
   */
  lemma InsertTwiceAtFront(h: Heap, s: Slot, xs: seq<nat>, y: nat, z: nat)
    requires ListAt(h, s, xs)
    requires y < |h.nodes| && y !in xs && s != NextPtr(y)
    requires z < |h.nodes| && z !in xs && s != NextPtr(z) && z != y
    ensures ValidSlot(h, s)
    ensures var once := Inserted(h, y, s, Read(h, s));
      && ValidSlot(once, s) && Read(once, s) == Some(y)
      && ListAt(Inserted(once, z, s, Read(once, s)), s, [z, y] + xs)
  {
    InsertAtFront(h, s, xs, y);
    var once := Inserted(h, y, s, Read(h, s));
    InsertAtFront(once, s, [y] + xs, z);
    assert [z] + ([y] + xs) == [z, y] + xs;
  }

  /**
   * Removing the node at position `p` and inserting it again after the same
   * slot, in front of its old successor, gives back exactly the old heap.
   */
  lemma RemoveThenInsertRestores(h: Heap, s: Slot, xs: seq<nat>, p: nat)
    requires ListAt(h, s, xs) && p < |xs|
    ensures ValidSlot(RemoveAt(h, s, xs, p), SlotBefore(s, xs, p))
    ensures After(xs, p).Some? ==> After(xs, p).value < |h.nodes|
    ensures Inserted(RemoveAt(h, s, xs, p), xs[p], SlotBefore(s, xs, p), After(xs, p)) == h
  {
    RootNotInList(h, s, xs);
    ReadSlotBefore(h, s, xs, p);
    RemovedKeepsNode(h, s, xs, p);
    var n := xs[p];
    var slot := SlotBefore(s, xs, p);
    var c := After(xs, p);
    assert h.nodes[n] == Node(c, slot);
    if c.Some? {
      assert h.nodes[xs[p + 1]].nextOfPrev == SlotBefore(s, xs, p + 1);
    }
    var r := Inserted(RemoveAt(h, s, xs, p), n, slot, c);
    forall i | 0 <= i < |h.nodes|
      ensures r.nodes[i] == h.nodes[i]
    {
      if slot == NextPtr(i) {
        assert Read(r, slot) == r.nodes[i].next;
      }
    }
    forall j | 0 <= j < |h.roots|
      ensures r.roots[j] == h.roots[j]
    {
      if slot == Root(j) {
        assert Read(r, slot) == r.roots[j];
      }
    }
    assert r.nodes == h.nodes && r.roots == h.roots;
  }

  // ---------------------------------------------------------------------
  // Inserting several nodes at the front

  /** `ns` in reverse order. */
  function Reverse(ns: seq<nat>): (rs: seq<nat>)
    ensures |rs| == |ns|
  {
    if ns == [] then [] else Reverse(ns[1..]) + [ns[0]]
  }

  /** The nodes `ns` can each be inserted at the front of the list `xs` hanging off `s`. */
  ghost predicate Insertable(h: Heap, s: Slot, xs: seq<nat>, ns: seq<nat>) {
    && Distinct(ns)
    && forall k :: 0 <= k < |ns| ==> ns[k] < |h.nodes| && ns[k] !in xs && s != NextPtr(ns[k])
  }

  /**
   * The heap after inserting the distinct unlinked nodes `ns` one after the
   * other, each after slot `s` and in front of what `s` holds at that time:
   * the list then holds them most recent first, in front of the old list.
   */
  ghost function InsertEach(h: Heap, s: Slot, xs: seq<nat>, ns: seq<nat>): (r: Heap)
    requires ListAt(h, s, xs) && Insertable(h, s, xs, ns)
    ensures ListAt(r, s, Reverse(ns) + xs)
    ensures InArena(h) ==> InArena(r)
    decreases |ns|
  {
    if ns == [] then
      assert Reverse(ns) + xs == xs;
      h
    else
      InsertFirst(h, s, xs, ns);
      InsertEach(Inserted(h, ns[0], s, Read(h, s)), s, [ns[0]] + xs, ns[1..])
  }

  /** Inserting `ns[0]` at the front leaves a list in front of which the rest of `ns` can be inserted. */
  lemma InsertFirst(h: Heap, s: Slot, xs: seq<nat>, ns: seq<nat>)
    requires ListAt(h, s, xs) && Insertable(h, s, xs, ns) && ns != []
    ensures Read(h, s).Some? ==> Read(h, s).value < |h.nodes|
    ensures ListAt(Inserted(h, ns[0], s, Read(h, s)), s, [ns[0]] + xs)
    ensures Insertable(Inserted(h, ns[0], s, Read(h, s)), s, [ns[0]] + xs, ns[1..])
    ensures Reverse(ns[1..]) + ([ns[0]] + xs) == Reverse(ns) + xs
  {
    InsertAtFront(h, s, xs, ns[0]);
    InsertableRest(h, Inserted(h, ns[0], s, Read(h, s)), s, xs, ns);
    ReverseFront(ns, xs);
  }

  /** Inserting an unlinked node after `s`, in front of what `s` holds, puts it at the front. */
  lemma InsertAtFront(h: Heap, s: Slot, xs: seq<nat>, n: nat)
    requires CanInsert(h, s, xs, 0, n)
    ensures Read(h, s).Some? ==> Read(h, s).value < |h.nodes|
    ensures ListAt(Inserted(h, n, s, Read(h, s)), s, [n] + xs)
  {
    ReadSlotBefore(h, s, xs, 0);
    assert SlotBefore(s, xs, 0) == s;
    InsertPreservesList(h, s, xs, 0, n);
    assert Spliced(xs, 0, n) == [n] + xs;
  }

  lemma ReverseFront(ns: seq<nat>, xs: seq<nat>)
    requires ns != []
    ensures Reverse(ns[1..]) + ([ns[0]] + xs) == Reverse(ns) + xs
  {
    var rest := Reverse(ns[1..]);
    assert Reverse(ns) == rest + [ns[0]];
    AppendAssociative(rest, [ns[0]], xs);
  }

  lemma AppendAssociative(a: seq<nat>, b: seq<nat>, c: seq<nat>)
    ensures (a + b) + c == a + (b + c)
  {
  }

  lemma InsertableRest(h: Heap, h': Heap, s: Slot, xs: seq<nat>, ns: seq<nat>)
    requires Insertable(h, s, xs, ns) && ns != [] && |h'.nodes| == |h.nodes|
    ensures Insertable(h', s, [ns[0]] + xs, ns[1..])
  {
    var rest := ns[1..];
    forall k | 0 <= k < |rest|
      ensures rest[k] < |h'.nodes| && rest[k] !in [ns[0]] + xs && s != NextPtr(rest[k])
    {
      assert rest[k] == ns[k + 1];
    }
    assert Distinct(rest);
  }

  // ---------------------------------------------------------------------
  // Iteration

  /**
   * Once `next` has returned `None` it returns `None` on every later call;
   * from a `None` cursor every call returns `None`.
   */
  lemma {:induction false} DrainStaysNone(h: Heap, cursor: Option<nat>, n: nat)
    requires InArena(h) && (cursor.Some? ==> cursor.value < |h.nodes|)
    ensures cursor.None? ==> forall k :: 0 <= k < n ==> Drain(h, cursor, n)[k].None?
    ensures forall j, k :: 0 <= j <= k < n && Drain(h, cursor, n)[j].None? ==> Drain(h, cursor, n)[k].None?
    decreases n
  {
    if n > 0 {
      var (item, rest) := IterStep(h, cursor);
      DrainStaysNone(h, rest, n - 1);
      var r := Drain(h, cursor, n);
      assert r == [item] + Drain(h, rest, n - 1);
      forall k | 0 < k < n
        ensures r[k] == Drain(h, rest, n - 1)[k - 1]
      {
      }
    }
  }

  /** `None` repeated `n` times. */
  function Nones(n: nat): (r: seq<Option<nat>>)
    ensures |r| == n && forall k :: 0 <= k < n ==> r[k] == None
  {
    seq(n, _ => None)
  }

  /**
   * Iterating from the head of a chain yields each node of the chain in
   * order and then `None` on every later call.
   */
  lemma {:induction false} DrainChain(h: Heap, xs: seq<nat>, n: nat)
    requires InArena(h) && Linked(h, Head(xs), xs) && |xs| <= n
    ensures Drain(h, Head(xs), n) == Yields(xs) + Nones(n - |xs|)
    decreases n
  {
    if n == 0 {
    } else if xs == [] {
      DrainChain(h, [], n - 1);
      assert Nones(n) == [None] + Nones(n - 1);
    } else {
      LinkedTail(h, Head(xs), xs);
      assert h.nodes[xs[0]].next == Head(xs[1..]);
      DrainChain(h, xs[1..], n - 1);
      assert Yields(xs) == [Some(xs[0])] + Yields(xs[1..]);
    }
  }

  /**
   * Iterating from a node yields that node first, then the list hanging off
   * its `next` field, then `None`.
   */
  lemma IterFromNode(h: Heap, x: nat, xs: seq<nat>)
    requires InArena(h) && ListAt(h, NextPtr(x), xs)
    ensures x < |h.nodes|
    ensures Drain(h, Some(x), |xs| + 2) == [Some(x)] + Yields(xs) + [None]
  {
    var chain := [x] + xs;
    assert h.nodes[x].next == Read(h, NextPtr(x));
    forall k | 0 <= k < |chain|
      ensures chain[k] < |h.nodes| && h.nodes[chain[k]].next == After(chain, k)
    {
      if k > 0 {
        assert h.nodes[xs[k - 1]].next == After(xs, k - 1);
      }
    }
    DrainChain(h, chain, |xs| + 2);
    assert Yields(chain) == [Some(x)] + Yields(xs);
  }

  // ---------------------------------------------------------------------
  // Removing several nodes

  /** `xs` without the elements of `ns`, in the order of `xs`. */
  function Without(xs: seq<nat>, ns: seq<nat>): seq<nat> {
    if xs == [] then []
    else if xs[0] in ns then Without(xs[1..], ns)
    else [xs[0]] + Without(xs[1..], ns)
  }

  lemma {:induction false} WithoutNothing(xs: seq<nat>)
    ensures Without(xs, []) == xs
  {
    if xs != [] {
      WithoutNothing(xs[1..]);
      assert xs == [xs[0]] + xs[1..];
    }
  }

  lemma {:induction false} WithoutOne(xs: seq<nat>, p: nat)
    requires p < |xs| && forall k :: 0 <= k < |xs| && k != p ==> xs[k] != xs[p]
    ensures Without(xs, [xs[p]]) == Cut(xs, p)
  {
    var tail := xs[1..];
    if p == 0 {
      forall k | 0 <= k < |tail|
        ensures tail[k] !in [xs[0]]
      {
        assert tail[k] == xs[k + 1];
      }
      WithoutNothingButAbsent(tail, [xs[0]]);
      assert Cut(xs, 0) == tail;
    } else {
      assert xs[0] != xs[p];
      assert tail[p - 1] == xs[p];
      forall k | 0 <= k < |tail| && k != p - 1
        ensures tail[k] != tail[p - 1]
      {
        assert tail[k] == xs[k + 1];
      }
      WithoutOne(tail, p - 1);
      var front := [xs[0]] + Cut(tail, p - 1);
      forall k | 0 <= k < |front|
        ensures front[k] == Cut(xs, p)[k]
      {
        if k > 0 {
          assert front[k] == Cut(tail, p - 1)[k - 1];
        }
      }
      assert Cut(xs, p) == front;
    }
  }

  /** Removing elements that do not occur changes nothing. */
  lemma {:induction false} WithoutNothingButAbsent(xs: seq<nat>, ns: seq<nat>)
    requires forall k :: 0 <= k < |xs| ==> xs[k] !in ns
    ensures Without(xs, ns) == xs
  {
    if xs != [] {
      WithoutNothingButAbsent(xs[1..], ns);
      assert xs == [xs[0]] + xs[1..];
    }
  }

  lemma {:induction false} WithoutTwice(xs: seq<nat>, a: seq<nat>, b: seq<nat>)
    ensures Without(Without(xs, a), b) == Without(xs, a + b)
  {
    if xs != [] {
      WithoutTwice(xs[1..], a, b);
      if xs[0] !in a {
        var tail := Without(xs[1..], a);
        assert ([xs[0]] + tail)[1..] == tail;
      }
    }
  }

  lemma {:induction false} WithoutEverything(xs: seq<nat>, ns: seq<nat>)
    requires forall k :: 0 <= k < |xs| ==> xs[k] in ns
    ensures Without(xs, ns) == []
  {
    if xs != [] {
      WithoutEverything(xs[1..], ns);
    }
  }

  function IndexOf(xs: seq<nat>, x: nat): (p: nat)
    requires x in xs
    ensures p < |xs| && xs[p] == x
  {
    if xs[0] == x then 0 else 1 + IndexOf(xs[1..], x)
  }

  /**
   * The heap after removing the distinct list members `ns`, one after the
   * other; the list then holds the other members in their old order.
   */
  ghost function RemoveEach(h: Heap, s: Slot, xs: seq<nat>, ns: seq<nat>): (r: Heap)
    requires ListAt(h, s, xs) && Distinct(ns)
    requires forall k :: 0 <= k < |ns| ==> ns[k] in xs
    ensures ListAt(r, s, Without(xs, ns))
    ensures InArena(h) ==> InArena(r)
    decreases |ns|
  {
    if ns == [] then
      WithoutNothing(xs);
      h
    else
      var p := IndexOf(xs, ns[0]);
      RemoveFirst(h, s, xs, ns, p);
      RemoveEach(RemoveAt(h, s, xs, p), s, Cut(xs, p), ns[1..])
  }

  /** Removing `ns[0]` leaves a list from which the rest of `ns` can be removed. */
  lemma RemoveFirst(h: Heap, s: Slot, xs: seq<nat>, ns: seq<nat>, p: nat)
    requires ListAt(h, s, xs) && Distinct(ns) && ns != []
    requires forall k :: 0 <= k < |ns| ==> ns[k] in xs
    requires p < |xs| && xs[p] == ns[0]
    ensures ListAt(RemoveAt(h, s, xs, p), s, Cut(xs, p)) && Distinct(ns[1..])
    ensures forall k :: 0 <= k < |ns| - 1 ==> ns[1..][k] in Cut(xs, p)
    ensures Without(Cut(xs, p), ns[1..]) == Without(xs, ns)
  {
    RemovePreservesList(h, s, xs, p);
    WithoutFirst(xs, ns, p);
    OthersRemain(xs, ns, p);
    var rest := ns[1..];
    forall j, k | 0 <= j < k < |rest|
      ensures rest[j] != rest[k]
    {
      assert rest[j] == ns[j + 1] && rest[k] == ns[k + 1];
    }
  }

  lemma WithoutFirst(xs: seq<nat>, ns: seq<nat>, p: nat)
    requires Distinct(xs) && ns != [] && p < |xs| && xs[p] == ns[0]
    ensures Without(Cut(xs, p), ns[1..]) == Without(xs, ns)
  {
    WithoutOne(xs, p);
    WithoutTwice(xs, [ns[0]], ns[1..]);
    assert [ns[0]] + ns[1..] == ns;
  }

  /** The members still to be removed remain in the list once `ns[0]` is cut out. */
  lemma OthersRemain(xs: seq<nat>, ns: seq<nat>, p: nat)
    requires Distinct(ns) && ns != [] && p < |xs| && xs[p] == ns[0]
    requires forall k :: 0 <= k < |ns| ==> ns[k] in xs
    ensures forall k :: 0 <= k < |ns| - 1 ==> ns[1..][k] in Cut(xs, p)
  {
    var rest := Cut(xs, p);
    forall k | 0 <= k < |ns| - 1
      ensures ns[1..][k] in rest
    {
      var q := IndexOf(xs, ns[k + 1]);
      assert ns[k + 1] != ns[0];
      if q < p {
        assert rest[q] == ns[k + 1];
      } else {
        assert rest[q - 1] == ns[k + 1];
      }
    }
  }

  /**
   * Removing every node of the list, in any order, leaves the slot it hangs
   * off empty; when that slot is node `x`'s `next` field, iteration from `x`
   * then yields only `x`.
   */
  lemma RemoveAllEmptiesList(h: Heap, s: Slot, xs: seq<nat>, ns: seq<nat>)
    requires ListAt(h, s, xs) && Distinct(ns)
    requires forall k :: 0 <= k < |ns| ==> ns[k] in xs
    requires forall k :: 0 <= k < |xs| ==> xs[k] in ns
    ensures Read(RemoveEach(h, s, xs, ns), s) == None
    ensures InArena(h) && s.NextOf? ==> Drain(RemoveEach(h, s, xs, ns), Some(s.i), 2) == [Some(s.i), None]
  {
    WithoutEverything(xs, ns);
    var r := RemoveEach(h, s, xs, ns);
    if InArena(h) && s.NextOf? {
      IterFromNode(r, s.i, []);
    }
  }
}
