# Intrusive linked list with slot back-references (talc `llist`)

This project models the intrusive singly linked list of talc's `src/llist.rs` in Dafny and proves properties about it. A host structure embeds an `LlistNode` with two fields. `next` is the optional following node. `next_of_prev` points at the *slot* that currently points at this node. That slot is either the previous node's `next` field or an external root slot, such as one of an allocator's bins. Because `remove` only writes through that slot, it never has to search for the predecessor, so it is O(1).

## How memory is modelled

- **Arena.** Every node lives at a stable index of `Heap.nodes`. The external slots a host keeps are `Heap.roots`.
- **Slot pointers.** A slot pointer is `Slot = Null | Root(r) | NextOf(i)`:
  - `NextOf(i)` is `next_ptr(i)`.
  - `Null` is the `null_mut()` back-pointer that the test gives a node it never inserts.
- **Reading and writing slots.** `Read` and `Write` resolve a slot through the arena.
- **The operations as functions.** `Inserted` and `Removed` describe `insert` and `remove` as functions of the whole heap. They make the source's writes in the source's order. So when writes alias, the result matches the Rust code. Two such cases: the slot is the node's own `next` field, or the successor is the node itself.
- **The operations in place.** The class `Memory` holds the arena as `seq` fields. Its methods `Insert` and `Remove` make the same writes in place. Each method's postcondition ties its new state to `Inserted` or `Removed` of the old state.
- **The iterator.** The class `IterMut` holds the cursor that `IterMut::next` advances. `IterStep` is one call as a function. `Drain(h, c, n)` gives the results of `n` successive calls. The method `IterateN` makes those calls on a real `IterMut` in a loop.
- **The list invariant.** `ListAt(h, s, xs)` says that the list hanging off slot `s` is `xs`. Its nodes are in the arena and pairwise distinct, so the chain is acyclic. `s` and the `next` fields link them in order. Each node's `next_of_prev` designates the slot that points at it.
- **Inserting and removing several nodes.** `InsertEach` is the heap after inserting a sequence of nodes one after the other at the front of a list. `RemoveEach` is the heap after removing a sequence of list members one after the other.

Where the wording of the documentation and the code disagree, the model follows the code:

- **Sentinels.** The doc comments of `iter_mut` and `IterMut` speak of a circular list that excludes a sentinel. The code yields the start node itself and stops at the first `None`, so the model does the same.
- **The removed node.** The doc comment of `remove` says the removed node "should be considered invalid". The code does not write the node, as the same comment also says. `RemovePreservesList` proves that its fields keep their old values. `RemoveThenInsertRestores` uses those values to re-insert the node where it was.

## Model

| member | source | states |
|---|---|---|
| `Llist.Write` | src/llist.rs:43 | Storing through a slot makes that slot read back the stored link. Every other node's `next`, every back-reference and every other root keep their values. |
| `Llist.Inserted` | src/llist.rs:33-48 | After `insert(node, slot, next)`, the slot holds `Some(node)`. The node's `next` is `next` unless the slot is the node's own `next` field. Its `next_of_prev` is `slot` unless `next` is the node itself. The successor's back-reference is `next_ptr(node)`. No other location changes. Links that stay in the arena stay in the arena. |
| `Llist.Removed` | src/llist.rs:56-67 | After `remove(node)`, the slot `node.next_of_prev` holds the node's former `next`. The successor, if any, gets the node's former `next_of_prev` as its back-reference. No other location changes, so the node's own fields change only when they alias one of these two writes. |
| `Llist.Memory.constructor` | src/llist.rs:131-133 | Every node starts as `{ next: None, next_of_prev: null }` and every root slot starts empty. |
| `Llist.Memory.WriteSlot` | src/llist.rs:43 | The in-place write through a slot pointer leaves the memory equal to `Write` of the old memory. |
| `Llist.Memory.Insert` | src/llist.rs:33-48 | The in-place insert leaves the memory equal to `Inserted` of the old memory. The method writes the node, then the slot, then the successor's back-reference. |
| `Llist.Memory.Remove` | src/llist.rs:56-67 | The in-place remove leaves the memory equal to `Removed` of the old memory. The method writes the slot, then the successor's back-reference. |
| `Llist.IterMut.constructor` | src/llist.rs:93-109 | `iter_mut(first)` and `IterMut::new(first)` make an iterator whose cursor is `first`. |
| `Llist.IterMut.Next` | src/llist.rs:115-119 | `next` returns `None` exactly when the cursor is `None`, and the cursor then stays `None`. Otherwise it returns the cursor and advances it to that node's `next` as it is at the time of the call. |
| `Llist.IterStep` | src/llist.rs:115-119 | One `next` call returns the cursor itself. A `None` cursor stays `None`. Otherwise the new cursor is that node's `next` field, which lies in the arena when every link does. |
| `Llist.Drain` | src/llist.rs:115-119 | `n` successive `next` calls give exactly `n` results, and the first is the starting cursor. |
| `Llist.DrainExtend` | src/llist.rs:115-119 | The first `i + 1` results of iteration are the first `i` results followed by one more `next` call from the cursor those `i` calls leave behind. That call moves the cursor one link further. |
| `Llist.IterateN` | src/llist.rs:138-142 | Calling `next` `n` times on a fresh `iter_mut(first)` returns exactly `Drain(first, n)`, for every `n`. So the lemmas about `Drain` describe the in-place iterator. |
| `LlistProofs.NextPtrDesignatesNext` | src/llist.rs:19-21 | `next_ptr(i)` designates node `i`'s `next` field. Reading it gives that field and writing it changes only that field. Distinct nodes have distinct `next` fields. |
| `LlistProofs.ListAtInvariants` | src/llist.rs:12-15 | In a well-formed list, a node whose `next` is `Some(m)` has `m.next_of_prev == next_ptr(node)`. Every node's `next_of_prev` designates a slot that holds that very node. |
| `LlistProofs.RootNotInList` | src/llist.rs:23-28 | The slot a well-formed list hangs off is not the `next` field of one of the list's own nodes. |
| `LlistProofs.ListAtUnique` | src/llist.rs:12-15 | Following the `next` fields from a slot gives a single chain. Two lists that both satisfy `ListAt` for the same slot and memory are equal. |
| `LlistProofs.InsertPreservesList` | src/llist.rs:41-47 | Take a node that is not linked and does not own the root slot. Insert it after the slot before position `p`, with that slot's current content as `next`. The result is a well-formed list equal to the old list with the node placed at position `p`. |
| `LlistProofs.RemovePreservesList` | src/llist.rs:58-66 | Removing the node at position `p` of a well-formed list gives a well-formed list. That list is the old one with exactly that node deleted and the others in their old order. The removed node's fields are unchanged. |
| `LlistProofs.InsertThenRemoveRestores` | src/llist.rs:33-67 | Insert a node after a slot with the slot's current content as `next`, then remove it at once. The slot and every other node's `next` and `next_of_prev` get their pre-insert values back. The only difference is the inserted node's own fields. |
| `LlistProofs.InsertThenRemoveKeepsList` | src/llist.rs:148-161 | On a well-formed list, inserting a node at any position and then removing it gives back the same list. |
| `LlistProofs.InsertTwiceAtFront` | src/llist.rs:135-142 | Inserting `y` and then `z` after the same slot gives the list `[z, y] + xs`, most recent first. |
| `LlistProofs.RemoveThenInsertRestores` | src/llist.rs:148-155 | Remove the node at any position of a well-formed list. Then insert it again after the same slot, in front of its old successor. The result is exactly the memory from before the removal. |
| `LlistProofs.InsertEach` | src/llist.rs:135-136 | Insert distinct unlinked nodes one after the other, each after the same slot and in front of what the slot holds. The list stays well formed and holds them most recent first, in front of the old list. Links stay in the arena. |
| `LlistProofs.DrainStaysNone` | src/llist.rs:115-119 | Once `next` has returned `None`, every later call returns `None`. From a `None` cursor, every call returns `None`. |
| `LlistProofs.DrainChain` | src/llist.rs:115-119 | Iterating from the head of a chain yields each node of the chain in order. Every later call yields `None`, so iteration over an acyclic chain ends. |
| `LlistProofs.IterFromNode` | src/llist.rs:138-146 | Iterating from node `x` yields `x` first. It then yields the list hanging off `x`'s `next` field, then `None`. |
| `LlistProofs.RemoveEach` | src/llist.rs:56-67 | Removing distinct list members one after the other keeps the list well formed. The list then holds the other members in their old order. Links stay in the arena. |
| `LlistProofs.RemoveAllEmptiesList` | src/llist.rs:163-168 | Removing every node of a list, in any order, leaves the root slot `None`. When that slot is node `x`'s `next` field, iteration from `x` then yields only `x`. |
| `LlistTests.DoStuff` | src/llist.rs:129-170 | The `dostuff` scenario gives these iterations: `x, z, y` after two inserts, `y` from `y`, `x, y` after removing `z`, `x, z, y` after re-inserting `z`, and `x` alone after removing `z` and `y`. |

## Left out

- Address arithmetic: `next_ptr` computes a byte offset (`offset_of!`). The model makes it the abstract slot `NextOf(i)`.
- Address sanity checks: the `debug_assert!(ptr > 0x1000)` checks are heuristics about addresses. The model states them as preconditions that node indices are in the arena and that slots are valid and not null.
- Raw-pointer validity: the `unsafe` requirements (writable, dereferenceable) become the same preconditions. Undefined behaviour is not modelled.
- The `mov` operation: it is commented out in the source, so it is not part of the behaviour.
- Thread safety: the source is not thread-safe and leaves mutual exclusion to the caller. The model is sequential.
- Moving a linked node: the "never move a node" requirement holds by construction, because arena indices are stable.
- Rust's `Iterator` trait: only `next` is modelled. The trait's other provided methods and the `Debug`, `Clone` and `Copy` derives are not.
- Mutation during iteration: the doc comment allows it. The model only captures that each `next` call reads the node's link as it is at that moment. Nothing is proved about changing the list while iterating.
- Host structures: only the two link fields of a node and the root slots are modelled.
- `Drain` and `InArena`: iterating needs every stored link to designate a node of the arena, which is the arena form of "pointers are valid". `Inserted` and `Removed` preserve this.
