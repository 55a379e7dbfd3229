/**
 * The `dostuff` scenario: nodes x, y and z, with y and z linked after x's
 * `next` field, iterated from x and from y, and removed again.  Each `run`
 * is the sequence of results of successive `IterMut::next` calls.
 */
module LlistTests {
  import opened Llist

  const X: nat := 0
  const Y: nat := 1
  const Z: nat := 2

  /** x, y and z as the test builds them, before any insertion. */
  const Fresh := Heap([Node(None, Null), Node(None, Null), Node(None, Null)], [])
  /** y inserted after x. */
  const WithY := Heap([Node(Some(Y), Null), Node(None, NextOf(X)), Node(None, Null)], [])
  /** z inserted after x, in front of y. */
  const WithZY := Heap([Node(Some(Z), Null), Node(None, NextOf(Z)), Node(Some(Y), NextOf(X))], [])
  /** z removed again; its own fields are stale. */
  const WithoutZ := Heap([Node(Some(Y), Null), Node(None, NextOf(X)), Node(Some(Y), NextOf(X))], [])
  /** y removed as well: x's `next` is empty. */
  const Emptied := Heap([Node(None, Null), Node(None, NextOf(X)), Node(Some(Y), NextOf(X))], [])

  lemma InsertSteps()
    ensures Inserted(Fresh, Y, NextPtr(X), None) == WithY
    ensures Inserted(WithY, Z, NextPtr(X), Some(Y)) == WithZY
    ensures Inserted(WithoutZ, Z, NextPtr(X), Some(Y)) == WithZY
  {
  }

  lemma RemoveSteps()
    ensures Removed(WithZY, Z) == WithoutZ
    ensures Removed(WithoutZ, Y) == Emptied
  {
  }

  lemma IterationSteps()
    ensures InArena(WithZY) && InArena(WithoutZ) && InArena(Emptied)
    ensures Drain(WithZY, Some(X), 4) == [Some(X), Some(Z), Some(Y), None]
    ensures Drain(WithZY, Some(Y), 4) == [Some(Y), None, None, None]
    ensures Drain(WithoutZ, Some(X), 4) == [Some(X), Some(Y), None, None]
    ensures Drain(Emptied, Some(X), 4) == [Some(X), None, None, None]
  {
  }

  method DoStuff() returns (run1: seq<Option<nat>>, run2: seq<Option<nat>>, run3: seq<Option<nat>>,
                            run4: seq<Option<nat>>, run5: seq<Option<nat>>)
    ensures run1 == [Some(X), Some(Z), Some(Y), None]
    ensures run2 == [Some(Y), None, None, None]
    ensures run3 == [Some(X), Some(Y), None, None]
    ensures run4 == [Some(X), Some(Z), Some(Y), None]
    ensures run5 == [Some(X), None, None, None]
  {
    InsertSteps();
    RemoveSteps();
    IterationSteps();
    var mem := new Memory(3, 0);
    assert mem.State() == Fresh;

    mem.Insert(Y, NextPtr(X), None);
    mem.Insert(Z, NextPtr(X), Some(Y));
    assert mem.State() == WithZY;

    run1 := IterateN(mem, Some(X), 4);
    run2 := IterateN(mem, Some(Y), 4);

    mem.Remove(Z);
    assert mem.State() == WithoutZ;
    run3 := IterateN(mem, Some(X), 4);

    mem.Insert(Z, NextPtr(X), Some(Y));
    assert mem.State() == WithZY;
    run4 := IterateN(mem, Some(X), 4);

    mem.Remove(Z);
    mem.Remove(Y);
    assert mem.State() == Emptied;
    run5 := IterateN(mem, Some(X), 4);
  }
}
