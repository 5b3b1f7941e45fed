/**
 * The eviction scan of `nodeLoopOps` as written (MP1Node.cpp:278-286).
 * The loop erases a stale entry through its iterator and then increments
 * that same iterator. `erase` invalidates the iterator, so the increment
 * is undefined by the C++ standard; the model reads the invalidated
 * iterator as a pointer to the next slot, as common implementations do.
 * Read that way, the iterator already points at the entry that followed
 * the removed one, so the increment skips that entry unexamined, and when
 * the removed entry was the last one visited it moves past `end()`, which
 * the loop condition never catches. Two inputs that go wrong are shown
 * below; they are not the only ones.
 *
 * `Node.MP1Node.EvictStale` is the intended scan; it yields
 * `Membership.Survivors`, about which `Membership.SurvivorsExact` and
 * `Membership.SurvivorsOrder` are proved.
 */
module Findings {
  import opened Wrappers
  import opened Membership

  /**
   * The iterator loop as written, with the iterator as the index `i`:
   * `None` when the iterator is incremented past `end()` (undefined
   * behaviour), otherwise the list the loop leaves.
   */
  function EvictAsWritten(list: seq<Entry>, i: nat, now: int, tcleanup: int): (r: Option<seq<Entry>>)
    requires i <= |list| + 1
    ensures r.Some? ==> |r.value| <= |list|
    decreases |list| + 1 - i
  {
    if i == |list| then Some(list)
    else if i > |list| then None
    else if Stale(list[i], now, tcleanup) then
      EvictAsWritten(list[..i] + list[i + 1..], i + 1, now, tcleanup)
    else EvictAsWritten(list, i + 1, now, tcleanup)
  }

  /** With nothing stale from position `i` on, the loop as written keeps the list, as intended. */
  lemma {:induction false} EvictAsWrittenNothingStale(list: seq<Entry>, i: nat, now: int, tcleanup: int)
    requires i <= |list|
    requires forall j :: i <= j < |list| ==> !Stale(list[j], now, tcleanup)
    ensures EvictAsWritten(list, i, now, tcleanup) == Some(list)
    decreases |list| - i
  {
    if i < |list| {
      EvictAsWrittenNothingStale(list, i + 1, now, tcleanup);
    }
  }

  /**
   * Two stale entries in a row: the loop as written removes the first,
   * skips the second and ends with a stale entry still in the list, while
   * the intended scan removes both.
   */
  lemma StaleNeighbourSurvives()
    ensures var a := Entry(2, 0, 1, 0);
            var b := Entry(3, 0, 1, 0);
            EvictAsWritten([a, b], 0, 20, 20) == Some([b])
            && Stale(b, 20, 20)
            && Survivors([a, b], 20, 20) == []
  {
    var a := Entry(2, 0, 1, 0);
    var b := Entry(3, 0, 1, 0);
    assert [a, b][..0] + [a, b][1..] == [b];
    assert EvictAsWritten([a, b], 0, 20, 20) == EvictAsWritten([b], 1, 20, 20);
    assert [a, b][..1] == [a];
    assert [a][..0] == [];
    assert Survivors([a], 20, 20) == [];
  }

  /**
   * A fresh entry followed by a stale last entry: erasing the last entry
   * leaves the iterator at `end()`, the increment moves it past, and the
   * loop as written has undefined behaviour, while the intended scan keeps
   * just the fresh entry.
   */
  lemma StaleLastRunsPastEnd()
    ensures var a := Entry(1, 0, 5, 15);
            var b := Entry(2, 0, 1, 0);
            EvictAsWritten([a, b], 0, 20, 20) == None
            && Survivors([a, b], 20, 20) == [a]
  {
    var a := Entry(1, 0, 5, 15);
    var b := Entry(2, 0, 1, 0);
    assert [a, b][..1] + [a, b][2..] == [a];
    assert EvictAsWritten([a, b], 1, 20, 20) == EvictAsWritten([a], 2, 20, 20);
    assert [a, b][..1] == [a];
    assert [a][..0] == [];
    assert Survivors([a], 20, 20) == [a];
  }
}
