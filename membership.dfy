/**
 * The member list of one node and the rules that change it: the
 * heartbeat-monotonic merge done by `updateMember`/`updateMembers`, the
 * refresh of the node's own entry, the eviction of stale entries and the
 * choice of gossip targets done by `nodeLoopOps`.
 *
 * Everything here is a value: the class in node.dfy keeps the list in a
 * field and is proved to change it exactly as these functions say.
 */
module Membership {
  import opened Wrappers

  /** The `addr[6]` buffer of a node read as its 4-byte id and its 2-byte port. */
  datatype Address = Address(id: int, port: int)

  /** One row of `memberList`: `MemberListEntry(id, port, heartbeat, timestamp)`. */
  datatype Entry = Entry(id: int, port: int, heartbeat: int, timestamp: int) {
    /** The (id, port) pair the source compares when it looks an entry up. */
    function Key(): Address { Address(id, port) }
  }

  /** No two rows of the list share an (id, port) key. */
  predicate UniqueKeys(list: seq<Entry>) {
    forall i, j :: 0 <= i < j < |list| ==> list[i].Key() != list[j].Key()
  }

  /**
   * The position of the first entry whose key is `a`: the range loop with
   * `break` in `updateMember`, `updateMembers` and `nodeLoopOps`.
   */
  function IndexOf(list: seq<Entry>, a: Address): (r: Option<nat>)
    ensures r.Some? ==> r.value < |list| && list[r.value].Key() == a
    ensures r.Some? ==> forall j :: 0 <= j < r.value ==> list[j].Key() != a
    ensures r.None? <==> forall j :: 0 <= j < |list| ==> list[j].Key() != a
  {
    if list == [] then None
    else if list[0].Key() == a then Some(0)
    else match IndexOf(list[1..], a)
      case None => None
      case Some(i) => Some(i + 1)
  }

  /** The first entry with key `a` is at `i`. */
  lemma IndexOfFirst(list: seq<Entry>, a: Address, i: nat)
    requires i < |list| && list[i].Key() == a
    requires forall j :: 0 <= j < i ==> list[j].Key() != a
    ensures IndexOf(list, a) == Some(i)
  {
  }

  /** With unique keys, any entry with key `a` is the one `IndexOf` finds. */
  lemma IndexOfUnique(list: seq<Entry>, a: Address, i: nat)
    requires UniqueKeys(list)
    requires i < |list| && list[i].Key() == a
    ensures IndexOf(list, a) == Some(i)
  {
    IndexOfFirst(list, a, i);
  }

  /** Two lists with the same key at every position agree on every lookup. */
  lemma IndexOfSameKeys(s: seq<Entry>, t: seq<Entry>, a: Address)
    requires |s| == |t|
    requires forall j :: 0 <= j < |s| ==> s[j].Key() == t[j].Key()
    ensures IndexOf(s, a) == IndexOf(t, a)
  {
    match IndexOf(s, a)
    case Some(i) => IndexOfFirst(t, a, i);
    case None =>
  }

  // ---------------------------------------------------------------------
  // Merge: updateMember (MP1Node.cpp:349-371), the body of the loop of
  // updateMembers (MP1Node.cpp:415-440)
  // ---------------------------------------------------------------------

  /**
   * The single-entry merge. A known peer's entry takes the incoming
   * heartbeat, stamped `now`, only when that heartbeat is newer than the
   * stored one; an unknown peer is appended.
   */
  function Merge(list: seq<Entry>, a: Address, heartbeat: int, now: int): seq<Entry>
  {
    match IndexOf(list, a)
    case Some(i) =>
      if list[i].heartbeat < heartbeat
      then list[i := list[i].(heartbeat := heartbeat, timestamp := now)]
      else list
    case None => list + [Entry(a.id, a.port, heartbeat, now)]
  }

  /**
   * Existing peer: only its entry can change, and only to the incoming
   * heartbeat and `now`, and only when the incoming heartbeat is newer.
   */
  lemma MergeExisting(list: seq<Entry>, a: Address, heartbeat: int, now: int, i: nat)
    requires UniqueKeys(list)
    requires i < |list| && list[i].Key() == a
    ensures Merge(list, a, heartbeat, now) ==
            if list[i].heartbeat < heartbeat
            then list[i := Entry(a.id, a.port, heartbeat, now)]
            else list
  {
    IndexOfUnique(list, a, i);
  }

  /** Unknown peer: exactly one entry `(id, port, heartbeat, now)` is appended at the end. */
  lemma MergeUnknown(list: seq<Entry>, a: Address, heartbeat: int, now: int)
    requires forall j :: 0 <= j < |list| ==> list[j].Key() != a
    ensures Merge(list, a, heartbeat, now) == list + [Entry(a.id, a.port, heartbeat, now)]
  {
  }

  /**
   * No stored heartbeat ever decreases, every row keeps its key and its
   * place, and a row changes only when a strictly newer heartbeat arrives,
   * in which case its timestamp becomes `now`.
   */
  lemma MergeMonotone(list: seq<Entry>, a: Address, heartbeat: int, now: int)
    ensures var r := Merge(list, a, heartbeat, now);
      && |list| <= |r| <= |list| + 1
      && forall j :: 0 <= j < |list| ==>
           && r[j].Key() == list[j].Key()
           && r[j].heartbeat >= list[j].heartbeat
           && (r[j] != list[j] ==> r[j].heartbeat > list[j].heartbeat && r[j].timestamp == now)
  {
  }

  /** The merge never creates a second entry for a key. */
  lemma MergeKeepsUniqueKeys(list: seq<Entry>, a: Address, heartbeat: int, now: int)
    requires UniqueKeys(list)
    ensures UniqueKeys(Merge(list, a, heartbeat, now))
  {
  }

  /**
   * `later` keeps every key of `earlier` at the same position (so also the
   * position `IndexOf` finds) with a heartbeat at least as large.
   */
  ghost predicate Dominates(later: seq<Entry>, earlier: seq<Entry>)
  {
    forall a :: IndexOf(earlier, a).Some? ==>
      && IndexOf(later, a) == IndexOf(earlier, a)
      && later[IndexOf(earlier, a).value].heartbeat >= earlier[IndexOf(earlier, a).value].heartbeat
  }

  /** Every incoming entry's key is present in `list` with a heartbeat at least as new. */
  ghost predicate Covers(list: seq<Entry>, incoming: seq<Entry>)
  {
    forall j :: 0 <= j < |incoming| ==>
      && IndexOf(list, incoming[j].Key()).Some?
      && list[IndexOf(list, incoming[j].Key()).value].heartbeat >= incoming[j].heartbeat
  }

  /** One merge dominates its input and records the merged key at least as new as it came. */
  lemma MergeDominates(list: seq<Entry>, a: Address, heartbeat: int, now: int)
    ensures Dominates(Merge(list, a, heartbeat, now), list)
    ensures Covers(Merge(list, a, heartbeat, now), [Entry(a.id, a.port, heartbeat, now)])
  {
    var r := Merge(list, a, heartbeat, now);
    match IndexOf(list, a)
    case Some(i) =>
      forall b | IndexOf(list, b).Some?
        ensures IndexOf(r, b) == IndexOf(list, b)
      {
        IndexOfSameKeys(r, list, b);
      }
      IndexOfSameKeys(r, list, a);
    case None =>
      forall b | IndexOf(list, b).Some?
        ensures IndexOf(r, b) == IndexOf(list, b)
      {
        IndexOfFirst(r, b, IndexOf(list, b).value);
      }
      IndexOfFirst(r, a, |list|);
  }

  lemma DominatesTransitive(c: seq<Entry>, b: seq<Entry>, a: seq<Entry>)
    requires Dominates(c, b) && Dominates(b, a)
    ensures Dominates(c, a)
  {
  }

  lemma CoversDominated(later: seq<Entry>, list: seq<Entry>, incoming: seq<Entry>)
    requires Covers(list, incoming) && Dominates(later, list)
    ensures Covers(later, incoming)
  {
    forall j | 0 <= j < |incoming|
      ensures IndexOf(later, incoming[j].Key()).Some?
      ensures later[IndexOf(later, incoming[j].Key()).value].heartbeat >= incoming[j].heartbeat
    {
      assert IndexOf(list, incoming[j].Key()).Some?;
    }
  }

  /**
   * `updateMembers`: the single-entry merge folded over the incoming
   * entries in order (the last incoming entry is merged last). Only the
   * key and the heartbeat of an incoming entry are used; its timestamp is
   * replaced by the local `now`.
   */
  function MergeAll(list: seq<Entry>, incoming: seq<Entry>, now: int): seq<Entry>
    decreases |incoming|
  {
    if incoming == [] then list
    else
      var last := incoming[|incoming| - 1];
      Merge(MergeAll(list, incoming[..|incoming| - 1], now), last.Key(), last.heartbeat, now)
  }

  /** After merging a snapshot, the list dominates the old list and covers the snapshot. */
  lemma {:induction false} MergeAllCovers(list: seq<Entry>, incoming: seq<Entry>, now: int)
    ensures Covers(MergeAll(list, incoming, now), incoming)
    ensures Dominates(MergeAll(list, incoming, now), list)
  {
    if incoming != [] {
      var init, last := incoming[..|incoming| - 1], incoming[|incoming| - 1];
      var m := MergeAll(list, init, now);
      var r := Merge(m, last.Key(), last.heartbeat, now);
      MergeAllCovers(list, init, now);
      MergeDominates(m, last.Key(), last.heartbeat, now);
      DominatesTransitive(r, m, list);
      CoversDominated(r, m, init);
      var single := Entry(last.id, last.port, last.heartbeat, now);
      assert Covers(r, [single]);
      assert [single][0].Key() == last.Key();
      CoversAppend(r, init, last);
      assert init + [last] == incoming;
    }
  }

  /** Covering a snapshot and one more entry covers the snapshot extended by it. */
  lemma CoversAppend(list: seq<Entry>, init: seq<Entry>, last: Entry)
    requires Covers(list, init)
    requires IndexOf(list, last.Key()).Some?
    requires list[IndexOf(list, last.Key()).value].heartbeat >= last.heartbeat
    ensures Covers(list, init + [last])
  {
    var incoming := init + [last];
    forall j | 0 <= j < |incoming|
      ensures IndexOf(list, incoming[j].Key()).Some?
      ensures list[IndexOf(list, incoming[j].Key()).value].heartbeat >= incoming[j].heartbeat
    {
      if j < |init| {
        assert incoming[j] == init[j];
      }
    }
  }

  /** A list that already covers a snapshot is left unchanged by merging it. */
  lemma {:induction false} MergeAllFixpoint(list: seq<Entry>, incoming: seq<Entry>, now: int)
    requires Covers(list, incoming)
    ensures MergeAll(list, incoming, now) == list
  {
    if incoming != [] {
      var init := incoming[..|incoming| - 1];
      forall j | 0 <= j < |init|
        ensures IndexOf(list, init[j].Key()).Some?
        ensures list[IndexOf(list, init[j].Key()).value].heartbeat >= init[j].heartbeat
      {
        assert init[j] == incoming[j];
      }
      MergeAllFixpoint(list, init, now);
      assert IndexOf(list, incoming[|incoming| - 1].Key()).Some?;
    }
  }

  /**
   * Merging the same snapshot a second time, at the same or any later
   * time, gives the same list as merging it once.
   */
  lemma MergeAllIdempotent(list: seq<Entry>, incoming: seq<Entry>, now: int, again: int)
    ensures MergeAll(MergeAll(list, incoming, now), incoming, again) == MergeAll(list, incoming, now)
  {
    MergeAllCovers(list, incoming, now);
    MergeAllFixpoint(MergeAll(list, incoming, now), incoming, again);
  }

  /** Merging a snapshot keeps the keys unique. */
  lemma {:induction false} MergeAllKeepsUniqueKeys(list: seq<Entry>, incoming: seq<Entry>, now: int)
    requires UniqueKeys(list)
    ensures UniqueKeys(MergeAll(list, incoming, now))
  {
    if incoming != [] {
      var last := incoming[|incoming| - 1];
      MergeAllKeepsUniqueKeys(list, incoming[..|incoming| - 1], now);
      MergeKeepsUniqueKeys(MergeAll(list, incoming[..|incoming| - 1], now), last.Key(), last.heartbeat, now);
    }
  }

  /**
   * A merged snapshot only adds entries at the end: the list grows by the
   * number of previously unknown peers, never shrinks.
   */
  lemma {:induction false} MergeAllGrows(list: seq<Entry>, incoming: seq<Entry>, now: int)
    ensures |list| <= |MergeAll(list, incoming, now)| <= |list| + |incoming|
  {
    if incoming != [] {
      var last := incoming[|incoming| - 1];
      MergeAllGrows(list, incoming[..|incoming| - 1], now);
      MergeMonotone(MergeAll(list, incoming[..|incoming| - 1], now), last.Key(), last.heartbeat, now);
    }
  }

  // ---------------------------------------------------------------------
  // The per-tick pass: nodeLoopOps (MP1Node.cpp:259-302)
  // ---------------------------------------------------------------------

  /** The node's own entry (the first one with key `a`) takes `heartbeat`, stamped `now`. */
  function Refresh(list: seq<Entry>, a: Address, heartbeat: int, now: int): seq<Entry>
    requires IndexOf(list, a).Some?
  {
    var i := IndexOf(list, a).value;
    list[i := list[i].(timestamp := now, heartbeat := heartbeat)]
  }

  /** Refreshing an entry keeps every key in place, so uniqueness is kept. */
  lemma RefreshKeepsUniqueKeys(list: seq<Entry>, a: Address, heartbeat: int, now: int)
    requires UniqueKeys(list) && IndexOf(list, a).Some?
    ensures UniqueKeys(Refresh(list, a, heartbeat, now))
  {
    var refreshed := Refresh(list, a, heartbeat, now);
    assert forall j :: 0 <= j < |list| ==> refreshed[j].Key() == list[j].Key();
  }

  /** An entry due for removal: `currentTime >= timestamp + TCLEANUP`. */
  predicate Stale(e: Entry, now: int, tcleanup: int) {
    now >= e.timestamp + tcleanup
  }

  /**
   * What the eviction scan is meant to leave ("Remove stale member"): the
   * entries that are not stale, in their original order.
   */
  function Survivors(list: seq<Entry>, now: int, tcleanup: int): seq<Entry>
    decreases |list|
  {
    if list == [] then []
    else
      var last := list[|list| - 1];
      Survivors(list[..|list| - 1], now, tcleanup) + (if Stale(last, now, tcleanup) then [] else [last])
  }

  /** Scanning one more entry keeps it exactly when it is not stale. */
  lemma SurvivorsStep(list: seq<Entry>, i: nat, now: int, tcleanup: int)
    requires i < |list|
    ensures Survivors(list[..i + 1], now, tcleanup)
            == Survivors(list[..i], now, tcleanup) + if Stale(list[i], now, tcleanup) then [] else [list[i]]
  {
    assert list[..i + 1][..i] == list[..i];
  }

  /** An entry survives eviction exactly when it was in the list and is not stale. */
  lemma {:induction false} SurvivorsExact(list: seq<Entry>, now: int, tcleanup: int)
    ensures forall e :: e in Survivors(list, now, tcleanup) <==> e in list && !Stale(e, now, tcleanup)
  {
    if list != [] {
      var init, last := list[..|list| - 1], list[|list| - 1];
      SurvivorsExact(init, now, tcleanup);
      assert list == init + [last];
    }
  }

  /** The positions of the entries eviction keeps, in increasing order. */
  ghost function KeptPositions(list: seq<Entry>, now: int, tcleanup: int): seq<nat>
    decreases |list|
  {
    if list == [] then []
    else
      var n := |list| - 1;
      KeptPositions(list[..n], now, tcleanup) + if Stale(list[n], now, tcleanup) then [] else [n]
  }

  /** The kept positions are positions of the list, strictly increasing. */
  lemma {:induction false} KeptPositionsIncrease(list: seq<Entry>, now: int, tcleanup: int)
    ensures forall k :: 0 <= k < |KeptPositions(list, now, tcleanup)| ==> KeptPositions(list, now, tcleanup)[k] < |list|
    ensures forall k, l :: 0 <= k < l < |KeptPositions(list, now, tcleanup)| ==>
              KeptPositions(list, now, tcleanup)[k] < KeptPositions(list, now, tcleanup)[l]
  {
    if list != [] {
      var n := |list| - 1;
      KeptPositionsIncrease(list[..n], now, tcleanup);
      var pre := KeptPositions(list[..n], now, tcleanup);
      if !Stale(list[n], now, tcleanup) {
        var p := pre + [n];
        assert forall k :: 0 <= k < |pre| ==> p[k] == pre[k];
      }
    }
  }

  /** A position is kept exactly when its entry is not stale. */
  lemma {:induction false} KeptPositionsExact(list: seq<Entry>, now: int, tcleanup: int)
    ensures forall j :: 0 <= j < |list| ==>
              (j in KeptPositions(list, now, tcleanup) <==> !Stale(list[j], now, tcleanup))
  {
    if list != [] {
      var n := |list| - 1;
      var init := list[..n];
      KeptPositionsExact(init, now, tcleanup);
      KeptPositionsIncrease(init, now, tcleanup);
      assert forall j :: 0 <= j < n ==> list[j] == init[j];
      assert n !in KeptPositions(init, now, tcleanup);
    }
  }

  /** The `k`-th survivor is the entry at the `k`-th kept position. */
  lemma {:induction false} KeptPositionsSelect(list: seq<Entry>, now: int, tcleanup: int)
    ensures |KeptPositions(list, now, tcleanup)| == |Survivors(list, now, tcleanup)|
    ensures forall k :: 0 <= k < |KeptPositions(list, now, tcleanup)| ==>
              KeptPositions(list, now, tcleanup)[k] < |list|
              && Survivors(list, now, tcleanup)[k] == list[KeptPositions(list, now, tcleanup)[k]]
  {
    KeptPositionsIncrease(list, now, tcleanup);
    if list != [] {
      var n := |list| - 1;
      var init := list[..n];
      KeptPositionsSelect(init, now, tcleanup);
      KeptPositionsIncrease(init, now, tcleanup);
      assert forall j :: 0 <= j < n ==> list[j] == init[j];
    }
  }

  /**
   * The survivors are the non-stale entries in their original relative
   * order: `idx` lists, strictly increasing, the positions they came from,
   * and a position is listed exactly when its entry is not stale.
   */
  lemma SurvivorsOrder(list: seq<Entry>, now: int, tcleanup: int) returns (idx: seq<nat>)
    ensures |idx| == |Survivors(list, now, tcleanup)|
    ensures forall k :: 0 <= k < |idx| ==>
              idx[k] < |list| && Survivors(list, now, tcleanup)[k] == list[idx[k]]
    ensures forall k, l :: 0 <= k < l < |idx| ==> idx[k] < idx[l]
    ensures forall j :: 0 <= j < |list| ==> (j in idx <==> !Stale(list[j], now, tcleanup))
  {
    idx := KeptPositions(list, now, tcleanup);
    KeptPositionsIncrease(list, now, tcleanup);
    KeptPositionsExact(list, now, tcleanup);
    KeptPositionsSelect(list, now, tcleanup);
  }

  /** Eviction keeps the keys unique. */
  lemma {:induction false} SurvivorsKeepUniqueKeys(list: seq<Entry>, now: int, tcleanup: int)
    requires UniqueKeys(list)
    ensures UniqueKeys(Survivors(list, now, tcleanup))
  {
    if list != [] {
      var init, last := list[..|list| - 1], list[|list| - 1];
      var pre := Survivors(init, now, tcleanup);
      SurvivorsKeepUniqueKeys(init, now, tcleanup);
      SurvivorsExact(init, now, tcleanup);
      forall i | 0 <= i < |pre|
        ensures pre[i].Key() != last.Key()
      {
        assert pre[i] in pre;
        var m :| 0 <= m < |init| && init[m] == pre[i];
        assert list[m] == init[m];
      }
    }
  }

  /**
   * The node's own entry, just refreshed to `now`, survives the eviction
   * scan whenever `TCLEANUP > 0`, and it is the entry `IndexOf` then finds.
   */
  lemma RefreshedSelfSurvives(list: seq<Entry>, a: Address, heartbeat: int, now: int, tcleanup: int)
    requires UniqueKeys(list) && IndexOf(list, a).Some?
    requires tcleanup > 0
    ensures var r := Survivors(Refresh(list, a, heartbeat, now), now, tcleanup);
      IndexOf(r, a).Some? && r[IndexOf(r, a).value] == Entry(a.id, a.port, heartbeat, now)
  {
    var refreshed := Refresh(list, a, heartbeat, now);
    var i := IndexOf(list, a).value;
    var e := Entry(a.id, a.port, heartbeat, now);
    assert refreshed[i] == e;
    RefreshKeepsUniqueKeys(list, a, heartbeat, now);
    var r := Survivors(refreshed, now, tcleanup);
    SurvivorsExact(refreshed, now, tcleanup);
    SurvivorsKeepUniqueKeys(refreshed, now, tcleanup);
    assert e in r;
    var k :| 0 <= k < |r| && r[k] == e;
    IndexOfUnique(r, a, k);
  }

  /** An entry that may be gossiped to: `currentTime - timestamp < TFAIL`. */
  predicate Live(e: Entry, now: int, tfail: int) {
    now - e.timestamp < tfail
  }

  /** The fan-out targets: the keys of the live entries, in list order. */
  function LiveTargets(list: seq<Entry>, now: int, tfail: int): seq<Address>
    decreases |list|
  {
    if list == [] then []
    else
      var last := list[|list| - 1];
      LiveTargets(list[..|list| - 1], now, tfail) + (if Live(last, now, tfail) then [last.Key()] else [])
  }

  /**
   * The fan-out targets are the keys of the live entries, in list order:
   * the `k`-th target is the key of the entry at position `idx[k]`, the
   * positions strictly increase, and a position is listed exactly when its
   * entry is live.
   */
  lemma {:induction false} LiveTargetsOrder(list: seq<Entry>, now: int, tfail: int) returns (idx: seq<nat>)
    ensures |idx| == |LiveTargets(list, now, tfail)|
    ensures forall k :: 0 <= k < |idx| ==>
              idx[k] < |list| && LiveTargets(list, now, tfail)[k] == list[idx[k]].Key()
    ensures forall k, l :: 0 <= k < l < |idx| ==> idx[k] < idx[l]
    ensures forall j :: 0 <= j < |list| ==> (j in idx <==> Live(list[j], now, tfail))
  {
    if list == [] {
      idx := [];
    } else {
      var init, last := list[..|list| - 1], list[|list| - 1];
      var pre := LiveTargetsOrder(init, now, tfail);
      assert forall j :: 0 <= j < |init| ==> list[j] == init[j];
      if Live(last, now, tfail) {
        assert LiveTargets(list, now, tfail) == LiveTargets(init, now, tfail) + [last.Key()];
        idx := pre + [|list| - 1];
      } else {
        assert LiveTargets(list, now, tfail) == LiveTargets(init, now, tfail);
        idx := pre;
      }
    }
  }

  /** An address is a target exactly when some live entry carries it. */
  lemma LiveTargetsExact(list: seq<Entry>, now: int, tfail: int, a: Address)
    ensures a in LiveTargets(list, now, tfail) <==>
            exists j :: 0 <= j < |list| && list[j].Key() == a && Live(list[j], now, tfail)
  {
    var targets := LiveTargets(list, now, tfail);
    var idx := LiveTargetsOrder(list, now, tfail);
    if a in targets {
      var k :| 0 <= k < |targets| && targets[k] == a;
      assert list[idx[k]].Key() == a && idx[k] in idx;
    }
    if exists j :: 0 <= j < |list| && list[j].Key() == a && Live(list[j], now, tfail) {
      var j :| 0 <= j < |list| && list[j].Key() == a && Live(list[j], now, tfail);
      assert j in idx;
      var k :| 0 <= k < |idx| && idx[k] == j;
      assert targets[k] == a;
    }
  }

  /** With unique keys, each live peer is a target once: one message per peer per tick. */
  lemma LiveTargetsDistinct(list: seq<Entry>, now: int, tfail: int)
    requires UniqueKeys(list)
    ensures var targets := LiveTargets(list, now, tfail);
      forall k, l :: 0 <= k < l < |targets| ==> targets[k] != targets[l]
  {
    var idx := LiveTargetsOrder(list, now, tfail);
  }

  /**
   * Suspicion does not evict: an entry older than `TFAIL` but younger than
   * `TCLEANUP` stays in the table but its key is not a gossip target.
   */
  lemma SuspectedKeptNotTargeted(list: seq<Entry>, now: int, tfail: int, tcleanup: int, j: nat)
    requires UniqueKeys(list) && j < |list|
    requires !Live(list[j], now, tfail) && !Stale(list[j], now, tcleanup)
    ensures var kept := Survivors(list, now, tcleanup);
      list[j] in kept && list[j].Key() !in LiveTargets(kept, now, tfail)
  {
    var kept := Survivors(list, now, tcleanup);
    SurvivorsExact(list, now, tcleanup);
    SurvivorsKeepUniqueKeys(list, now, tcleanup);
    var e := list[j];
    forall k | 0 <= k < |kept| && kept[k].Key() == e.Key()
      ensures !Live(kept[k], now, tfail)
    {
      assert kept[k] in kept;
      var m :| 0 <= m < |list| && list[m] == kept[k];
      assert m == j;
    }
    LiveTargetsExact(kept, now, tfail, e.Key());
  }
}
