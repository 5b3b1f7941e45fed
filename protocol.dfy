/**
 * One node's membership protocol as a state machine on values: the state
 * of `memberNode`, and what start-up, each message kind, the per-tick
 * pass and `nodeLoop` do to it. The class in node.dfy performs the same
 * steps in place and is proved to end in the states these functions give.
 *
 * The clock `par->getcurrtime()` is the parameter `now`; `TFAIL` and
 * `TCLEANUP` are the parameters `tfail` and `tcleanup`. Messages sent are
 * returned as `Send` values instead of being passed to the transport.
 */
module Protocol {
  import opened Wrappers
  import opened Membership
  import opened Wire

  /** The fields of `memberNode` the protocol reads and writes. */
  datatype NodeState = NodeState(
    addr: Address,
    inited: bool,
    failed: bool,
    inGroup: bool,
    nnb: int,
    heartbeat: int,
    memberList: seq<Entry>)

  /** The heartbeat snapshot of one tick and the peers it goes to. */
  datatype Gossip = Gossip(targets: seq<Address>, payload: Message)

  /** What one call of `nodeLoop` did after draining the messages. */
  datatype LoopOutcome =
    | Skipped                   // `bFailed`: nothing at all was done
    | Waiting                   // not in the group yet: no per-tick pass
    | Gossiped(gossip: Gossip)  // the per-tick pass ran
    | OwnEntryMissing           // in the group but no own entry: the source dereferences null

  /** What handling one message did: the new state, `recvCallBack`'s result, the reply. */
  datatype Reaction = Reaction(state: NodeState, unknown: bool, reply: Option<Send>)

  /** `getJoinAddress`: the introducer is id 1, port 0. */
  function JoinAddress(): (a: Address)
    ensures FitsAddress(a)
  {
    Address(1, 0)
  }

  /** The node's own entry is in its list. */
  predicate HasSelf(s: NodeState) {
    IndexOf(s.memberList, s.addr).Some?
  }

  // ---------------------------------------------------------------------
  // Start-up: initThisNode, introduceSelfToGroup, nodeStart
  // ---------------------------------------------------------------------

  /** `initThisNode`: up, not failed, not in the group, no peers counted, heartbeat 0, empty list. */
  function Init(s: NodeState): NodeState {
    s.(failed := false, inited := true, inGroup := false, nnb := 0, heartbeat := 0, memberList := [])
  }

  /**
   * `introduceSelfToGroup`. The introducer appends its own entry and is in
   * the group at once; any other node sends a JOINREQ to `joinAddr`.
   */
  function Introduce(s: NodeState, joinAddr: Address, now: int, pad: byte): (NodeState, Option<Send>)
    requires FitsAddress(s.addr)
    requires s.addr != joinAddr ==> FitsSigned(s.heartbeat, LONG_SIZE)
  {
    if s.addr == joinAddr then
      (s.(nnb := s.nnb + 1,
          memberList := s.memberList + [Entry(s.addr.id, s.addr.port, s.heartbeat, now)],
          inGroup := true),
       None)
    else
      (s, Some(Send(joinAddr, JoinReq(EncodeJoinRequest(s.addr, s.heartbeat, pad)))))
  }

  /** `nodeStart`: initialise, then introduce the node to the group at `getJoinAddress()`. */
  function Start(s: NodeState, now: int, pad: byte): (NodeState, Option<Send>)
    requires FitsAddress(s.addr)
  {
    Introduce(Init(s), JoinAddress(), now, pad)
  }

  /**
   * The introducer: its list becomes exactly its own entry with heartbeat 0,
   * `nnb` becomes 1, it is in the group and it sends nothing.
   */
  lemma IntroducerStart(s: NodeState, now: int, pad: byte)
    requires s.addr == JoinAddress()
    ensures var (t, send) := Start(s, now, pad);
      && t.memberList == [Entry(1, 0, 0, now)] && t.nnb == 1 && t.heartbeat == 0
      && t.inGroup && !t.failed && send.None?
  {
  }

  /**
   * A joiner: it stays out of the group with an empty list and sends one
   * JOINREQ to (1, 0) from which the receiver reads its address and
   * heartbeat 0.
   */
  lemma JoinerStart(s: NodeState, now: int, pad: byte)
    requires FitsAddress(s.addr) && s.addr != JoinAddress()
    ensures var (t, send) := Start(s, now, pad);
      && t.memberList == [] && t.nnb == 0 && !t.inGroup && !t.failed
      && send.Some? && send.value.to == JoinAddress() && send.value.msg.JoinReq?
      && DecodeJoinRequest(send.value.msg.body) == Some(JoinRequest(s.addr, 0))
  {
    var body := EncodeJoinRequest(s.addr, 0, pad);
    JoinRequestRoundTrip(s.addr, 0, pad, []);
    assert body + [] == body;
  }

  /**
   * Start-up leaves a list with unique keys, and the introducer's list
   * holds its own entry; with `LoopEffect` and `ReceiveKeepsEntries` this
   * carries both facts through every later tick and message.
   */
  lemma StartInvariant(s: NodeState, now: int, pad: byte)
    requires FitsAddress(s.addr)
    ensures var t := Start(s, now, pad).0;
      && t.addr == s.addr
      && UniqueKeys(t.memberList)
      && (s.addr == JoinAddress() <==> HasSelf(t))
  {
    var t := Start(s, now, pad).0;
    if s.addr == JoinAddress() {
      IntroducerStart(s, now, pad);
      assert t.memberList[0].Key() == s.addr;
    } else {
      JoinerStart(s, now, pad);
    }
  }

  // ---------------------------------------------------------------------
  // Merge into the node: updateMember, updateMembers
  // ---------------------------------------------------------------------

  /** `updateMember`: the heartbeat-monotonic merge; `nnb` counts each peer added. */
  function UpdateMember(s: NodeState, a: Address, heartbeat: int, now: int): NodeState {
    s.(memberList := Merge(s.memberList, a, heartbeat, now),
       nnb := if IndexOf(s.memberList, a).None? then s.nnb + 1 else s.nnb)
  }

  /** The loop of `updateMembers`: `updateMember` on each incoming entry, in order. */
  function MergeEntries(s: NodeState, incoming: seq<Entry>, now: int): NodeState
    decreases |incoming|
  {
    if incoming == [] then s
    else
      var last := incoming[|incoming| - 1];
      UpdateMember(MergeEntries(s, incoming[..|incoming| - 1], now), last.Key(), last.heartbeat, now)
  }

  /** `updateMembers`: decode the snapshot and merge its entries; a malformed one is dropped. */
  function UpdateMembers(s: NodeState, snapshot: seq<int>, now: int): NodeState {
    match DecodeSnapshot(snapshot)
    case None => s
    case Some(incoming) => MergeEntries(s, incoming, now)
  }

  /**
   * Merging entries one by one into the node is `MergeAll` on its list;
   * `nnb` grows by exactly the number of entries appended, and nothing
   * else of the node changes.
   */
  lemma {:induction false} MergeEntriesIsMergeAll(s: NodeState, incoming: seq<Entry>, now: int)
    ensures var t := MergeEntries(s, incoming, now);
      && t.memberList == MergeAll(s.memberList, incoming, now)
      && t.nnb == s.nnb + |t.memberList| - |s.memberList|
      && t == s.(memberList := t.memberList, nnb := t.nnb)
  {
    if incoming != [] {
      var last := incoming[|incoming| - 1];
      var m := MergeEntries(s, incoming[..|incoming| - 1], now);
      MergeEntriesIsMergeAll(s, incoming[..|incoming| - 1], now);
      MergeMonotone(m.memberList, last.Key(), last.heartbeat, now);
    }
  }

  /**
   * Snapshot merge is idempotent: applying the same JOINREP or HEARTBEAT
   * payload a second time, at any time, leaves the node as one application
   * left it.
   */
  lemma UpdateMembersIdempotent(s: NodeState, snapshot: seq<int>, now: int, again: int)
    ensures UpdateMembers(UpdateMembers(s, snapshot, now), snapshot, again) == UpdateMembers(s, snapshot, now)
  {
    match DecodeSnapshot(snapshot)
    case None =>
    case Some(incoming) =>
      var t := MergeEntries(s, incoming, now);
      MergeEntriesIsMergeAll(s, incoming, now);
      MergeEntriesIsMergeAll(t, incoming, again);
      MergeAllIdempotent(s.memberList, incoming, now, again);
  }

  // ---------------------------------------------------------------------
  // Dispatch: handleMemberJoinRequest, recvCallBack, checkMessages
  // ---------------------------------------------------------------------

  /**
   * `handleMemberJoinRequest`: merge the sender, then reply to it with a
   * JOINREP snapshot of the whole list. A payload too short to hold the
   * address and heartbeat is dropped.
   */
  function HandleJoinRequest(s: NodeState, body: seq<byte>, now: int): (NodeState, Option<Send>) {
    match DecodeJoinRequest(body)
    case None => (s, None)
    case Some(req) =>
      var t := UpdateMember(s, req.from, req.heartbeat, now);
      (t, Some(Send(req.from, JoinRep(EncodeSnapshot(t.memberList)))))
  }

  /**
   * Merging one peer into the node records it with at least the given
   * heartbeat, keeps every known peer with no lower heartbeat and keeps
   * the keys unique.
   */
  lemma UpdateMemberRecords(s: NodeState, a: Address, heartbeat: int, now: int)
    ensures var list := UpdateMember(s, a, heartbeat, now).memberList;
      && IndexOf(list, a).Some? && list[IndexOf(list, a).value].heartbeat >= heartbeat
      && Dominates(list, s.memberList)
      && (UniqueKeys(s.memberList) ==> UniqueKeys(list))
  {
    var e := Entry(a.id, a.port, heartbeat, now);
    MergeDominates(s.memberList, a, heartbeat, now);
    assert [e][0].Key() == a;
    if UniqueKeys(s.memberList) {
      MergeKeepsUniqueKeys(s.memberList, a, heartbeat, now);
    }
  }

  /**
   * A JOINREQ body too short to read changes nothing and gets no reply.
   * A readable one merges the sender, so that the new list records it
   * with at least the heartbeat it sent, keeps every known peer with no
   * lower heartbeat, counts the sender in `nnb` exactly when it was
   * unknown and changes nothing else; the reply goes to the sender and is
   * a JOINREP whose snapshot decodes to exactly the new list.
   */
  lemma HandleJoinRequestReplies(s: NodeState, body: seq<byte>, now: int)
    ensures var (t, reply) := HandleJoinRequest(s, body, now);
      && (DecodeJoinRequest(body).None? ==> t == s && reply.None?)
      && (DecodeJoinRequest(body).Some? ==>
            && IndexOf(t.memberList, DecodeJoinRequest(body).value.from).Some?
            && t.memberList[IndexOf(t.memberList, DecodeJoinRequest(body).value.from).value].heartbeat
               >= DecodeJoinRequest(body).value.heartbeat
            && Dominates(t.memberList, s.memberList)
            && (UniqueKeys(s.memberList) ==> UniqueKeys(t.memberList))
            && t.nnb == (if IndexOf(s.memberList, DecodeJoinRequest(body).value.from).None? then s.nnb + 1 else s.nnb)
            && t == s.(memberList := t.memberList, nnb := t.nnb)
            && reply.Some? && reply.value.to == DecodeJoinRequest(body).value.from
            && reply.value.msg.JoinRep?
            && DecodeSnapshot(reply.value.msg.snapshot) == Some(t.memberList))
  {
    match DecodeJoinRequest(body)
    case None =>
    case Some(req) =>
      var t := UpdateMember(s, req.from, req.heartbeat, now);
      assert HandleJoinRequest(s, body, now) == (t, Some(Send(req.from, JoinRep(EncodeSnapshot(t.memberList)))));
      UpdateMemberRecords(s, req.from, req.heartbeat, now);
      SnapshotRoundTrip(t.memberList, []);
      assert EncodeSnapshot(t.memberList) + [] == EncodeSnapshot(t.memberList);
  }

  /**
   * `recvCallBack`: JOINREQ is handled as above; JOINREP sets `inGroup`
   * and merges; HEARTBEAT merges; any other tag changes nothing and is the
   * only case that returns true.
   */
  function Receive(s: NodeState, msg: Message, now: int): Reaction {
    match msg
    case JoinReq(body) =>
      var (t, reply) := HandleJoinRequest(s, body, now);
      Reaction(t, false, reply)
    case JoinRep(snapshot) => Reaction(UpdateMembers(s.(inGroup := true), snapshot, now), false, None)
    case Heartbeat(snapshot) => Reaction(UpdateMembers(s, snapshot, now), false, None)
    case Other(_) => Reaction(s, true, None)
  }

  /** `checkMessages`: every queued message handled in arrival order; the replies in that order. */
  function Deliver(s: NodeState, msgs: seq<Message>, now: int): (NodeState, seq<Send>)
    decreases |msgs|
  {
    if msgs == [] then (s, [])
    else
      var (t, replies) := Deliver(s, msgs[..|msgs| - 1], now);
      var reaction := Receive(t, msgs[|msgs| - 1], now);
      (reaction.state, replies + if reaction.reply.Some? then [reaction.reply.value] else [])
  }

  /** Draining one more message extends the drain of the ones before it. */
  lemma DeliverStep(s: NodeState, msgs: seq<Message>, i: nat, now: int)
    requires i < |msgs|
    ensures var (t, replies) := Deliver(s, msgs[..i], now);
      var r := Receive(t, msgs[i], now);
      Deliver(s, msgs[..i + 1], now) == (r.state, replies + if r.reply.Some? then [r.reply.value] else [])
  {
    assert msgs[..i + 1][..i] == msgs[..i];
  }

  /**
   * What one message can do to the node: only JOINREP sets `inGroup`, and
   * nothing clears it; the address, the heartbeat, `bFailed` and `inited`
   * are untouched (`nnb` grows with each peer a merge appends); an unknown
   * tag changes nothing and returns true, every known tag returns false.
   */
  lemma ReceiveEffect(s: NodeState, msg: Message, now: int)
    ensures var r := Receive(s, msg, now);
      && r.state.inGroup == (s.inGroup || msg.JoinRep?)
      && r.state.addr == s.addr && r.state.heartbeat == s.heartbeat && r.state.failed == s.failed
      && r.state.inited == s.inited
      && r.unknown == msg.Other?
      && (msg.Other? ==> r.state == s && r.reply.None?)
      && (r.reply.Some? ==> msg.JoinReq?)
  {
    match msg
    case JoinReq(body) =>
    case JoinRep(snapshot) =>
      var d := DecodeSnapshot(snapshot);
      if d.Some? {
        MergeEntriesIsMergeAll(s.(inGroup := true), d.value, now);
      }
    case Heartbeat(snapshot) =>
      var d := DecodeSnapshot(snapshot);
      if d.Some? {
        MergeEntriesIsMergeAll(s, d.value, now);
      }
    case Other(_) =>
  }

  /** Merging a snapshot never removes an entry and never creates a second entry for a key. */
  lemma UpdateMembersKeepsEntries(s: NodeState, snapshot: seq<int>, now: int)
    ensures Dominates(UpdateMembers(s, snapshot, now).memberList, s.memberList)
    ensures UniqueKeys(s.memberList) ==> UniqueKeys(UpdateMembers(s, snapshot, now).memberList)
  {
    var d := DecodeSnapshot(snapshot);
    if d.Some? {
      MergeEntriesIsMergeAll(s, d.value, now);
      MergeAllCovers(s.memberList, d.value, now);
      if UniqueKeys(s.memberList) {
        MergeAllKeepsUniqueKeys(s.memberList, d.value, now);
      }
    }
  }

  /** A message never removes an entry and never creates a second entry for a key. */
  lemma ReceiveKeepsEntries(s: NodeState, msg: Message, now: int)
    ensures Dominates(Receive(s, msg, now).state.memberList, s.memberList)
    ensures UniqueKeys(s.memberList) ==> UniqueKeys(Receive(s, msg, now).state.memberList)
  {
    match msg
    case JoinReq(body) =>
      var d := DecodeJoinRequest(body);
      if d.Some? {
        MergeDominates(s.memberList, d.value.from, d.value.heartbeat, now);
        if UniqueKeys(s.memberList) {
          MergeKeepsUniqueKeys(s.memberList, d.value.from, d.value.heartbeat, now);
        }
      }
    case JoinRep(snapshot) =>
      UpdateMembersKeepsEntries(s.(inGroup := true), snapshot, now);
    case Heartbeat(snapshot) =>
      UpdateMembersKeepsEntries(s, snapshot, now);
    case Other(_) =>
  }

  /** After the queue is drained, the node is in the group exactly when it was before or some message was a JOINREP. */
  lemma {:induction false} DeliverInGroup(s: NodeState, msgs: seq<Message>, now: int)
    ensures Deliver(s, msgs, now).0.inGroup <==> s.inGroup || exists i :: 0 <= i < |msgs| && msgs[i].JoinRep?
    ensures Deliver(s, msgs, now).0.addr == s.addr
  {
    if msgs != [] {
      var init, last := msgs[..|msgs| - 1], msgs[|msgs| - 1];
      var m := Deliver(s, init, now).0;
      DeliverInGroup(s, init, now);
      ReceiveEffect(m, last, now);
      if exists i :: 0 <= i < |msgs| && msgs[i].JoinRep? {
        var i :| 0 <= i < |msgs| && msgs[i].JoinRep?;
        if i < |init| {
          assert init[i].JoinRep?;
        }
      }
      if exists i :: 0 <= i < |init| && init[i].JoinRep? {
        var i :| 0 <= i < |init| && init[i].JoinRep?;
        assert msgs[i].JoinRep?;
      }
    }
  }

  /** Draining the queue keeps the address, heartbeat and `bFailed`, removes no entry and keeps the keys unique. */
  lemma {:induction false} DeliverKeepsEntries(s: NodeState, msgs: seq<Message>, now: int)
    ensures var t := Deliver(s, msgs, now).0;
      && t.addr == s.addr && t.heartbeat == s.heartbeat && t.failed == s.failed
      && Dominates(t.memberList, s.memberList)
      && (UniqueKeys(s.memberList) ==> UniqueKeys(t.memberList))
  {
    if msgs != [] {
      var init, last := msgs[..|msgs| - 1], msgs[|msgs| - 1];
      var m := Deliver(s, init, now).0;
      DeliverKeepsEntries(s, init, now);
      ReceiveEffect(m, last, now);
      ReceiveKeepsEntries(m, last, now);
      DominatesTransitive(Receive(m, last, now).state.memberList, m.memberList, s.memberList);
    }
  }

  // ---------------------------------------------------------------------
  // The per-tick pass: nodeLoopOps, nodeLoop
  // ---------------------------------------------------------------------

  /**
   * `nodeLoopOps`: bump the heartbeat, refresh the own entry, evict stale
   * entries, and gossip the whole remaining list, tagged HEARTBEAT, to
   * every live entry. The own entry must be present: the source
   * dereferences it unconditionally.
   */
  function Ops(s: NodeState, now: int, tfail: int, tcleanup: int): (NodeState, Gossip)
    requires HasSelf(s)
  {
    var heartbeat := s.heartbeat + 1;
    var kept := Survivors(Refresh(s.memberList, s.addr, heartbeat, now), now, tcleanup);
    (s.(heartbeat := heartbeat, memberList := kept),
     Gossip(LiveTargets(kept, now, tfail), Heartbeat(EncodeSnapshot(kept))))
  }

  /**
   * The per-tick pass bumps the heartbeat by exactly 1, changes nothing but
   * the heartbeat and the list, and, when `TCLEANUP > 0`, leaves the own
   * entry in the list carrying the new heartbeat, stamped `now`.
   */
  lemma OpsRefreshesSelf(s: NodeState, now: int, tfail: int, tcleanup: int)
    requires HasSelf(s) && UniqueKeys(s.memberList)
    ensures var t := Ops(s, now, tfail, tcleanup).0;
      && t.heartbeat == s.heartbeat + 1
      && t == s.(heartbeat := t.heartbeat, memberList := t.memberList)
      && (tcleanup > 0 ==>
            && HasSelf(t)
            && t.memberList[IndexOf(t.memberList, t.addr).value] == Entry(s.addr.id, s.addr.port, t.heartbeat, now))
  {
    if tcleanup > 0 {
      RefreshedSelfSurvives(s.memberList, s.addr, s.heartbeat + 1, now, tcleanup);
    }
  }

  /**
   * Eviction in the per-tick pass: an entry remains exactly when it was in
   * the refreshed list and is not stale, and the keys stay unique.
   */
  lemma OpsEvicts(s: NodeState, now: int, tfail: int, tcleanup: int)
    requires HasSelf(s) && UniqueKeys(s.memberList)
    ensures var t := Ops(s, now, tfail, tcleanup).0;
      var refreshed := Refresh(s.memberList, s.addr, s.heartbeat + 1, now);
      && (forall e :: e in t.memberList <==> e in refreshed && !Stale(e, now, tcleanup))
      && UniqueKeys(t.memberList)
  {
    var refreshed := Refresh(s.memberList, s.addr, s.heartbeat + 1, now);
    RefreshKeepsUniqueKeys(s.memberList, s.addr, s.heartbeat + 1, now);
    assert Ops(s, now, tfail, tcleanup).0.memberList == Survivors(refreshed, now, tcleanup);
    SurvivorsExact(refreshed, now, tcleanup);
    SurvivorsKeepUniqueKeys(refreshed, now, tcleanup);
  }

  /**
   * Fan-out in the per-tick pass: an address is a target exactly when a
   * live entry of the list left by eviction carries it, each target occurs
   * once, and the payload is that whole list, tagged HEARTBEAT.
   */
  lemma OpsFansOut(s: NodeState, now: int, tfail: int, tcleanup: int)
    requires HasSelf(s) && UniqueKeys(s.memberList)
    ensures var (t, g) := Ops(s, now, tfail, tcleanup);
      && (forall a :: a in g.targets <==>
            exists j :: 0 <= j < |t.memberList| && t.memberList[j].Key() == a && Live(t.memberList[j], now, tfail))
      && (forall k, l :: 0 <= k < l < |g.targets| ==> g.targets[k] != g.targets[l])
      && g.payload.Heartbeat? && DecodeSnapshot(g.payload.snapshot) == Some(t.memberList)
  {
    var (t, g) := Ops(s, now, tfail, tcleanup);
    OpsEvicts(s, now, tfail, tcleanup);
    forall a
      ensures a in g.targets <==>
              exists j :: 0 <= j < |t.memberList| && t.memberList[j].Key() == a && Live(t.memberList[j], now, tfail)
    {
      LiveTargetsExact(t.memberList, now, tfail, a);
    }
    assert UniqueKeys(t.memberList);
    assert g.targets == LiveTargets(t.memberList, now, tfail);
    LiveTargetsDistinct(t.memberList, now, tfail);
    SnapshotRoundTrip(t.memberList, []);
    assert EncodeSnapshot(t.memberList) + [] == EncodeSnapshot(t.memberList);
  }

  /**
   * `nodeLoop`: nothing when `bFailed`; otherwise drain the messages, then
   * run the per-tick pass if the node is in the group.
   */
  function Loop(s: NodeState, msgs: seq<Message>, now: int, tfail: int, tcleanup: int)
    : (NodeState, seq<Send>, LoopOutcome)
  {
    if s.failed then (s, [], Skipped)
    else
      var (t, replies) := Deliver(s, msgs, now);
      if !t.inGroup then (t, replies, Waiting)
      else if !HasSelf(t) then (t, replies, OwnEntryMissing)
      else
        var (u, gossip) := Ops(t, now, tfail, tcleanup);
        (u, replies, Gossiped(gossip))
  }

  /**
   * When `nodeLoop` runs the per-tick pass: never when `bFailed` (then it
   * does nothing at all), and otherwise exactly when the node was in the
   * group or drained a JOINREP, and has its own entry. A node that starts
   * the tick with its own entry still has it when the pass runs.
   */
  lemma LoopEffect(s: NodeState, msgs: seq<Message>, now: int, tfail: int, tcleanup: int)
    ensures var (t, replies, outcome) := Loop(s, msgs, now, tfail, tcleanup);
      && (s.failed ==> t == s && replies == [] && outcome == Skipped)
      && (!s.failed ==>
            (outcome.Waiting? <==> !s.inGroup && forall i :: 0 <= i < |msgs| ==> !msgs[i].JoinRep?))
      && (!s.failed && HasSelf(s) ==> !outcome.OwnEntryMissing?)
      && t.failed == s.failed && (s.inGroup ==> t.inGroup) && t.addr == s.addr
      && (UniqueKeys(s.memberList) ==> UniqueKeys(t.memberList))
      && (UniqueKeys(s.memberList) && HasSelf(s) && tcleanup > 0 ==> HasSelf(t))
  {
    if !s.failed {
      DeliverInGroup(s, msgs, now);
      DeliverKeepsEntries(s, msgs, now);
      var m := Deliver(s, msgs, now).0;
      if HasSelf(s) {
        assert IndexOf(m.memberList, m.addr) == IndexOf(s.memberList, s.addr);
      }
      if m.inGroup && HasSelf(m) && UniqueKeys(m.memberList) {
        OpsRefreshesSelf(m, now, tfail, tcleanup);
        OpsEvicts(m, now, tfail, tcleanup);
      }
    }
  }

  // ---------------------------------------------------------------------
  // Scenario: the join handshake
  // ---------------------------------------------------------------------

  /**
   * The introducer, holding only its own entry, receives a JOINREQ from
   * (2, 0) with heartbeat 0: it appends (2, 0) stamped `now` and replies to
   * (2, 0) with a JOINREP snapshot of both entries.
   */
  lemma IntroducerAdmits(s: NodeState, body: seq<byte>, t0: int, now: int)
    requires s.memberList == [Entry(1, 0, 0, t0)]
    requires DecodeJoinRequest(body) == Some(JoinRequest(Address(2, 0), 0))
    ensures var list := [Entry(1, 0, 0, t0), Entry(2, 0, 0, now)];
      Receive(s, JoinReq(body), now) ==
      Reaction(s.(memberList := list, nnb := s.nnb + 1), false,
               Some(Send(Address(2, 0), JoinRep(EncodeSnapshot(list)))))
  {
    var joiner := Address(2, 0);
    assert s.memberList[0].Key() != joiner;
    MergeUnknown(s.memberList, joiner, 0, now);
    var t := UpdateMember(s, joiner, 0, now);
    assert t == s.(memberList := [Entry(1, 0, 0, t0), Entry(2, 0, 0, now)], nnb := s.nnb + 1);
    assert HandleJoinRequest(s, body, now) == (t, Some(Send(joiner, JoinRep(EncodeSnapshot(t.memberList)))));
  }

  /**
   * A joiner with an empty list receives the JOINREP snapshot of (1, 0) and
   * (2, 0): it is in the group and holds both entries, stamped with its
   * own clock.
   */
  lemma JoinerAdmitted(s: NodeState, t0: int, t1: int, now: int)
    requires s.memberList == []
    ensures var list := [Entry(1, 0, 0, t0), Entry(2, 0, 0, t1)];
      var t := Receive(s, JoinRep(EncodeSnapshot(list)), now).state;
      t.inGroup && t.memberList == [Entry(1, 0, 0, now), Entry(2, 0, 0, now)]
  {
    var list := [Entry(1, 0, 0, t0), Entry(2, 0, 0, t1)];
    var ws := EncodeSnapshot(list);
    SnapshotRoundTrip(list, []);
    assert ws + [] == ws;
    var j := s.(inGroup := true);
    assert list[..1][..0] == [];
    assert MergeEntries(j, list[..1], now).memberList == [Entry(1, 0, 0, now)];
    assert list[..2] == list;
  }

  /**
   * The introducer (1, 0) and a joiner (2, 0) start at `t0`. The joiner's
   * JOINREQ reaches the introducer at `t1`, which adds (2, 0) with heartbeat
   * 0 and replies with both entries; the reply reaches the joiner at `t2`,
   * which is then in the group and knows both nodes.
   */
  lemma JoinHandshake(introducer: NodeState, joiner: NodeState, t0: int, t1: int, t2: int, pad: byte)
    requires introducer.addr == Address(1, 0) && joiner.addr == Address(2, 0)
    ensures var (i0, none) := Start(introducer, t0, pad);
      var (j0, request) := Start(joiner, t0, pad);
      && none.None? && request.Some? && request.value.to == i0.addr
      && var answer := Receive(i0, request.value.msg, t1);
      && answer.state.memberList == [Entry(1, 0, 0, t0), Entry(2, 0, 0, t1)]
      && answer.state.nnb == 2 && answer.state.inGroup
      && answer.reply.Some? && answer.reply.value.to == joiner.addr
      && var j1 := Receive(j0, answer.reply.value.msg, t2).state;
      && j1.inGroup
      && j1.memberList == [Entry(1, 0, 0, t2), Entry(2, 0, 0, t2)]
  {
    var (i0, _) := Start(introducer, t0, pad);
    var (j0, request) := Start(joiner, t0, pad);
    IntroducerStart(introducer, t0, pad);
    JoinerStart(joiner, t0, pad);
    IntroducerAdmits(i0, request.value.msg.body, t0, t1);
    JoinerAdmitted(j0, t0, t1, t2);
  }
}
