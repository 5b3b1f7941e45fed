/**
 * The `MP1Node` class: the fields of `memberNode` updated in place by the
 * methods of MP1Node.cpp, with the same loops. Every method is proved to
 * leave the node in the state the matching function of `Protocol` gives,
 * so the lemmas proved there hold of the class.
 */
module Node {
  import opened Wrappers
  import opened Membership
  import opened Wire
  import opened Protocol

  /** The `memcpy` of one entry into the snapshot buffer at word `k` (MP1Node.cpp:387-388). */
  method CopyEntry(buffer: array<int>, k: nat, e: Entry)
    requires k + ENTRY_WORDS <= buffer.Length
    modifies buffer
    ensures forall j :: 0 <= j < k ==> buffer[j] == old(buffer[j])
    ensures forall j :: k <= j < k + ENTRY_WORDS ==> buffer[j] == EntryWords(e)[j - k]
  {
    buffer[k] := e.id;
    buffer[k + 1] := e.port;
    buffer[k + 2] := e.heartbeat;
    buffer[k + 3] := e.timestamp;
  }

  class MP1Node {
    /** `memberNode->addr`, set once by the constructor. */
    const addr: Address
    var inited: bool
    /** `memberNode->bFailed`. */
    var failed: bool
    var inGroup: bool
    var nnb: int
    var heartbeat: int
    /** `memberNode->memberList`, a vector the methods search, update, append to and erase from. */
    var memberList: seq<Entry>

    /** The node's fields as one value. */
    function State(): NodeState
      reads this
    {
      NodeState(addr, inited, failed, inGroup, nnb, heartbeat, memberList)
    }

    /** The node at `address`, every other field cleared, as before `initThisNode`. */
    constructor (address: Address)
      ensures State() == NodeState(address, false, false, false, 0, 0, [])
    {
      addr := address;
      inited, failed, inGroup := false, false, false;
      nnb, heartbeat := 0, 0;
      memberList := [];
    }

    /** `initThisNode` (MP1Node.cpp:97-115). */
    method InitThisNode()
      modifies this
      ensures State() == Init(old(State()))
    {
      failed := false;
      inited := true;
      inGroup := false;
      nnb := 0;
      heartbeat := 0;
      memberList := [];
    }

    /**
     * `introduceSelfToGroup` (MP1Node.cpp:122-165). The role is chosen by
     * comparing the six address bytes, as `memcmp` does.
     */
    method IntroduceSelfToGroup(joinAddr: Address, now: int, pad: byte) returns (send: Option<Send>)
      requires FitsAddress(addr) && FitsAddress(joinAddr)
      requires addr != joinAddr ==> FitsSigned(heartbeat, LONG_SIZE)
      modifies this
      ensures (State(), send) == Introduce(old(State()), joinAddr, now, pad)
    {
      AddressBytesInjective(addr, joinAddr);
      if EncodeAddress(addr) == EncodeAddress(joinAddr) {
        nnb := nnb + 1;
        memberList := memberList + [Entry(addr.id, addr.port, heartbeat, now)];
        inGroup := true;
        send := None;
      } else {
        var msg := EncodeJoinRequest(addr, heartbeat, pad);
        send := Some(Send(joinAddr, JoinReq(msg)));
      }
    }

    /** `nodeStart` (MP1Node.cpp:69-90): initialise, then introduce to `getJoinAddress()`. */
    method NodeStart(now: int, pad: byte) returns (send: Option<Send>)
      requires FitsAddress(addr)
      modifies this
      ensures (State(), send) == Start(old(State()), now, pad)
    {
      var joinAddr := JoinAddress();
      InitThisNode();
      send := IntroduceSelfToGroup(joinAddr, now, pad);
    }

    /**
     * `updateMember` (MP1Node.cpp:349-371): search for the peer's entry;
     * refresh it if the heartbeat is newer, otherwise append the peer.
     */
    method UpdateMember(memberAddr: Address, peerHeartbeat: int, now: int)
      modifies this
      ensures State() == Protocol.UpdateMember(old(State()), memberAddr, peerHeartbeat, now)
    {
      var isNewMember := true;
      var i := 0;
      while i < |memberList|
        invariant 0 <= i <= |memberList|
        invariant State() == old(State()) && isNewMember
        invariant forall j :: 0 <= j < i ==> memberList[j].Key() != memberAddr
      {
        if memberList[i].id == memberAddr.id && memberList[i].port == memberAddr.port {
          isNewMember := false;
          IndexOfFirst(memberList, memberAddr, i);
          if memberList[i].heartbeat < peerHeartbeat {
            memberList := memberList[i := memberList[i].(heartbeat := peerHeartbeat, timestamp := now)];
          }
          break;
        }
        i := i + 1;
      }
      if isNewMember {
        memberList := memberList + [Entry(memberAddr.id, memberAddr.port, peerHeartbeat, now)];
        nnb := nnb + 1;
      }
    }

    /**
     * `updateMembers` (MP1Node.cpp:410-441): read the count, then merge each
     * of that many entries in order. A payload too short for its count is
     * dropped.
     */
    method UpdateMembers(content: seq<int>, now: int)
      modifies this
      ensures State() == Protocol.UpdateMembers(old(State()), content, now)
    {
      if |content| == 0 {
        return;
      }
      var count := content[0];
      if count > 0 && |content| - 1 < ENTRY_WORDS * count {
        return;
      }
      ghost var incoming := DecodeSnapshot(content).value;
      var i := 0;
      while i < count
        invariant 0 <= i <= if count > 0 then count else 0
        invariant |incoming| == if count > 0 then count else 0
        invariant State() == MergeEntries(old(State()), incoming[..i], now)
      {
        var entry := RecordAt(content[1..], i);
        assert entry == incoming[i];
        assert incoming[..i + 1][..i] == incoming[..i];
        UpdateMember(entry.Key(), entry.heartbeat, now);
        i := i + 1;
      }
      assert incoming[..i] == incoming;
    }

    /**
     * `serializeMemberList` (MP1Node.cpp:375-391): a buffer holding the
     * count, then every entry in list order.
     */
    method SerializeMemberList() returns (words: seq<int>)
      ensures words == EncodeSnapshot(memberList)
    {
      var list := memberList;
      ghost var snapshot := EncodeSnapshot(list);
      var size := |list|;
      var buffer := new int[1 + ENTRY_WORDS * size];
      buffer[0] := size;
      var i, k := 0, 1;
      while i < size
        invariant 0 <= i <= size
        invariant k == 1 + ENTRY_WORDS * i && k + ENTRY_WORDS * (size - i) == buffer.Length
        invariant forall j :: 0 <= j < k ==> buffer[j] == snapshot[j]
      {
        CopyEntry(buffer, k, list[i]);
        forall j | k <= j < k + ENTRY_WORDS
          ensures buffer[j] == snapshot[j]
        {
          FlattenAt(list, i, j - k);
          assert snapshot[j] == Flatten(list)[ENTRY_WORDS * i + (j - k)];
        }
        i, k := i + 1, k + ENTRY_WORDS;
      }
      assert buffer[..] == snapshot;
      words := buffer[..];
    }

    /**
     * `handleMemberJoinRequest` (MP1Node.cpp:393-408): merge the sender,
     * then reply to it with a JOINREP snapshot.
     */
    method HandleMemberJoinRequest(body: seq<byte>, now: int) returns (reply: Option<Send>)
      modifies this
      ensures (State(), reply) == HandleJoinRequest(old(State()), body, now)
    {
      var request := DecodeJoinRequest(body);
      if request.None? {
        return None;
      }
      UpdateMember(request.value.from, request.value.heartbeat, now);
      var words := SerializeMemberList();
      reply := Some(Send(request.value.from, JoinRep(words)));
    }

    /** `recvCallBack` (MP1Node.cpp:228-250): dispatch on the message type. */
    method RecvCallBack(msg: Message, now: int) returns (unknown: bool, reply: Option<Send>)
      modifies this
      ensures Reaction(State(), unknown, reply) == Receive(old(State()), msg, now)
    {
      unknown, reply := false, None;
      match msg
      case JoinReq(body) =>
        reply := HandleMemberJoinRequest(body, now);
      case JoinRep(snapshot) =>
        inGroup := true;
        UpdateMembers(snapshot, now);
      case Heartbeat(snapshot) =>
        UpdateMembers(snapshot, now);
      case Other(_) =>
        unknown := true;
    }

    /**
     * `checkMessages` (MP1Node.cpp:209-221): handle every queued message in
     * arrival order; the replies are returned in that order.
     */
    method CheckMessages(msgs: seq<Message>, now: int) returns (replies: seq<Send>)
      modifies this
      ensures (State(), replies) == Deliver(old(State()), msgs, now)
    {
      replies := [];
      var i := 0;
      while i < |msgs|
        invariant 0 <= i <= |msgs|
        invariant (State(), replies) == Deliver(old(State()), msgs[..i], now)
      {
        ghost var before, earlier := State(), replies;
        DeliverStep(old(State()), msgs, i, now);
        var _, reply := RecvCallBack(msgs[i], now);
        ghost var r := Receive(before, msgs[i], now);
        assert State() == r.state && reply == r.reply;
        if reply.Some? {
          replies := replies + [reply.value];
        }
        assert replies == earlier + if r.reply.Some? then [r.reply.value] else [];
        i := i + 1;
      }
      assert msgs[..i] == msgs;
    }

    /** The search for the node's own entry in `nodeLoopOps` (MP1Node.cpp:266-273). */
    method FindSelf() returns (index: Option<nat>)
      ensures index == IndexOf(memberList, addr)
    {
      index := None;
      var i := 0;
      while i < |memberList|
        invariant 0 <= i <= |memberList|
        invariant forall j :: 0 <= j < i ==> memberList[j].Key() != addr
      {
        if memberList[i].Key() == addr {
          IndexOfFirst(memberList, addr, i);
          index := Some(i);
          return;
        }
        i := i + 1;
      }
    }

    /**
     * The start of `nodeLoopOps` (MP1Node.cpp:264-276): bump the heartbeat,
     * then stamp the own entry with it and with the current time.
     */
    method RefreshSelf(now: int)
      requires HasSelf(State())
      modifies this
      ensures State() == old(State()).(heartbeat := old(heartbeat) + 1,
                                       memberList := Refresh(old(memberList), addr, old(heartbeat) + 1, now))
    {
      heartbeat := heartbeat + 1;
      var self := FindSelf();
      var i := self.value;
      memberList := memberList[i := memberList[i].(timestamp := now, heartbeat := heartbeat)];
    }

    /**
     * The eviction scan of `nodeLoopOps` (MP1Node.cpp:278-286), as intended:
     * each entry is visited once, and the ones that are not stale are moved
     * down over the removed ones, keeping their order.
     *
     * The source instead calls `erase` on the vector inside the iterator
     * loop and then advances the invalidated iterator. That is undefined;
     * read as a pointer to the next slot, it skips the entry that follows
     * each removed one and runs past the end when the last entry visited is
     * removed. `EvictAsWritten` in findings.dfy models that reading.
     */
    method EvictStale(now: int, tcleanup: int)
      modifies this
      ensures State() == old(State()).(memberList := Survivors(old(memberList), now, tcleanup))
    {
      var list := memberList;
      var kept := 0;
      var i := 0;
      while i < |list|
        invariant 0 <= kept <= i <= |list| == |memberList|
        invariant list[..kept] == Survivors(memberList[..i], now, tcleanup)
        invariant list[i..] == memberList[i..]
        invariant State() == old(State())
      {
        SurvivorsStep(memberList, i, now, tcleanup);
        ghost var before := list;
        assert before[i] == memberList[i];
        if !Stale(list[i], now, tcleanup) {
          list := list[kept := list[i]];
          assert list[..kept + 1] == before[..kept] + [memberList[i]];
          kept := kept + 1;
        }
        assert list[i + 1..] == before[i..][1..];
        i := i + 1;
      }
      assert memberList[..i] == memberList;
      assert list[..kept] == Survivors(memberList, now, tcleanup);
      memberList := list[..kept];
    }

    /** The send loop of `nodeLoopOps` (MP1Node.cpp:293-299): every live entry's address, in order. */
    method GossipTargets(now: int, tfail: int) returns (targets: seq<Address>)
      ensures targets == LiveTargets(memberList, now, tfail)
    {
      targets := [];
      var i := 0;
      while i < |memberList|
        invariant 0 <= i <= |memberList|
        invariant targets == LiveTargets(memberList[..i], now, tfail)
      {
        assert memberList[..i + 1][..i] == memberList[..i];
        var entry := memberList[i];
        if now - entry.timestamp < tfail {
          targets := targets + [entry.Key()];
        }
        i := i + 1;
      }
      assert memberList[..i] == memberList;
    }

    /**
     * `nodeLoopOps` (MP1Node.cpp:259-302): bump the heartbeat, refresh the
     * own entry, evict stale entries, and return the HEARTBEAT snapshot with
     * the peers it is sent to. The own entry must be present: the source
     * dereferences the result of its search unconditionally.
     */
    method NodeLoopOps(now: int, tfail: int, tcleanup: int) returns (gossip: Gossip)
      requires HasSelf(State())
      modifies this
      ensures (State(), gossip) == Ops(old(State()), now, tfail, tcleanup)
    {
      RefreshSelf(now);
      EvictStale(now, tcleanup);
      var words := SerializeMemberList();
      var targets := GossipTargets(now, tfail);
      gossip := Gossip(targets, Heartbeat(words));
    }

    /**
     * `nodeLoop` (MP1Node.cpp:185-202): nothing when failed; otherwise drain
     * the messages and, once in the group, run the per-tick pass. Where the
     * source would dereference a missing own entry, the outcome says so.
     */
    method NodeLoop(msgs: seq<Message>, now: int, tfail: int, tcleanup: int)
      returns (replies: seq<Send>, outcome: LoopOutcome)
      modifies this
      ensures (State(), replies, outcome) == Loop(old(State()), msgs, now, tfail, tcleanup)
    {
      if failed {
        return [], Skipped;
      }
      replies := CheckMessages(msgs, now);
      if !inGroup {
        return replies, Waiting;
      }
      var self := FindSelf();
      if self.None? {
        return replies, OwnEntryMissing;
      }
      var gossip := NodeLoopOps(now, tfail, tcleanup);
      outcome := Gossiped(gossip);
    }
  }
}
