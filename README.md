# MP1Node membership protocol, modelled in Dafny

This project models the membership protocol that one node runs in
`MP1Node.cpp`. The node keeps a member list of `(id, port, heartbeat,
timestamp)` entries, its own heartbeat counter, the counter `nnb` and the
flags `inGroup` and `bFailed`. It changes them as follows:

- **Start-up.** `initThisNode` resets the node. In `introduceSelfToGroup`,
  the introducer `(1, 0)` then adds itself to its own list and is in the
  group at once. Every other node sends a JOINREQ to the introducer instead.
- **Merge.** Every JOINREQ, JOINREP and HEARTBEAT goes through one
  heartbeat-monotonic merge. An entry that is already known is refreshed only
  by a newer heartbeat. An unknown peer is appended and counted in `nnb`.
- **Dispatch.** `recvCallBack` dispatches on the message type. JOINREP is the
  only message that sets `inGroup`. A JOINREQ is answered with a JOINREP
  carrying the whole list.
- **Per-tick pass.** `nodeLoopOps` bumps the heartbeat and refreshes the
  node's own entry. It then evicts entries at least `TCLEANUP` old and sends the
  remaining list, tagged HEARTBEAT, to every entry younger than `TFAIL`.
  `nodeLoop` drains the queue first, and runs the pass only when the node has
  not failed and is in the group.

The project has six modules:

- `Wrappers` (wrappers.dfy) defines `Option`.
- `Membership` (membership.dfy) holds the member list as a sequence and the
  operations on it: search, merge, the merge of a whole snapshot, eviction
  and the fan-out set. The lemmas proved there are the list's invariants: key
  uniqueness, heartbeat monotonicity, idempotence, and what survives and what
  is targeted.
- `Wire` (wire.dfy) holds the message formats:
  - the 6-byte address buffer;
  - the JOINREQ body, with the address at offset 0, a pad byte at offset 6
    and the 8-byte heartbeat at offset 7, in little-endian two's complement;
  - the snapshot, a count followed by that many four-field entries.

  It proves that decoding an encoding gives back what was encoded.
- `Protocol` (protocol.dfy) is the node's state machine on values. It has
  start-up, one function per message kind, the per-tick pass and `nodeLoop`,
  with lemmas for each step and for the join handshake between an introducer
  and a joiner.
- `Node` (node.dfy) is the class `MP1Node`. Its fields are updated in place
  by methods with the source's loops: the search loops, the append, the
  buffer fill, the queue drain, the eviction scan and the send loop. Each
  method is proved to leave exactly the state, and return exactly the
  messages, that the matching `Protocol` function gives. So every lemma of
  `Protocol` and `Membership` holds of the class.
- `Findings` (findings.dfy) models the eviction loop as written, reading the
  invalidated iterator as a pointer to the next slot, as common
  implementations do; the C++ standard leaves this undefined. It shows two
  inputs on which the loop goes wrong.

Inputs the node gets from outside are parameters:

- the clock `par->getcurrtime()` is `now`;
- `TFAIL` and `TCLEANUP` are `tfail` and `tcleanup`;
- the queued messages are a sequence of `Message` values;
- the uninitialised pad byte of a JOINREQ is `pad`.

Messages the node sends are returned as `Send` values, and the per-tick
gossip as a `Gossip` value (targets and payload).

Two behaviours of the code are kept as written:

- The loop of `updateMembers` runs while `i < count`, so a non-positive
  count gives no entries (MP1Node.cpp:415).
- `updateMembers` reads only the entries its count announces, so words after
  them are ignored.
- A JOINREP sets `inGroup` even when its snapshot cannot be read, because the
  flag is set before `updateMembers` runs (MP1Node.cpp:240-241).

The start-up and loop steps follow the code line by line:

- `initThisNode` clears `bFailed`, sets `inited`, clears `inGroup`, zeroes
  `nnb` and the heartbeat and empties the list (MP1Node.cpp:104-112);
- `nodeLoop` returns at once when `bFailed` is set, and skips `nodeLoopOps`
  when the node is not in the group (MP1Node.cpp:186-197);
- `checkMessages` pops each queued message and hands it to `recvCallBack` in
  arrival order (MP1Node.cpp:213-219).

The model departs from the code only where the code's behaviour is
undefined. Payloads too short for what is read from them are dropped, and
the eviction scan is the intended one (see "## Left out" and "## Findings").

## Model

| member | source | states |
|---|---|---|
| Membership.IndexOf | MP1Node.cpp:353-362 | the search finds the first entry with the given (id, port); it finds nothing exactly when no entry has that key |
| Membership.MergeExisting | MP1Node.cpp:353-361 | for a known peer in a list with unique keys, only that entry changes, to (id, port, heartbeat, now), and only if the incoming heartbeat is greater; otherwise the list is unchanged |
| Membership.MergeUnknown | MP1Node.cpp:364-366 | for an unknown peer, exactly one entry (id, port, heartbeat, now) is appended at the end and the existing entries are untouched |
| Membership.MergeMonotone | MP1Node.cpp:353-370 | a merge grows the list by at most one; every existing entry keeps its key and never loses heartbeat; an entry that changed has a strictly greater heartbeat and timestamp now |
| Membership.MergeKeepsUniqueKeys | MP1Node.cpp:349-370 | a merge preserves uniqueness of (id, port) keys |
| Membership.MergeDominates | MP1Node.cpp:349-370 | after a merge, every key known before is still known at the same position with a heartbeat at least as high; the merged peer is known with at least the incoming heartbeat |
| Membership.MergeAllCovers | MP1Node.cpp:415-440 | after merging a snapshot, every incoming entry's key is known with at least its heartbeat, and every previously known key keeps its position, with a heartbeat at least as high |
| Membership.MergeAllFixpoint | MP1Node.cpp:415-440 | merging a snapshot whose keys are all known with heartbeats at least as high changes nothing |
| Membership.MergeAllIdempotent | MP1Node.cpp:415-440 | merging the same snapshot a second time, at any time, gives the list the first merge gave |
| Membership.MergeAllKeepsUniqueKeys | MP1Node.cpp:415-440 | merging any snapshot, even one that repeats a key, preserves uniqueness of keys |
| Membership.MergeAllGrows | MP1Node.cpp:415-440 | merging a snapshot adds at most one entry per incoming entry and removes none |
| Membership.SurvivorsExact | MP1Node.cpp:280-286 | an entry is in the list after eviction exactly when it was in it before and `now < timestamp + tcleanup` |
| Membership.SurvivorsOrder | MP1Node.cpp:280-286 | eviction keeps exactly the non-stale positions of the list, in their original relative order |
| Membership.SurvivorsKeepUniqueKeys | MP1Node.cpp:280-286 | eviction preserves uniqueness of keys |
| Membership.RefreshedSelfSurvives | MP1Node.cpp:275-286 | with `tcleanup > 0`, the node's own entry, just refreshed to (id, port, heartbeat, now), survives the eviction |
| Membership.RefreshKeepsUniqueKeys | MP1Node.cpp:275-276 | stamping the own entry changes no key, so keys stay unique |
| Membership.LiveTargetsOrder | MP1Node.cpp:293-299 | the targets are the addresses of exactly the entries with `now - timestamp < tfail`, in list order |
| Membership.LiveTargetsExact | MP1Node.cpp:293-299 | an address is a target if and only if some entry with that key is live |
| Membership.LiveTargetsDistinct | MP1Node.cpp:293-299 | with unique keys, no peer is sent the heartbeat twice |
| Membership.SuspectedKeptNotTargeted | MP1Node.cpp:280-299 | an entry past `tfail` but not past `tcleanup` stays in the list but is not a gossip target |
| Wire.LittleEndianRoundTrip | MP1Node.cpp:149-150 | reading back the little-endian bytes of an unsigned value gives the value |
| Wire.SignedRoundTrip | MP1Node.cpp:150 | reading back the two's-complement bytes of a signed value that fits gives the value |
| Wire.AddressRoundTrip | MP1Node.cpp:134-135 | reading the id at byte 0 and the port at byte 4 of an address buffer gives back the address written into it |
| Wire.AddressBytesInjective | MP1Node.cpp:128 | two address buffers are byte-equal exactly when the addresses are equal, so the `memcmp` role test is a comparison of (id, port) |
| Wire.EncodeJoinRequest | MP1Node.cpp:144-150 | a JOINREQ body is 15 bytes: the address bytes at offset 0, the pad byte at offset 6 and the 8-byte heartbeat at offset 7 |
| Wire.DecodeJoinRequest | MP1Node.cpp:397-398 | a body is readable exactly when it holds at least 15 bytes, and then yields an address and a heartbeat in range |
| Wire.JoinRequestRoundTrip | MP1Node.cpp:397-398 | the receiver reads at offsets 0 and 7 what the sender wrote there, whatever follows the body |
| Wire.JoinRequestIgnoresPad | MP1Node.cpp:398 | the pad byte does not affect what the receiver reads |
| Wire.Flatten | MP1Node.cpp:386-389 | the entries take four words each |
| Wire.EncodeSnapshot | MP1Node.cpp:375-391 | the snapshot is the count `memberList.size()` followed by four words per entry |
| Wire.DecodeSnapshot | MP1Node.cpp:413-415 | a payload is dropped exactly when it is empty or shorter than its positive count needs; otherwise it yields max(count, 0) entries |
| Wire.SnapshotRoundTrip | MP1Node.cpp:383-389 | decoding an encoded list, empty or not, gives back the list in order, whatever words follow it |
| Protocol.JoinAddress | MP1Node.cpp:318-326 | the coordinator address (1, 0) fits the 6-byte address buffer |
| Protocol.IntroducerStart | MP1Node.cpp:128-141 | the introducer starts with its list equal to its own entry with heartbeat 0, `nnb` equal to 1, in the group, not failed and sending nothing |
| Protocol.StartInvariant | MP1Node.cpp:69-90 | start-up keeps the address and leaves a list with unique keys, which holds the node's own entry exactly when the node is the introducer |
| Protocol.JoinerStart | MP1Node.cpp:143-158 | any other node starts with an empty list, `nnb` 0 and out of the group, and sends one JOINREQ to (1, 0) from which the receiver reads its address and heartbeat 0 |
| Protocol.MergeEntriesIsMergeAll | MP1Node.cpp:415-440 | merging the entries one by one into the node is the list fold; `nnb` grows by the number of entries appended and no other field changes |
| Protocol.UpdateMembersIdempotent | MP1Node.cpp:410-441 | applying the same snapshot twice leaves the node as applying it once |
| Protocol.UpdateMembersKeepsEntries | MP1Node.cpp:410-441 | merging a snapshot, readable or not, never makes a known peer unknown, moves it or lowers its heartbeat, and keeps keys unique |
| Protocol.UpdateMemberRecords | MP1Node.cpp:349-371 | merging one peer into the node records it with at least the given heartbeat, keeps every known peer with no lower heartbeat, and keeps keys unique |
| Protocol.HandleJoinRequestReplies | MP1Node.cpp:393-408 | an unreadable JOINREQ changes nothing and gets no reply; a readable one records the sender with at least its heartbeat, keeps every known peer, counts the sender in `nnb` exactly when it was unknown, changes nothing else, and gets a JOINREP to the sender whose snapshot decodes to exactly the new list |
| Protocol.ReceiveEffect | MP1Node.cpp:228-250 | only JOINREP sets `inGroup` and nothing clears it; the address, heartbeat and `bFailed` never change; only an unknown tag returns true, and it changes nothing; only a JOINREQ yields a reply |
| Protocol.ReceiveKeepsEntries | MP1Node.cpp:235-245 | no message makes a known peer unknown, moves it or lowers its heartbeat, and every message preserves key uniqueness |
| Protocol.DeliverInGroup | MP1Node.cpp:209-221 | after draining a queue, the node is in the group exactly when it was before or some message was a JOINREP |
| Protocol.DeliverKeepsEntries | MP1Node.cpp:209-221 | draining a queue keeps the address, heartbeat and `bFailed`, makes no known peer unknown and keeps keys unique |
| Protocol.OpsRefreshesSelf | MP1Node.cpp:264-276 | the per-tick pass raises the heartbeat by exactly 1, changes nothing but the heartbeat and the list, and with `tcleanup > 0` leaves the own entry at (id, port, new heartbeat, now) |
| Protocol.OpsEvicts | MP1Node.cpp:278-286 | after the pass, the list holds exactly the refreshed entries that are not stale, with unique keys |
| Protocol.OpsFansOut | MP1Node.cpp:288-299 | the targets are exactly the live entries of the evicted list, each once; the payload is a HEARTBEAT that decodes to the whole evicted list |
| Protocol.LoopEffect | MP1Node.cpp:185-202 | a failed node is left unchanged and sends nothing; otherwise the pass is skipped exactly when the node was not in the group and got no JOINREP; with its own entry present, the own entry is never reported missing; the address never changes; key uniqueness is kept, and with unique keys and `tcleanup > 0` the own entry is still present after the tick |
| Protocol.IntroducerAdmits | MP1Node.cpp:393-408 | an introducer whose list is just itself admits a JOINREQ from (2, 0): both entries are in its list, `nnb` rises by 1, and the reply to (2, 0) is a JOINREP with that list |
| Protocol.JoinerAdmitted | MP1Node.cpp:239-241 | a joiner with an empty list that gets that JOINREP is in the group and knows both nodes, stamped with the time it received it |
| Protocol.JoinHandshake | MP1Node.cpp:122-165 | introducer (1, 0) and joiner (2, 0) start; the JOINREQ and the JOINREP between them leave both in the group, the introducer with `nnb` 2 and each knowing both nodes, and the reply addressed to the joiner |
| Node.MP1Node.constructor | MP1Node.cpp:21-30 | the node holds the given address and cleared fields |
| Node.MP1Node.InitThisNode | MP1Node.cpp:97-115 | the fields become those of `Protocol.Init`: up, not failed, out of the group, heartbeat 0, `nnb` 0, empty list |
| Node.MP1Node.IntroduceSelfToGroup | MP1Node.cpp:122-165 | comparing the address bytes, the node takes the introducer or joiner branch of `Protocol.Introduce`: same new fields, same JOINREQ |
| Node.MP1Node.NodeStart | MP1Node.cpp:69-90 | initialisation then introduction to (1, 0), as `Protocol.Start` |
| Node.MP1Node.UpdateMember | MP1Node.cpp:349-371 | the search loop with its break and the append leave the fields of `Protocol.UpdateMember` |
| Node.MP1Node.UpdateMembers | MP1Node.cpp:410-441 | the count-driven loop leaves the fields of `Protocol.UpdateMembers` |
| Node.MP1Node.SerializeMemberList | MP1Node.cpp:375-391 | the buffer filled entry by entry is exactly the snapshot encoding of the list |
| Node.CopyEntry | MP1Node.cpp:387-388 | copying one entry writes its four fields at the given word and leaves the words before it as they were |
| Node.MP1Node.HandleMemberJoinRequest | MP1Node.cpp:393-408 | the fields and the JOINREP reply of `Protocol.HandleJoinRequest` |
| Node.MP1Node.RecvCallBack | MP1Node.cpp:228-250 | the fields, the returned flag and the reply of `Protocol.Receive` |
| Node.MP1Node.CheckMessages | MP1Node.cpp:209-221 | draining the queue leaves the fields and returns the replies of `Protocol.Deliver` |
| Node.MP1Node.FindSelf | MP1Node.cpp:266-273 | the search loop finds the first entry with the node's own address, or none |
| Node.MP1Node.RefreshSelf | MP1Node.cpp:264-276 | the heartbeat rises by 1 and the own entry takes that heartbeat and the current time; nothing else changes |
| Node.MP1Node.EvictStale | MP1Node.cpp:278-286 | the compaction scan over a copy of the list leaves the list equal to its non-stale entries in order, and no other field changes |
| Node.MP1Node.GossipTargets | MP1Node.cpp:293-299 | the send loop's destinations are exactly the live entries' addresses, in list order |
| Node.MP1Node.NodeLoopOps | MP1Node.cpp:259-302 | the heartbeat bump, refresh, eviction and send loop leave the fields and the gossip of `Protocol.Ops` |
| Node.MP1Node.NodeLoop | MP1Node.cpp:185-202 | the fields, replies and outcome of `Protocol.Loop` |
| Findings.EvictAsWritten | MP1Node.cpp:280-286 | the iterator loop as written either runs past the end or leaves a list no longer than the original |
| Findings.EvictAsWrittenNothingStale | MP1Node.cpp:280-286 | when nothing from the current position on is stale, the loop as written keeps the list, as intended |
| Findings.StaleNeighbourSurvives | MP1Node.cpp:280-286 | on the two stale entries (2,0,1,0), (3,0,1,0) at now 20 with TCLEANUP 20, the loop as written keeps the second one, while the intended scan keeps none |
| Findings.StaleLastRunsPastEnd | MP1Node.cpp:280-286 | on the fresh entry (1,0,5,15) followed by the stale entry (2,0,1,0) at now 20 with TCLEANUP 20, the loop as written visits and erases the last entry and increments the iterator past `end()`, while the intended scan keeps the first entry |

## Findings

| source | as written | input that shows it | evidently intended | confidence | as-written member | corrected member |
|---|---|---|---|---|---|---|
| MP1Node.cpp:280-286 | `erase(iterator)` inside the loop, then `++iterator` on the invalidated iterator, which is undefined; read as a pointer to the next slot, as common implementations do, the entry after each removed one is skipped, and removing the last entry visited moves the iterator past `end()` | list [(2,0,1,0), (3,0,1,0)] at now 20 with TCLEANUP 20 keeps (3,0,1,0), which is stale; list [(1,0,5,15), (2,0,1,0)] at the same time runs past the end | remove every stale entry and keep the rest in order ("Remove stale member", MP1Node.cpp:278) | high, not executed | Findings.EvictAsWritten | Node.MP1Node.EvictStale |

## Left out

- The transport (`ENsend`, `ENrecv`, `recvLoop`, `enqueueWrapper`) and the `mp1q` queue are left out because they are I/O. Received messages are a sequence input, and sends are returned values.
- Logging (`logNodeAdd`, `logNodeRemove`, `LOG`), `printAddress` and the `exit(1)` paths of `nodeStart` are left out: they are side effects or process control. Both `initThisNode` and `introduceSelfToGroup` always succeed.
- `addressMap` is left out because it is written but never read.
- `finishUpThisNode`, `isNullAddress` and `initMemberListTable` are not modelled separately: the first two are stubs or unused, and the empty list of `Protocol.Init` is the third.
- The byte-exact layout of `MemberListEntry` and `MessageHdr` is not modelled, because it depends on a header that is not part of this model. The snapshot is modelled as words, and the message type as a datatype tag.
- Addresses are compared as (id, port) pairs. The source looks up the own entry and the gossip targets through `Address(to_string(id) + ":" + to_string(port))` (MP1Node.cpp:268-269, 297). The model assumes that this constructor, declared in a header that is not part of this model, turns "id:port" back into the same six address bytes.
- `pingCounter` and `timeOutCounter` are left out: no modelled operation reads them.
- Node.MP1Node.UpdateMember: `heartbeat` is unbounded. The `long` overflow of the heartbeat and the 32-bit truncation of `size` and of the decoded count are not modelled.
- Node.MP1Node.UpdateMembers: a payload shorter than its count is dropped without a merge. The source reads past the buffer there, so its behaviour is undefined.
- Node.MP1Node.HandleMemberJoinRequest: a JOINREQ body shorter than 15 bytes is dropped with no merge and no reply. The source reads past the buffer there.
- Node.MP1Node.UpdateMembers calls `UpdateMember` on each entry. The source repeats the same search and append inline (MP1Node.cpp:420-439), with the same effect.
- Node.MP1Node.NodeLoop: when the node is in the group but its own entry is missing, `nodeLoopOps` would dereference a null pointer. The model returns the outcome `OwnEntryMissing` instead, and `Node.MP1Node.NodeLoopOps` requires the own entry to be present.
- Node.MP1Node.constructor: the source takes an existing `Member` object and sets only its address. The model starts the other fields cleared.
- Protocol.ReceiveEffect ignores the handler's arguments `env` and `size`, because the handlers never read them.
- Multi-node behaviour is out of scope: convergence, message loss and concurrency belong to the simulation around the node. `Protocol.JoinHandshake` covers only the two-node join.
