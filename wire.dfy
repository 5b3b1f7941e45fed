/**
 * The payloads the node writes and reads.
 *
 * A JOINREQ payload is modelled byte for byte, because its layout is fixed
 * by the source's offset arithmetic: the 6-byte address (a 4-byte id, then
 * a 2-byte port) at offset 0, one byte that is never written, then the
 * 8-byte heartbeat at offset 7 (MP1Node.cpp:144-150, 397-398). Integers are
 * stored little-endian in two's complement, as `memcpy` leaves them on the
 * platforms the program targets.
 *
 * A snapshot payload (JOINREP and HEARTBEAT) is modelled one field per
 * word: the entry count, then four words per entry (id, port, heartbeat,
 * timestamp), in list order (MP1Node.cpp:375-391, 410-415). The byte size
 * of an entry depends on a header this model does not include.
 */
module Wire {
  import opened Wrappers
  import opened Membership

  newtype byte = b: int | 0 <= b < 256

  /** Sizes in bytes of the C types the source copies: `int`, `short`, `long`. */
  const INT_SIZE: nat := 4
  const SHORT_SIZE: nat := 2
  const LONG_SIZE: nat := 8

  /** JOINREQ layout: `sizeof(addr.addr)` is 6, then a pad byte, then the heartbeat. */
  const ADDR_SIZE: nat := INT_SIZE + SHORT_SIZE
  const ID_OFFSET: nat := 0
  const PORT_OFFSET: nat := INT_SIZE
  const PAD_OFFSET: nat := ADDR_SIZE
  const HEARTBEAT_OFFSET: nat := 1 + ADDR_SIZE
  const JOINREQ_SIZE: nat := ADDR_SIZE + LONG_SIZE + 1

  /** Snapshot layout: one count word, then this many words per entry. */
  const ENTRY_WORDS: nat := 4

  /**
   * A message as the handler sees it: the `msgType` tag of the header and
   * the payload after it. `Other` is any tag the handler does not know,
   * including the temporary `UNKNOWN` that `serializeMemberList` writes.
   */
  datatype Message =
    | JoinReq(body: seq<byte>)
    | JoinRep(snapshot: seq<int>)
    | Heartbeat(snapshot: seq<int>)
    | Other(tag: int)

  /** A message handed to the transport for delivery to `to`. */
  datatype Send = Send(to: Address, msg: Message)

  // ---------------------------------------------------------------------
  // Little-endian two's-complement integers
  // ---------------------------------------------------------------------

  function Pow256(n: nat): (p: nat)
    ensures p >= 1
  {
    if n == 0 then 1 else 256 * Pow256(n - 1)
  }

  /** The smallest value an `n`-byte signed integer cannot hold. */
  function Half(n: nat): int
    requires n > 0
  {
    128 * Pow256(n - 1)
  }

  /** `x` fits in an `n`-byte signed C integer. */
  predicate FitsSigned(x: int, n: nat) {
    n > 0 && -Half(n) <= x < Half(n)
  }

  function LittleEndian(u: nat, n: nat): (bs: seq<byte>)
    requires u < Pow256(n)
    ensures |bs| == n
  {
    if n == 0 then [] else [(u % 256) as byte] + LittleEndian(u / 256, n - 1)
  }

  function FromLittleEndian(bs: seq<byte>): (u: nat)
    ensures u < Pow256(|bs|)
  {
    if bs == [] then 0 else bs[0] as nat + 256 * FromLittleEndian(bs[1..])
  }

  lemma {:induction false} LittleEndianRoundTrip(u: nat, n: nat)
    requires u < Pow256(n)
    ensures FromLittleEndian(LittleEndian(u, n)) == u
  {
    if n > 0 {
      var bs := LittleEndian(u, n);
      assert bs[1..] == LittleEndian(u / 256, n - 1);
      LittleEndianRoundTrip(u / 256, n - 1);
    }
  }

  /** The `n` bytes `memcpy` copies out of a signed integer of that width. */
  function EncodeSigned(x: int, n: nat): (bs: seq<byte>)
    requires FitsSigned(x, n)
    ensures |bs| == n
  {
    LittleEndian(if x < 0 then x + Pow256(n) else x, n)
  }

  /** The signed integer `memcpy` rebuilds from those bytes. */
  function DecodeSigned(bs: seq<byte>): (x: int)
    requires |bs| > 0
    ensures FitsSigned(x, |bs|)
  {
    var u := FromLittleEndian(bs);
    if u < Half(|bs|) then u else u - Pow256(|bs|)
  }

  lemma SignedRoundTrip(x: int, n: nat)
    requires FitsSigned(x, n)
    ensures DecodeSigned(EncodeSigned(x, n)) == x
  {
    LittleEndianRoundTrip(if x < 0 then x + Pow256(n) else x, n);
  }

  // ---------------------------------------------------------------------
  // Addresses and the JOINREQ payload
  // ---------------------------------------------------------------------

  /** The id fits the source's `int` and the port its `short`. */
  predicate FitsAddress(a: Address) {
    FitsSigned(a.id, INT_SIZE) && FitsSigned(a.port, SHORT_SIZE)
  }

  /** The `addr[6]` buffer: `*(int*)&addr[0] = id`, `*(short*)&addr[4] = port`. */
  function EncodeAddress(a: Address): (bs: seq<byte>)
    requires FitsAddress(a)
    ensures |bs| == ADDR_SIZE
  {
    EncodeSigned(a.id, INT_SIZE) + EncodeSigned(a.port, SHORT_SIZE)
  }

  function DecodeAddress(bs: seq<byte>): (a: Address)
    requires |bs| >= ADDR_SIZE
    ensures FitsAddress(a)
  {
    Address(DecodeSigned(bs[ID_OFFSET..ID_OFFSET + INT_SIZE]),
            DecodeSigned(bs[PORT_OFFSET..PORT_OFFSET + SHORT_SIZE]))
  }

  /** The fields of a JOINREQ: the sender's address and heartbeat. */
  datatype JoinRequest = JoinRequest(from: Address, heartbeat: int)

  /**
   * The JOINREQ payload of `introduceSelfToGroup`: the address at offset 0,
   * the heartbeat at offset 7. The byte at offset 6 is never written by
   * the source (the buffer comes from `malloc`), so it is a parameter.
   */
  function EncodeJoinRequest(from: Address, heartbeat: int, pad: byte): (bs: seq<byte>)
    requires FitsAddress(from) && FitsSigned(heartbeat, LONG_SIZE)
    ensures |bs| == JOINREQ_SIZE
    ensures bs[PAD_OFFSET] == pad
    ensures bs[ID_OFFSET..ID_OFFSET + ADDR_SIZE] == EncodeAddress(from)
    ensures bs[HEARTBEAT_OFFSET..HEARTBEAT_OFFSET + LONG_SIZE] == EncodeSigned(heartbeat, LONG_SIZE)
  {
    EncodeAddress(from) + [pad] + EncodeSigned(heartbeat, LONG_SIZE)
  }

  /**
   * `handleMemberJoinRequest`'s reading of a JOINREQ payload, from the same
   * offsets. A payload too short to hold both fields is malformed.
   */
  function DecodeJoinRequest(bs: seq<byte>): (r: Option<JoinRequest>)
    ensures r.Some? <==> |bs| >= JOINREQ_SIZE
    ensures r.Some? ==> FitsAddress(r.value.from) && FitsSigned(r.value.heartbeat, LONG_SIZE)
  {
    if |bs| < JOINREQ_SIZE then None
    else Some(JoinRequest(DecodeAddress(bs[ID_OFFSET..ID_OFFSET + ADDR_SIZE]),
                          DecodeSigned(bs[HEARTBEAT_OFFSET..HEARTBEAT_OFFSET + LONG_SIZE])))
  }

  lemma AddressRoundTrip(a: Address)
    requires FitsAddress(a)
    ensures DecodeAddress(EncodeAddress(a)) == a
  {
    var bs := EncodeAddress(a);
    assert bs[ID_OFFSET..ID_OFFSET + INT_SIZE] == EncodeSigned(a.id, INT_SIZE);
    assert bs[PORT_OFFSET..PORT_OFFSET + SHORT_SIZE] == EncodeSigned(a.port, SHORT_SIZE);
    SignedRoundTrip(a.id, INT_SIZE);
    SignedRoundTrip(a.port, SHORT_SIZE);
  }

  /**
   * Two addresses have the same six bytes exactly when their ids and ports
   * agree, so the source's `memcmp` of `addr` buffers is equality of pairs.
   */
  lemma AddressBytesInjective(a: Address, b: Address)
    requires FitsAddress(a) && FitsAddress(b)
    ensures EncodeAddress(a) == EncodeAddress(b) <==> a == b
  {
    AddressRoundTrip(a);
    AddressRoundTrip(b);
  }

  /**
   * Encoder and decoder agree on the offsets: decoding a JOINREQ gives back
   * the sender and heartbeat, whatever the pad byte holds and whatever
   * follows the payload.
   */
  lemma JoinRequestRoundTrip(from: Address, heartbeat: int, pad: byte, trailing: seq<byte>)
    requires FitsAddress(from) && FitsSigned(heartbeat, LONG_SIZE)
    ensures DecodeJoinRequest(EncodeJoinRequest(from, heartbeat, pad) + trailing)
            == Some(JoinRequest(from, heartbeat))
  {
    var enc := EncodeJoinRequest(from, heartbeat, pad);
    var bs := enc + trailing;
    assert bs[ID_OFFSET..ID_OFFSET + ADDR_SIZE] == enc[ID_OFFSET..ID_OFFSET + ADDR_SIZE];
    assert bs[HEARTBEAT_OFFSET..HEARTBEAT_OFFSET + LONG_SIZE]
        == enc[HEARTBEAT_OFFSET..HEARTBEAT_OFFSET + LONG_SIZE];
    AddressRoundTrip(from);
    SignedRoundTrip(heartbeat, LONG_SIZE);
  }

  /** The decoder never looks at the pad byte. */
  lemma JoinRequestIgnoresPad(bs: seq<byte>, b: byte)
    requires |bs| >= JOINREQ_SIZE
    ensures DecodeJoinRequest(bs[PAD_OFFSET := b]) == DecodeJoinRequest(bs)
  {
    var bs' := bs[PAD_OFFSET := b];
    assert bs'[ID_OFFSET..ID_OFFSET + ADDR_SIZE] == bs[ID_OFFSET..ID_OFFSET + ADDR_SIZE];
    assert bs'[HEARTBEAT_OFFSET..HEARTBEAT_OFFSET + LONG_SIZE]
        == bs[HEARTBEAT_OFFSET..HEARTBEAT_OFFSET + LONG_SIZE];
  }

  // ---------------------------------------------------------------------
  // The member-list snapshot: count, then the entries
  // ---------------------------------------------------------------------

  function EntryWords(e: Entry): seq<int> {
    [e.id, e.port, e.heartbeat, e.timestamp]
  }

  /** The entries one after another, in list order. */
  function Flatten(list: seq<Entry>): (ws: seq<int>)
    ensures |ws| == ENTRY_WORDS * |list|
    decreases |list|
  {
    if list == [] then [] else Flatten(list[..|list| - 1]) + EntryWords(list[|list| - 1])
  }

  /** Entry `i` occupies words `4 * i` to `4 * i + 3` of the flattened list. */
  lemma {:induction false} FlattenAt(list: seq<Entry>, i: nat, k: nat)
    requires i < |list| && k < ENTRY_WORDS
    ensures Flatten(list)[ENTRY_WORDS * i + k] == EntryWords(list[i])[k]
  {
    var init := list[..|list| - 1];
    if i < |init| {
      FlattenAt(init, i, k);
    }
  }

  /** `serializeMemberList`: `count = memberList.size()`, then the entries. */
  function EncodeSnapshot(list: seq<Entry>): (ws: seq<int>)
    ensures |ws| == 1 + ENTRY_WORDS * |list| && ws[0] == |list|
  {
    [|list|] + Flatten(list)
  }

  /** The entry at index `i` of the array that follows the count. */
  function RecordAt(ws: seq<int>, i: nat): Entry
    requires ENTRY_WORDS * i + ENTRY_WORDS <= |ws|
  {
    var k := ENTRY_WORDS * i;
    Entry(ws[k], ws[k + 1], ws[k + 2], ws[k + 3])
  }

  /**
   * The reading side of `updateMembers`: the count, then that many
   * entries. A count of zero or less yields no entries (the source's loop
   * `i < count` does not run); a payload too short for the declared count,
   * or with no count at all, is malformed. Words after the entries are
   * ignored.
   */
  function DecodeSnapshot(ws: seq<int>): (r: Option<seq<Entry>>)
    ensures r.None? <==> |ws| == 0 || (ws[0] > 0 && |ws| - 1 < ENTRY_WORDS * ws[0])
    ensures r.Some? ==> |r.value| == if ws[0] > 0 then ws[0] else 0
  {
    if |ws| == 0 then None
    else if ws[0] <= 0 then Some([])
    else if |ws| - 1 < ENTRY_WORDS * ws[0] then None
    else Some(seq(ws[0], i requires 0 <= i < ws[0] => RecordAt(ws[1..], i)))
  }

  /**
   * Decoding an encoded snapshot recovers the list, the empty list
   * included, whatever follows it in the buffer.
   */
  lemma SnapshotRoundTrip(list: seq<Entry>, trailing: seq<int>)
    ensures DecodeSnapshot(EncodeSnapshot(list) + trailing) == Some(list)
  {
    var ws := EncodeSnapshot(list) + trailing;
    var r := DecodeSnapshot(ws);
    if list != [] {
      var body := ws[1..];
      assert body == Flatten(list) + trailing;
      forall i | 0 <= i < |list|
        ensures RecordAt(body, i) == list[i]
      {
        var w := EntryWords(list[i]);
        FlattenAt(list, i, 0);
        FlattenAt(list, i, 1);
        FlattenAt(list, i, 2);
        FlattenAt(list, i, 3);
        assert body[ENTRY_WORDS * i] == w[0];
        assert body[ENTRY_WORDS * i + 1] == w[1];
        assert body[ENTRY_WORDS * i + 2] == w[2];
        assert body[ENTRY_WORDS * i + 3] == w[3];
      }
      assert r.value == list;
    }
  }
}
