# MP1Node membership protocol in Dafny

This project models the membership node of a heartbeat gossip protocol (`MP1Node`). Each node keeps a list of the peers it believes alive. Each entry holds an id, a port, the peer's heartbeat, and the round in which the entry was last refreshed.

- A new node joins by sending a JOINREQ to the coordinator (id 1, port 0). The coordinator adds the node and answers with a JOINREP listing itself and its fresh entries.
- Every TFAIL ticks a node raises its heartbeat and gossips its list. The GOSSIP goes to every entry that was not refreshed in the current round.
- A receiver merges a gossiped heartbeat only when it is strictly larger than the one it holds.
- Every tick advances the round counter. The tick erases every entry whose last refresh is more than TREMOVE rounds old.

The model has six modules:

- `Bytes`: C `short`, `int` and `long` as 16-, 32- and 64-bit integers. Each is laid out little-endian in two's complement, as `memcpy` leaves it. Both directions of the round trip are proved.
- `Addresses`: the 6-byte address (a 4-byte id and a 2-byte port), with `getid`, `getport`, `makeAddress`, `getJoinAddress` and `isNullAddress`.
- `Codec`: the three message layouts. The encoders write what the node writes; `Decode` reads what the receive handler reads, and it accepts exactly the buffers with a known kind and every announced field present. Both round trips are proved for each of the three kinds: decoding an encoding gives back the message, and an accepted buffer begins with the encoding of what it decodes to.
- `MemberList`: the list operations as functions, with lemmas about them. These are lookup, insertion, the merge rule, the eviction sweep and the two filters (which entries are listed in a message, and whom to gossip to).
- `Protocol`: the node's state as a value, and each handler as a function on it. Sending a datagram appends a packet to an outbox. The lemmas state what the protocol promises:
  - the join handshake, end to end;
  - merges that never lower a heartbeat and are idempotent;
  - exact eviction over any number of ticks;
  - the heartbeat cadence;
  - unique keys.
- `Node`: the class `MP1Node`. Its fields are updated in place, and each method runs the source's loops over a byte array or the list. The handler methods (`RecvCallBack`, `CheckMessages`, `NodeLoopOps`, `NodeLoop`, `InitThisNode`, `IntroduceSelfToGroup`, `SendMemberList`, `SendGossip`, `CountDown`) are proved to compute the matching `Protocol` function of `View()`. The list loops (`AddMemberEntry`, `UpdateMemberEntry`, `AddMemberEntries`, `UpdateMemberEntries`, `EvictExpired`) are proved against the `MemberList` functions. `FindMemberEntry` is proved to find a member exactly when some entry has its key, and `WriteFreshTuples` to write the encoding of the fresh tuples. Every method that changes the list keeps `Valid()`, the unique-key invariant.

The model follows the code. A reader might expect otherwise in four places:

- **Gossip recipients.** A GOSSIP does not go to the same entries it lists (those refreshed within TFAIL rounds). The code sends it to every entry whose timestamp is not the current round (`MP1Node.cpp:326`). The listed set comes from a different test (`MP1Node.cpp:469`). `MemberList.FiltersDiffer` shows that the two sets differ: in any list with unique keys, an entry refreshed in the current round is listed but is not a recipient.
- **Self-exclusion.** A node can end up listing itself. Nothing in the code prevents it: the coordinator's JOINREP lists the joiner, and the joiner adds every listed member. `Protocol.JoinerListsItself` proves that the joiner ends up listing itself.
- **The count field.** The code writes the number of tuples actually in the buffer. The count starts at 1 for the sender's own tuple and rises once per listed entry. `Node.MP1Node.SendMemberList` and `Codec.DecodeEncodeMemberList` prove that the count matches the tuples written.
- **Handling ignores `inGroup`.** `recvCallBack` (`MP1Node.cpp:219-304`) never tests `inGroup`. A joining node handles JOINREQ and GOSSIP, and a node already in the group handles a JOINREP again and adds its tuples. `Protocol.ReceiveInGroup` states this.

## Model

| member | source | states |
|---|---|---|
| Bytes.DecodeEncodeInt16 | MP1Node.cpp:508-516 | a `short` written into two bytes reads back as the same value |
| Bytes.DecodeEncodeInt32 | MP1Node.cpp:504-516 | an `int` written into four bytes reads back as the same value |
| Bytes.DecodeEncodeInt64 | MP1Node.cpp:462-465 | a `long` written into eight bytes reads back as the same value |
| Bytes.EncodeDecodeInt16 | MP1Node.cpp:258-260 | any two bytes are the layout of the `short` read from them |
| Bytes.EncodeDecodeInt32 | MP1Node.cpp:254-256 | any four bytes are the layout of the `int` read from them |
| Bytes.EncodeDecodeInt64 | MP1Node.cpp:262-264 | any eight bytes are the layout of the `long` read from them |
| Bytes.FromToLE | MP1Node.cpp:457 | reading n little-endian bytes back gives the unsigned value written |
| Bytes.ToFromLE | MP1Node.cpp:255 | any byte string is the little-endian layout of the value read from it |
| Bytes.Wrap32 | MP1Node.cpp:471 | the `int` count is the exact number whenever it fits in 32 bits |
| Bytes.Inc64 | MP1Node.cpp:324 | the heartbeat increment adds one below the maximum and wraps around at it |
| Addresses.GetMakeAddress | MP1Node.cpp:504-516 | `getid` and `getport` of `makeAddress(id, port)` are id and port |
| Addresses.MakeGetAddress | MP1Node.cpp:504-516 | every address is `makeAddress` of its own id and port |
| Addresses.AddressEquality | MP1Node.cpp:126 | comparing two addresses byte by byte is comparing their ids and ports |
| Addresses.IsNullAddressIff | MP1Node.cpp:359-361 | an address is the null address if and only if its id and port are both 0 |
| Addresses.JoinAddressFields | MP1Node.cpp:368-376 | the join address has id 1 and port 0, is laid out as 1,0,0,0,0,0, and is not null |
| Codec.EncodeMemberList | MP1Node.cpp:441-443 | a member list message is 8 bytes (kind and count) plus 14 bytes per tuple |
| Codec.Decode | MP1Node.cpp:219-301 | an unknown kind is refused (the `default` case); a short buffer is refused; an accepted buffer holds every field read; a known kind with every announced field present is accepted |
| Codec.DecodeEncodeTuple | MP1Node.cpp:473-480 | one (id, port, heartbeat) tuple reads back as written |
| Codec.DecodeEncodeTuples | MP1Node.cpp:252-264 | the receive loop reads back exactly the tuples written, whatever follows them |
| Codec.EncodeTuplesConcat | MP1Node.cpp:467-482 | writing tuples one after another concatenates their bytes |
| Codec.DecodeEncodeJoinReq | MP1Node.cpp:134-140 | the coordinator reads back the joiner's address and heartbeat from its JOINREQ |
| Codec.DecodeEncodeMemberList | MP1Node.cpp:439-491 | a JOINREP or GOSSIP decodes to exactly the tuples written, in order, with the right kind |
| Codec.EncodeDecodeTuple | MP1Node.cpp:283-293 | any 14 bytes are the encoding of the tuple read from them |
| Codec.EncodeDecodeTuples | MP1Node.cpp:281-296 | the bytes the receive loop consumes are the encoding of the tuples it read |
| Codec.EncodeDecodeJoinReq | MP1Node.cpp:230-236 | an accepted JOINREQ begins with the encoding of the address and heartbeat it decodes to |
| Codec.EncodeDecodeMemberList | MP1Node.cpp:244-297 | an accepted JOINREP or GOSSIP with a non-negative count begins with the encoding of what it decodes to |
| MemberList.IndexOf | MP1Node.cpp:413-416 | the scan stops at the first entry carrying the key, or at the end |
| MemberList.FindMemberEntry | MP1Node.cpp:411-419 | found if and only if some entry has the id and port |
| MemberList.IndexOfUnique | MP1Node.cpp:411-419 | with unique keys, the entry the scan stops at is the only one with the key |
| MemberList.AddEntryProperties | MP1Node.cpp:392-404 | an unknown member is appended once, stamped with the current round; a known one leaves the list unchanged; the key is then present, keys stay unique, and adding again changes nothing |
| MemberList.UpdateEntryKnown | MP1Node.cpp:421-433 | a strictly greater heartbeat replaces the stored one and refreshes the timestamp; an equal or smaller one changes nothing |
| MemberList.UpdateEntryUnknown | MP1Node.cpp:435 | merging an unknown member appends it |
| MemberList.UpdateEntryMonotone | MP1Node.cpp:421-437 | the merge keeps every entry's position and key, never lowers a heartbeat, changes at most the merged entry, and appends at most one |
| MemberList.UpdateEntryPreservesUnique | MP1Node.cpp:421-437 | the merge keeps keys unique |
| MemberList.UpdateEntryCovered | MP1Node.cpp:427-432 | merging a heartbeat no larger than the one held changes nothing |
| MemberList.UpdateEntryIdempotent | MP1Node.cpp:421-437 | merging the same tuple twice is merging it once |
| MemberList.UpdateAllMonotone | MP1Node.cpp:281-296 | merging a GOSSIP keeps keys unique, never lowers a held heartbeat, and leaves every carried tuple covered |
| MemberList.UpdateAllCovered | MP1Node.cpp:281-296 | a GOSSIP whose tuples are all covered changes nothing |
| MemberList.UpdateAllIdempotent | MP1Node.cpp:281-296 | receiving the same GOSSIP twice in one round is receiving it once |
| MemberList.AddAllExtends | MP1Node.cpp:252-267 | merging a JOINREP keeps every existing entry as it was, only appends, and keeps keys unique |
| MemberList.AddAllContains | MP1Node.cpp:252-267 | after a JOINREP every member it lists is known |
| MemberList.EvictSweepStep | MP1Node.cpp:338-350 | erasing an expired entry, or stepping over a live one, keeps the list equal to the survivors so far followed by the unscanned rest |
| MemberList.EvictMembership | MP1Node.cpp:337-350 | an entry survives the sweep if and only if it was there and has not expired |
| MemberList.EvictConcat | MP1Node.cpp:338-350 | the sweep keeps the survivors' relative order |
| MemberList.EvictPreservesUnique | MP1Node.cpp:338-350 | the sweep keeps keys unique |
| MemberList.FreshTuplesMembership | MP1Node.cpp:467-482 | a tuple is listed after the sender's own if and only if it comes from an entry refreshed within TFAIL rounds |
| MemberList.GossipTargetsMembership | MP1Node.cpp:325-332 | a member is sent a GOSSIP if and only if it has an entry not stamped with the current round |
| MemberList.FiltersDiffer | MP1Node.cpp:325-332 | in any list with unique keys, an entry refreshed this round is listed in every message but is not itself sent the GOSSIP |
| Protocol.GossipPackets | MP1Node.cpp:325-332 | one packet per recipient, in list order, each carrying the same bytes |
| Protocol.StartUp | MP1Node.cpp:95-155 | after start-up the coordinator is in the group and has sent nothing; any other node is outside the group and has sent one JOINREQ to the coordinator carrying its address and heartbeat 0 |
| Protocol.ReceiveRejected | MP1Node.cpp:299-300 | a buffer of unknown kind (or too short to read) is not handled and changes nothing |
| Protocol.ReceiveInGroup | MP1Node.cpp:228-304 | a message is handled exactly when it decodes; only a JOINREP moves the node into the group; the heartbeat and counters never change |
| Protocol.ReceiveJoinReq | MP1Node.cpp:230-243 | the coordinator lists the sender and sends it one JOINREP with its own tuple first and its fresh entries after it |
| Protocol.ReceiveJoinRep | MP1Node.cpp:244-270 | a JOINREP puts the node in the group, keeps its entries, adds every listed member, and sends nothing |
| Protocol.ReceiveGossip | MP1Node.cpp:271-298 | a GOSSIP never lowers a held heartbeat, covers every carried tuple, sends nothing, and changes nothing when received again |
| Protocol.ReceivePreservesUnique | MP1Node.cpp:219-304 | handling any buffer keeps keys unique |
| Protocol.JoinRequestAnswered | MP1Node.cpp:230-243 | the JOINREP to a new joiner lists the coordinator first and the joiner among the rest |
| Protocol.JoinHandshake | MP1Node.cpp:230-270 | after the JOINREQ and its JOINREP, the coordinator knows the joiner, and the joiner is in the group and knows the coordinator |
| Protocol.JoinerListsItself | MP1Node.cpp:244-267 | the joiner adds its own tuple from the coordinator's JOINREP |
| Protocol.ReceiveAllConcat | MP1Node.cpp:200-212 | queued messages are handled strictly in arrival order |
| Protocol.ReceiveAllPreservesUnique | MP1Node.cpp:200-212 | draining the queue keeps keys unique |
| Protocol.ReceiveAllKeepsCounters | MP1Node.cpp:200-212 | draining the queue keeps the heartbeat and both counters, and without a JOINREP leaves a joining node outside the group |
| Protocol.StepWhileJoining | MP1Node.cpp:175-193 | a failed node does nothing; a joining node without a JOINREP keeps its heartbeat and counters |
| Protocol.StepPreservesUnique | MP1Node.cpp:175-193 | one run of the node loop keeps keys unique |
| Protocol.TickCountdown | MP1Node.cpp:321-337 | the countdown drops by one; at zero the heartbeat rises, one GOSSIP goes to each recipient and the countdown restarts at TFAIL; otherwise nothing is sent; the round advances by one |
| Protocol.TickGossip | MP1Node.cpp:321-335 | each gossip packet goes to an entry not stamped with the current round, each such entry gets one, and each decodes to the node's new tuple followed by its fresh entries |
| Protocol.TickEviction | MP1Node.cpp:337-350 | after a tick an entry survives if and only if it was there and has not expired in the new round; keys stay unique |
| Protocol.TickSweeps | MP1Node.cpp:313-352 | a tick changes the list only by the eviction sweep in the next round, and advances the round by one |
| Protocol.TickPreservesUnique | MP1Node.cpp:313-352 | a tick keeps keys unique |
| Protocol.TicksEvictStale | MP1Node.cpp:337-350 | over n ticks with no message, an entry survives if and only if its timestamp is at least the last round minus TREMOVE |
| Protocol.TickCadence | MP1Node.cpp:321-335 | from a countdown p, the heartbeat stays for p - 1 ticks and rises by one at the p-th, which restarts the countdown |
| Node.WriteBytes | MP1Node.cpp:457-465 | copying bytes into the buffer writes them at the offset and leaves the rest |
| Node.MP1Node.constructor | MP1Node.cpp:19-28 | a fresh node has its address and timeouts, an empty list, queue and outbox, and is neither failed, started nor in the group |
| Node.MP1Node.InitThisNode | MP1Node.cpp:95-113 | returns 0; the node is up and out of the group, with heartbeat 0, countdown TFAIL, round -1 and an empty list |
| Node.MP1Node.IntroduceSelfToGroup | MP1Node.cpp:120-155 | returns 1; the coordinator enters the group, and any other node sends the JOINREQ bytes to the join address |
| Node.MP1Node.FindMemberEntry | MP1Node.cpp:411-419 | found if and only if some entry has the id and port |
| Node.MP1Node.AddMemberEntry | MP1Node.cpp:392-404 | the list becomes the insertion of the member, stamped with the current round; keys stay unique |
| Node.MP1Node.UpdateMemberEntry | MP1Node.cpp:421-437 | the list becomes the merge of the heartbeat into the list; keys stay unique |
| Node.MP1Node.WriteFreshTuples | MP1Node.cpp:467-482 | the buffer gains the tuples of the entries refreshed within TFAIL rounds, in list order, and the count is the number of tuples |
| Node.MP1Node.SendMemberList | MP1Node.cpp:439-491 | the one packet sent is the member list message of the current state: header, count, own tuple, fresh tuples |
| Node.MP1Node.AddMemberEntries | MP1Node.cpp:252-267 | the list becomes the insertion of each JOINREP tuple, in order; keys stay unique |
| Node.MP1Node.UpdateMemberEntries | MP1Node.cpp:281-296 | the list becomes the merge of each GOSSIP tuple, in order; keys stay unique |
| Node.MP1Node.RecvCallBack | MP1Node.cpp:219-304 | the result and new state are the handler's, and keys stay unique |
| Node.MP1Node.CheckMessages | MP1Node.cpp:200-212 | the queue is emptied and its buffers handled in arrival order; keys stay unique |
| Node.MP1Node.SendGossip | MP1Node.cpp:325-332 | one GOSSIP of the current list goes to each entry not stamped with the current round |
| Node.MP1Node.EvictExpired | MP1Node.cpp:338-350 | the in-place erase loop leaves exactly the unexpired entries, in order; keys stay unique |
| Node.MP1Node.CountDown | MP1Node.cpp:321-335 | the new state is one step of the protocol's countdown: at zero a new heartbeat, the gossip push and a reset to TFAIL |
| Node.MP1Node.NodeLoopOps | MP1Node.cpp:313-352 | the new state is one tick of the protocol; keys stay unique |
| Node.MP1Node.NodeLoop | MP1Node.cpp:175-193 | a failed node changes nothing; otherwise the queue is drained and, once in the group, a tick runs; keys stay unique |

## Left out

- The network is not modelled. `recvLoop` (`MP1Node.cpp:41-48`) and `enqueueWrapper` (`MP1Node.cpp:55-58`) fill the receive queue, which the model takes as the field `mp1q`. `ENsend` (`MP1Node.cpp:148`, `MP1Node.cpp:488`) becomes appending a packet to `outbox`. Loss, delay and reordering between nodes are outside the model.
- `nodeStart` (`MP1Node.cpp:67-88`) is left out. Its exit paths cannot be taken, because `initThisNode` always returns 0 and `introduceSelfToGroup` always returns 1. Both return values are proved.
- `finishUpThisNode` (`MP1Node.cpp:162-167`) is left out; it does nothing.
- Logging (`DEBUGLOG`, the `fprintf` at line 146) and `printAddress` (`MP1Node.cpp:498-502`) are left out.
- Memory management is left out: `malloc` and `free`, and the copy of the received buffer. The receive handler's `default` case leaks that copy.
- Node.MP1Node.constructor: the source's constructor only wires in collaborators (`Member`, `Params`, `EmulNet`, `Log`) and sets the address. The `Member` record's own defaults are not part of this model, so the model starts from zeros and empty sequences.
- MP1Node.h is not part of this model. Its layout is assumed:
  - `MessageHdr` is the 4-byte message-kind enum (JOINREQ 0, JOINREP 1, GOSSIP 2);
  - `long` is 8 bytes;
  - the platform is little-endian.
- Codec.Decode: the model refuses a buffer shorter than the fields its header and count announce. The source does no bounds check and reads past the received bytes, which is undefined behaviour. For a JOINREP the source has already set `inGroup` before that read. Node.MP1Node.RecvCallBack therefore reports false and changes nothing for such a buffer.
- The round counter, the countdown, the timestamps and `nnb` are unbounded integers. Their 32-bit overflow would need 2^31 ticks and is not modelled.
- Signed overflow is modelled as two's-complement wrap-around: the heartbeat increment (`Bytes.Inc64`) and the tuple count (`Bytes.Wrap32`).
- Convergence of several nodes' lists is not modelled, because it needs a model of the network. Only the two-node join handshake is proved.
- Self-exclusion is not proved, because it does not hold of the code (see `Protocol.JoinerListsItself`).
