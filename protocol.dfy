/**
 * The node's protocol as functions on its state: start-up, the join
 * handshake, message dispatch, the periodic tick (heartbeat, gossip, eviction)
 * and one run of the node loop. Sending is appending a packet to an outbox.
 *
 * The node's methods are proved to compute these functions; the lemmas here
 * state what the protocol promises.
 */
module Protocol {
  import opened Bytes
  import opened Addresses
  import opened Codec
  import opened MemberList

  /** One datagram handed to the network: destination and bytes. */
  datatype Packet = Packet(dest: Address, data: seq<byte>)

  /** What does not change over a node's life: its address and the two timeouts. */
  datatype Config = Config(addr: Address, tFail: int, tRemove: int)

  /** The protocol part of a node's state. */
  datatype State = State(
    inGroup: bool,
    heartbeat: int64,
    pingCounter: int,
    timeOutCounter: int,
    memberList: seq<MemberListEntry>,
    outbox: seq<Packet>)

  function SelfTuple(c: Config, heartbeat: int64): MemberTuple
  {
    MemberTuple(GetId(c.addr), GetPort(c.addr), heartbeat)
  }

  /**
   * The tuples `sendMemberList` writes: the sender itself with its heartbeat,
   * then the entries of the list fresh in round `now`, in list order.
   */
  function ListedTuples(c: Config, heartbeat: int64, list: seq<MemberListEntry>, now: int): seq<MemberTuple>
  {
    [SelfTuple(c, heartbeat)] + FreshTuples(list, now, c.tFail)
  }

  /** The bytes of a JOINREP or GOSSIP; they depend only on the heartbeat, the list and the round. */
  function MemberListBytes(c: Config, heartbeat: int64, list: seq<MemberListEntry>, now: int, kind: MsgType)
    : seq<byte>
  {
    EncodeMemberList(kind, ListedTuples(c, heartbeat, list, now))
  }

  /** `sendMemberList(dest, kind)`. */
  function SendList(c: Config, s: State, dest: Address, kind: MsgType): State
  {
    s.(outbox := s.outbox + [Packet(dest, MemberListBytes(c, s.heartbeat, s.memberList, s.timeOutCounter, kind))])
  }

  /** `initThisNode`: out of the group, heartbeat 0, a full countdown, round -1, empty list. */
  function Init(c: Config, s: State): State
  {
    State(false, 0, c.tFail, -1, [], s.outbox)
  }

  /** `introduceSelfToGroup`: the coordinator starts the group; any other node asks to join. */
  function Introduce(c: Config, s: State, joinAddr: Address): State
  {
    if c.addr == joinAddr then s.(inGroup := true)
    else s.(outbox := s.outbox + [Packet(joinAddr, EncodeJoinReq(c.addr, s.heartbeat))])
  }

  /** `recvCallBack`: whether the message was handled, and the new state. */
  function Receive(c: Config, s: State, data: seq<byte>): (bool, State)
  {
    match Decode(data)
    case Failure(_) => (false, s)
    case Success(JoinReqMsg(a, hb)) =>
      var s1 := s.(memberList := AddEntry(s.memberList, GetId(a), GetPort(a), hb, s.timeOutCounter));
      (true, SendList(c, s1, a, JoinRep))
    case Success(JoinRepMsg(ts)) =>
      (true, s.(inGroup := true, memberList := AddAll(s.memberList, ts, s.timeOutCounter)))
    case Success(GossipMsg(ts)) =>
      (true, s.(memberList := UpdateAll(s.memberList, ts, s.timeOutCounter)))
  }

  /** `checkMessages`: the queued buffers handled in arrival order. */
  function ReceiveAll(c: Config, s: State, queue: seq<seq<byte>>): State
    decreases |queue|
  {
    if queue == [] then s else ReceiveAll(c, Receive(c, s, queue[0]).1, queue[1..])
  }

  /** One packet with the same bytes for each destination, in order. */
  function GossipPackets(targets: seq<Address>, data: seq<byte>): (ps: seq<Packet>)
    ensures |ps| == |targets|
    ensures forall i :: 0 <= i < |ps| ==> ps[i] == Packet(targets[i], data)
  {
    if targets == [] then []
    else GossipPackets(targets[..|targets| - 1], data) + [Packet(targets[|targets| - 1], data)]
  }

  /** The gossip push: the member list, as GOSSIP, to every entry not stamped with the current round. */
  function GossipRound(c: Config, s: State): State
  {
    s.(outbox := s.outbox
                  + GossipPackets(GossipTargets(s.memberList, s.timeOutCounter),
                                  MemberListBytes(c, s.heartbeat, s.memberList, s.timeOutCounter, Gossip)))
  }

  /** One more recipient is one more packet, at the end. */
  lemma GossipPacketsSnoc(targets: seq<Address>, dest: Address, data: seq<byte>)
    ensures GossipPackets(targets + [dest], data) == GossipPackets(targets, data) + [Packet(dest, data)]
  {
    assert (targets + [dest])[..|targets|] == targets;
  }

  /** The first half of `nodeLoopOps`: the countdown, and at 0 a new heartbeat, the gossip push and a reset. */
  function Countdown(c: Config, s: State): State
  {
    var pc := s.pingCounter - 1;
    if pc == 0 then GossipRound(c, s.(heartbeat := Inc64(s.heartbeat))).(pingCounter := c.tFail)
    else s.(pingCounter := pc)
  }

  /** `nodeLoopOps`: countdown and gossip push, then the next round and the eviction sweep. */
  function Tick(c: Config, s: State): State
  {
    var s1 := Countdown(c, s);
    var now := s1.timeOutCounter + 1;
    s1.(timeOutCounter := now, memberList := Evict(s1.memberList, now, c.tRemove))
  }

  /** `nodeLoop`: nothing when failed; otherwise drain the queue, then tick if in the group. */
  function Step(c: Config, s: State, failed: bool, queue: seq<seq<byte>>): State
  {
    if failed then s
    else
      var s1 := ReceiveAll(c, s, queue);
      if s1.inGroup then Tick(c, s1) else s1
  }

  /** n ticks in a row with no messages in between. */
  function Ticks(c: Config, s: State, n: nat): State
    decreases n
  {
    if n == 0 then s else Ticks(c, Tick(c, s), n - 1)
  }

  // ---------------------------------------------------------------- start-up

  /**
   * After `initThisNode`, the coordinator (the node whose address is the join
   * address, id 1 and port 0) enters the group without sending anything; any
   * other node stays out of the group and sends exactly one JOINREQ to the
   * coordinator, which reads back its address and heartbeat 0.
   */
  lemma StartUp(c: Config, s0: State)
    ensures var s := Introduce(c, Init(c, s0), GetJoinAddress());
            && s.memberList == [] && s.heartbeat == 0 && s.timeOutCounter == -1 && s.pingCounter == c.tFail
            && (c.addr == GetJoinAddress() <==> GetId(c.addr) == 1 && GetPort(c.addr) == 0)
            && (c.addr == GetJoinAddress() ==> s.inGroup && s.outbox == s0.outbox)
            && (c.addr != GetJoinAddress() ==>
                  && !s.inGroup
                  && |s.outbox| == |s0.outbox| + 1 && s.outbox[..|s0.outbox|] == s0.outbox
                  && s.outbox[|s0.outbox|].dest == GetJoinAddress()
                  && Decode(s.outbox[|s0.outbox|].data) == Success(JoinReqMsg(c.addr, 0)))
  {
    AddressEquality(c.addr, GetJoinAddress());
    JoinAddressFields();
    DecodeEncodeJoinReq(c.addr, 0);
  }

  // ---------------------------------------------------------------- dispatch

  /** A buffer the decoder refuses (unknown kind, or too short) is not handled and changes nothing. */
  lemma ReceiveRejected(c: Config, s: State, data: seq<byte>)
    requires |data| < HeaderSize || DecodeInt32(data[..HeaderSize]) !in {0, 1, 2}
    ensures Receive(c, s, data) == (false, s)
  {
  }

  /**
   * Every handled message is one of the three kinds, and only a JOINREP moves
   * the node into the group.
   */
  lemma ReceiveInGroup(c: Config, s: State, data: seq<byte>)
    ensures var r := Receive(c, s, data);
            && (r.0 <==> Decode(data).Success?)
            && (r.1.inGroup <==> s.inGroup || IsJoinRep(data))
            && r.1.heartbeat == s.heartbeat && r.1.pingCounter == s.pingCounter
            && r.1.timeOutCounter == s.timeOutCounter
  {
  }

  /**
   * The coordinator's side of a join: the sender is in its list afterwards,
   * and exactly one JOINREP goes back to the sender; it decodes to the
   * coordinator's own tuple followed by the fresh entries of the updated list.
   */
  lemma ReceiveJoinReq(c: Config, s: State, a: Address, hb: int64)
    requires |s.memberList| < Int32Max - 1
    ensures var r := Receive(c, s, EncodeJoinReq(a, hb));
            var list := AddEntry(s.memberList, GetId(a), GetPort(a), hb, s.timeOutCounter);
            && r.0 && r.1.inGroup == s.inGroup && r.1.heartbeat == s.heartbeat
            && r.1.memberList == list
            && FindMemberEntry(r.1.memberList, GetId(a), GetPort(a))
            && |r.1.outbox| == |s.outbox| + 1 && r.1.outbox[..|s.outbox|] == s.outbox
            && r.1.outbox[|s.outbox|].dest == a
            && var ts := [SelfTuple(c, s.heartbeat)] + FreshTuples(list, s.timeOutCounter, c.tFail);
               && |ts| <= Int32Max
               && r.1.outbox[|s.outbox|].data == EncodeMemberList(JoinRep, ts)
               && Decode(r.1.outbox[|s.outbox|].data) == Success(JoinRepMsg(ts))
  {
    DecodeEncodeJoinReq(a, hb);
    var list := AddEntry(s.memberList, GetId(a), GetPort(a), hb, s.timeOutCounter);
    assert |list| <= |s.memberList| + 1;
    DecodeEncodeMemberList(JoinRep, ListedTuples(c, s.heartbeat, list, s.timeOutCounter));
    assert HasKey(list[IndexOf(list, GetId(a), GetPort(a))], GetId(a), GetPort(a)) by {
      if !FindMemberEntry(s.memberList, GetId(a), GetPort(a)) {
        assert HasKey(list[|s.memberList|], GetId(a), GetPort(a));
      }
    }
  }

  /**
   * A joining node's side: a JOINREP puts it in the group; every entry it
   * had is kept as it was and every member the reply lists is now known.
   */
  lemma ReceiveJoinRep(c: Config, s: State, ts: seq<MemberTuple>)
    requires UniqueKeys(s.memberList)
    requires |ts| <= Int32Max
    ensures var r := Receive(c, s, EncodeMemberList(JoinRep, ts));
            && r.0 && r.1.inGroup
            && |s.memberList| <= |r.1.memberList| && r.1.memberList[..|s.memberList|] == s.memberList
            && UniqueKeys(r.1.memberList)
            && (forall i :: 0 <= i < |ts| ==> FindMemberEntry(r.1.memberList, ts[i].id, ts[i].port))
            && r.1.outbox == s.outbox
  {
    DecodeEncodeMemberList(JoinRep, ts);
    AddAllExtends(s.memberList, ts, s.timeOutCounter);
    AddAllContains(s.memberList, ts, s.timeOutCounter);
  }

  /**
   * A GOSSIP never lowers a heartbeat the node holds and leaves every carried
   * member known with a heartbeat at least as large as the one carried;
   * receiving the same GOSSIP again in the same round changes nothing.
   */
  lemma ReceiveGossip(c: Config, s: State, ts: seq<MemberTuple>)
    requires UniqueKeys(s.memberList)
    requires |ts| <= Int32Max
    ensures var r := Receive(c, s, EncodeMemberList(Gossip, ts));
            && r.0 && r.1.inGroup == s.inGroup && r.1.outbox == s.outbox
            && UniqueKeys(r.1.memberList)
            && |s.memberList| <= |r.1.memberList|
            && (forall j :: 0 <= j < |s.memberList| ==>
                  SameKey(r.1.memberList[j], s.memberList[j])
                  && r.1.memberList[j].heartbeat >= s.memberList[j].heartbeat)
            && (forall i :: 0 <= i < |ts| ==> Covers(r.1.memberList, ts[i]))
            && Receive(c, r.1, EncodeMemberList(Gossip, ts)) == (true, r.1)
  {
    DecodeEncodeMemberList(Gossip, ts);
    UpdateAllMonotone(s.memberList, ts, s.timeOutCounter);
    UpdateAllIdempotent(s.memberList, ts, s.timeOutCounter);
  }

  lemma ReceivePreservesUnique(c: Config, s: State, data: seq<byte>)
    requires UniqueKeys(s.memberList)
    ensures UniqueKeys(Receive(c, s, data).1.memberList)
  {
    match Decode(data)
    case Failure(_) =>
    case Success(JoinReqMsg(a, hb)) =>
      AddEntryProperties(s.memberList, GetId(a), GetPort(a), hb, s.timeOutCounter);
    case Success(JoinRepMsg(ts)) =>
      AddAllExtends(s.memberList, ts, s.timeOutCounter);
    case Success(GossipMsg(ts)) =>
      UpdateAllMonotone(s.memberList, ts, s.timeOutCounter);
  }

  // ---------------------------------------------------------------- the join handshake

  function LastSent(s: State): Packet
    requires s.outbox != []
  {
    s.outbox[|s.outbox| - 1]
  }

  /**
   * The coordinator B answers a JOINREQ from a node A it did not know: its
   * JOINREP goes to A and lists B first and A among the rest.
   */
  lemma JoinRequestAnswered(cA: Config, sA: State, cB: Config, sB: State)
    requires !FindMemberEntry(sB.memberList, GetId(cA.addr), GetPort(cA.addr))
    requires cB.tFail >= 0
    requires |sB.memberList| < Int32Max - 1
    ensures var rB := Receive(cB, sB, EncodeJoinReq(cA.addr, sA.heartbeat));
            && rB.0 && FindMemberEntry(rB.1.memberList, GetId(cA.addr), GetPort(cA.addr))
            && rB.1.outbox != [] && LastSent(rB.1).dest == cA.addr
            && Decode(LastSent(rB.1).data).Success? && Decode(LastSent(rB.1).data).value.JoinRepMsg?
            && var ts := Decode(LastSent(rB.1).data).value.tuples;
               |ts| > 0 && ts[0] == SelfTuple(cB, sB.heartbeat) && SelfTuple(cA, sA.heartbeat) in ts
  {
    ReceiveJoinReq(cB, sB, cA.addr, sA.heartbeat);
    var list := AddEntry(sB.memberList, GetId(cA.addr), GetPort(cA.addr), sA.heartbeat, sB.timeOutCounter);
    var joiner := MemberListEntry(GetId(cA.addr), GetPort(cA.addr), sA.heartbeat, sB.timeOutCounter);
    assert list == sB.memberList + [joiner];
    assert joiner in list;
    FreshTuplesMembership(list, sB.timeOutCounter, cB.tFail, ToTuple(joiner));
  }

  /**
   * Joining, end to end: after the coordinator B handles A's JOINREQ, it knows
   * A; after A handles B's answer, A is in the group and knows B.
   */
  lemma JoinHandshake(cA: Config, sA: State, cB: Config, sB: State)
    requires !FindMemberEntry(sB.memberList, GetId(cA.addr), GetPort(cA.addr))
    requires cB.tFail >= 0
    requires |sB.memberList| < Int32Max - 1
    requires UniqueKeys(sA.memberList)
    ensures var rB := Receive(cB, sB, EncodeJoinReq(cA.addr, sA.heartbeat));
            && FindMemberEntry(rB.1.memberList, GetId(cA.addr), GetPort(cA.addr))
            && rB.1.outbox != [] && LastSent(rB.1).dest == cA.addr
            && var rA := Receive(cA, sA, LastSent(rB.1).data);
               && rA.0 && rA.1.inGroup
               && FindMemberEntry(rA.1.memberList, GetId(cB.addr), GetPort(cB.addr))
  {
    ReceiveJoinReq(cB, sB, cA.addr, sA.heartbeat);
    var list := AddEntry(sB.memberList, GetId(cA.addr), GetPort(cA.addr), sA.heartbeat, sB.timeOutCounter);
    var ts := [SelfTuple(cB, sB.heartbeat)] + FreshTuples(list, sB.timeOutCounter, cB.tFail);
    var rB := Receive(cB, sB, EncodeJoinReq(cA.addr, sA.heartbeat));
    assert LastSent(rB.1).data == EncodeMemberList(JoinRep, ts);
    ReceiveJoinRep(cA, sA, ts);
    assert FindMemberEntry(AddAll(sA.memberList, ts, sA.timeOutCounter), ts[0].id, ts[0].port);
  }

  /**
   * Nothing keeps a node's own identity out of its list: the joiner's own
   * tuple comes back in the coordinator's JOINREP, and the joiner adds it.
   */
  lemma JoinerListsItself(cA: Config, sA: State, cB: Config, sB: State)
    requires !FindMemberEntry(sB.memberList, GetId(cA.addr), GetPort(cA.addr))
    requires cB.tFail >= 0
    requires |sB.memberList| < Int32Max - 1
    requires UniqueKeys(sA.memberList)
    ensures var rB := Receive(cB, sB, EncodeJoinReq(cA.addr, sA.heartbeat));
            && rB.1.outbox != []
            && FindMemberEntry(Receive(cA, sA, LastSent(rB.1).data).1.memberList, GetId(cA.addr), GetPort(cA.addr))
  {
    JoinRequestAnswered(cA, sA, cB, sB);
    ReceiveJoinReq(cB, sB, cA.addr, sA.heartbeat);
    var list := AddEntry(sB.memberList, GetId(cA.addr), GetPort(cA.addr), sA.heartbeat, sB.timeOutCounter);
    var ts := [SelfTuple(cB, sB.heartbeat)] + FreshTuples(list, sB.timeOutCounter, cB.tFail);
    var rB := Receive(cB, sB, EncodeJoinReq(cA.addr, sA.heartbeat));
    assert LastSent(rB.1).data == EncodeMemberList(JoinRep, ts);
    var i :| 0 <= i < |ts| && ts[i] == SelfTuple(cA, sA.heartbeat);
    AddAllContains(sA.memberList, ts, sA.timeOutCounter);
    ReceiveJoinRep(cA, sA, ts);
    assert FindMemberEntry(AddAll(sA.memberList, ts, sA.timeOutCounter), ts[i].id, ts[i].port);
  }

  // ---------------------------------------------------------------- the queue

  /** Messages are handled strictly in arrival order: draining q1 + q2 is draining q1, then q2. */
  lemma {:induction false} ReceiveAllConcat(c: Config, s: State, q1: seq<seq<byte>>, q2: seq<seq<byte>>)
    ensures ReceiveAll(c, s, q1 + q2) == ReceiveAll(c, ReceiveAll(c, s, q1), q2)
    decreases |q1|
  {
    if q1 == [] {
      assert q1 + q2 == q2;
    } else {
      assert (q1 + q2)[0] == q1[0] && (q1 + q2)[1..] == q1[1..] + q2;
      ReceiveAllConcat(c, Receive(c, s, q1[0]).1, q1[1..], q2);
    }
  }

  lemma {:induction false} ReceiveAllPreservesUnique(c: Config, s: State, q: seq<seq<byte>>)
    requires UniqueKeys(s.memberList)
    ensures UniqueKeys(ReceiveAll(c, s, q).memberList)
    decreases |q|
  {
    if q != [] {
      ReceivePreservesUnique(c, s, q[0]);
      ReceiveAllPreservesUnique(c, Receive(c, s, q[0]).1, q[1..]);
    }
  }

  /** Handling messages never changes the heartbeat or the counters, and only a JOINREP moves the node into the group. */
  lemma {:induction false} ReceiveAllKeepsCounters(c: Config, s: State, q: seq<seq<byte>>)
    ensures var r := ReceiveAll(c, s, q);
            && r.heartbeat == s.heartbeat && r.pingCounter == s.pingCounter
            && r.timeOutCounter == s.timeOutCounter
            && (!s.inGroup && (forall i :: 0 <= i < |q| ==> !IsJoinRep(q[i])) ==> !r.inGroup)
    decreases |q|
  {
    if q != [] {
      ReceiveInGroup(c, s, q[0]);
      ReceiveAllKeepsCounters(c, Receive(c, s, q[0]).1, q[1..]);
      assert forall i :: 0 <= i < |q| - 1 ==> q[1..][i] == q[i + 1];
    }
  }

  predicate IsJoinRep(data: seq<byte>)
  {
    Decode(data).Success? && Decode(data).value.JoinRepMsg?
  }

  // ---------------------------------------------------------------- the node loop

  /**
   * A failed node does nothing. A node that is still joining, and gets no
   * JOINREP, handles its messages but keeps its heartbeat and both counters:
   * the periodic duties wait until it is in the group.
   */
  lemma StepWhileJoining(c: Config, s: State, q: seq<seq<byte>>)
    ensures Step(c, s, true, q) == s
    ensures !s.inGroup && (forall i :: 0 <= i < |q| ==> !IsJoinRep(q[i])) ==>
              var r := Step(c, s, false, q);
              && !r.inGroup && r.heartbeat == s.heartbeat
              && r.pingCounter == s.pingCounter && r.timeOutCounter == s.timeOutCounter
  {
    ReceiveAllKeepsCounters(c, s, q);
  }

  lemma StepPreservesUnique(c: Config, s: State, failed: bool, q: seq<seq<byte>>)
    requires UniqueKeys(s.memberList)
    ensures UniqueKeys(Step(c, s, failed, q).memberList)
  {
    if !failed {
      ReceiveAllPreservesUnique(c, s, q);
      var s1 := ReceiveAll(c, s, q);
      TickSweeps(c, s1);
      EvictPreservesUnique(s1.memberList, s1.timeOutCounter + 1, c.tRemove);
    }
  }

  // ---------------------------------------------------------------- the tick

  /**
   * The countdown: it drops by one each tick; when it reaches 0 the heartbeat
   * goes up by one, one GOSSIP goes to each entry not stamped with the current
   * round, and it restarts at tFail; otherwise the heartbeat and the outbox
   * stay. The round always advances by one, and a countdown in 1..tFail stays
   * there.
   */
  lemma TickCountdown(c: Config, s: State)
    requires c.tFail > 0 && 1 <= s.pingCounter <= c.tFail
    ensures var r := Tick(c, s);
            && 1 <= r.pingCounter <= c.tFail
            && r.timeOutCounter == s.timeOutCounter + 1
            && r.inGroup == s.inGroup
            && (s.pingCounter == 1 ==>
                  && r.pingCounter == c.tFail
                  && (s.heartbeat as int < Int64Max ==> r.heartbeat as int == s.heartbeat as int + 1)
                  && |r.outbox| == |s.outbox| + |GossipTargets(s.memberList, s.timeOutCounter)|)
            && (s.pingCounter != 1 ==>
                  r.pingCounter == s.pingCounter - 1 && r.heartbeat == s.heartbeat && r.outbox == s.outbox)
  {
  }

  /**
   * The gossip push: each new packet goes to a member with an entry not
   * stamped with the current round (and each such member gets one), and
   * each decodes to a GOSSIP listing the node with its new heartbeat first,
   * then the entries refreshed within tFail rounds.
   */
  lemma TickGossip(c: Config, s: State)
    requires s.pingCounter == 1
    requires |s.memberList| < Int32Max
    ensures var r := Tick(c, s);
            var hb := Inc64(s.heartbeat);
            var sent := r.outbox[|s.outbox|..];
            && |r.outbox| >= |s.outbox| && r.outbox[..|s.outbox|] == s.outbox
            && (forall p :: p in sent ==>
                  Decode(p.data) == Success(GossipMsg([SelfTuple(c, hb)]
                                                      + FreshTuples(s.memberList, s.timeOutCounter, c.tFail))))
            && (forall p :: p in sent ==>
                  exists e :: e in s.memberList && e.timestamp != s.timeOutCounter && MakeAddress(e.id, e.port) == p.dest)
            && (forall e :: e in s.memberList && e.timestamp != s.timeOutCounter ==>
                  exists p :: p in sent && p.dest == MakeAddress(e.id, e.port))
  {
    var s1 := s.(heartbeat := Inc64(s.heartbeat));
    var targets := GossipTargets(s.memberList, s.timeOutCounter);
    var r := Tick(c, s);
    var sent := r.outbox[|s.outbox|..];
    assert sent == GossipPackets(targets, MemberListBytes(c, s1.heartbeat, s.memberList, s.timeOutCounter, Gossip));
    DecodeEncodeMemberList(Gossip, ListedTuples(c, s1.heartbeat, s.memberList, s.timeOutCounter));
    forall p | p in sent
      ensures exists e :: e in s.memberList && e.timestamp != s.timeOutCounter && MakeAddress(e.id, e.port) == p.dest
    {
      GossipTargetsMembership(s.memberList, s.timeOutCounter, p.dest);
      var i :| 0 <= i < |sent| && sent[i] == p;
      assert targets[i] == p.dest;
    }
    forall e | e in s.memberList && e.timestamp != s.timeOutCounter
      ensures exists p :: p in sent && p.dest == MakeAddress(e.id, e.port)
    {
      GossipTargetsMembership(s.memberList, s.timeOutCounter, MakeAddress(e.id, e.port));
      var i :| 0 <= i < |targets| && targets[i] == MakeAddress(e.id, e.port);
      assert sent[i] in sent;
    }
  }

  /**
   * Eviction is exact: after the tick an entry is still in the list if and
   * only if it was there and the new round minus tRemove does not exceed its
   * timestamp; survivors keep their fields and their relative order, and keys
   * stay unique.
   */
  lemma TickEviction(c: Config, s: State, e: MemberListEntry)
    requires UniqueKeys(s.memberList)
    ensures var r := Tick(c, s);
            var now := s.timeOutCounter + 1;
            && r.memberList == Evict(s.memberList, now, c.tRemove)
            && (e in r.memberList <==> e in s.memberList && now - c.tRemove <= e.timestamp)
            && UniqueKeys(r.memberList)
  {
    TickSweeps(c, s);
    EvictMembership(s.memberList, s.timeOutCounter + 1, c.tRemove, e);
    EvictPreservesUnique(s.memberList, s.timeOutCounter + 1, c.tRemove);
  }

  /** A tick only sweeps the list and advances the round; the gossip push leaves both alone. */
  lemma TickSweeps(c: Config, s: State)
    ensures Tick(c, s).memberList == Evict(s.memberList, s.timeOutCounter + 1, c.tRemove)
    ensures Tick(c, s).timeOutCounter == s.timeOutCounter + 1
  {
    var pc := s.pingCounter - 1;
    if pc == 0 {
      var g := GossipRound(c, s.(heartbeat := Inc64(s.heartbeat)));
      assert g.memberList == s.memberList && g.timeOutCounter == s.timeOutCounter;
    }
  }

  lemma TickPreservesUnique(c: Config, s: State)
    requires UniqueKeys(s.memberList)
    ensures UniqueKeys(Tick(c, s).memberList)
  {
    TickSweeps(c, s);
    EvictPreservesUnique(s.memberList, s.timeOutCounter + 1, c.tRemove);
  }

  /**
   * Failure detection: over n >= 1 ticks with no message handled, an entry
   * survives if and only if it was there and was refreshed no more than
   * tRemove rounds before the last of those rounds; so an entry that is no
   * longer refreshed is gone at the first round that exceeds its timestamp by
   * more than tRemove, and not one round earlier.
   */
  lemma {:induction false} TicksEvictStale(c: Config, s: State, n: nat, e: MemberListEntry)
    requires n >= 1
    ensures e in Ticks(c, s, n).memberList <==>
              e in s.memberList && s.timeOutCounter + n - c.tRemove <= e.timestamp
    ensures Ticks(c, s, n).timeOutCounter == s.timeOutCounter + n
    decreases n
  {
    var s1 := Tick(c, s);
    TickSweeps(c, s);
    EvictMembership(s.memberList, s.timeOutCounter + 1, c.tRemove, e);
    if n > 1 {
      TicksEvictStale(c, s1, n - 1, e);
    }
  }

  /**
   * The heartbeat cadence: from a countdown of p in 1..tFail, the next p - 1
   * ticks leave the heartbeat as it is, and the p-th raises it by one and
   * restarts the countdown.
   */
  lemma {:induction false} TickCadence(c: Config, s: State, n: nat)
    requires c.tFail > 0 && 1 <= s.pingCounter <= c.tFail
    requires n <= s.pingCounter
    ensures var r := Ticks(c, s, n);
            && r.timeOutCounter == s.timeOutCounter + n
            && (n < s.pingCounter ==> r.heartbeat == s.heartbeat && r.pingCounter == s.pingCounter - n)
            && (n == s.pingCounter ==> r.heartbeat == Inc64(s.heartbeat) && r.pingCounter == c.tFail)
    decreases n
  {
    if n > 0 {
      var s1 := Tick(c, s);
      if s.pingCounter == 1 {
        assert Ticks(c, s1, 0) == s1;
      } else {
        TickCadence(c, s1, n - 1);
      }
    }
  }
}
