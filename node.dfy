/**
 * The membership node itself: the `Member` record it updates in place, its
 * receive queue, and the network's outgoing side as an outbox of packets.
 *
 * Every method is proved to compute the corresponding function of the
 * `Protocol` module on the node's protocol state, `View()`; what those
 * functions promise is proved there.
 */
module Node {
  import opened Bytes
  import opened Addresses
  import opened Codec
  import MemberList
  import opened Protocol

  type MemberListEntry = MemberList.MemberListEntry

  /**
   * Copies b into a starting at index at, as `memcpy` into a message buffer
   * does, and leaves every other byte as it was.
   */
  method WriteBytes(a: array<byte>, at: nat, b: seq<byte>)
    requires at + |b| <= a.Length
    modifies a
    ensures a[..at + |b|] == old(a[..at]) + b
    ensures a[at + |b|..] == old(a[at + |b|..])
  {
    var k := 0;
    while k < |b|
      invariant 0 <= k <= |b|
      invariant a[..at + k] == old(a[..at]) + b[..k]
      invariant a[at + k..] == old(a[at + k..])
    {
      a[at + k] := b[k];
      assert b[..k + 1] == b[..k] + [b[k]];
      k := k + 1;
    }
    assert b[..k] == b;
  }

  /** Writing one more tuple after the ones already written. */
  lemma AppendTuple(head: seq<byte>, ts: seq<MemberTuple>, t: MemberTuple, written: seq<byte>)
    requires written == head + EncodeTuples(ts)
    ensures written + EncodeTuple(t) == head + EncodeTuples(ts + [t])
  {
    EncodeTuplesSnoc(ts, t);
    AppendAssoc(head, EncodeTuples(ts), EncodeTuple(t));
  }

  /**
   * Patching the count into bytes 4..8 of a buffer holding a header, four
   * placeholder bytes and a body gives header, count and body.
   */
  lemma PatchCount(before: seq<byte>, after: seq<byte>, head: seq<byte>, body: seq<byte>, cnt: seq<byte>, len: nat)
    requires |head| == ListHeaderSize && |cnt| == IntSize
    requires len == ListHeaderSize + |body| <= |before| == |after|
    requires before[..len] == head + body
    requires after[..ListHeaderSize] == before[..HeaderSize] + cnt
    requires after[ListHeaderSize..] == before[ListHeaderSize..]
    ensures after[..len] == head[..HeaderSize] + cnt + body
  {
    TakeSplit(before, ListHeaderSize, |body|);
    SplitEq(before[..ListHeaderSize], before[ListHeaderSize..][..|body|], head, body);
    assert before[..HeaderSize] == before[..ListHeaderSize][..HeaderSize];
    TakeSplit(after, ListHeaderSize, |body|);
  }

  class MP1Node {
    /** The node's own address, set once by the constructor. */
    const addr: Address
    /** TFAIL: the gossip interval in ticks, and the freshness window for listed entries. */
    const TFail: int
    /** TREMOVE: the eviction threshold in rounds. */
    const TRemove: int

    var bFailed: bool
    var inited: bool
    var inGroup: bool
    var nnb: int
    var heartbeat: int64
    /** Ticks left until the next gossip push. */
    var pingCounter: int
    /** The round counter: the node's logical clock, stamped into entries it refreshes. */
    var timeOutCounter: int
    var memberList: seq<MemberListEntry>
    /** Received buffers waiting to be handled, oldest first. */
    var mp1q: seq<seq<byte>>
    /** Everything handed to the network for sending, oldest first. */
    var outbox: seq<Packet>

    function Cfg(): Config
    {
      Config(addr, TFail, TRemove)
    }

    function View(): State
      reads this
    {
      State(inGroup, heartbeat, pingCounter, timeOutCounter, memberList, outbox)
    }

    /** The list invariant every handler keeps: no key is listed twice. */
    ghost predicate Valid()
      reads this
    {
      MemberList.UniqueKeys(memberList)
    }

    /** A node that has not started: nothing queued, nothing sent, an empty list. */
    constructor (address: Address, tFail: int, tRemove: int)
      ensures addr == address && TFail == tFail && TRemove == tRemove
      ensures !bFailed && !inited && !inGroup
      ensures memberList == [] && mp1q == [] && outbox == []
      ensures Valid()
    {
      addr := address;
      TFail := tFail;
      TRemove := tRemove;
      bFailed := false;
      inited := false;
      inGroup := false;
      nnb := 0;
      heartbeat := 0;
      pingCounter := 0;
      timeOutCounter := 0;
      memberList := [];
      mp1q := [];
      outbox := [];
    }

    /** `initThisNode`: always succeeds (returns 0) and resets the protocol state. */
    method InitThisNode() returns (r: int)
      modifies this
      ensures r == 0
      ensures !bFailed && inited && nnb == 0
      ensures View() == Init(Cfg(), old(View()))
      ensures mp1q == old(mp1q)
      ensures Valid()
    {
      bFailed := false;
      inited := true;
      inGroup := false;
      nnb := 0;
      heartbeat := 0;
      pingCounter := TFail;
      timeOutCounter := -1;
      memberList := [];
      return 0;
    }

    /**
     * `introduceSelfToGroup`: always reports success (returns 1); the
     * coordinator enters the group, any other node sends one JOINREQ.
     */
    method IntroduceSelfToGroup(joinaddr: Address) returns (r: int)
      modifies this`inGroup, this`outbox
      ensures r == 1
      ensures View() == Introduce(Cfg(), old(View()), joinaddr)
    {
      if addr == joinaddr {
        inGroup := true;
      } else {
        var msg := new byte[JoinReqSize];
        WriteBytes(msg, 0, EncodeHeader(JoinReq));
        assert msg[..HeaderSize] == EncodeHeader(JoinReq);
        WriteBytes(msg, HeaderSize, addr);
        WriteBytes(msg, HeaderSize + AddrSize, EncodeInt64(heartbeat));
        assert msg[..] == msg[..JoinReqSize] == EncodeJoinReq(addr, heartbeat);
        outbox := outbox + [Packet(joinaddr, msg[..])];
      }
      return 1;
    }

    /** `findMemberEntry`: a linear scan for the key. */
    method FindMemberEntry(id: int32, port: int16) returns (found: bool)
      ensures found <==> exists j :: 0 <= j < |memberList| && MemberList.HasKey(memberList[j], id, port)
    {
      var i := 0;
      while i < |memberList|
        invariant 0 <= i <= |memberList|
        invariant forall j :: 0 <= j < i ==> !MemberList.HasKey(memberList[j], id, port)
      {
        if id == memberList[i].id && port == memberList[i].port {
          return true;
        }
        i := i + 1;
      }
      return false;
    }

    /** `addMemberEntry`: append the member, stamped with the current round, unless it is known. */
    method AddMemberEntry(id: int32, port: int16, hb: int64)
      modifies this`memberList
      ensures memberList == MemberList.AddEntry(old(memberList), id, port, hb, timeOutCounter)
      ensures old(Valid()) ==> Valid()
    {
      if Valid() {
        MemberList.AddEntryProperties(memberList, id, port, hb, timeOutCounter);
      }
      var known := FindMemberEntry(id, port);
      if !known {
        memberList := memberList + [MemberList.MemberListEntry(id, port, hb, timeOutCounter)];
      }
    }

    /**
     * `updateMemberEntry`: the first entry with the key takes a strictly
     * greater heartbeat and the current round; an unknown member is added.
     */
    method UpdateMemberEntry(id: int32, port: int16, hb: int64)
      modifies this`memberList
      ensures memberList == MemberList.UpdateEntry(old(memberList), id, port, hb, timeOutCounter)
      ensures old(Valid()) ==> Valid()
    {
      if Valid() {
        MemberList.UpdateEntryPreservesUnique(memberList, id, port, hb, timeOutCounter);
      }
      var i := 0;
      while i < |memberList|
        invariant 0 <= i <= |memberList|
        invariant memberList == old(memberList)
        invariant forall j :: 0 <= j < i ==> !MemberList.HasKey(memberList[j], id, port)
      {
        if id == memberList[i].id && port == memberList[i].port {
          assert MemberList.IndexOf(memberList, id, port) == i;
          if hb > memberList[i].heartbeat {
            memberList := memberList[i := memberList[i].(heartbeat := hb, timestamp := timeOutCounter)];
          }
          return;
        }
        i := i + 1;
      }
      AddMemberEntry(id, port, hb);
    }

    /**
     * The loop of `sendMemberList`: after the `n` tuples `written` already in
     * `msg`, which end at offset `at`, appends one tuple per entry refreshed
     * within TFAIL rounds, in list order, and counts the tuples in the buffer.
     */
    method WriteFreshTuples(msg: array<byte>, at: nat, n: int, ghost head: seq<byte>, ghost written: seq<MemberTuple>)
        returns (offset: nat, count: int, ghost ts: seq<MemberTuple>)
      requires |head| == ListHeaderSize
      requires at == 8 + 14 * |written| && n == |written|
      requires 8 + 14 * (|written| + |memberList|) <= msg.Length
      requires msg[..8 + 14 * |written|] == head + EncodeTuples(written)
      modifies msg
      ensures ts == written + MemberList.FreshTuples(memberList, timeOutCounter, TFail)
      ensures count == |ts| && offset == 8 + 14 * |ts|
      ensures msg[..offset] == head + EncodeTuples(ts)
    {
      offset, count, ts := at, n, written;
      AppendNil(written);
      var i := 0;
      while i < |memberList|
        invariant 0 <= i <= |memberList|
        invariant ts == written + MemberList.FreshTuples(memberList[..i], timeOutCounter, TFail)
        invariant count == |ts| && offset == 8 + 14 * |ts|
        invariant offset + 14 * (|memberList| - i) <= msg.Length
        invariant msg[..offset] == head + EncodeTuples(ts)
      {
        var e := memberList[i];
        MemberList.FreshTuplesSnoc(memberList, i, timeOutCounter, TFail);
        AppendAssoc(written, MemberList.FreshTuples(memberList[..i], timeOutCounter, TFail), [MemberList.ToTuple(e)]);
        AppendNil(MemberList.FreshTuples(memberList[..i], timeOutCounter, TFail));
        if timeOutCounter - TFail <= e.timestamp {
          var t := MemberList.ToTuple(e);
          count := count + 1;
          ghost var before := msg[..offset];
          WriteBytes(msg, offset, EncodeTuple(t));
          offset := offset + TupleSize;
          AppendTuple(head, ts, t, before);
          ts := ts + [t];
        }
        i := i + 1;
      }
      assert memberList[..i] == memberList;
    }

    /**
     * `sendMemberList`: builds the message in a buffer sized for the whole
     * list — header, count, the node's own tuple, then one tuple per entry
     * refreshed within TFAIL rounds — patches in the count, and sends the
     * bytes written.
     */
    method SendMemberList(dest: Address, kind: MsgType)
      modifies this`outbox
      ensures View() == SendList(Cfg(), old(View()), dest, kind)
    {
      var msg := new byte[ListHeaderSize + 14 * (|memberList| + 1)];
      var offset := 0;
      WriteBytes(msg, offset, EncodeHeader(kind));
      offset := offset + HeaderSize;
      var count := 1;
      offset := offset + IntSize;
      // The header and the four bytes the count is patched into at the end.
      assert msg[..HeaderSize] == EncodeHeader(kind);
      ghost var head := msg[..ListHeaderSize];
      assert head[..HeaderSize] == EncodeHeader(kind);

      var self := MemberTuple(GetId(addr), GetPort(addr), heartbeat);
      WriteBytes(msg, offset, EncodeTuple(self));
      offset := offset + TupleSize;
      ghost var ts := [self];
      AppendTuple(head, [], self, head + []);
      assert [] + [self] == ts;

      ghost var listed;
      offset, count, listed := WriteFreshTuples(msg, offset, count, head, ts);
      ts := listed;
      assert ts == ListedTuples(Cfg(), heartbeat, memberList, timeOutCounter);

      // Patch the count into bytes 4..8.
      ghost var before := msg[..];
      WriteBytes(msg, HeaderSize, EncodeInt32(Wrap32(count)));
      PatchCount(before, msg[..], head, EncodeTuples(ts), EncodeInt32(Wrap32(count)), offset);
      var data := msg[..offset];
      assert data == MemberListBytes(Cfg(), heartbeat, memberList, timeOutCounter, kind);
      outbox := outbox + [Packet(dest, data)];
    }

    /** The JOINREP loop of `recvCallBack`: adds each listed member, in order. */
    method AddMemberEntries(ts: seq<MemberTuple>)
      modifies this`memberList
      ensures memberList == MemberList.AddAll(old(memberList), ts, timeOutCounter)
      ensures old(Valid()) ==> Valid()
    {
      if Valid() {
        MemberList.AddAllExtends(memberList, ts, timeOutCounter);
      }
      var i := 0;
      while i < |ts|
        invariant 0 <= i <= |ts|
        invariant memberList == MemberList.AddAll(old(memberList), ts[..i], timeOutCounter)
      {
        assert ts[..i + 1][..i] == ts[..i];
        AddMemberEntry(ts[i].id, ts[i].port, ts[i].heartbeat);
        i := i + 1;
      }
      assert ts[..i] == ts;
    }

    /** The GOSSIP loop of `recvCallBack`: merges each listed member, in order. */
    method UpdateMemberEntries(ts: seq<MemberTuple>)
      modifies this`memberList
      ensures memberList == MemberList.UpdateAll(old(memberList), ts, timeOutCounter)
      ensures old(Valid()) ==> Valid()
    {
      if Valid() {
        MemberList.UpdateAllMonotone(memberList, ts, timeOutCounter);
      }
      var i := 0;
      while i < |ts|
        invariant 0 <= i <= |ts|
        invariant memberList == MemberList.UpdateAll(old(memberList), ts[..i], timeOutCounter)
      {
        assert ts[..i + 1][..i] == ts[..i];
        UpdateMemberEntry(ts[i].id, ts[i].port, ts[i].heartbeat);
        i := i + 1;
      }
      assert ts[..i] == ts;
    }

    /**
     * `recvCallBack`: dispatches on the message kind. A buffer the decoder
     * refuses is reported (false) and changes nothing.
     */
    method RecvCallBack(data: seq<byte>) returns (ok: bool)
      modifies this`inGroup, this`memberList, this`outbox
      ensures (ok, View()) == Receive(Cfg(), old(View()), data)
      ensures old(Valid()) ==> Valid()
    {
      if Valid() {
        ReceivePreservesUnique(Cfg(), View(), data);
      }
      ok := true;
      match Decode(data)
      case Failure(_) =>
        ok := false;
      case Success(JoinReqMsg(a, hb)) =>
        AddMemberEntry(GetId(a), GetPort(a), hb);
        SendMemberList(a, JoinRep);
      case Success(JoinRepMsg(ts)) =>
        inGroup := true;
        AddMemberEntries(ts);
      case Success(GossipMsg(ts)) =>
        UpdateMemberEntries(ts);
    }

    /** `checkMessages`: pops and handles every queued buffer, in arrival order. */
    method CheckMessages()
      modifies this`inGroup, this`memberList, this`outbox, this`mp1q
      ensures mp1q == []
      ensures View() == ReceiveAll(Cfg(), old(View()), old(mp1q))
      ensures old(Valid()) ==> Valid()
    {
      while mp1q != []
        invariant ReceiveAll(Cfg(), View(), mp1q) == ReceiveAll(Cfg(), old(View()), old(mp1q))
        invariant old(Valid()) ==> Valid()
        decreases |mp1q|
      {
        var data := mp1q[0];
        mp1q := mp1q[1..];
        var _ := RecvCallBack(data);
      }
    }

    /**
     * The gossip push of `nodeLoopOps`: the member list, as GOSSIP, to every
     * entry not stamped with the current round, in list order.
     */
    method SendGossip()
      modifies this`outbox
      ensures View() == GossipRound(Cfg(), old(View()))
    {
      ghost var data := MemberListBytes(Cfg(), heartbeat, memberList, timeOutCounter, Gossip);
      ghost var sent := outbox;
      var i := 0;
      while i < |memberList|
        modifies this`outbox
        invariant 0 <= i <= |memberList|
        invariant outbox == sent + GossipPackets(MemberList.GossipTargets(memberList[..i], timeOutCounter), data)
      {
        ghost var targets := MemberList.GossipTargets(memberList[..i], timeOutCounter);
        MemberList.GossipTargetsSnoc(memberList, i, timeOutCounter);
        if timeOutCounter != memberList[i].timestamp {
          var dest := MakeAddress(memberList[i].id, memberList[i].port);
          SendMemberList(dest, Gossip);
          GossipPacketsSnoc(targets, dest, data);
          AppendAssoc(sent, GossipPackets(targets, data), [Packet(dest, data)]);
        } else {
          AppendNil(targets);
        }
        i := i + 1;
      }
      assert memberList[..i] == memberList;
    }

    /**
     * The eviction sweep of `nodeLoopOps`: erases, in place, every entry more
     * than TREMOVE rounds older than the current round; the survivors keep
     * their order.
     */
    method EvictExpired()
      modifies this`memberList
      ensures memberList == MemberList.Evict(old(memberList), timeOutCounter, TRemove)
      ensures old(Valid()) ==> Valid()
    {
      ghost var list0 := memberList;
      var i := 0;
      ghost var j := 0;
      while i < |memberList|
        invariant 0 <= j <= |list0|
        invariant memberList == MemberList.Evict(list0[..j], timeOutCounter, TRemove) + list0[j..]
        invariant i == |MemberList.Evict(list0[..j], timeOutCounter, TRemove)|
        decreases |list0| - j
      {
        MemberList.EvictSweepStep(list0, j, timeOutCounter, TRemove, memberList);
        if timeOutCounter - TRemove > memberList[i].timestamp {
          memberList := memberList[..i] + memberList[i + 1..];
        } else {
          i := i + 1;
        }
        j := j + 1;
      }
      assert list0[..j] == list0;
      if old(Valid()) {
        MemberList.EvictPreservesUnique(list0, timeOutCounter, TRemove);
      }
    }

    /**
     * The first half of `nodeLoopOps`: one step of the countdown; at 0 a new
     * heartbeat, the list to every entry not stamped with the current round,
     * and the countdown back at TFAIL.
     */
    method CountDown()
      modifies this`pingCounter, this`heartbeat, this`outbox
      ensures View() == Countdown(Cfg(), old(View()))
    {
      pingCounter := pingCounter - 1;
      if pingCounter == 0 {
        heartbeat := Inc64(heartbeat);
        SendGossip();
        pingCounter := TFail;
      }
    }

    /**
     * `nodeLoopOps`: counts down to the gossip push (new heartbeat, the list
     * to every entry not stamped with the current round, countdown reset),
     * then advances the round and erases the entries that have expired.
     */
    method NodeLoopOps()
      modifies this`pingCounter, this`heartbeat, this`outbox, this`timeOutCounter, this`memberList
      ensures View() == Tick(Cfg(), old(View()))
      ensures old(Valid()) ==> Valid()
    {
      CountDown();
      timeOutCounter := timeOutCounter + 1;
      EvictExpired();
    }

    /**
     * `nodeLoop`: a failed node does nothing; otherwise the queue is drained
     * and, once the node is in the group, the periodic duties run.
     */
    method NodeLoop()
      modifies this`inGroup, this`memberList, this`outbox, this`mp1q
      modifies this`pingCounter, this`heartbeat, this`timeOutCounter
      ensures View() == Step(Cfg(), old(View()), bFailed, old(mp1q))
      ensures mp1q == if bFailed then old(mp1q) else []
      ensures old(Valid()) ==> Valid()
    {
      if bFailed {
        return;
      }
      CheckMessages();
      if !inGroup {
        return;
      }
      NodeLoopOps();
    }
  }
}
