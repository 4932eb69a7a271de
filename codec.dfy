/**
 * The wire format of the three membership messages.
 *
 *   JOINREQ:          header | address (6) | heartbeat (8)
 *   JOINREP, GOSSIP:  header | count (4) | count * (id (4) | port (2) | heartbeat (8))
 *
 * The header is the 4-byte message-kind enum. The decoder reads fields at
 * fixed offsets, as the node's receive handler does, but unlike the handler it
 * refuses a buffer that is shorter than the fields it would read.
 */
module Codec {
  import opened Bytes
  import opened Addresses

  const HeaderSize: nat := 4
  const IntSize: nat := 4
  const ShortSize: nat := 2
  const LongSize: nat := 8
  const TupleSize: nat := IntSize + ShortSize + LongSize
  const JoinReqSize: nat := HeaderSize + AddrSize + LongSize
  const ListHeaderSize: nat := HeaderSize + IntSize

  datatype MsgType = JoinReq | JoinRep | Gossip

  /** The value of each kind in the message-kind enum (declaration order). */
  function Tag(t: MsgType): int32
  {
    match t
    case JoinReq => 0
    case JoinRep => 1
    case Gossip => 2
  }

  /** One (id, port, heartbeat) record of a member list message. */
  datatype MemberTuple = MemberTuple(id: int32, port: int16, heartbeat: int64)

  datatype Message =
    | JoinReqMsg(addr: Address, heartbeat: int64)
    | JoinRepMsg(tuples: seq<MemberTuple>)
    | GossipMsg(tuples: seq<MemberTuple>)

  datatype DecodeError = Truncated | UnknownType(tag: int32)

  datatype Result<T, E> = Success(value: T) | Failure(error: E)

  function EncodeHeader(t: MsgType): (r: seq<byte>)
    ensures |r| == HeaderSize
  {
    EncodeInt32(Tag(t))
  }

  function EncodeTuple(t: MemberTuple): (r: seq<byte>)
    ensures |r| == TupleSize
  {
    EncodeInt32(t.id) + EncodeInt16(t.port) + EncodeInt64(t.heartbeat)
  }

  function EncodeTuples(ts: seq<MemberTuple>): (r: seq<byte>)
    ensures |r| == 14 * |ts|
  {
    if ts == [] then [] else EncodeTuple(ts[0]) + EncodeTuples(ts[1..])
  }

  /** JOINREQ: the sender's address bytes followed by its heartbeat. */
  function EncodeJoinReq(addr: Address, heartbeat: int64): (r: seq<byte>)
    ensures |r| == JoinReqSize
  {
    EncodeHeader(JoinReq) + addr + EncodeInt64(heartbeat)
  }

  /** A member list message: the kind, the number of tuples (an `int`), the tuples. */
  function EncodeMemberList(kind: MsgType, ts: seq<MemberTuple>): (r: seq<byte>)
    ensures |r| == 8 + 14 * |ts|
  {
    EncodeHeader(kind) + EncodeInt32(Wrap32(|ts|)) + EncodeTuples(ts)
  }

  function DecodeTuple(b: seq<byte>): MemberTuple
    requires |b| == TupleSize
  {
    MemberTuple(DecodeInt32(b[..4]), DecodeInt16(b[4..6]), DecodeInt64(b[6..]))
  }

  /** Reads n consecutive tuples from the front of b. */
  function DecodeTuples(b: seq<byte>, n: nat): (ts: seq<MemberTuple>)
    requires |b| >= 14 * n
    ensures |ts| == n
  {
    if n == 0 then [] else [DecodeTuple(b[..14])] + DecodeTuples(b[14..], n - 1)
  }

  /**
   * Decodes a received buffer. An unknown kind is an error, as in the
   * handler's default case; a buffer too short for the fields its header and
   * count announce is an error too. Every other buffer is accepted: a negative
   * count reads no tuples, as the handler's `for (i = 0; i < count; ...)` does,
   * and bytes after the last field are ignored.
   */
  function Decode(buf: seq<byte>): (r: Result<Message, DecodeError>)
    ensures r.Success? && r.value.JoinReqMsg? ==> |buf| >= JoinReqSize
    ensures r.Success? && !r.value.JoinReqMsg? ==>
              |buf| >= 8 + 14 * |r.value.tuples|
    ensures |buf| < HeaderSize ==> r == Failure(Truncated)
    ensures |buf| >= HeaderSize && DecodeInt32(buf[..HeaderSize]) !in {0, 1, 2} ==>
              r == Failure(UnknownType(DecodeInt32(buf[..HeaderSize])))
    ensures (&& |buf| >= HeaderSize
             && var tag := DecodeInt32(buf[..HeaderSize]);
                && tag in {0, 1, 2}
                && (tag == 0 ==> |buf| >= JoinReqSize)
                && (tag != 0 ==>
                      && |buf| >= ListHeaderSize
                      && var count := DecodeInt32(buf[HeaderSize..ListHeaderSize]) as int;
                         |buf| >= 8 + 14 * (if count < 0 then 0 else count)))
            ==> r.Success?
  {
    if |buf| < HeaderSize then Failure(Truncated)
    else
      var tag := DecodeInt32(buf[..HeaderSize]);
      if tag == Tag(JoinReq) then
        if |buf| < JoinReqSize then Failure(Truncated)
        else Success(JoinReqMsg(buf[HeaderSize..HeaderSize + AddrSize],
                                DecodeInt64(buf[HeaderSize + AddrSize..JoinReqSize])))
      else if tag == Tag(JoinRep) || tag == Tag(Gossip) then
        if |buf| < ListHeaderSize then Failure(Truncated)
        else
          var count := DecodeInt32(buf[HeaderSize..ListHeaderSize]) as int;
          var n: nat := if count < 0 then 0 else count;
          if |buf| < 8 + 14 * n then Failure(Truncated)
          else
            var ts := DecodeTuples(buf[ListHeaderSize..], n);
            Success(if tag == Tag(JoinRep) then JoinRepMsg(ts) else GossipMsg(ts))
      else Failure(UnknownType(tag))
  }

  lemma DecodeEncodeTuple(t: MemberTuple)
    ensures DecodeTuple(EncodeTuple(t)) == t
  {
    Split3(EncodeInt32(t.id), EncodeInt16(t.port), EncodeInt64(t.heartbeat));
    DecodeEncodeInt32(t.id);
    DecodeEncodeInt16(t.port);
    DecodeEncodeInt64(t.heartbeat);
  }

  lemma {:induction false} EncodeTuplesConcat(a: seq<MemberTuple>, b: seq<MemberTuple>)
    ensures EncodeTuples(a + b) == EncodeTuples(a) + EncodeTuples(b)
  {
    if a == [] {
      assert a + b == b;
    } else {
      assert (a + b)[0] == a[0];
      assert (a + b)[1..] == a[1..] + b;
      EncodeTuplesConcat(a[1..], b);
      AppendAssoc(EncodeTuple(a[0]), EncodeTuples(a[1..]), EncodeTuples(b));
    }
  }

  /** Writing one more tuple appends its 14 bytes. */
  lemma EncodeTuplesSnoc(ts: seq<MemberTuple>, t: MemberTuple)
    ensures EncodeTuples(ts + [t]) == EncodeTuples(ts) + EncodeTuple(t)
  {
    EncodeTuplesConcat(ts, [t]);
    AppendNil(EncodeTuple(t));
  }

  /** Decoding |ts| tuples from their encoding (and anything after it) gives ts. */
  lemma {:induction false} DecodeEncodeTuples(ts: seq<MemberTuple>, rest: seq<byte>)
    ensures |EncodeTuples(ts) + rest| >= 14 * |ts|
    ensures DecodeTuples(EncodeTuples(ts) + rest, |ts|) == ts
  {
    if ts != [] {
      var head, tail := EncodeTuple(ts[0]), EncodeTuples(ts[1..]);
      AppendAssoc(head, tail, rest);
      Split3(head, tail + rest, []);
      AppendNil(head + (tail + rest));
      DecodeEncodeTuple(ts[0]);
      DecodeEncodeTuples(ts[1..], rest);
    }
  }

  /** Round trip of JOINREQ: the receiver reads back the sender's address and heartbeat. */
  lemma DecodeEncodeJoinReq(addr: Address, heartbeat: int64)
    ensures Decode(EncodeJoinReq(addr, heartbeat)) == Success(JoinReqMsg(addr, heartbeat))
  {
    var b := EncodeJoinReq(addr, heartbeat);
    Split3(EncodeHeader(JoinReq), addr, EncodeInt64(heartbeat));
    assert b[HeaderSize + AddrSize..JoinReqSize] == b[HeaderSize + AddrSize..];
    DecodeEncodeInt32(Tag(JoinReq));
    DecodeEncodeInt64(heartbeat);
  }

  /**
   * Round trip of JOINREP and GOSSIP: the receiver reads back exactly the
   * tuples written, in order, as long as their number fits the `int` count.
   */
  lemma DecodeEncodeMemberList(kind: MsgType, ts: seq<MemberTuple>)
    requires kind != JoinReq
    requires |ts| <= Int32Max
    ensures Decode(EncodeMemberList(kind, ts))
         == Success(if kind == JoinRep then JoinRepMsg(ts) else GossipMsg(ts))
  {
    Split3(EncodeHeader(kind), EncodeInt32(Wrap32(|ts|)), EncodeTuples(ts));
    DecodeEncodeInt32(Tag(kind));
    DecodeEncodeInt32(Wrap32(|ts|));
    AppendNil(EncodeTuples(ts));
    DecodeEncodeTuples(ts, []);
  }

  lemma EncodeDecodeTuple(c: seq<byte>)
    requires |c| == TupleSize
    ensures EncodeTuple(DecodeTuple(c)) == c
  {
    EncodeDecodeInt32(c[..4]);
    EncodeDecodeInt16(c[4..6]);
    EncodeDecodeInt64(c[6..]);
    Join3(c, 4, 6);
  }

  lemma {:induction false} EncodeDecodeTuples(b: seq<byte>, n: nat)
    requires |b| >= 14 * n
    ensures EncodeTuples(DecodeTuples(b, n)) == b[..14 * n]
  {
    if n > 0 {
      EncodeDecodeTuple(b[..14]);
      EncodeDecodeTuples(b[14..], n - 1);
      TakeSplit(b, 14, 14 * (n - 1));
    }
  }

  /**
   * The converse round trip of JOINREQ: an accepted JOINREQ begins with the
   * encoding of the address and heartbeat it decodes to.
   */
  lemma EncodeDecodeJoinReq(buf: seq<byte>, addr: Address, heartbeat: int64)
    requires Decode(buf) == Success(JoinReqMsg(addr, heartbeat))
    ensures buf[..JoinReqSize] == EncodeJoinReq(addr, heartbeat)
  {
    var pre := buf[..JoinReqSize];
    EncodeDecodeInt32(buf[..HeaderSize]);
    EncodeDecodeInt64(buf[HeaderSize + AddrSize..JoinReqSize]);
    Join3(pre, HeaderSize, HeaderSize + AddrSize);
    assert pre[..HeaderSize] == buf[..HeaderSize];
    assert pre[HeaderSize..HeaderSize + AddrSize] == addr;
    assert pre[HeaderSize + AddrSize..] == buf[HeaderSize + AddrSize..JoinReqSize];
  }

  /** What the decoder read from an accepted member list message with a non-negative count. */
  lemma DecodedMemberList(buf: seq<byte>, kind: MsgType, ts: seq<MemberTuple>)
    requires kind != JoinReq
    requires Decode(buf) == Success(if kind == JoinRep then JoinRepMsg(ts) else GossipMsg(ts))
    requires DecodeInt32(buf[HeaderSize..ListHeaderSize]) >= 0
    ensures DecodeInt32(buf[..HeaderSize]) == Tag(kind)
    ensures DecodeInt32(buf[HeaderSize..ListHeaderSize]) as int == |ts|
    ensures ts == DecodeTuples(buf[ListHeaderSize..], |ts|)
  {
  }

  /**
   * The converse round trip: a member list message the decoder accepts, with a
   * non-negative count, is the encoding of what it decodes to, followed by
   * whatever trailing bytes the buffer had.
   */
  lemma EncodeDecodeMemberList(buf: seq<byte>, kind: MsgType, ts: seq<MemberTuple>)
    requires kind != JoinReq
    requires Decode(buf) == Success(if kind == JoinRep then JoinRepMsg(ts) else GossipMsg(ts))
    requires DecodeInt32(buf[HeaderSize..ListHeaderSize]) >= 0
    ensures buf[..8 + 14 * |ts|] == EncodeMemberList(kind, ts)
  {
    var n := |ts|;
    DecodedMemberList(buf, kind, ts);
    var hdr, cnt, body := buf[..HeaderSize], buf[HeaderSize..ListHeaderSize], buf[ListHeaderSize..];
    EncodeFromFields(kind, ts, hdr, cnt, body);
    var pre := buf[..8 + 14 * n];
    Join3(pre, HeaderSize, ListHeaderSize);
    assert pre[..HeaderSize] == hdr && pre[HeaderSize..ListHeaderSize] == cnt;
    assert pre[ListHeaderSize..] == body[..14 * n];
  }

  /** The fields of a member list message re-encode to the header, the count and the tuples they were read from. */
  lemma EncodeFromFields(kind: MsgType, ts: seq<MemberTuple>, hdr: seq<byte>, cnt: seq<byte>, body: seq<byte>)
    requires |hdr| == HeaderSize && |cnt| == 4 && |body| >= 14 * |ts|
    requires DecodeInt32(hdr) == Tag(kind) && DecodeInt32(cnt) as int == |ts|
    requires ts == DecodeTuples(body, |ts|)
    ensures hdr + cnt + body[..14 * |ts|] == EncodeMemberList(kind, ts)
  {
    EncodeDecodeInt32(hdr);
    EncodeDecodeInt32(cnt);
    assert Wrap32(|ts|) == DecodeInt32(cnt);
    EncodeDecodeTuples(body, |ts|);
  }
}
