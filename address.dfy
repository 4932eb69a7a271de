/**
 * A peer's address: six raw bytes, a 4-byte `int` id followed by a 2-byte
 * `short` port, read and written in place by `getid`, `getport` and
 * `makeAddress`.
 */
module Addresses {
  import opened Bytes

  const AddrSize: nat := 6

  type Address = a: seq<byte> | |a| == AddrSize witness [0, 0, 0, 0, 0, 0]

  /** The all-zero address the node keeps as `NULLADDR`. */
  const NullAddr: Address := [0, 0, 0, 0, 0, 0]

  function MakeAddress(id: int32, port: int16): Address
  {
    EncodeInt32(id) + EncodeInt16(port)
  }

  function GetId(a: Address): int32
  {
    DecodeInt32(a[..4])
  }

  function GetPort(a: Address): int16
  {
    DecodeInt16(a[4..])
  }

  predicate IsNullAddress(a: Address)
  {
    a == NullAddr
  }

  /** The coordinator every node joins through: id 1, port 0. */
  function GetJoinAddress(): Address
  {
    MakeAddress(1, 0)
  }

  /** Reading back the fields of a freshly made address gives them again. */
  lemma GetMakeAddress(id: int32, port: int16)
    ensures GetId(MakeAddress(id, port)) == id
    ensures GetPort(MakeAddress(id, port)) == port
  {
    var a := MakeAddress(id, port);
    assert a[..4] == EncodeInt32(id) && a[4..] == EncodeInt16(port);
    DecodeEncodeInt32(id);
    DecodeEncodeInt16(port);
  }

  /** An address is determined by its id and port. */
  lemma MakeGetAddress(a: Address)
    ensures MakeAddress(GetId(a), GetPort(a)) == a
  {
    EncodeDecodeInt32(a[..4]);
    EncodeDecodeInt16(a[4..]);
    assert a == a[..4] + a[4..];
  }

  /** Byte-wise comparison of addresses (`memcmp`) is comparison of id and port. */
  lemma AddressEquality(a: Address, b: Address)
    ensures a == b <==> GetId(a) == GetId(b) && GetPort(a) == GetPort(b)
  {
    MakeGetAddress(a);
    MakeGetAddress(b);
  }

  lemma IsNullAddressIff(a: Address)
    ensures IsNullAddress(a) <==> GetId(a) == 0 && GetPort(a) == 0
  {
    MakeGetAddress(a);
    PowValues();
    assert MakeAddress(0, 0) == NullAddr;
  }

  /** The join address has id 1 and port 0, is laid out as [1,0,0,0,0,0] and is not null. */
  lemma JoinAddressFields()
    ensures GetId(GetJoinAddress()) == 1 && GetPort(GetJoinAddress()) == 0
    ensures GetJoinAddress() == [1, 0, 0, 0, 0, 0]
    ensures !IsNullAddress(GetJoinAddress())
  {
    GetMakeAddress(1, 0);
    PowValues();
  }
}
