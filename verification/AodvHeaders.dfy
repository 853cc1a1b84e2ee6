/** Headers as objects that write themselves to a buffer and read themselves back, field by field. */
module AodvHeaders {
  import opened Words
  import opened Options
  import opened AodvPacket

  /** A write iterator over a growing buffer. */
  class Writer {
    var data: seq<byte>

    constructor ()
      ensures data == []
    {
      data := [];
    }

    method WriteU8(x: byte)
      modifies this
      ensures data == old(data) + [x]
    {
      data := data + [x];
    }

    method WriteHtonU32(x: u32)
      modifies this
      ensures data == old(data) + U32(x)
    {
      data := data + [x / 0x100_0000, x / 0x1_0000 % 0x100];
      data := data + [x / 0x100 % 0x100, x % 0x100];
    }
  }

  /** A read iterator; reading past the end is an error of the caller, as in the source. */
  class Reader {
    const data: seq<byte>
    var pos: nat

    constructor (data: seq<byte>)
      ensures this.data == data && pos == 0
    {
      this.data, pos := data, 0;
    }

    method ReadU8() returns (x: byte)
      requires pos < |data|
      modifies this
      ensures x == data[old(pos)] && pos == old(pos) + 1
    {
      x := data[pos];
      pos := pos + 1;
    }

    method ReadNtohU32() returns (x: u32)
      requires pos + 4 <= |data|
      modifies this
      ensures x == ReadU32(data, old(pos)) && pos == old(pos) + 4
    {
      x := ReadU32(data, pos);
      pos := pos + 4;
    }
  }

  method SerializeRreq(h: RreqHeader, w: Writer)
    modifies w
    ensures w.data == old(w.data) + EncodeRreq(h)
  {
    hide U32;
    w.WriteU8(h.flags);
    w.WriteU8(h.reserved);
    w.WriteU8(h.hopCount);
    assert w.data == old(w.data) + [h.flags, h.reserved, h.hopCount];
    w.WriteHtonU32(h.requestID);
    w.WriteHtonU32(h.dst);
    w.WriteHtonU32(h.dstSeqNo);
    w.WriteHtonU32(h.origin);
    w.WriteHtonU32(h.originSeqNo);
  }

  method DeserializeRreq(r: Reader) returns (h: RreqHeader)
    requires r.pos + 23 <= |r.data|
    modifies r
    ensures h == DecodeRreq(r.data, old(r.pos)) && r.pos == old(r.pos) + 23
  {
    hide ReadU32;
    var flags := r.ReadU8();
    var reserved := r.ReadU8();
    var hopCount := r.ReadU8();
    var requestID := r.ReadNtohU32();
    var dst := r.ReadNtohU32();
    var dstSeqNo := r.ReadNtohU32();
    var origin := r.ReadNtohU32();
    var originSeqNo := r.ReadNtohU32();
    h := RreqHeader(flags, reserved, hopCount, requestID, dst, dstSeqNo, origin, originSeqNo);
  }

  method SerializeRrep(h: RrepHeader, w: Writer)
    modifies w
    ensures w.data == old(w.data) + EncodeRrep(h)
  {
    hide U32;
    w.WriteU8(h.flags);
    w.WriteU8(h.prefixSize);
    w.WriteU8(h.hopCount);
    assert w.data == old(w.data) + [h.flags, h.prefixSize, h.hopCount];
    w.WriteHtonU32(h.dst);
    w.WriteHtonU32(h.dstSeqNo);
    w.WriteHtonU32(h.origin);
    w.WriteHtonU32(h.lifeTime);
  }

  method DeserializeRrep(r: Reader) returns (h: RrepHeader)
    requires r.pos + 19 <= |r.data|
    modifies r
    ensures h == DecodeRrep(r.data, old(r.pos)) && r.pos == old(r.pos) + 19
  {
    hide ReadU32;
    var flags := r.ReadU8();
    var prefixSize := r.ReadU8();
    var hopCount := r.ReadU8();
    var dst := r.ReadNtohU32();
    var dstSeqNo := r.ReadNtohU32();
    var origin := r.ReadNtohU32();
    var lifeTime := r.ReadNtohU32();
    h := RrepHeader(flags, prefixSize, hopCount, dst, dstSeqNo, origin, lifeTime);
  }

  /** The RERR header, whose map of unreachable destinations is filled and emptied in place. */
  class Rerr {
    var flag: byte
    var reserved: byte
    var unreachableDstSeqNo: Unreachable

    constructor ()
      ensures Value() == RerrHeader(0, 0, [])
    {
      flag, reserved, unreachableDstSeqNo := 0, 0, [];
    }

    function Value(): RerrHeader
      reads this
    {
      RerrHeader(flag, reserved, unreachableDstSeqNo)
    }

    /** The source asserts, for a destination not yet listed, that the 8-bit count is below 255. */
    method AddUnDestination(dst: Addr, seqNo: u32) returns (ok: bool)
      requires HasKey(unreachableDstSeqNo, dst) || DestCount(Value()) < 255
      modifies this`unreachableDstSeqNo
      ensures ok && unreachableDstSeqNo == Insert(old(unreachableDstSeqNo), dst, seqNo)
    {
      if HasKey(unreachableDstSeqNo, dst) {
        InsertKnown(unreachableDstSeqNo, dst, seqNo);
        return true;
      }
      unreachableDstSeqNo := Insert(unreachableDstSeqNo, dst, seqNo);
      return true;
    }

    method RemoveUnDestination() returns (un: Option<(Addr, u32)>)
      modifies this`unreachableDstSeqNo
      ensures if old(unreachableDstSeqNo) == [] then un == None && unreachableDstSeqNo == []
              else un == Some(old(unreachableDstSeqNo)[0]) && unreachableDstSeqNo == old(unreachableDstSeqNo)[1..]
    {
      if unreachableDstSeqNo == [] {
        return None;
      }
      un := Some(unreachableDstSeqNo[0]);
      unreachableDstSeqNo := unreachableDstSeqNo[1..];
    }

    method Clear()
      modifies this
      ensures Value() == RerrHeader(0, 0, [])
    {
      unreachableDstSeqNo, flag, reserved := [], 0, 0;
    }

    method Serialize(w: Writer)
      modifies w
      ensures w.data == old(w.data) + EncodeRerr(Value())
    {
      hide U32, EncodePairs;
      w.WriteU8(flag);
      w.WriteU8(reserved);
      w.WriteU8(DestCount(Value()));
      ghost var start := w.data;
      assert start == old(w.data) + [flag, reserved, DestCount(Value())];
      SerializePairs(w);
    }

    /** The loop over the map, in ascending order of address. */
    method SerializePairs(w: Writer)
      modifies w
      ensures w.data == old(w.data) + EncodePairs(unreachableDstSeqNo)
    {
      hide U32, EncodePairs;
      NothingEncoded(unreachableDstSeqNo);
      for j := 0 to |unreachableDstSeqNo|
        invariant w.data == old(w.data) + EncodePairs(unreachableDstSeqNo[..j])
      {
        EncodeNext(unreachableDstSeqNo, j);
        w.WriteHtonU32(unreachableDstSeqNo[j].0);
        w.WriteHtonU32(unreachableDstSeqNo[j].1);
      }
      assert unreachableDstSeqNo[..|unreachableDstSeqNo|] == unreachableDstSeqNo;
    }

    /** ok is the closing assertion of the source: the bytes read are as many as the header now takes. */
    method Deserialize(r: Reader) returns (ok: bool)
      requires r.pos + 3 <= |r.data| && r.pos + 3 + 8 * Length(r.data[r.pos + 2]) <= |r.data|
      modifies this, r
      ensures r.pos == old(r.pos) + 3 + 8 * Length(r.data[old(r.pos) + 2])
      ensures DecodeRerr(r.data, old(r.pos)) == if ok then Message(RERR(Value()), r.pos - old(r.pos)) else SizeMismatch
    {
      hide ReadU32, DecodePairs, Insert;
      var start := r.pos;
      NoPairs(r.data, start + 3);
      flag := r.ReadU8();
      reserved := r.ReadU8();
      var dest := r.ReadU8();
      unreachableDstSeqNo := [];
      for k := 0 to dest
        invariant r.pos == start + 3 + 8 * k
        invariant flag == r.data[start] && reserved == r.data[start + 1]
        invariant unreachableDstSeqNo == DecodePairs(r.data, start + 3, k)
      {
        DecodeNext(r.data, start + 3, k);
        var address := r.ReadNtohU32();
        var seqNo := r.ReadNtohU32();
        unreachableDstSeqNo := Insert(unreachableDstSeqNo, address, seqNo);
      }
      ok := r.pos - start == SerializedSize(RERR(Value()));
    }
  }

  method SerializeType(h: Header, w: Writer)
    modifies w
    ensures w.data == old(w.data) + [TypeByte(h)]
  {
    w.WriteU8(TypeByte(h));
  }

  /** valid says whether the byte is one of the four message types. */
  method DeserializeType(r: Reader) returns (t: byte, valid: bool)
    requires r.pos < |r.data|
    modifies r
    ensures t == r.data[old(r.pos)] && r.pos == old(r.pos) + 1 && (valid <==> 1 <= t <= 4)
  {
    t := r.ReadU8();
    valid := t == 1 || t == 2 || t == 3 || t == 4;
  }

  /** A message as it is sent: the type byte in front of the header. */
  method WriteMessage(h: Header, w: Writer)
    modifies w
    ensures w.data == old(w.data) + Encode(h)
  {
    hide U32, EncodeRreq, EncodeRrep, EncodeRerr;
    SerializeType(h, w);
    match h {
      case RREQ(rreq) => SerializeRreq(rreq, w);
      case RREP(rrep) => SerializeRrep(rrep, w);
      case RERR(value) =>
        var rerr := new Rerr();
        rerr.flag, rerr.reserved, rerr.unreachableDstSeqNo := value.flag, value.reserved, value.unreachable;
        rerr.Serialize(w);
      case ACK(ack) => w.WriteU8(ack.reserved);
    }
  }

  /** A message as it is received: the type decides which header reads itself from what follows. */
  method ReadMessage(r: Reader) returns (d: Decoded)
    requires r.pos == 0
    modifies r
    ensures d == Decode(r.data) && (d.Message? ==> r.pos == d.size)
  {
    hide ReadU32, DecodeRreq, DecodeRrep, DecodePairs;
    if |r.data| == 0 {
      return TooShort;
    }
    var t, valid := DeserializeType(r);
    if !valid {
      return UnknownType;
    }
    match t {
      case 1 =>
        if |r.data| < 24 {
          return TooShort;
        }
        var rreq := DeserializeRreq(r);
        d := Message(RREQ(rreq), r.pos);
      case 2 =>
        if |r.data| < 20 {
          return TooShort;
        }
        var rrep := DeserializeRrep(r);
        d := Message(RREP(rrep), r.pos);
      case 3 =>
        if |r.data| < 4 || |r.data| < 4 + 8 * Length(r.data[3]) {
          return TooShort;
        }
        var rerr := new Rerr();
        var ok := rerr.Deserialize(r);
        d := if ok then Message(RERR(rerr.Value()), r.pos) else SizeMismatch;
      case _ =>
        if |r.data| < 2 {
          return TooShort;
        }
        var reserved := r.ReadU8();
        d := Message(ACK(RrepAckHeader(reserved)), r.pos);
    }
  }

  lemma NothingEncoded(m: seq<(Addr, u32)>)
    ensures EncodePairs(m[..0]) == []
  {
  }

  lemma EncodeNext(m: seq<(Addr, u32)>, j: nat)
    requires j < |m|
    ensures EncodePairs(m[..j + 1]) == EncodePairs(m[..j]) + U32(m[j].0) + U32(m[j].1)
  {
    hide U32;
    assert m[..j + 1][..j] == m[..j];
  }

  function Length(b: byte): nat { b }

  /** Inserting a key that is there changes nothing. */
  lemma InsertKnown(m: Unreachable, k: Addr, v: u32)
    requires HasKey(m, k)
    ensures Insert(m, k, v) == m
  {
    var i :| 0 <= i < |m| && m[i].0 == k;
    InsertKnownAt(m, i, v);
  }

  lemma {:induction false} InsertKnownAt(m: Unreachable, i: nat, v: u32)
    requires i < |m|
    ensures Insert(m, m[i].0, v) == m
  {
    if i > 0 {
      hide HasKey;
      assert m == [m[0]] + m[1..] && m[0].0 < m[i].0;
      InsertKnownAt(m[1..], i - 1, v);
    }
  }
}
