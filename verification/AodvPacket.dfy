/** The AODV headers of aodv-packet.cc and their wire format (sections 5.1 to 5.4 of RFC 3561). */
module AodvPacket {
  import opened Words
  import opened Options

  datatype RreqHeader = RreqHeader(flags: byte, reserved: byte, hopCount: byte, requestID: u32, dst: Addr,
                                   dstSeqNo: u32, origin: Addr, originSeqNo: u32)

  datatype RrepHeader = RrepHeader(flags: byte, prefixSize: byte, hopCount: byte, dst: Addr,
                                   dstSeqNo: u32, origin: Addr, lifeTime: u32)

  datatype RrepAckHeader = RrepAckHeader(reserved: byte)

  /** The contents of a std::map from address to sequence number: its pairs in ascending order. */
  type Unreachable = s: seq<(Addr, u32)> | Ascending(s)

  datatype RerrHeader = RerrHeader(flag: byte, reserved: byte, unreachable: Unreachable)

  ghost predicate Ascending(s: seq<(Addr, u32)>) {
    forall i, j :: 0 <= i < j < |s| ==> s[i].0 < s[j].0
  }

  datatype Header = RREQ(rreq: RreqHeader) | RREP(rrep: RrepHeader) | RERR(rerr: RerrHeader) | ACK(ack: RrepAckHeader)

  // ----- the ordered map -----

  predicate HasKey(m: seq<(Addr, u32)>, k: Addr) {
    exists i :: 0 <= i < |m| && m[i].0 == k
  }

  /** std::map::insert: a key that is there keeps its value. */
  function Insert(m: Unreachable, k: Addr, v: u32): (r: Unreachable)
    ensures forall i :: 0 <= i < |r| ==> r[i].0 == k || HasKey(m, r[i].0)
    ensures |r| <= |m| + 1
  {
    if m == [] then [(k, v)]
    else if k < m[0].0 then
      assert forall i :: 0 <= i < |m| ==> HasKey(m, m[i].0);
      [(k, v)] + m
    else if k == m[0].0 then
      assert forall i :: 0 <= i < |m| ==> HasKey(m, m[i].0);
      m
    else
      assert forall i :: 1 <= i < |m| ==> m[i] == m[1..][i - 1];
      var rest := Insert(m[1..], k, v);
      assert forall x: Addr :: HasKey(m[1..], x) ==> HasKey(m, x) && m[0].0 < x by {
        TailKeys(m);
      }
      assert HasKey(m, m[0].0);
      [m[0]] + rest
  }

  lemma TailKeys(m: Unreachable)
    requires m != []
    ensures forall x: Addr :: HasKey(m[1..], x) ==> HasKey(m, x) && m[0].0 < x
  {
    forall x: Addr | HasKey(m[1..], x) ensures HasKey(m, x) && m[0].0 < x {
      var i :| 0 <= i < |m[1..]| && m[1..][i].0 == x;
      assert m[i + 1].0 == x;
    }
  }

  lemma {:induction false} InsertLast(m: Unreachable, k: Addr, v: u32)
    requires m == [] || m[|m| - 1].0 < k
    ensures Insert(m, k, v) == m + [(k, v)]
  {
    if m != [] {
      hide HasKey;
      var t := m[1..];
      assert m == [m[0]] + t && m[0].0 < k;
      assert t != [] ==> t[|t| - 1] == m[|m| - 1];
      InsertLast(t, k, v);
      assert Insert(m, k, v) == [m[0]] + Insert(t, k, v);
    }
  }

  // ----- encoding -----

  function U32(x: u32): (r: seq<byte>) {
    [x / 0x100_0000, x / 0x1_0000 % 0x100, x / 0x100 % 0x100, x % 0x100]
  }

  function Word(b0: int, b1: int, b2: int, b3: int): int {
    b0 * 0x100_0000 + b1 * 0x1_0000 + b2 * 0x100 + b3
  }

  function ReadU32(b: seq<byte>, i: nat): u32
    requires i + 4 <= |b|
  {
    Word(b[i], b[i + 1], b[i + 2], b[i + 3])
  }

  function EncodePairs(m: seq<(Addr, u32)>): seq<byte> {
    if m == [] then [] else EncodePairs(m[..|m| - 1]) + U32(m[|m| - 1].0) + U32(m[|m| - 1].1)
  }

  function DestCount(h: RerrHeader): byte { |h.unreachable| % TWO_8 }

  function EncodeRreq(h: RreqHeader): seq<byte> {
    [h.flags, h.reserved, h.hopCount] + U32(h.requestID) + U32(h.dst) + U32(h.dstSeqNo) + U32(h.origin)
    + U32(h.originSeqNo)
  }

  function EncodeRrep(h: RrepHeader): seq<byte> {
    [h.flags, h.prefixSize, h.hopCount] + U32(h.dst) + U32(h.dstSeqNo) + U32(h.origin) + U32(h.lifeTime)
  }

  function EncodeRerr(h: RerrHeader): seq<byte> {
    [h.flag, h.reserved, DestCount(h)] + EncodePairs(h.unreachable)
  }

  function TypeByte(h: Header): byte {
    match h
    case RREQ(_) => 1
    case RREP(_) => 2
    case RERR(_) => 3
    case ACK(_) => 4
  }

  function EncodeBody(h: Header): seq<byte> {
    match h
    case RREQ(r) => EncodeRreq(r)
    case RREP(r) => EncodeRrep(r)
    case RERR(r) => EncodeRerr(r)
    case ACK(r) => [r.reserved]
  }

  function Encode(h: Header): seq<byte> { [TypeByte(h)] + EncodeBody(h) }

  function SerializedSize(h: Header): nat {
    match h
    case RREQ(_) => 23
    case RREP(_) => 19
    case RERR(r) => 3 + 8 * DestCount(r)
    case ACK(_) => 1
  }

  // ----- decoding -----

  /** The outcome of reading one message; the last two stand for failed assertions in the source. */
  datatype Decoded = Message(header: Header, size: nat) | UnknownType | TooShort | SizeMismatch

  function DecodeRreq(b: seq<byte>, i: nat): RreqHeader
    requires i + 23 <= |b|
  {
    RreqHeader(b[i], b[i + 1], b[i + 2], ReadU32(b, i + 3), ReadU32(b, i + 7), ReadU32(b, i + 11),
               ReadU32(b, i + 15), ReadU32(b, i + 19))
  }

  function DecodeRrep(b: seq<byte>, i: nat): RrepHeader
    requires i + 19 <= |b|
  {
    RrepHeader(b[i], b[i + 1], b[i + 2], ReadU32(b, i + 3), ReadU32(b, i + 7), ReadU32(b, i + 11), ReadU32(b, i + 15))
  }

  /** The map after reading n pairs from position i. */
  function DecodePairs(b: seq<byte>, i: nat, n: nat): Unreachable
    requires i + 8 * n <= |b|
  {
    if n == 0 then []
    else Insert(DecodePairs(b, i, n - 1), ReadU32(b, i + 8 * (n - 1)), ReadU32(b, i + 8 * (n - 1) + 4))
  }

  function DecodeRerr(b: seq<byte>, i: nat): Decoded {
    if |b| < i + 3 then TooShort
    else
      var n: byte := b[i + 2];
      if |b| < i + 3 + 8 * n then TooShort
      else
        var h := RerrHeader(b[i], b[i + 1], DecodePairs(b, i + 3, n));
        if 3 + 8 * n != SerializedSize(RERR(h)) then SizeMismatch else Message(RERR(h), 3 + 8 * n)
  }

  function Decode(b: seq<byte>): Decoded {
    if b == [] then TooShort
    else match b[0]
      case 1 => if |b| < 24 then TooShort else Message(RREQ(DecodeRreq(b, 1)), 24)
      case 2 => if |b| < 20 then TooShort else Message(RREP(DecodeRrep(b, 1)), 20)
      case 3 => (match DecodeRerr(b, 1)
        case Message(h, n) => Message(h, n + 1)
        case other => other)
      case 4 => if |b| < 2 then TooShort else Message(ACK(RrepAckHeader(b[1])), 2)
      case _ => UnknownType
  }

  // ----- what stands where -----

  /** The bytes s stand in b from position i on. */
  ghost predicate At(b: seq<byte>, i: nat, s: seq<byte>) {
    i + |s| <= |b| && forall k :: 0 <= k < |s| ==> b[i + k] == s[k]
  }

  lemma AtConcat(b: seq<byte>, i: nat, s: seq<byte>, t: seq<byte>)
    ensures At(b, i, s + t) <==> At(b, i, s) && At(b, i + |s|, t)
  {
    var st := s + t;
    if At(b, i, st) {
      assert forall k :: 0 <= k < |s| ==> st[k] == s[k];
      forall k | 0 <= k < |t| ensures b[i + |s| + k] == t[k] {
        assert st[|s| + k] == t[k];
      }
    }
    if At(b, i, s) && At(b, i + |s|, t) {
      forall k | 0 <= k < |st| ensures b[i + k] == st[k] {
        if k >= |s| {
          assert b[i + |s| + (k - |s|)] == t[k - |s|];
        }
      }
    }
  }

  lemma AtSlice(b: seq<byte>, i: nat, s: seq<byte>)
    requires At(b, i, s)
    ensures b[i..i + |s|] == s
  {
  }

  lemma WordBytes(b0: int, b1: int, b2: int, b3: int)
    requires 0 <= b0 < 0x100 && 0 <= b1 < 0x100 && 0 <= b2 < 0x100 && 0 <= b3 < 0x100
    ensures var x := Word(b0, b1, b2, b3);
      && 0 <= x < TWO_32 && x / 0x100_0000 == b0
      && x / 0x1_0000 % 0x100 == b1 && x / 0x100 % 0x100 == b2 && x % 0x100 == b3
  {
    var x := Word(b0, b1, b2, b3);
    assert x / 0x100 == b0 * 0x1_0000 + b1 * 0x100 + b2;
    assert x / 0x1_0000 == b0 * 0x100 + b1;
    assert x / 0x100_0000 == b0;
  }

  lemma BytesWord(x: u32)
    ensures Word(x / 0x100_0000, x / 0x1_0000 % 0x100, x / 0x100 % 0x100, x % 0x100) == x
  {
    var q1 := x / 0x100;
    var q2 := q1 / 0x100;
    assert x / 0x1_0000 == q2 && x / 0x100_0000 == q2 / 0x100;
    assert x == 0x100 * q1 + x % 0x100 && q1 == 0x100 * q2 + q1 % 0x100 && q2 == 0x100 * (q2 / 0x100) + q2 % 0x100;
  }

  /** A word reads back as written, and no other bytes read as it. */
  lemma WordAt(b: seq<byte>, i: nat, x: u32)
    requires i + 4 <= |b|
    ensures At(b, i, U32(x)) <==> ReadU32(b, i) == x
  {
    BytesWord(x);
    WordBytes(b[i], b[i + 1], b[i + 2], b[i + 3]);
    var w := U32(x);
    if At(b, i, w) {
      assert b[i + 0] == w[0] && b[i + 1] == w[1] && b[i + 2] == w[2] && b[i + 3] == w[3];
    }
  }

  // ----- round trips -----

  lemma {:induction false} PairsSize(m: seq<(Addr, u32)>)
    ensures |EncodePairs(m)| == 8 * |m|
  {
    if m != [] {
      PairsSize(m[..|m| - 1]);
    }
  }

  lemma U32Size(x: u32)
    ensures |U32(x)| == 4
  {
  }

  lemma EncodedLast(m: seq<(Addr, u32)>)
    requires m != []
    ensures EncodePairs(m) == EncodePairs(m[..|m| - 1]) + U32(m[|m| - 1].0) + U32(m[|m| - 1].1)
  {
  }

  /** The last pair of an encoded map, and the encoding of the others before it. */
  lemma LastPair(m: seq<(Addr, u32)>, b: seq<byte>, i: nat)
    requires m != []
    ensures |EncodePairs(m)| == 8 * |m|
    ensures var n := |m| - 1;
      At(b, i, EncodePairs(m)) <==>
        && At(b, i, EncodePairs(m[..n])) && i + 8 * n + 8 <= |b|
        && ReadU32(b, i + 8 * n) == m[n].0 && ReadU32(b, i + 8 * n + 4) == m[n].1
  {
    hide U32, ReadU32, EncodePairs;
    var n := |m| - 1;
    EncodedLast(m);
    PairsSize(m[..n]);
    U32Size(m[n].0);
    U32Size(m[n].1);
    AtConcat(b, i, EncodePairs(m[..n]) + U32(m[n].0), U32(m[n].1));
    AtConcat(b, i, EncodePairs(m[..n]), U32(m[n].0));
    if i + 8 * n + 8 <= |b| {
      WordAt(b, i + 8 * n, m[n].0);
      WordAt(b, i + 8 * n + 4, m[n].1);
    }
  }

  lemma DecodeNext(b: seq<byte>, i: nat, n: nat)
    requires i + 8 * n + 8 <= |b|
    ensures DecodePairs(b, i, n + 1) == Insert(DecodePairs(b, i, n), ReadU32(b, i + 8 * n), ReadU32(b, i + 8 * n + 4))
    ensures DecodePairs(b, i, 0) == []
  {
  }

  lemma NoPairs(b: seq<byte>, i: nat)
    requires i <= |b|
    ensures DecodePairs(b, i, 0) == []
  {
  }

  /** Reading an encoded ascending map back, pair by pair. */
  lemma {:induction false} PairsDecoded(m: Unreachable, b: seq<byte>, i: nat)
    requires At(b, i, EncodePairs(m))
    ensures i + 8 * |m| <= |b| && DecodePairs(b, i, |m|) == m
    decreases |m|, 1
  {
    if m == [] {
      NoPairs(b, i);
    } else {
      hide U32, ReadU32, At, EncodePairs, DecodePairs, Insert, Ascending;
      LastPair(m, b, i);
      PairsDecodedFromLast(m, b, i);
    }
  }

  /** The step: the pairs before the last, and then the last. */
  lemma {:induction false} PairsDecodedFromLast(m: Unreachable, b: seq<byte>, i: nat)
    requires m != [] && At(b, i, EncodePairs(m[..|m| - 1])) && i + 8 * |m| <= |b|
    requires ReadU32(b, i + 8 * (|m| - 1)) == m[|m| - 1].0 && ReadU32(b, i + 8 * (|m| - 1) + 4) == m[|m| - 1].1
    ensures DecodePairs(b, i, |m|) == m
    decreases |m|, 0
  {
    hide U32, ReadU32, At, EncodePairs, DecodePairs, Insert, Ascending;
    var n := |m| - 1;
    LastIsLargest(m);
    PairsDecoded(m[..n], b, i);
    PairAppended(m[..n], m[n].0, m[n].1, b, i, n);
  }

  lemma LastIsLargest(m: Unreachable)
    requires m != []
    ensures var n := |m| - 1;
      && Ascending(m[..n]) && m == m[..n] + [(m[n].0, m[n].1)]
      && (m[..n] == [] || m[..n][n - 1].0 < m[n].0)
  {
  }

  lemma PairAppended(before: Unreachable, k: Addr, v: u32, b: seq<byte>, i: nat, n: nat)
    requires i + 8 * n + 8 <= |b| && DecodePairs(b, i, n) == before
    requires ReadU32(b, i + 8 * n) == k && ReadU32(b, i + 8 * n + 4) == v
    requires before == [] || before[|before| - 1].0 < k
    ensures DecodePairs(b, i, n + 1) == before + [(k, v)]
  {
    hide ReadU32, DecodePairs, Insert, Ascending;
    DecodeNext(b, i, n);
    InsertLast(before, k, v);
  }

  lemma {:induction false} AddressDecoded(m: seq<(Addr, u32)>, b: seq<byte>, i: nat, k: nat)
    requires At(b, i, EncodePairs(m)) && k < |m|
    ensures i + 8 * k + 8 <= |b| && ReadU32(b, i + 8 * k) == m[k].0
  {
    hide U32, ReadU32, At, EncodePairs;
    LastPair(m, b, i);
    if k < |m| - 1 {
      AddressDecoded(m[..|m| - 1], b, i, k);
    }
  }

  /** GetSerializedSize is the length of the body, as long as a RERR has at most 255 destinations. */
  lemma SizeIsLength(h: Header)
    requires h.RERR? ==> |h.rerr.unreachable| < TWO_8
    ensures |EncodeBody(h)| == SerializedSize(h)
  {
    if h.RERR? {
      PairsSize(h.rerr.unreachable);
    }
  }

  /** Four or five words after three bytes: the shape of RREQ and RREP. */
  lemma WordsAt(b: seq<byte>, i: nat, s: seq<byte>, x: u32)
    requires At(b, i, s + U32(x))
    ensures At(b, i, s) && i + |s| + 4 <= |b| && ReadU32(b, i + |s|) == x
  {
    hide U32, ReadU32;
    U32Size(x);
    AtConcat(b, i, s, U32(x));
    WordAt(b, i + |s|, x);
  }

  lemma RreqRoundTrip(h: RreqHeader, b: seq<byte>, i: nat)
    requires i + 23 <= |b| && At(b, i, EncodeRreq(h))
    ensures DecodeRreq(b, i) == h
  {
    hide U32, ReadU32;
    var s0 := [h.flags, h.reserved, h.hopCount];
    var s1 := s0 + U32(h.requestID);
    var s2 := s1 + U32(h.dst);
    var s3 := s2 + U32(h.dstSeqNo);
    var s4 := s3 + U32(h.origin);
    U32Size(h.requestID); U32Size(h.dst); U32Size(h.dstSeqNo); U32Size(h.origin);
    WordsAt(b, i, s4, h.originSeqNo);
    WordsAt(b, i, s3, h.origin);
    WordsAt(b, i, s2, h.dstSeqNo);
    WordsAt(b, i, s1, h.dst);
    WordsAt(b, i, s0, h.requestID);
    assert b[i + 0] == s0[0] && b[i + 1] == s0[1] && b[i + 2] == s0[2];
  }

  lemma RrepRoundTrip(h: RrepHeader, b: seq<byte>, i: nat)
    requires i + 19 <= |b| && At(b, i, EncodeRrep(h))
    ensures DecodeRrep(b, i) == h
  {
    hide U32, ReadU32;
    var s0 := [h.flags, h.prefixSize, h.hopCount];
    var s1 := s0 + U32(h.dst);
    var s2 := s1 + U32(h.dstSeqNo);
    var s3 := s2 + U32(h.origin);
    U32Size(h.dst); U32Size(h.dstSeqNo); U32Size(h.origin);
    WordsAt(b, i, s3, h.lifeTime);
    WordsAt(b, i, s2, h.origin);
    WordsAt(b, i, s1, h.dstSeqNo);
    WordsAt(b, i, s0, h.dst);
    assert b[i + 0] == s0[0] && b[i + 1] == s0[1] && b[i + 2] == s0[2];
  }

  lemma RerrRoundTrip(h: RerrHeader, b: seq<byte>, i: nat)
    requires |h.unreachable| < TWO_8 && At(b, i, EncodeRerr(h))
    ensures DecodeRerr(b, i) == Message(RERR(h), 3 + 8 * |h.unreachable|)
  {
    hide U32, ReadU32, EncodePairs, DecodePairs;
    var n, s0 := |h.unreachable|, [h.flag, h.reserved, DestCount(h)];
    PairsSize(h.unreachable);
    AtConcat(b, i, s0, EncodePairs(h.unreachable));
    assert b[i + 0] == s0[0] && b[i + 1] == s0[1] && b[i + 2] == s0[2];
    PairsDecoded(h.unreachable, b, i + 3);
  }

  lemma EncodedAt(h: Header, tail: seq<byte>)
    ensures At(Encode(h) + tail, 1, EncodeBody(h)) && (Encode(h) + tail)[0] == TypeByte(h)
  {
    hide EncodeBody;
  }

  /** Decoding what was encoded gives back the header, reads exactly its bytes, and leaves what follows alone. */
  lemma RoundTrip(h: Header, tail: seq<byte>)
    requires h.RERR? ==> |h.rerr.unreachable| < TWO_8
    ensures |Encode(h)| == 1 + SerializedSize(h)
    ensures Decode(Encode(h) + tail) == Message(h, 1 + SerializedSize(h))
  {
    hide U32, ReadU32, Encode;
    var b := Encode(h) + tail;
    EncodedAt(h, tail);
    SizeIsLength(h);
    EncodeSize(h);
    match h
    case RREQ(r) => RreqRoundTrip(r, b, 1);
    case RREP(r) => RrepRoundTrip(r, b, 1);
    case RERR(r) => RerrRoundTrip(r, b, 1);
    case ACK(r) => assert b[1 + 0] == EncodeBody(h)[0];
  }

  lemma EncodeSize(h: Header)
    ensures |Encode(h)| == 1 + |EncodeBody(h)|
  {
  }

  lemma {:induction false} DecodedPairsCount(b: seq<byte>, i: nat, n: nat)
    requires i + 8 * n <= |b|
    ensures |DecodePairs(b, i, n)| <= n
  {
    if n > 0 {
      DecodedPairsCount(b, i, n - 1);
    }
  }

  /** With more than 255 destinations the 8-bit count wraps, and the RERR never comes back as it was. */
  lemma TooManyDestinations(h: RerrHeader, tail: seq<byte>)
    requires |h.unreachable| >= TWO_8
    ensures forall n :: Decode(Encode(RERR(h)) + tail) != Message(RERR(h), n)
  {
    hide U32, ReadU32;
    var b := Encode(RERR(h)) + tail;
    if DecodeRerr(b, 1).Message? {
      DecodedPairsCount(b, 4, b[3]);
    }
  }

  // ----- which byte strings are encodings -----

  /** The k-th address in a RERR body. */
  function AddressAt(b: seq<byte>, k: nat): Addr
    requires 3 + 8 * k + 4 <= |b|
  {
    ReadU32(b, 3 + 8 * k)
  }

  ghost predicate AddressesAscend(b: seq<byte>, n: nat)
    requires |b| >= 3 + 8 * n
  {
    forall j, k :: 0 <= j < k < n ==> AddressAt(b, j) < AddressAt(b, k)
  }

  /** The pairs as they stand in the bytes. */
  function PairsAsWritten(b: seq<byte>, n: nat): (m: seq<(Addr, u32)>)
    requires |b| >= 3 + 8 * n
    ensures |m| == n
  {
    if n == 0 then []
    else PairsAsWritten(b, n - 1) + [(ReadU32(b, 3 + 8 * (n - 1)), ReadU32(b, 3 + 8 * (n - 1) + 4))]
  }

  lemma {:induction false} WrittenAt(b: seq<byte>, n: nat)
    requires |b| >= 3 + 8 * n
    ensures At(b, 3, EncodePairs(PairsAsWritten(b, n)))
  {
    if n > 0 {
      hide U32, ReadU32, At, EncodePairs;
      var m := PairsAsWritten(b, n);
      WrittenAt(b, n - 1);
      assert m[..n - 1] == PairsAsWritten(b, n - 1);
      LastPair(m, b, 3);
    }
  }

  /** The destination count of a RERR body. */
  function CountIn(b: seq<byte>): nat
    requires |b| >= 3
  {
    b[2]
  }

  lemma AscendingEncodes(b: seq<byte>) returns (h: RerrHeader)
    requires |b| >= 3 && |b| == 3 + 8 * CountIn(b) && AddressesAscend(b, CountIn(b))
    ensures |h.unreachable| == CountIn(b) && EncodeRerr(h) == b
  {
    hide U32, ReadU32, EncodePairs;
    var n := CountIn(b);
    var m := PairsAsWritten(b, n);
    WrittenAt(b, n);
    forall j, k | 0 <= j < k < n ensures m[j].0 < m[k].0 {
      AddressDecoded(m, b, 3, j);
      AddressDecoded(m, b, 3, k);
      assert AddressAt(b, j) < AddressAt(b, k);
    }
    h := RerrHeader(b[0], b[1], m);
    PairsSize(m);
    AtSlice(b, 3, EncodePairs(m));
  }

  lemma EncodedAscends(h: RerrHeader, b: seq<byte>)
    requires |h.unreachable| < TWO_8 && EncodeRerr(h) == b
    ensures |b| == 3 + 8 * CountIn(b) && AddressesAscend(b, CountIn(b))
  {
    hide U32, ReadU32, EncodePairs;
    var m := h.unreachable;
    PairsSize(m);
    AtConcat(b, 0, [h.flag, h.reserved, DestCount(h)], EncodePairs(m));
    forall j, k | 0 <= j < k < |m| ensures AddressAt(b, j) < AddressAt(b, k) {
      AddressDecoded(m, b, 3, j);
      AddressDecoded(m, b, 3, k);
    }
  }

  /** RERR bodies are exactly the byte strings of the announced length whose addresses strictly ascend. */
  lemma RerrEncodings(b: seq<byte>)
    requires |b| >= 3
    ensures (exists h: RerrHeader :: |h.unreachable| < TWO_8 && EncodeRerr(h) == b) <==>
      |b| == 3 + 8 * CountIn(b) && AddressesAscend(b, CountIn(b))
  {
    if |b| == 3 + 8 * CountIn(b) && AddressesAscend(b, CountIn(b)) {
      var h := AscendingEncodes(b);
    }
    if h: RerrHeader :| |h.unreachable| < TWO_8 && EncodeRerr(h) == b {
      EncodedAscends(h, b);
    }
  }

  // ----- the layout of sections 5.1 to 5.4 of RFC 3561 -----

  /** The 32 bits from byte i on, most significant first. */
  predicate Field(b: seq<byte>, i: nat, x: u32) {
    i + 4 <= |b| &&
    var b0: int, b1: int, b2: int, b3: int := b[i], b[i + 1], b[i + 2], b[i + 3];
    x == 16777216 * b0 + 65536 * b1 + 256 * b2 + b3
  }

  lemma FieldAt(b: seq<byte>, i: nat, x: u32)
    requires i + 4 <= |b| && b[i..i + 4] == U32(x)
    ensures Field(b, i, x)
  {
    BytesWord(x);
    var w := b[i..i + 4];
    assert w[0] == b[i] && w[1] == b[i + 1] && w[2] == b[i + 2] && w[3] == b[i + 3];
  }

  lemma RreqLayout(h: RreqHeader)
    ensures var b := Encode(RREQ(h));
      && |b| == 24 && b[0] == 1 && b[1] == h.flags && b[2] == h.reserved && b[3] == h.hopCount
      && Field(b, 4, h.requestID) && Field(b, 8, h.dst) && Field(b, 12, h.dstSeqNo) && Field(b, 16, h.origin)
      && Field(b, 20, h.originSeqNo)
  {
    hide U32, Field;
    var b := Encode(RREQ(h));
    WordSizes(h.requestID, h.dst, h.dstSeqNo, h.origin, h.originSeqNo);
    assert b[4..8] == U32(h.requestID) && b[8..12] == U32(h.dst) && b[12..16] == U32(h.dstSeqNo)
      && b[16..20] == U32(h.origin) && b[20..24] == U32(h.originSeqNo);
    FieldAt(b, 4, h.requestID);
    FieldAt(b, 8, h.dst);
    FieldAt(b, 12, h.dstSeqNo);
    FieldAt(b, 16, h.origin);
    FieldAt(b, 20, h.originSeqNo);
  }

  lemma WordSizes(v: u32, w: u32, x: u32, y: u32, z: u32)
    ensures |U32(v)| == 4 && |U32(w)| == 4 && |U32(x)| == 4 && |U32(y)| == 4 && |U32(z)| == 4
  {
  }

  lemma RrepLayout(h: RrepHeader)
    ensures var b := Encode(RREP(h));
      && |b| == 20 && b[0] == 2 && b[1] == h.flags && b[2] == h.prefixSize && b[3] == h.hopCount
      && Field(b, 4, h.dst) && Field(b, 8, h.dstSeqNo) && Field(b, 12, h.origin) && Field(b, 16, h.lifeTime)
  {
    hide U32, Field;
    var b := Encode(RREP(h));
    WordSizes(h.dst, h.dstSeqNo, h.origin, h.lifeTime, 0);
    assert b[4..8] == U32(h.dst) && b[8..12] == U32(h.dstSeqNo) && b[12..16] == U32(h.origin)
      && b[16..20] == U32(h.lifeTime);
    FieldAt(b, 4, h.dst);
    FieldAt(b, 8, h.dstSeqNo);
    FieldAt(b, 12, h.origin);
    FieldAt(b, 16, h.lifeTime);
  }

  /** The i-th unreachable destination and its number. */
  lemma {:induction false} PairsLayout(m: seq<(Addr, u32)>, b: seq<byte>, start: nat, i: nat)
    requires At(b, start, EncodePairs(m)) && i < |m|
    ensures Field(b, start + 8 * i, m[i].0) && Field(b, start + 8 * i + 4, m[i].1)
  {
    var n := |m| - 1;
    LastPair(m, b, start);
    if i < n {
      PairsLayout(m[..n], b, start, i);
    }
  }

  lemma RerrLayout(h: RerrHeader)
    ensures var b := Encode(RERR(h));
      && |b| == 4 + 8 * |h.unreachable| && b[0] == 3 && b[1] == h.flag && b[2] == h.reserved
      && b[3] == |h.unreachable| % 256
      && forall i :: 0 <= i < |h.unreachable| ==>
           Field(b, 4 + 8 * i, h.unreachable[i].0) && Field(b, 8 + 8 * i, h.unreachable[i].1)
    ensures forall ack :: Encode(ACK(ack)) == [4, ack.reserved]
  {
    hide Field;
    var b := Encode(RERR(h));
    PairsSize(h.unreachable);
    assert At(b, 4, EncodePairs(h.unreachable));
    forall i | 0 <= i < |h.unreachable|
      ensures Field(b, 4 + 8 * i, h.unreachable[i].0) && Field(b, 8 + 8 * i, h.unreachable[i].1)
    {
      PairsLayout(h.unreachable, b, 4, i);
    }
  }
}
