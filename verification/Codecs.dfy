/** The payload patterns that make bit flips visible. */
module Salts {
  import opened Machine

  /** The four salt patterns. */
  function Salt(seqNo: u64, n: nat): (s: seq<u8>)
    ensures |s| == n
  {
    match seqNo % 4
    case 0 => seq(n, _ => 0xff)
    case 1 => seq(n, _ => 0)
    case 2 => seq(n, _ => 0x5a)
    case _ => seq(n, i => if i / 2 % 2 == 0 then 0xaa else 0x55)
  }

  /** The bytes of the patterns: all ones, all zeros, 01011010, and two-byte words that are complements. */
  lemma SaltBytes(seqNo: u64, n: nat, i: nat)
    requires i < n
    ensures Salt(seqNo, n)[i] ==
      if seqNo % 4 == 0 then 255 else if seqNo % 4 == 1 then 0 else if seqNo % 4 == 2 then 90
      else if i % 4 == 0 || i % 4 == 1 then 170 else 85
  {
  }
}

/** The sonar probe packet: a 32-byte header and a salt. */
module SonarCodec {
  import opened Machine
  import opened ByteOrder
  import opened Salts

  const MAGIC: seq<u8> := [0x43, 0x48, 0x41, 0x4f, 0x4f, 0x41, 0x48, 0x43]
  const HEADER := 32

  datatype Header = Header(seqNo: u64, ts: i64, lastSent: u32, lastSrc: u16, lastDst: u16)

  const ZERO := Header(0, 0, 0, 0, 0)

  /** Magic, number, timestamp and count. */
  function FrontBytes(h: Header): (b: seq<u8>)
    ensures |b| == 28
  {
    MAGIC + Bytes(h.seqNo, 8) + Bytes(ToUnsigned(h.ts), 8) + Bytes(h.lastSent, 4)
  }

  function HeaderBytes(h: Header): (b: seq<u8>)
    ensures |b| == HEADER
  {
    FrontBytes(h) + Bytes(h.lastSrc, 2) + Bytes(h.lastDst, 2)
  }

  function Length(msgLen: int): (n: nat) {
    if msgLen < HEADER then HEADER else msgLen
  }

  function Encoded(h: Header, salt: seq<u8>, msgLen: int): (b: seq<u8>)
    ensures |b| == Length(msgLen)
  {
    HeaderBytes(h) + Fill(salt, Length(msgLen) - HEADER)
  }

  method WriteFront(data: array<u8>, h: Header)
    requires data.Length >= HEADER && data[..] == Zeros(data.Length)
    modifies data
    ensures data[..] == FrontBytes(h) + Zeros(data.Length - 28)
  {
    assert data[..] == [] + Zeros(data.Length);
    Write(data, [], 0, 8, MAGIC);
    ghost var done := MAGIC;
    assert [] + Fill(MAGIC, 8) == MAGIC;
    var field := Bytes(h.seqNo, 8);
    Write(data, done, 8, 8, field);
    done := done + field;
    field := Bytes(ToUnsigned(h.ts), 8);
    Write(data, done, 16, 8, field);
    Write(data, done + field, 24, 4, Bytes(h.lastSent, 4));
  }

  /** Builds the packet in a fresh buffer, field by field at fixed offsets. */
  method Encode(h: Header, salt: seq<u8>, msgLen: int) returns (data: array<u8>)
    ensures fresh(data) && data[..] == Encoded(h, salt, msgLen)
  {
    var n := Length(msgLen);
    data := new u8[n](_ => 0);
    WriteFront(data, h);
    ghost var done := FrontBytes(h);
    var field := Bytes(h.lastSrc, 2);
    Write(data, done, 28, 2, field);
    done := done + field;
    Write(data, done, 30, 2, Bytes(h.lastDst, 2));
    if n > HEADER {
      Write(data, HeaderBytes(h), HEADER, n - HEADER, salt);
    }
    assert Zeros(0) == [] && (n == HEADER ==> Fill(salt, 0) == []);
  }

  /** Zero values when the data is too short. */
  function Decode(data: seq<u8>): (h: Header) {
    if |data| < HEADER then ZERO else
      Header(U64(data[8..16]), ToSigned(U64(data[16..24])), U32(data[24..28]), U16(data[28..30]), U16(data[30..32]))
  }

  predicate IsValid(data: seq<u8>) { |data| >= HEADER && data[..8] == MAGIC }

  /** Decoding an encoded packet returns every field. */
  lemma DecodeEncoded(h: Header, salt: seq<u8>, msgLen: int)
    ensures var b := Encoded(h, salt, msgLen); IsValid(b) && Decode(b) == h && b[HEADER..] == Fill(salt, Length(msgLen) - HEADER)
  {
    var b := Encoded(h, salt, msgLen);
    assert b[..8] == MAGIC && b[8..16] == Bytes(h.seqNo, 8) && b[16..24] == Bytes(ToUnsigned(h.ts), 8);
    assert b[24..28] == Bytes(h.lastSent, 4) && b[28..30] == Bytes(h.lastSrc, 2) && b[30..32] == Bytes(h.lastDst, 2);
    FieldRoundTrip(h.seqNo, 8);
    FieldRoundTrip(ToUnsigned(h.ts), 8);
    FieldRoundTrip(h.lastSent, 4);
    FieldRoundTrip(h.lastSrc, 2);
    FieldRoundTrip(h.lastDst, 2);
  }

  /** Encoding a valid packet's fields again, with its tail as salt, gives the same bytes. */
  lemma EncodeDecoded(data: seq<u8>)
    requires IsValid(data)
    ensures Encoded(Decode(data), data[HEADER..], |data|) == data
  {
    FieldBack(data[8..16]);
    FieldBack(data[16..24]);
    FieldBack(data[24..28]);
    FieldBack(data[28..30]);
    FieldBack(data[30..32]);
    Cut(data, 8, 16);
    Cut(data, 16, 24);
    Cut(data, 24, 28);
    Cut(data, 28, 30);
    Cut(data, 30, 32);
    assert data == data[..32] + data[32..];
  }

  /** Where each field lies on the wire, high byte first: magic, number, time, count and the two ports. */
  lemma WireFormat(h: Header, salt: seq<u8>, msgLen: int)
    ensures var b := Encoded(h, salt, msgLen);
      && |b| == (if msgLen < 32 then 32 else msgLen)
      && b[..8] == [67, 72, 65, 79, 79, 65, 72, 67]
      && BigEndian(b[8..16]) == h.seqNo
      && BigEndian(b[16..24]) == (if h.ts < 0 then h.ts + 0x1_0000_0000_0000_0000 else h.ts)
      && BigEndian(b[24..28]) == h.lastSent && BigEndian(b[28..30]) == h.lastSrc && BigEndian(b[30..32]) == h.lastDst
      && b[32..] == Fill(salt, |b| - 32)
  {
    DecodeEncoded(h, salt, msgLen);
  }

  // ----- bit flips -----

  /** The receiver's check: the tail of a packet of the configured length is not the salt. */
  predicate HasBitflip(data: seq<u8>, msgLen: int) {
    |data| >= HEADER && |data| == Length(msgLen) && data[HEADER..] != Salt(Decode(data).seqNo, |data| - HEADER)
  }

  /** A packet of another length is not checked. */
  lemma FlippedIff(data: seq<u8>, msgLen: int)
    ensures HasBitflip(data, msgLen)
       <==> |data| == msgLen && msgLen >= 32 && data[32..] != Salt(Decode(data).seqNo, msgLen - 32)
  {
  }

  /** A valid packet of the configured length passes the check exactly when it is one the client builds. */
  lemma IntactIff(data: seq<u8>, msgLen: int)
    requires IsValid(data) && |data| == Length(msgLen)
    ensures !HasBitflip(data, msgLen)
       <==> exists h: Header :: data == Encoded(h, Salt(h.seqNo, Length(msgLen) - HEADER), msgLen)
  {
    if !HasBitflip(data, msgLen) {
      EncodeDecoded(data);
      var h := Decode(data);
      assert data == Encoded(h, Salt(h.seqNo, Length(msgLen) - HEADER), msgLen);
    }
    forall h: Header | data == Encoded(h, Salt(h.seqNo, Length(msgLen) - HEADER), msgLen) ensures !HasBitflip(data, msgLen) {
      DecodeEncoded(h, Salt(h.seqNo, Length(msgLen) - HEADER), msgLen);
    }
  }
}

/** The kuiniu probe packet: a 44-byte header with addresses and ports, and a salt. */
module KuiniuCodec {
  import opened Machine
  import opened ByteOrder
  import opened Salts

  const MAGIC: seq<u8> := [0x4b, 0x55, 0x49, 0x4e, 0x49, 0x55, 0x54, 0x43]
  const HEADER := 44

  datatype Header = Header(
    seqNo: u64, ts: i64, lastSent: u32, srcIP: seq<u8>, dstIP: seq<u8>,
    srcPort: u16, dstPort: u16, lastSrc: u16, lastDst: u16)

  const ZERO := Header(0, 0, 0, [], [], 0, 0, 0, 0)

  /** Magic, number, timestamp, count and addresses. */
  function FrontBytes(h: Header): (b: seq<u8>)
    ensures |b| == 36
  {
    MAGIC + Bytes(h.seqNo, 8) + Bytes(ToUnsigned(h.ts), 8) + Bytes(h.lastSent, 4) + Fill(h.srcIP, 4) + Fill(h.dstIP, 4)
  }

  function HeaderBytes(h: Header): (b: seq<u8>)
    ensures |b| == HEADER
  {
    FrontBytes(h) + Bytes(h.srcPort, 2) + Bytes(h.dstPort, 2) + Bytes(h.lastSrc, 2) + Bytes(h.lastDst, 2)
  }

  function Length(msgLen: int): (n: nat) {
    if msgLen < HEADER then HEADER else msgLen
  }

  function Encoded(h: Header, salt: seq<u8>, msgLen: int): (b: seq<u8>)
    ensures |b| == Length(msgLen)
  {
    HeaderBytes(h) + Fill(salt, Length(msgLen) - HEADER)
  }

  method WriteFront(data: array<u8>, h: Header) returns (off: nat)
    requires data.Length >= HEADER && data[..] == Zeros(data.Length)
    modifies data
    ensures off == 36 && data[..] == FrontBytes(h) + Zeros(data.Length - off)
  {
    assert data[..] == [] + Zeros(data.Length);
    ghost var done;
    off, done := Append(data, [], 0, 8, MAGIC);
    assert done == MAGIC;
    off, done := Append(data, done, off, 8, Bytes(h.seqNo, 8));
    off, done := Append(data, done, off, 8, Bytes(ToUnsigned(h.ts), 8));
    off, done := Append(data, done, off, 4, Bytes(h.lastSent, 4));
    off, done := Append(data, done, off, 4, h.srcIP);
    off, done := Append(data, done, off, 4, h.dstIP);
  }

  method WritePorts(data: array<u8>, h: Header, start: nat) returns (off: nat)
    requires data.Length >= HEADER && start == 36 && data[..] == FrontBytes(h) + Zeros(data.Length - start)
    modifies data
    ensures off == HEADER && data[..] == HeaderBytes(h) + Zeros(data.Length - off)
  {
    ghost var done;
    off, done := Append(data, FrontBytes(h), start, 2, Bytes(h.srcPort, 2));
    off, done := Append(data, done, off, 2, Bytes(h.dstPort, 2));
    off, done := Append(data, done, off, 2, Bytes(h.lastSrc, 2));
    off, done := Append(data, done, off, 2, Bytes(h.lastDst, 2));
  }

  /** Builds the packet in a fresh buffer, advancing one offset. */
  method Encode(h: Header, salt: seq<u8>, msgLen: int) returns (data: array<u8>)
    ensures fresh(data) && data[..] == Encoded(h, salt, msgLen)
  {
    var n := Length(msgLen);
    data := new u8[n](_ => 0);
    var off := WriteFront(data, h);
    off := WritePorts(data, h, off);
    if n > HEADER {
      ghost var done;
      off, done := Append(data, HeaderBytes(h), off, n - HEADER, salt);
    }
    assert Zeros(0) == [] && (n == HEADER ==> Fill(salt, 0) == []);
  }

  /** Copies one field to the running offset and moves the offset on. */
  method Append(data: array<u8>, ghost done: seq<u8>, off: nat, width: nat, field: seq<u8>) returns (next: nat, ghost done': seq<u8>)
    requires off == |done| && off + width <= data.Length
    requires data[..] == done + Zeros(data.Length - off)
    modifies data
    ensures next == off + width && done' == done + Fill(field, width) && |done'| == next
    ensures data[..] == done' + Zeros(data.Length - next)
  {
    Write(data, done, off, width, field);
    next, done' := off + width, done + Fill(field, width);
  }

  /** Zero values when the data is too short. */
  function Decode(data: seq<u8>): (h: Header) {
    if |data| < HEADER then ZERO else
      Header(U64(data[8..16]), ToSigned(U64(data[16..24])), U32(data[24..28]), data[28..32], data[32..36],
             U16(data[36..38]), U16(data[38..40]), U16(data[40..42]), U16(data[42..44]))
  }

  predicate IsValid(data: seq<u8>) { |data| >= HEADER && data[..8] == MAGIC }

  /** Decoding an encoded packet returns every field, the addresses cut or filled to four bytes. */
  lemma DecodeEncoded(h: Header, salt: seq<u8>, msgLen: int)
    ensures var b := Encoded(h, salt, msgLen);
      IsValid(b) && Decode(b) == h.(srcIP := Fill(h.srcIP, 4), dstIP := Fill(h.dstIP, 4)) && b[HEADER..] == Fill(salt, Length(msgLen) - HEADER)
  {
    EncodedSlices(h, Encoded(h, salt, msgLen));
    NumbersBack(h);
  }

  lemma EncodedSlices(h: Header, b: seq<u8>)
    requires |b| >= HEADER && b[..HEADER] == HeaderBytes(h)
    ensures b[..8] == MAGIC && b[8..16] == Bytes(h.seqNo, 8) && b[16..24] == Bytes(ToUnsigned(h.ts), 8)
    ensures b[24..28] == Bytes(h.lastSent, 4) && b[28..32] == Fill(h.srcIP, 4) && b[32..36] == Fill(h.dstIP, 4)
    ensures b[36..38] == Bytes(h.srcPort, 2) && b[38..40] == Bytes(h.dstPort, 2)
    ensures b[40..42] == Bytes(h.lastSrc, 2) && b[42..44] == Bytes(h.lastDst, 2)
  {
    assert b[..36] == FrontBytes(h) by { assert HeaderBytes(h)[..36] == FrontBytes(h); assert b[..36] == b[..HEADER][..36]; }
    FrontSlices(h, b);
    BackSlices(h, b);
  }

  lemma FrontSlices(h: Header, b: seq<u8>)
    requires |b| >= HEADER && b[..36] == FrontBytes(h)
    ensures b[..8] == MAGIC && b[8..16] == Bytes(h.seqNo, 8) && b[16..24] == Bytes(ToUnsigned(h.ts), 8)
    ensures b[24..28] == Bytes(h.lastSent, 4) && b[28..32] == Fill(h.srcIP, 4) && b[32..36] == Fill(h.dstIP, 4)
  {
    var f := b[..36];
    assert b[..8] == f[..8] && b[8..16] == f[8..16] && b[16..24] == f[16..24];
    assert b[24..28] == f[24..28] && b[28..32] == f[28..32] && b[32..36] == f[32..36];
  }

  lemma BackSlices(h: Header, b: seq<u8>)
    requires |b| >= HEADER && b[..HEADER] == HeaderBytes(h)
    ensures b[36..38] == Bytes(h.srcPort, 2) && b[38..40] == Bytes(h.dstPort, 2)
    ensures b[40..42] == Bytes(h.lastSrc, 2) && b[42..44] == Bytes(h.lastDst, 2)
  {
    var f := b[..HEADER];
    assert b[36..38] == f[36..38] && b[38..40] == f[38..40] && b[40..42] == f[40..42] && b[42..44] == f[42..44];
  }

  lemma NumbersBack(h: Header)
    ensures U64(Bytes(h.seqNo, 8)) == h.seqNo && ToSigned(U64(Bytes(ToUnsigned(h.ts), 8))) == h.ts
    ensures U32(Bytes(h.lastSent, 4)) == h.lastSent && U16(Bytes(h.srcPort, 2)) == h.srcPort
    ensures U16(Bytes(h.dstPort, 2)) == h.dstPort && U16(Bytes(h.lastSrc, 2)) == h.lastSrc && U16(Bytes(h.lastDst, 2)) == h.lastDst
  {
    FieldRoundTrip(h.seqNo, 8);
    FieldRoundTrip(ToUnsigned(h.ts), 8);
    FieldRoundTrip(h.lastSent, 4);
    FieldRoundTrip(h.srcPort, 2);
    FieldRoundTrip(h.dstPort, 2);
    FieldRoundTrip(h.lastSrc, 2);
    FieldRoundTrip(h.lastDst, 2);
  }

  /** The header comes back unchanged exactly when both addresses have four bytes. */
  lemma RoundTripIff(h: Header, salt: seq<u8>, msgLen: int)
    ensures Decode(Encoded(h, salt, msgLen)) == h <==> |h.srcIP| == 4 && |h.dstIP| == 4
  {
    DecodeEncoded(h, salt, msgLen);
  }

  /** Encoding a valid packet's fields again, with its tail as salt, gives the same bytes. */
  lemma EncodeDecoded(data: seq<u8>)
    requires IsValid(data)
    ensures Encoded(Decode(data), data[HEADER..], |data|) == data
  {
    FieldBack(data[8..16]);
    FieldBack(data[16..24]);
    FieldBack(data[24..28]);
    FieldBack(data[36..38]);
    FieldBack(data[38..40]);
    FieldBack(data[40..42]);
    FieldBack(data[42..44]);
    Cut(data, 8, 16);
    Cut(data, 16, 24);
    Cut(data, 24, 28);
    Cut(data, 28, 32);
    Cut(data, 32, 36);
    Cut(data, 36, 38);
    Cut(data, 38, 40);
    Cut(data, 40, 42);
    Cut(data, 42, 44);
    assert data == data[..44] + data[44..];
  }

  /** The receiver's check: the tail of a packet of the configured length is not the salt. */
  predicate HasBitflip(data: seq<u8>, msgLen: int) {
    |data| >= HEADER && |data| == Length(msgLen) && data[HEADER..] != Salt(Decode(data).seqNo, |data| - HEADER)
  }

  /** A packet of another length is not checked. */
  lemma FlippedIff(data: seq<u8>, msgLen: int)
    ensures HasBitflip(data, msgLen)
       <==> |data| == msgLen && msgLen >= 44 && data[44..] != Salt(Decode(data).seqNo, msgLen - 44)
  {
  }

  /** A valid packet of the configured length passes the check exactly when it is one a client builds. */
  lemma IntactIff(data: seq<u8>, msgLen: int)
    requires IsValid(data) && |data| == Length(msgLen)
    ensures !HasBitflip(data, msgLen)
       <==> exists h: Header :: data == Encoded(h, Salt(h.seqNo, Length(msgLen) - HEADER), msgLen)
  {
    if !HasBitflip(data, msgLen) {
      EncodeDecoded(data);
      var h := Decode(data);
      assert data == Encoded(h, Salt(h.seqNo, Length(msgLen) - HEADER), msgLen);
    }
    forall h: Header | data == Encoded(h, Salt(h.seqNo, Length(msgLen) - HEADER), msgLen) ensures !HasBitflip(data, msgLen) {
      DecodeEncoded(h, Salt(h.seqNo, Length(msgLen) - HEADER), msgLen);
    }
  }

  /** Where each field lies on the wire. */
  lemma WireFormat(h: Header, salt: seq<u8>, msgLen: int)
    ensures var b := Encoded(h, salt, msgLen);
      && |b| == (if msgLen < 44 then 44 else msgLen)
      && b[..8] == [75, 85, 73, 78, 73, 85, 84, 67]
      && BigEndian(b[8..16]) == h.seqNo
      && BigEndian(b[16..24]) == (if h.ts < 0 then h.ts + 0x1_0000_0000_0000_0000 else h.ts)
      && BigEndian(b[24..28]) == h.lastSent && b[28..32] == Fill(h.srcIP, 4) && b[32..36] == Fill(h.dstIP, 4)
      && BigEndian(b[36..38]) == h.srcPort && BigEndian(b[38..40]) == h.dstPort
      && BigEndian(b[40..42]) == h.lastSrc && BigEndian(b[42..44]) == h.lastDst
      && b[44..] == Fill(salt, |b| - 44)
  {
    var b := Encoded(h, salt, msgLen);
    assert b[..HEADER] == HeaderBytes(h);
    EncodedSlices(h, b);
    NumbersBack(h);
    DecodeEncoded(h, salt, msgLen);
  }
}
