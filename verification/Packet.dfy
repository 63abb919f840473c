/** Packing messages into frames and taking them apart. */
module Packet {
  import opened Wire

  const SIZE_BYTES := 4
  const HEADER_SIZE := 20
  const MAX_INT32 := 0x7FFF_FFFF

  datatype Message = Message(seqNo: Int32, gameID: Int32, messageID: Int32, body: seq<Byte>)

  datatype Options = Options(order: ByteOrder, bufferBytes: nat)

  datatype PackResult = Packed(bytes: seq<Byte>) | TooLarge

  /** Half is a packet that has not fully arrived. */
  datatype UnpackResult = Unpacked(message: Message, size: nat) | Half | Invalid

  /** The 20 header bytes: total length, data bit, game, message and sequence number. */
  function Header(order: ByteOrder, m: Message): (h: seq<Byte>)
    requires HEADER_SIZE + |m.body| <= MAX_INT32
    ensures |h| == HEADER_SIZE
  {
    Word32Bytes(order, HEADER_SIZE + |m.body|) + Word32Bytes(order, 0) + Word32Bytes(order, AsWord(m.gameID))
    + Word32Bytes(order, AsWord(m.messageID)) + Word32Bytes(order, AsWord(m.seqNo))
  }

  /** A frame for the wire: header, body, and the four bytes of the length field counted twice, left zero. */
  ghost function WireFrame(order: ByteOrder, m: Message): seq<Byte>
    requires HEADER_SIZE + |m.body| <= MAX_INT32
  {
    Header(order, m) + m.body + [0, 0, 0, 0]
  }

  /** Where the fields are: total length, zero, game, message and sequence number in the first five words, signed ones
      in two's complement, and then the body. */
  ghost predicate Laid(order: ByteOrder, b: seq<Byte>, m: Message) {
    && |b| >= 20 + |m.body| && WordFrom(order, b, 0) == 20 + |m.body|
    && SameWord(WordFrom(order, b, 8), m.gameID)
    && SameWord(WordFrom(order, b, 12), m.messageID)
    && SameWord(WordFrom(order, b, 16), m.seqNo)
    && b[20..20 + |m.body|] == m.body
  }

  /** The 32 bits of a signed number. */
  predicate SameWord(w: int, x: Int32) {
    w == x || w == x + 0x1_0000_0000
  }

  method PutUint32(order: ByteOrder, buf: array<Byte>, offset: nat, w: Word32)
    requires offset + 4 <= buf.Length
    modifies buf
    ensures buf[..offset + 4] == old(buf[..offset]) + Word32Bytes(order, w)
    ensures forall i :: offset + 4 <= i < buf.Length ==> buf[i] == old(buf[i])
  {
    var b := Word32Bytes(order, w);
    buf[offset], buf[offset + 1], buf[offset + 2], buf[offset + 3] := b[0], b[1], b[2], b[3];
  }

  /** Bounds only the body, and packs everything else that fits 31 bits. */
  method PackMessage(o: Options, m: Message) returns (r: PackResult)
    ensures r == TooLarge <==> |m.body| > o.bufferBytes || 20 + |m.body| > 0x7FFF_FFFF
    ensures |m.body| <= o.bufferBytes && HEADER_SIZE + |m.body| <= MAX_INT32 ==> r == Packed(WireFrame(o.order, m))
    ensures r.Packed? ==> Laid(o.order, r.bytes, m) && WordFrom(o.order, r.bytes, 4) == 0
    ensures r.Packed? ==> |r.bytes| == 24 + |m.body| && r.bytes[20 + |m.body|..] == [0, 0, 0, 0]
  {
    if |m.body| > o.bufferBytes {
      return TooLarge;
    }
    var totalLen := HEADER_SIZE + |m.body|;
    if totalLen > MAX_INT32 {
      return TooLarge;
    }
    var buf := new Byte[4 + totalLen](_ => 0);
    var offset := 0;
    ghost var z := buf[..];
    hide Word32Bytes;
    offset := PutHeader(o.order, buf, m);
    assert forall i :: 0 <= i < |m.body| + 4 ==> buf[offset + i] == buf[offset..][i] == 0;
    ghost var header := buf[..offset];
    forall i | 0 <= i < |m.body| {
      buf[offset + i] := m.body[i];
    }
    assert buf[..offset] == header;
    assert buf[..] == WireFrame(o.order, m);
    HeaderLaid(o.order, m, [0, 0, 0, 0]);
    return Packed(buf[..]);
  }

  /** Writes the five header words one after the other. */
  method PutHeader(order: ByteOrder, buf: array<Byte>, m: Message) returns (offset: nat)
    requires HEADER_SIZE + |m.body| <= MAX_INT32 && HEADER_SIZE <= buf.Length
    modifies buf
    ensures offset == HEADER_SIZE && buf[..offset] == Header(order, m) && buf[offset..] == old(buf[offset..])
  {
    hide Word32Bytes;
    offset := 0;
    PutUint32(order, buf, offset, HEADER_SIZE + |m.body|);
    offset := offset + 4;
    PutUint32(order, buf, offset, 0);
    offset := offset + 4;
    PutUint32(order, buf, offset, AsWord(m.gameID));
    offset := offset + 4;
    PutUint32(order, buf, offset, AsWord(m.messageID));
    offset := offset + 4;
    PutUint32(order, buf, offset, AsWord(m.seqNo));
    offset := offset + 4;
  }

  /** Header and body without the surplus bytes; bounds the whole packet. */
  method PackBuffer(o: Options, m: Message) returns (r: PackResult)
    ensures r == TooLarge <==> 20 + |m.body| > o.bufferBytes || 20 + |m.body| > 0x7FFF_FFFF
    ensures HEADER_SIZE + |m.body| <= o.bufferBytes && HEADER_SIZE + |m.body| <= MAX_INT32 ==>
              r == Packed(Header(o.order, m) + m.body)
    ensures r.Packed? ==> |r.bytes| == 20 + |m.body| && Laid(o.order, r.bytes, m) && WordFrom(o.order, r.bytes, 4) == 0
  {
    if |m.body| > o.bufferBytes {
      return TooLarge;
    }
    var totalLen := HEADER_SIZE + |m.body|;
    if totalLen > o.bufferBytes || totalLen > MAX_INT32 {
      return TooLarge;
    }
    var writer := Word32Bytes(o.order, AsWord(totalLen));
    writer := writer + Word32Bytes(o.order, 0);
    writer := writer + Word32Bytes(o.order, AsWord(m.gameID));
    writer := writer + Word32Bytes(o.order, AsWord(m.messageID));
    writer := writer + Word32Bytes(o.order, AsWord(m.seqNo));
    HeaderLaid(o.order, m, []);
    assert writer + m.body + [] == writer + m.body;
    return Packed(writer + m.body);
  }

  /** The first word of the data is n. */
  ghost predicate Announces(order: ByteOrder, data: seq<Byte>, n: nat) {
    |data| >= SIZE_BYTES && n < 0x1_0000_0000 && data[..4] == Word32Bytes(order, n)
  }

  /** The first n bytes are the header and the body of the message; the second word can be anything. */
  ghost predicate Carries(order: ByteOrder, data: seq<Byte>, m: Message, n: nat) {
    && Announces(order, data, n) && n == HEADER_SIZE + |m.body| <= |data|
    && data[8..12] == Word32Bytes(order, AsWord(m.gameID))
    && data[12..16] == Word32Bytes(order, AsWord(m.messageID))
    && data[16..20] == Word32Bytes(order, AsWord(m.seqNo))
    && data[20..n] == m.body
  }

  predicate InBounds(o: Options, n: nat) {
    HEADER_SIZE <= n <= o.bufferBytes
  }

  /** What a packet says: the length field decides, and bytes past it are ignored. */
  function Unpack(o: Options, data: seq<Byte>): UnpackResult {
    if |data| < SIZE_BYTES then Half else
      var size := Word32At(o.order, data, 0);
      if size < HEADER_SIZE || size > o.bufferBytes then Invalid
      else if |data| < size then Half
      else Unpacked(Message(AsInt(Word32At(o.order, data, 16)), AsInt(Word32At(o.order, data, 8)),
                            AsInt(Word32At(o.order, data, 12)), data[20..size]), size)
  }

  /** Which byte strings are accepted, as which message, and which are refused or waited for. */
  lemma UnpackExactly(o: Options, data: seq<Byte>)
    ensures forall m, n :: Unpack(o, data) == Unpacked(m, n) <==> Carries(o.order, data, m, n) && InBounds(o, n)
    ensures Unpack(o, data) == Half <==>
              |data| < SIZE_BYTES || exists n :: Announces(o.order, data, n) && InBounds(o, n) && |data| < n
    ensures Unpack(o, data) == Invalid <==>
              |data| >= SIZE_BYTES && forall n :: Announces(o.order, data, n) ==> !InBounds(o, n)
  {
    hide Word32At, Word32Bytes;
    if |data| >= SIZE_BYTES {
      var size := Word32At(o.order, data, 0);
      forall n: nat ensures Announces(o.order, data, n) <==> n == size {
        if n < 0x1_0000_0000 {
          WordIs(o.order, data, 0, n);
        }
      }
      assert Announces(o.order, data, size);
      if HEADER_SIZE <= size <= |data| {
        forall m: Message ensures Carries(o.order, data, m, size) <==>
          m == Message(AsInt(Word32At(o.order, data, 16)), AsInt(Word32At(o.order, data, 8)),
                       AsInt(Word32At(o.order, data, 12)), data[20..size])
        {
          FieldIs(o.order, data, 8, m.gameID);
          FieldIs(o.order, data, 12, m.messageID);
          FieldIs(o.order, data, 16, m.seqNo);
        }
      }
    }
  }

  lemma FieldIs(order: ByteOrder, data: seq<Byte>, i: nat, x: Int32)
    requires i + 4 <= |data|
    ensures data[i..i + 4] == Word32Bytes(order, AsWord(x)) <==> x == AsInt(Word32At(order, data, i))
  {
    hide Word32At, Word32Bytes;
    WordIs(order, data, i, AsWord(x));
    SignForth(Word32At(order, data, i), x);
  }

  method UnpackMessage(o: Options, data: seq<Byte>) returns (r: UnpackResult)
    ensures r == Unpack(o, data)
    ensures forall m, n :: r == Unpacked(m, n) <==> Carries(o.order, data, m, n) && InBounds(o, n)
    ensures r == Half <==>
              |data| < SIZE_BYTES || exists n :: Announces(o.order, data, n) && InBounds(o, n) && |data| < n
    ensures r == Invalid <==>
              |data| >= SIZE_BYTES && forall n :: Announces(o.order, data, n) ==> !InBounds(o, n)
    ensures r.Unpacked? ==> Laid(o.order, data, r.message) && r.size == 20 + |r.message.body| <= o.bufferBytes
  {
    hide Word32Bytes, Carries, Announces;
    UnpackedLaid(o, data);
    UnpackExactly(o, data);
    if |data| < SIZE_BYTES {
      return Half;
    }
    var offset := 0;
    var size := Word32At(o.order, data, offset);
    offset := offset + 4;
    if size < HEADER_SIZE || size > o.bufferBytes {
      return Invalid;
    }
    if |data| < size {
      return Half;
    }
    // the data bit is zero, so every word passes its test
    offset := offset + 4;
    var gameID := AsInt(Word32At(o.order, data, offset));
    offset := offset + 4;
    var messageID := AsInt(Word32At(o.order, data, offset));
    offset := offset + 4;
    var seqNo := AsInt(Word32At(o.order, data, offset));
    offset := offset + 4;
    return Unpacked(Message(seqNo, gameID, messageID, data[offset..size]), size);
  }

  // ---- round trips

  lemma HeaderWords(order: ByteOrder, m: Message, rest: seq<Byte>)
    requires HEADER_SIZE + |m.body| <= MAX_INT32
    ensures var d := Header(order, m) + rest;
            && Word32At(order, d, 0) == HEADER_SIZE + |m.body|
            && Word32At(order, d, 4) == 0
            && Word32At(order, d, 8) == AsWord(m.gameID)
            && Word32At(order, d, 12) == AsWord(m.messageID)
            && Word32At(order, d, 16) == AsWord(m.seqNo)
  {
    hide Word32At, Word32Bytes;
    var w0, w1, w2 := Word32Bytes(order, HEADER_SIZE + |m.body|), Word32Bytes(order, 0), Word32Bytes(order, AsWord(m.gameID));
    var w3, w4 := Word32Bytes(order, AsWord(m.messageID)), Word32Bytes(order, AsWord(m.seqNo));
    var d := Header(order, m) + rest;
    assert d == [] + w0 + (w1 + w2 + w3 + w4 + rest);
    WordInside(order, HEADER_SIZE + |m.body|, [], w1 + w2 + w3 + w4 + rest);
    assert d == w0 + w1 + (w2 + w3 + w4 + rest);
    WordInside(order, 0, w0, w2 + w3 + w4 + rest);
    assert d == (w0 + w1) + w2 + (w3 + w4 + rest);
    WordInside(order, AsWord(m.gameID), w0 + w1, w3 + w4 + rest);
    assert d == (w0 + w1 + w2) + w3 + (w4 + rest);
    WordInside(order, AsWord(m.messageID), w0 + w1 + w2, w4 + rest);
    assert d == (w0 + w1 + w2 + w3) + w4 + rest;
    WordInside(order, AsWord(m.seqNo), w0 + w1 + w2 + w3, rest);
  }

  lemma HeaderLaid(order: ByteOrder, m: Message, rest: seq<Byte>)
    requires HEADER_SIZE + |m.body| <= MAX_INT32
    ensures var b := Header(order, m) + m.body + rest;
            Laid(order, b, m) && WordFrom(order, b, 4) == 0 && b[20 + |m.body|..] == rest
  {
    hide Word32At, Header;
    var b := Header(order, m) + m.body + rest;
    HeaderWords(order, m, m.body + rest);
    assert b == Header(order, m) + (m.body + rest);
    assert b[20..20 + |m.body|] == m.body && b[20 + |m.body|..] == rest;
    hide WordFrom;
    WordFromIs(order, b, 0);
    WordFromIs(order, b, 4);
    WordFromIs(order, b, 8);
    WordFromIs(order, b, 12);
    WordFromIs(order, b, 16);
  }

  lemma UnpackedLaid(o: Options, data: seq<Byte>)
    ensures var r := Unpack(o, data);
            r.Unpacked? ==> Laid(o.order, data, r.message) && r.size == 20 + |r.message.body| <= o.bufferBytes
  {
    hide Word32At, WordFrom;
    if Unpack(o, data).Unpacked? {
      WordFromIs(o.order, data, 0);
      WordFromIs(o.order, data, 8);
      WordFromIs(o.order, data, 12);
      WordFromIs(o.order, data, 16);
    }
  }

  /** Unpacking what was packed gives the message back exactly when header and body fit the buffer;
      otherwise the packet is refused, although packing accepted the body. */
  lemma UnpackPacked(o: Options, m: Message, rest: seq<Byte>)
    requires HEADER_SIZE + |m.body| <= MAX_INT32
    ensures var r := Unpack(o, Header(o.order, m) + m.body + rest);
            if HEADER_SIZE + |m.body| <= o.bufferBytes then r == Unpacked(m, HEADER_SIZE + |m.body|) else r == Invalid
  {
    hide Word32At, Header;
    HeaderWords(o.order, m, m.body + rest);
    var d := Header(o.order, m) + m.body + rest;
    assert d == Header(o.order, m) + (m.body + rest);
    assert d[20..HEADER_SIZE + |m.body|] == m.body;
  }

  /** The gap between the two bounds, for every bound: a body that packs and is then refused. */
  lemma PackedButRefused(order: ByteOrder, bufferBytes: nat)
    requires HEADER_SIZE + bufferBytes <= MAX_INT32
    ensures var o, m := Options(order, bufferBytes), Message(0, 0, 0, seq(bufferBytes, _ => 0));
            |m.body| <= o.bufferBytes && Unpack(o, WireFrame(order, m)) == Invalid
  {
    UnpackPacked(Options(order, bufferBytes), Message(0, 0, 0, seq(bufferBytes, _ => 0)), [0, 0, 0, 0]);
  }

  /** Any proper prefix of a packet with its length field is a half packet. */
  lemma HalfPacket(o: Options, m: Message, n: nat)
    requires HEADER_SIZE + |m.body| <= MAX_INT32 && HEADER_SIZE + |m.body| <= o.bufferBytes
    requires n < HEADER_SIZE + |m.body|
    ensures Unpack(o, (Header(o.order, m) + m.body)[..n]) == Half
  {
    hide Word32At, Header;
    var d := Header(o.order, m) + m.body;
    HeaderWords(o.order, m, m.body);
    if n >= SIZE_BYTES {
      WordAtFront(o.order, d[..n], d[n..]);
      assert d[..n] + d[n..] == d;
    }
  }
}
