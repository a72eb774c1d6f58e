/** The 48-byte fixed header and the message type numbers. */
module Headers {
  import opened Outcomes
  import opened Frames
  import BigEndian

  function AsU16(m: MessageType): u16 {
    match m
    case Data => 0x0001
    case Heartbeat => 0x0002
    case ReplayRequest => 0x0003
    case ReplayResponse => 0x0004
    case ReplayUnavailable => 0x0005
    case SnapshotRequest => 0x0006
    case SnapshotResponse => 0x0007
    case Error => 0x0008
    case Experimental(v) => v
  }

  function FromU16(v: u16): Result<MessageType> {
    if v == 0x0001 then Ok(Data)
    else if v == 0x0002 then Ok(Heartbeat)
    else if v == 0x0003 then Ok(ReplayRequest)
    else if v == 0x0004 then Ok(ReplayResponse)
    else if v == 0x0005 then Ok(MessageType.ReplayUnavailable)
    else if v == 0x0006 then Ok(SnapshotRequest)
    else if v == 0x0007 then Ok(SnapshotResponse)
    else if v == 0x0008 then Ok(Error)
    else if 0xFF00 <= v then Ok(Experimental(v))
    else Err(Protocol(UnsupportedMessageType))
  }

  /** Experimental values outside their reserved range would be read back as something else. */
  predicate CanonicalType(m: MessageType) {
    m.Experimental? ==> m.value >= 0xFF00
  }

  function EncodeHeader(h: FixedHeader): (s: seq<byte>)
    ensures |s| == FIXED_HEADER_SIZE
  {
    BigEndian.Write(2, h.magic) + [h.version] + [h.flags]
    + BigEndian.Write(2, AsU16(h.messageType)) + BigEndian.Write(2, h.headerLength)
    + BigEndian.Write(8, h.streamId) + BigEndian.Write(8, h.sequence)
    + BigEndian.Write(8, h.timestampNs) + BigEndian.Write(8, h.publisherId)
    + BigEndian.Write(4, h.payloadLength) + BigEndian.Write(4, h.checksum)
  }

  function DecodeHeader(src: seq<byte>): Result<FixedHeader> {
    if |src| < FIXED_HEADER_SIZE then
      Err(Malformed())
    else if BigEndian.ReadU16(src[0..2]) != MAGIC_RTDP then
      Err(Malformed())
    else if src[2] != RTDP_VERSION_1 then
      Err(Protocol(VersionMismatch))
    else
      var messageType :- FromU16(BigEndian.ReadU16(src[4..6]));
      Ok(FixedHeader(
           BigEndian.ReadU16(src[0..2]), src[2], src[3], messageType, BigEndian.ReadU16(src[6..8]),
           BigEndian.ReadU64(src[8..16]), BigEndian.ReadU64(src[16..24]), BigEndian.ReadU64(src[24..32]),
           BigEndian.ReadU64(src[32..40]), BigEndian.ReadU32(src[40..44]), BigEndian.ReadU32(src[44..48])))
  }

  /** Writes the header field by field into the front of a buffer. */
  method Encode(h: FixedHeader, dst: array<byte>) returns (r: Result<()>)
    modifies dst
    ensures dst.Length < FIXED_HEADER_SIZE ==> r == Err(Malformed()) && dst[..] == old(dst[..])
    ensures dst.Length >= FIXED_HEADER_SIZE ==>
              r == Ok(()) && dst[..] == EncodeHeader(h) + old(dst[FIXED_HEADER_SIZE..])
  {
    if dst.Length < FIXED_HEADER_SIZE {
      return Err(Malformed());
    }
    ghost var d := dst[..];
    BigEndian.WriteAt(dst, 0, 2, h.magic);
    assert dst[..] == BigEndian.Write(2, h.magic) + d[2..];
    dst[2] := h.version;
    dst[3] := h.flags;
    ghost var w := BigEndian.Write(2, h.magic) + [h.version] + [h.flags];
    assert dst[..] == w + d[4..];
    w := WriteNext(dst, 4, 2, AsU16(h.messageType), w, d);
    w := WriteNext(dst, 6, 2, h.headerLength, w, d);
    w := WriteNext(dst, 8, 8, h.streamId, w, d);
    w := WriteNext(dst, 16, 8, h.sequence, w, d);
    w := WriteNext(dst, 24, 8, h.timestampNs, w, d);
    w := WriteNext(dst, 32, 8, h.publisherId, w, d);
    w := WriteNext(dst, 40, 4, h.payloadLength, w, d);
    w := WriteNext(dst, 44, 4, h.checksum, w, d);
    return Ok(());
  }

  /** Appends one field after the part `w` already written over the old contents `d`. */
  method WriteNext(dst: array<byte>, at: nat, k: nat, v: nat, ghost w: seq<byte>, ghost d: seq<byte>)
    returns (ghost w': seq<byte>)
    requires at == |w| && at + k <= |d| && dst[..] == w + d[|w|..]
    modifies dst
    ensures w' == w + BigEndian.Write(k, v)
    ensures dst[..] == w' + d[|w'|..]
  {
    BigEndian.WriteAt(dst, at, k, v);
    w' := w + BigEndian.Write(k, v);
  }

  // ---------------------------------------------------------------- inverses

  lemma MessageTypeInverse(m: MessageType, v: u16)
    ensures FromU16(AsU16(m)) == Ok(m) <==> CanonicalType(m)
    ensures FromU16(v).Ok? ==> AsU16(FromU16(v).value) == v && CanonicalType(FromU16(v).value)
  {}

  /** Every field of an encoded header sits at its offset, whatever follows the header. */
  lemma FieldsOfEncoding(h: FixedHeader, tail: seq<byte>)
    ensures var s := EncodeHeader(h) + tail;
            && BigEndian.ReadU16(s[0..2]) == h.magic && s[2] == h.version && s[3] == h.flags
            && BigEndian.ReadU16(s[4..6]) == AsU16(h.messageType)
            && BigEndian.ReadU16(s[6..8]) == h.headerLength
            && BigEndian.ReadU64(s[8..16]) == h.streamId
            && BigEndian.ReadU64(s[16..24]) == h.sequence
            && BigEndian.ReadU64(s[24..32]) == h.timestampNs
            && BigEndian.ReadU64(s[32..40]) == h.publisherId
            && BigEndian.ReadU32(s[40..44]) == h.payloadLength
            && BigEndian.ReadU32(s[44..48]) == h.checksum
  {
    var s := EncodeHeader(h) + tail;
    assert s[0..2] == BigEndian.Write(2, h.magic);
    assert s[4..6] == BigEndian.Write(2, AsU16(h.messageType));
    assert s[6..8] == BigEndian.Write(2, h.headerLength);
    assert s[8..16] == BigEndian.Write(8, h.streamId);
    assert s[16..24] == BigEndian.Write(8, h.sequence);
    assert s[24..32] == BigEndian.Write(8, h.timestampNs);
    assert s[32..40] == BigEndian.Write(8, h.publisherId);
    assert s[40..44] == BigEndian.Write(4, h.payloadLength);
    assert s[44..48] == BigEndian.Write(4, h.checksum);
    BigEndian.RoundTrip16(h.magic);
    BigEndian.RoundTrip16(AsU16(h.messageType));
    BigEndian.RoundTrip16(h.headerLength);
    BigEndian.RoundTrip64(h.streamId);
    BigEndian.RoundTrip64(h.sequence);
    BigEndian.RoundTrip64(h.timestampNs);
    BigEndian.RoundTrip64(h.publisherId);
    BigEndian.RoundTrip32(h.payloadLength);
    BigEndian.RoundTrip32(h.checksum);
  }

  /** Decoding an encoded header returns it exactly when magic, version and type are legal. */
  lemma HeaderRoundTrip(h: FixedHeader, tail: seq<byte>)
    ensures DecodeHeader(EncodeHeader(h) + tail) == Ok(h) <==>
            h.magic == MAGIC_RTDP && h.version == RTDP_VERSION_1 && CanonicalType(h.messageType)
  {
    FieldsOfEncoding(h, tail);
    MessageTypeInverse(h.messageType, AsU16(h.messageType));
  }

  lemma AppendSlice(s: seq<byte>, i: nat, j: nat)
    requires i <= j <= |s|
    ensures s[..i] + s[i..j] == s[..j]
  {}

  /** The header is the concatenation of its fields' byte ranges. */
  lemma FieldRanges(s: seq<byte>)
    requires |s| >= FIXED_HEADER_SIZE
    ensures s[0..2] + [s[2]] + [s[3]] + s[4..6] + s[6..8] + s[8..16] + s[16..24] + s[24..32] + s[32..40]
            + s[40..44] + s[44..48] == s[..FIXED_HEADER_SIZE]
  {
    assert s[0..2] + [s[2]] + [s[3]] == s[..4];
    AppendSlice(s, 4, 6);
    AppendSlice(s, 6, 8);
    AppendSlice(s, 8, 16);
    AppendSlice(s, 16, 24);
    AppendSlice(s, 24, 32);
    AppendSlice(s, 32, 40);
    AppendSlice(s, 40, 44);
    AppendSlice(s, 44, 48);
  }

  /** Encoding a decoded header reproduces the bytes it was read from. */
  lemma HeaderReencode(s: seq<byte>)
    requires DecodeHeader(s).Ok?
    ensures EncodeHeader(DecodeHeader(s).value) == s[..FIXED_HEADER_SIZE]
  {
    var h := DecodeHeader(s).value;
    assert BigEndian.Write(2, h.magic) == s[0..2] by { BigEndian.WriteRead(s[0..2]); }
    assert BigEndian.Write(2, AsU16(h.messageType)) == s[4..6] by {
      MessageTypeInverse(Data, BigEndian.ReadU16(s[4..6]));
      BigEndian.WriteRead(s[4..6]);
    }
    assert BigEndian.Write(2, h.headerLength) == s[6..8] by { BigEndian.WriteRead(s[6..8]); }
    assert BigEndian.Write(8, h.streamId) == s[8..16] by { BigEndian.WriteRead(s[8..16]); }
    assert BigEndian.Write(8, h.sequence) == s[16..24] by { BigEndian.WriteRead(s[16..24]); }
    assert BigEndian.Write(8, h.timestampNs) == s[24..32] by { BigEndian.WriteRead(s[24..32]); }
    assert BigEndian.Write(8, h.publisherId) == s[32..40] by { BigEndian.WriteRead(s[32..40]); }
    assert BigEndian.Write(4, h.payloadLength) == s[40..44] by { BigEndian.WriteRead(s[40..44]); }
    assert BigEndian.Write(4, h.checksum) == s[44..48] by { BigEndian.WriteRead(s[44..48]); }
    FieldRanges(s);
  }
}
