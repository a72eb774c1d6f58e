/** The frame codec: strict decoding in the specified check order, encoding, and their inverse laws. */
module Codec {
  import opened Outcomes
  import opened Frames
  import BigEndian
  import Buffers
  import Crc32c
  import Extensions
  import Headers

  datatype Config = Config(maxFrameSize: nat, validateChecksum: bool)

  // ---------------------------------------------------------------- specification

  function WireChecksum(p: seq<byte>): u32
    requires |p| >= FIXED_HEADER_SIZE
  {
    BigEndian.ReadU32(p[44..48])
  }

  /** The frame with its checksum field replaced. */
  function WithChecksum(p: seq<byte>, c: u32): (q: seq<byte>)
    requires |p| >= FIXED_HEADER_SIZE
    ensures |q| == |p|
  {
    p[..44] + BigEndian.Write(4, c) + p[48..]
  }

  /** The checksum a frame ought to carry: computed with the checksum field zeroed. */
  function ExpectedChecksum(p: seq<byte>): u32
    requires |p| >= FIXED_HEADER_SIZE
  {
    Crc32c.Checksum(WithChecksum(p, 0))
  }

  predicate ChecksumMatches(p: seq<byte>)
    requires |p| >= FIXED_HEADER_SIZE
  {
    WireChecksum(p) == ExpectedChecksum(p)
  }

  /** Payload rules of the individual message types. */
  function MessageRules(m: MessageType, payload: seq<byte>): Result<()> {
    match m
    case Heartbeat =>
      if |payload| != 0 then Err(Malformed()) else Ok(())
    case ReplayRequest =>
      if |payload| != 24 then Err(Malformed())
      else if BigEndian.ReadU64(payload[8..16]) > BigEndian.ReadU64(payload[16..24]) then
        Err(Protocol(ReplayRangeInvalid))
      else Ok(())
    case ReplayUnavailable =>
      if |payload| != 24 then Err(Malformed()) else Ok(())
    case ReplayResponse =>
      if |payload| < 8 then Err(Malformed()) else Ok(())
    case _ => Ok(())
  }

  function HeaderLength(p: seq<byte>): u16
    requires |p| >= FIXED_HEADER_SIZE
  {
    BigEndian.ReadU16(p[6..8])
  }

  /** The checks made before the extensions are walked. */
  function CheckLengths(cfg: Config, p: seq<byte>): (r: Result<()>)
    ensures r.Ok? ==> |p| >= FIXED_HEADER_SIZE && FIXED_HEADER_SIZE <= HeaderLength(p) <= |p|
  {
    if |p| < FIXED_HEADER_SIZE then Err(Malformed())
    else if |p| > cfg.maxFrameSize then Err(Protocol(FrameTooLarge))
    else if BigEndian.ReadU16(p[0..2]) != MAGIC_RTDP then Err(Malformed())
    else if p[2] != RTDP_VERSION_1 then Err(Protocol(VersionMismatch))
    else if HeaderLength(p) < FIXED_HEADER_SIZE then Err(Malformed())
    else if HeaderLength(p) % 4 != 0 then Err(Malformed())
    else if HeaderLength(p) as int > |p| then Err(Malformed())
    else if HeaderLength(p) + BigEndian.ReadU32(p[40..44]) != |p| then Err(Malformed())
    else Ok(())
  }

  function DecodeFrame(cfg: Config, p: seq<byte>): Result<OwnedFrame> {
    var _ :- CheckLengths(cfg, p);
    var hl := HeaderLength(p);
    var _ :- Extensions.Validate(p[FIXED_HEADER_SIZE..hl]);
    if cfg.validateChecksum && !ChecksumMatches(p) then
      Err(Protocol(ChecksumFailed))
    else
      var header :- Headers.DecodeHeader(p[..FIXED_HEADER_SIZE]);
      var _ :- MessageRules(header.messageType, p[hl..]);
      Ok(OwnedFrame(header, p[FIXED_HEADER_SIZE..hl], p[hl..]))
  }

  /** The frame with the length fields, truncated to their widths, and the checksum filled in. */
  function Sized(f: OwnedFrame, checksum: u32): OwnedFrame {
    f.(header := f.header.(headerLength := (FIXED_HEADER_SIZE + |f.extensionBytes|) % 0x1_0000,
                           payloadLength := |f.payload| % 0x1_0000_0000,
                           checksum := checksum))
  }

  function Bytes(f: OwnedFrame): (s: seq<byte>)
    ensures |s| == FIXED_HEADER_SIZE + |f.extensionBytes| + |f.payload|
  {
    Headers.EncodeHeader(f.header) + f.extensionBytes + f.payload
  }

  function Filled(f: OwnedFrame): OwnedFrame {
    Sized(f, Crc32c.Checksum(Bytes(Sized(f, 0))))
  }

  /** What encoding writes into a destination of dstLength bytes. */
  function EncodeFrame(cfg: Config, f: OwnedFrame, dstLength: nat): Result<seq<byte>> {
    var total := FIXED_HEADER_SIZE + |f.extensionBytes| + |f.payload|;
    if (FIXED_HEADER_SIZE + |f.extensionBytes|) % 4 != 0 then Err(Malformed())
    else if total > cfg.maxFrameSize then Err(Protocol(FrameTooLarge))
    else if dstLength < total then Err(Malformed())
    else Ok(Bytes(Filled(f)))
  }

  // ---------------------------------------------------------------- in place

  /** Decodes a received packet; its checksum field is zeroed and restored on the way. */
  method Decode(cfg: Config, packet: array<byte>) returns (r: Result<OwnedFrame>)
    modifies packet
    ensures packet[..] == old(packet[..])
    ensures r == DecodeFrame(cfg, old(packet[..]))
  {
    ghost var p := packet[..];
    var lengths := CheckLengths(cfg, packet[..]);
    if lengths.Err? {
      return Err(lengths.error);
    }
    var headerLength := HeaderLength(packet[..]);
    if headerLength > FIXED_HEADER_SIZE {
      var exts := WalkExtensions(packet[FIXED_HEADER_SIZE..headerLength]);
      assert packet[FIXED_HEADER_SIZE..headerLength] == p[FIXED_HEADER_SIZE..headerLength];
      if exts.Err? {
        return Err(exts.error);
      }
    }
    var wireChecksum := BigEndian.ReadU32(packet[44..48]);
    assert packet[44..48] == p[44..48];
    if cfg.validateChecksum {
      BigEndian.WriteAt(packet, 44, 4, 0);
      assert packet[..] == WithChecksum(p, 0);
      var calculated := Crc32c.Checksum(packet[..]);
      BigEndian.WriteAt(packet, 44, 4, wireChecksum);
      RestoreChecksum(p);
      assert packet[..] == WithChecksum(p, wireChecksum);
      if calculated != wireChecksum {
        return Err(Protocol(ChecksumFailed));
      }
    }
    assert packet[..] == p;
    var header :- Headers.DecodeHeader(packet[..FIXED_HEADER_SIZE]);
    var rules := MessageRules(header.messageType, packet[headerLength..]);
    if rules.Err? {
      return Err(rules.error);
    }
    return Ok(OwnedFrame(header, packet[FIXED_HEADER_SIZE..headerLength], packet[headerLength..]));
  }

  /** The decoder's loop over the extension iterator. */
  method WalkExtensions(data: seq<byte>) returns (r: Result<()>)
    ensures r == Extensions.Validate(data)
  {
    var iter := new Extensions.ExtensionIterator(data);
    var item := iter.Next();
    ghost var unread := data;
    while item.Some?
      invariant fresh(iter) && iter.Valid()
      invariant Extensions.Validate(data) == Extensions.Validate(unread)
      invariant match Extensions.Front(unread)
                case End => item == None
                case Broken => item == Some(Err(Malformed()))
                case Record(x, n) => item == Some(Ok(x)) && iter.Remaining() == unread[n..]
      decreases |unread|
    {
      if item.value.Err? {
        return Err(item.value.error);
      }
      var x := item.value.value;
      if x.isCritical && !Extensions.IsKnown(x.extType) {
        return Err(Protocol(UnsupportedExtension));
      }
      unread := iter.Remaining();
      item := iter.Next();
    }
    return Ok(());
  }

  /** Fills the front of a destination buffer with the encoded frame; the rest is untouched. */
  method Encode(cfg: Config, f: OwnedFrame, dst: array<byte>) returns (r: Result<nat>)
    modifies dst
    ensures match EncodeFrame(cfg, f, dst.Length)
            case Ok(s) => r == Ok(|s|) && dst[..] == s + old(dst[|s|..])
            case Err(e) => r == Err(e) && dst[..] == old(dst[..])
  {
    var extLen := |f.extensionBytes|;
    var total := FIXED_HEADER_SIZE + extLen;
    if total % 4 != 0 {
      return Err(Malformed());
    }
    var frameLen := total + |f.payload|;
    if frameLen > cfg.maxFrameSize {
      return Err(Protocol(FrameTooLarge));
    }
    if dst.Length < frameLen {
      return Err(Malformed());
    }
    WriteFilled(f, frameLen, dst);
    return Ok(frameLen);
  }

  /** Writes the frame, computes its checksum and fills that in last. */
  method WriteFilled(f: OwnedFrame, frameLen: nat, dst: array<byte>)
    requires frameLen == FIXED_HEADER_SIZE + |f.extensionBytes| + |f.payload| <= dst.Length
    modifies dst
    ensures dst[..] == Bytes(Filled(f)) + old(dst[frameLen..])
  {
    hide BigEndian.Write, Headers.EncodeHeader, Crc32c.Checksum, WithChecksum, Bytes, Filled;
    ghost var blank, tail := Bytes(Sized(f, 0)), dst[frameLen..];
    WriteBlank(f, dst);
    var crc := Crc32c.Checksum(dst[..frameLen]);
    assert dst[..frameLen] == blank;
    BigEndian.WriteAt(dst, 44, 4, crc);
    SpliceChecksum(blank, tail, crc);
    FillChecksum(f, crc);
    FilledChecksum(f);
  }

  lemma SpliceChecksum(p: seq<byte>, tail: seq<byte>, c: u32)
    requires |p| >= FIXED_HEADER_SIZE
    ensures (p + tail)[..44] + BigEndian.Write(4, c) + (p + tail)[48..] == WithChecksum(p, c) + tail
  {
    hide BigEndian.Write;
  }

  lemma FilledChecksum(f: OwnedFrame)
    ensures Filled(f) == Sized(f, Crc32c.Checksum(Bytes(Sized(f, 0))))
  {}

  /** Header, extensions and payload, with the checksum field still zero. */
  method WriteBlank(f: OwnedFrame, dst: array<byte>)
    requires dst.Length >= FIXED_HEADER_SIZE + |f.extensionBytes| + |f.payload|
    modifies dst
    ensures dst[..] == Bytes(Sized(f, 0)) + old(dst[|Bytes(Sized(f, 0))|..])
  {
    var header := Sized(f, 0).header;
    ghost var d, h := dst[..], Headers.EncodeHeader(header);
    var wrote := Headers.Encode(header, dst);
    Buffers.CopyInto(dst, FIXED_HEADER_SIZE, f.extensionBytes);
    assert dst[..] == h + f.extensionBytes + d[FIXED_HEADER_SIZE + |f.extensionBytes|..];
    Buffers.CopyInto(dst, FIXED_HEADER_SIZE + |f.extensionBytes|, f.payload);
  }

  // ---------------------------------------------------------------- checksum field

  lemma RestoreChecksum(p: seq<byte>)
    requires |p| >= FIXED_HEADER_SIZE
    ensures WithChecksum(p, WireChecksum(p)) == p
  {
    BigEndian.WriteRead(p[44..48]);
    assert p == p[..44] + p[44..48] + p[48..];
  }

  lemma WriteChecksum(p: seq<byte>, c: u32)
    requires |p| >= FIXED_HEADER_SIZE
    ensures WireChecksum(WithChecksum(p, c)) == c
    ensures forall d: u32 :: WithChecksum(WithChecksum(p, c), d) == WithChecksum(p, d)
  {
    assert WithChecksum(p, c)[44..48] == BigEndian.Write(4, c);
    BigEndian.RoundTrip32(c);
    assert WithChecksum(p, c)[..44] == p[..44];
    assert WithChecksum(p, c)[48..] == p[48..];
  }

  /** The checksum field is the last one of the header, so filling it in place fills the header. */
  lemma FillChecksum(f: OwnedFrame, c: u32)
    ensures WithChecksum(Bytes(Sized(f, 0)), c) == Bytes(Sized(f, c))
  {
    var a, b := Bytes(Sized(f, 0)), Bytes(Sized(f, c));
    var h0, h1 := Headers.EncodeHeader(Sized(f, 0).header), Headers.EncodeHeader(Sized(f, c).header);
    assert h0[..44] == h1[..44];
    assert h1 == h1[..44] + BigEndian.Write(4, c);
    assert a[..44] == h0[..44];
    assert a[48..] == f.extensionBytes + f.payload;
  }

  /** Every encoded frame carries the checksum it ought to carry. */
  lemma EncodedChecksumMatches(f: OwnedFrame)
    ensures ChecksumMatches(Bytes(Filled(f)))
  {
    var blank := Bytes(Sized(f, 0));
    var c := Crc32c.Checksum(blank);
    FillChecksum(f, c);
    FillChecksum(f, 0);
    WriteChecksum(blank, c);
  }

  // ---------------------------------------------------------------- inverse laws

  /** What a frame must satisfy to survive the wire unchanged; a sender can check each clause. */
  predicate WellFormed(f: OwnedFrame) {
    FitsFields(f) && LegalContent(f)
  }

  predicate FitsFields(f: OwnedFrame) {
    && f.header.magic == MAGIC_RTDP
    && f.header.version == RTDP_VERSION_1
    && FIXED_HEADER_SIZE + |f.extensionBytes| < 0x1_0000
    && |f.payload| < 0x1_0000_0000
  }

  predicate LegalContent(f: OwnedFrame) {
    && Extensions.Validate(f.extensionBytes).Ok?
    && Headers.CanonicalType(f.header.messageType)
    && MessageRules(f.header.messageType, f.payload).Ok?
  }

  lemma PartsOfBytes(f: OwnedFrame)
    ensures var p := Bytes(f);
            var hl := FIXED_HEADER_SIZE + |f.extensionBytes|;
            && p[..FIXED_HEADER_SIZE] == Headers.EncodeHeader(f.header)
            && p[FIXED_HEADER_SIZE..hl] == f.extensionBytes
            && p[hl..] == f.payload
            && BigEndian.ReadU16(p[0..2]) == f.header.magic
            && p[2] == f.header.version
            && HeaderLength(p) == f.header.headerLength
            && BigEndian.ReadU32(p[40..44]) == f.header.payloadLength
  {
    var tail := f.extensionBytes + f.payload;
    assert Bytes(f) == Headers.EncodeHeader(f.header) + tail;
    Headers.FieldsOfEncoding(f.header, tail);
  }

  /** The length checks on a sized frame's bytes pass exactly when its lengths fit their fields. */
  lemma LengthsOfEncoding(cfg: Config, f: OwnedFrame, c: u32)
    requires (FIXED_HEADER_SIZE + |f.extensionBytes|) % 4 == 0
    requires |Bytes(Sized(f, c))| <= cfg.maxFrameSize
    ensures CheckLengths(cfg, Bytes(Sized(f, c))).Ok? <==> FitsFields(f)
  {
    hide BigEndian.Read, BigEndian.Write, Headers.EncodeHeader;
    PartsOfBytes(Sized(f, c));
  }

  /** Once the lengths fit, decoding cuts the bytes back into the frame's own parts. */
  lemma DecodeParts(cfg: Config, g: OwnedFrame)
    requires ChecksumMatches(Bytes(g))
    requires CheckLengths(cfg, Bytes(g)).Ok?
    requires g.header.headerLength == FIXED_HEADER_SIZE + |g.extensionBytes|
    requires g.header.magic == MAGIC_RTDP && g.header.version == RTDP_VERSION_1
    ensures DecodeFrame(cfg, Bytes(g)) == Ok(g) <==> LegalContent(g)
  {
    PartsOfBytes(g);
    Headers.HeaderRoundTrip(g.header, []);
    assert Headers.EncodeHeader(g.header) + [] == Bytes(g)[..FIXED_HEADER_SIZE];
  }

  /** Whatever else may be wrong with it, a frame that fits its fields decodes to itself or not at all. */
  lemma DecodesToItselfOrFails(cfg: Config, g: OwnedFrame)
    requires FitsFields(g) && Headers.CanonicalType(g.header.messageType)
    requires g.header.headerLength == FIXED_HEADER_SIZE + |g.extensionBytes|
    ensures DecodeFrame(cfg, Bytes(g)).Ok? ==> DecodeFrame(cfg, Bytes(g)) == Ok(g)
  {
    PartsOfBytes(g);
    Headers.HeaderRoundTrip(g.header, []);
    assert Headers.EncodeHeader(g.header) + [] == Bytes(g)[..FIXED_HEADER_SIZE];
  }

  lemma SizedLengths(f: OwnedFrame, c: u32)
    requires FitsFields(f)
    ensures Sized(f, c).header.headerLength == FIXED_HEADER_SIZE + |f.extensionBytes|
    ensures Sized(f, c).header.payloadLength == |f.payload|
    ensures |Bytes(Sized(f, c))| == FIXED_HEADER_SIZE + |f.extensionBytes| + |f.payload|
  {}

  lemma DecodeSized(cfg: Config, f: OwnedFrame, c: u32)
    requires (FIXED_HEADER_SIZE + |f.extensionBytes|) % 4 == 0
    requires |Bytes(Sized(f, c))| <= cfg.maxFrameSize
    requires ChecksumMatches(Bytes(Sized(f, c)))
    ensures DecodeFrame(cfg, Bytes(Sized(f, c))) == Ok(Sized(f, c)) <==> WellFormed(f)
  {
    LengthsOfEncoding(cfg, f, c);
    if FitsFields(f) {
      SizedLengths(f, c);
      DecodeParts(cfg, Sized(f, c));
    } else {
      LengthsFirst(cfg, Bytes(Sized(f, c)));
    }
  }

  /** Decoding an encoded frame returns it, with lengths and checksum filled in, exactly when it is well formed. */
  lemma DecodeEncode(cfg: Config, f: OwnedFrame, dstLength: nat)
    requires EncodeFrame(cfg, f, dstLength).Ok?
    ensures DecodeFrame(cfg, EncodeFrame(cfg, f, dstLength).value) == Ok(Filled(f)) <==> WellFormed(f)
  {
    EncodedChecksumMatches(f);
    DecodeSized(cfg, f, Filled(f).header.checksum);
  }

  lemma LengthsFirst(cfg: Config, p: seq<byte>)
    requires CheckLengths(cfg, p).Err?
    ensures DecodeFrame(cfg, p).Err?
  {}

  lemma BytesOfParts(p: seq<byte>, hl: nat, h: FixedHeader)
    requires FIXED_HEADER_SIZE <= hl <= |p|
    requires Headers.EncodeHeader(h) == p[..FIXED_HEADER_SIZE]
    ensures Bytes(OwnedFrame(h, p[FIXED_HEADER_SIZE..hl], p[hl..])) == p
  {
    assert p == p[..FIXED_HEADER_SIZE] + p[FIXED_HEADER_SIZE..hl] + p[hl..];
  }

  lemma DecodedHeader(p: seq<byte>, h: FixedHeader)
    requires |p| >= FIXED_HEADER_SIZE && Headers.DecodeHeader(p[..FIXED_HEADER_SIZE]) == Ok(h)
    ensures Headers.EncodeHeader(h) == p[..FIXED_HEADER_SIZE]
    ensures h.headerLength == HeaderLength(p)
    ensures h.payloadLength == BigEndian.ReadU32(p[40..44])
    ensures h.checksum == WireChecksum(p)
  {
    var front := p[..FIXED_HEADER_SIZE];
    assert front[6..8] == p[6..8] && front[40..44] == p[40..44] && front[44..48] == p[44..48];
    Headers.HeaderReencode(front);
    assert front[..FIXED_HEADER_SIZE] == front;
  }

  /** An accepted packet is the bytes of the frame it decodes to, and that frame is sized already. */
  lemma DecodedBytes(cfg: Config, p: seq<byte>)
    requires DecodeFrame(cfg, p).Ok?
    ensures var f := DecodeFrame(cfg, p).value;
            Bytes(f) == p && f == Sized(f, WireChecksum(p))
  {
    var hl := HeaderLength(p) as int;
    var h := DecodeFrame(cfg, p).value.header;
    assert Headers.DecodeHeader(p[..FIXED_HEADER_SIZE]) == Ok(h);
    DecodedHeader(p, h);
    BytesOfParts(p, hl, h);
    SizedAlready(OwnedFrame(h, p[FIXED_HEADER_SIZE..hl], p[hl..]));
  }

  lemma SizedAlready(f: OwnedFrame)
    requires f.header.headerLength == FIXED_HEADER_SIZE + |f.extensionBytes|
    requires f.header.payloadLength == |f.payload|
    ensures f == Sized(f, f.header.checksum)
  {}

  /** Re-encoding an accepted packet reproduces it byte for byte exactly when its checksum is right. */
  lemma EncodeDecode(cfg: Config, p: seq<byte>, dstLength: nat)
    requires DecodeFrame(cfg, p).Ok? && dstLength >= |p|
    ensures EncodeFrame(cfg, DecodeFrame(cfg, p).value, dstLength) == Ok(p) <==> ChecksumMatches(p)
  {
    var f, c := DecodeFrame(cfg, p).value, WireChecksum(p);
    DecodedBytes(cfg, p);
    var blank := Bytes(Sized(f, 0));
    FillChecksum(f, c);
    WriteChecksum(blank, c);
    FillChecksum(f, 0);
    assert WithChecksum(p, 0) == blank;
    var expected := ExpectedChecksum(p);
    FillChecksum(f, expected);
    WriteChecksum(blank, expected);
    assert Bytes(Filled(f)) == WithChecksum(blank, expected);
    assert |f.extensionBytes| == HeaderLength(p) - FIXED_HEADER_SIZE;
  }

  lemma AcceptedAreValid(cfg: Config, p: seq<byte>)
    requires DecodeFrame(cfg, p).Ok?
    ensures var ext := DecodeFrame(cfg, p).value.extensionBytes; |ext| % 4 == 0 && Extensions.Validate(ext).Ok?
  {
    hide Extensions.Validate, Headers.DecodeHeader, ChecksumMatches, MessageRules;
  }

  /** The extensions of an accepted frame parse, are consumed to the last byte, are never critical, never cut short. */
  lemma AcceptedExtensions(cfg: Config, p: seq<byte>)
    requires DecodeFrame(cfg, p).Ok?
    ensures var ext := DecodeFrame(cfg, p).value.extensionBytes;
            && Extensions.Parse(ext).Ok?
            && Extensions.TotalWireLen(Extensions.Parse(ext).value) == |ext|
            && (forall x :: x in Extensions.Parse(ext).value ==> !x.isCritical)
            && (forall r :: r in Extensions.Positions(ext) ==> !Extensions.ShortHeader(r))
  {
    var ext := DecodeFrame(cfg, p).value.extensionBytes;
    AcceptedAreValid(cfg, p);
    hide *;
    Extensions.ValidateMeaning(ext);
    Extensions.ParseConsumesAll(ext);
    Extensions.AlignedWalkHasNoShortHeader(ext);
  }

  // ---------------------------------------------------------------- corruption

  /** q is p with some bytes of the window at..at+width replaced. */
  predicate DiffersOnlyIn(p: seq<byte>, q: seq<byte>, at: nat, width: nat) {
    |p| == |q| && at + width <= |p| && p[..at] == q[..at] && p[at + width..] == q[at + width..]
  }

  /**
   A burst of up to four bytes is refused wherever it lies, unless it straddles the end of the checksum field. Straddling
   its start it is caught by the lengths, those of the undamaged packet being right, or by the checksum.
   */
  lemma BurstRefused(cfg: Config, p: seq<byte>, q: seq<byte>, at: nat, width: nat)
    requires cfg.validateChecksum
    requires |p| >= FIXED_HEADER_SIZE && ChecksumMatches(p)
    requires DiffersOnlyIn(p, q, at, width) && width <= 4 && p != q
    requires at + width <= 48 || 48 <= at
    requires at < 44 < at + width ==> CheckLengths(cfg, p).Ok?
    ensures DecodeFrame(cfg, q).Err?
  {
    if at + width <= 44 {
      EarlyBurstDetected(p, q, at, width);
    } else if 48 <= at {
      LateBurstDetected(p, q, at, width);
    } else if 44 <= at {
      WiderWindow(p, q, at, width, 44, 4);
      FieldChangeDetected(p, q, 4);
    } else {
      StraddlingBurstRefused(cfg, p, q, at, width);
    }
  }

  lemma WiderWindow(p: seq<byte>, q: seq<byte>, at: nat, width: nat, low: nat, size: nat)
    requires DiffersOnlyIn(p, q, at, width) && low <= at && at + width <= low + size <= |p|
    ensures DiffersOnlyIn(p, q, low, size)
  {
    SameRange(p, q, at, width, 0, low);
    SameRange(p, q, at, width, low + size, |p|);
    assert p[..low] == p[0..low] && q[..low] == q[0..low];
    assert p[low + size..] == p[low + size..|p|] && q[low + size..] == q[low + size..|q|];
  }

  /** Across the payload length and the checksum: the length is wrong, or only the checksum field changed. */
  lemma StraddlingBurstRefused(cfg: Config, p: seq<byte>, q: seq<byte>, at: nat, width: nat)
    requires |p| >= FIXED_HEADER_SIZE && ChecksumMatches(p) && CheckLengths(cfg, p).Ok? && cfg.validateChecksum
    requires DiffersOnlyIn(p, q, at, width) && 40 <= at < 44 < at + width <= 48 && p != q
    ensures DecodeFrame(cfg, q).Err?
  {
    if p[40..44] == q[40..44] {
      WiderWindow(p, q, at, width, 40, 8);
      assert p[..44] == p[..40] + p[40..44] && q[..44] == q[..40] + q[40..44];
      FieldChangeDetected(p, q, 4);
    } else {
      SameRange(p, q, at, width, 6, 8);
      LengthChangeRefused(cfg, p, q);
    }
  }

  lemma LengthChangeRefused(cfg: Config, p: seq<byte>, q: seq<byte>)
    requires |p| == |q| >= FIXED_HEADER_SIZE && CheckLengths(cfg, p).Ok?
    requires p[6..8] == q[6..8] && p[40..44] != q[40..44]
    ensures DecodeFrame(cfg, q).Err?
  {
    if BigEndian.Read(p[40..44]) == BigEndian.Read(q[40..44]) {
      BigEndian.ReadInjective(p[40..44], q[40..44]);
    }
    assert CheckLengths(cfg, q).Err?;
    LengthsFirst(cfg, q);
  }

  lemma WindowsDiffer(p: seq<byte>, q: seq<byte>, at: nat, width: nat)
    requires DiffersOnlyIn(p, q, at, width) && p != q
    ensures p[at..at + width] != q[at..at + width]
  {
    assert p == p[..at] + p[at..at + width] + p[at + width..];
    assert q == q[..at] + q[at..at + width] + q[at + width..];
  }

  /** Outside the window the two frames agree on every range. */
  lemma SameRange(p: seq<byte>, q: seq<byte>, at: nat, width: nat, i: nat, j: nat)
    requires DiffersOnlyIn(p, q, at, width)
    requires i <= j <= at || at + width <= i <= j <= |p|
    ensures p[i..j] == q[i..j]
  {
    if j <= at {
      assert p[i..j] == p[..at][i..j];
      assert q[i..j] == q[..at][i..j];
    } else {
      var m := at + width;
      assert forall k :: i <= k < j ==> p[k] == p[m..][k - m] && q[k] == q[m..][k - m];
    }
  }

  lemma EarlyBurstDetected(p: seq<byte>, q: seq<byte>, at: nat, width: nat)
    requires |p| >= FIXED_HEADER_SIZE && ChecksumMatches(p)
    requires DiffersOnlyIn(p, q, at, width) && width <= 4 && p != q && at + width <= 44
    ensures !ChecksumMatches(q)
  {
    WindowsDiffer(p, q, at, width);
    SameRange(p, q, at, width, at + width, 44);
    SameRange(p, q, at, width, 44, 48);
    SameRange(p, q, at, width, 48, |p|);
    assert p[48..] == q[48..];
    var post := p[at + width..44] + BigEndian.Write(4, 0) + p[48..];
    Crc32c.BurstDetected(p[..at], p[at..at + width], q[at..at + width], post);
    SplitEarly(p, at, width);
    SplitEarly(q, at, width);
  }

  lemma SplitEarly(p: seq<byte>, at: nat, width: nat)
    requires |p| >= FIXED_HEADER_SIZE && at + width <= 44
    ensures WithChecksum(p, 0)
         == p[..at] + p[at..at + width] + (p[at + width..44] + BigEndian.Write(4, 0) + p[48..])
  {
    assert p[..44] == p[..at] + p[at..at + width] + p[at + width..44];
  }

  lemma LateBurstDetected(p: seq<byte>, q: seq<byte>, at: nat, width: nat)
    requires |p| >= FIXED_HEADER_SIZE && ChecksumMatches(p)
    requires DiffersOnlyIn(p, q, at, width) && width <= 4 && p != q && 48 <= at
    ensures !ChecksumMatches(q)
  {
    WindowsDiffer(p, q, at, width);
    SameRange(p, q, at, width, 0, 44);
    SameRange(p, q, at, width, 44, 48);
    SameRange(p, q, at, width, 48, at);
    var pre := p[..44] + BigEndian.Write(4, 0) + p[48..at];
    Crc32c.BurstDetected(pre, p[at..at + width], q[at..at + width], p[at + width..]);
    SplitLate(p, at, width);
    SplitLate(q, at, width);
  }

  lemma SplitLate(p: seq<byte>, at: nat, width: nat)
    requires |p| >= FIXED_HEADER_SIZE && 48 <= at && at + width <= |p|
    ensures WithChecksum(p, 0)
         == (p[..44] + BigEndian.Write(4, 0) + p[48..at]) + p[at..at + width] + p[at + width..]
  {
    assert p[48..] == p[48..at] + p[at..at + width] + p[at + width..];
  }

  lemma FieldChangeDetected(p: seq<byte>, q: seq<byte>, width: nat)
    requires |p| >= FIXED_HEADER_SIZE && ChecksumMatches(p)
    requires DiffersOnlyIn(p, q, 44, width) && width <= 4 && p != q
    ensures !ChecksumMatches(q)
  {
    SameRange(p, q, 44, width, 48, |p|);
    assert WithChecksum(q, 0) == WithChecksum(p, 0);
    assert DiffersOnlyIn(p, q, 44, 4);
    WindowsDiffer(p, q, 44, 4);
    if WireChecksum(q) == WireChecksum(p) {
      BigEndian.ReadInjective(q[44..48], p[44..48]);
    }
  }

  /** Changing one byte of an encoded frame, anywhere, makes decoding fail. */
  lemma SingleByteRefused(cfg: Config, p: seq<byte>, at: nat, b: byte)
    requires cfg.validateChecksum
    requires |p| >= FIXED_HEADER_SIZE && ChecksumMatches(p)
    requires at < |p| && p[at] != b
    ensures DecodeFrame(cfg, p[at := b]).Err?
  {
    var q := p[at := b];
    if 44 <= at < 48 {
      assert DiffersOnlyIn(p, q, 44, 4);
      BurstRefused(cfg, p, q, 44, 4);
    } else {
      assert DiffersOnlyIn(p, q, at, 1);
      BurstRefused(cfg, p, q, at, 1);
    }
  }

  /** An encoded frame cut short is refused too: its lengths no longer add up. */
  lemma TruncationRefused(cfg: Config, f: OwnedFrame, n: nat)
    requires FitsFields(f) && n < |Bytes(Filled(f))|
    ensures DecodeFrame(cfg, Bytes(Filled(f))[..n]).Err?
  {
    SizedLengths(f, Filled(f).header.checksum);
    CutShort(cfg, Filled(f), n);
  }

  lemma CutShort(cfg: Config, g: OwnedFrame, n: nat)
    requires n < |Bytes(g)| && g.header.headerLength + g.header.payloadLength == |Bytes(g)|
    ensures DecodeFrame(cfg, Bytes(g)[..n]).Err?
  {
    var p, q := Bytes(g), Bytes(g)[..n];
    PartsOfBytes(g);
    assert CheckLengths(cfg, q).Err? by {
      if n >= FIXED_HEADER_SIZE {
        assert q[6..8] == p[6..8] && q[40..44] == p[40..44];
      }
    }
    LengthsFirst(cfg, q);
  }
}
