/**
 The wire format stated byte by byte, apart from the codec: what a decoder must refuse, in which order and with which
 code, where every field lies, and what an encoder writes.
 */
module WireFormat {
  import opened Outcomes
  import opened Frames
  import BigEndian
  import Codec
  import Crc32c
  import Extensions
  import Headers
  import ReplayPayloads

  // ---------------------------------------------------------------- numbers at offsets

  function U16At(s: seq<byte>, i: nat): nat
    requires i + 2 <= |s|
  {
    0x100 * (s[i] as nat) + s[i + 1]
  }

  function U32At(s: seq<byte>, i: nat): nat
    requires i + 4 <= |s|
  {
    0x1_0000 * U16At(s, i) + U16At(s, i + 2)
  }

  function U64At(s: seq<byte>, i: nat): nat
    requires i + 8 <= |s|
  {
    0x1_0000_0000 * U32At(s, i) + U32At(s, i + 4)
  }

  lemma ReadStep(s: seq<byte>)
    requires |s| > 0
    ensures BigEndian.Read(s) == 0x100 * BigEndian.Read(s[..|s| - 1]) + s[|s| - 1]
  {}

  lemma ReadTwo(s: seq<byte>)
    requires |s| >= 2
    ensures BigEndian.Read(s) == 0x1_0000 * BigEndian.Read(s[..|s| - 2]) + U16At(s, |s| - 2)
  {
    hide BigEndian.Read;
    ReadStep(s);
    ReadStep(s[..|s| - 1]);
    assert s[..|s| - 1][..|s| - 2] == s[..|s| - 2];
  }

  lemma ReadNothing()
    ensures BigEndian.Read([]) == 0
  {}

  lemma ReadU16Is(s: seq<byte>, i: nat)
    requires i + 2 <= |s|
    ensures BigEndian.ReadU16(s[i..i + 2]) == U16At(s, i)
  {
    hide BigEndian.Read;
    var t := s[i..i + 2];
    ReadTwo(t);
    assert t[..0] == [];
    ReadNothing();
  }

  lemma ReadFour(t: seq<byte>)
    requires |t| >= 4
    ensures BigEndian.Read(t) == 0x1_0000_0000 * BigEndian.Read(t[..|t| - 4]) + U32At(t, |t| - 4)
  {
    hide BigEndian.Read;
    ReadTwo(t);
    ReadTwo(t[..|t| - 2]);
    assert t[..|t| - 2][..|t| - 4] == t[..|t| - 4];
  }

  lemma ReadU32Is(s: seq<byte>, i: nat)
    requires i + 4 <= |s|
    ensures BigEndian.ReadU32(s[i..i + 4]) == U32At(s, i)
  {
    hide BigEndian.Read;
    var t := s[i..i + 4];
    ReadFour(t);
    assert t[..0] == [];
    ReadNothing();
  }

  lemma ReadU64Is(s: seq<byte>, i: nat)
    requires i + 8 <= |s|
    ensures BigEndian.ReadU64(s[i..i + 8]) == U64At(s, i)
  {
    hide BigEndian.Read;
    var t := s[i..i + 8];
    ReadFour(t);
    ReadFour(t[..4]);
    assert t[..4][..0] == [];
    ReadNothing();
  }

  // ---------------------------------------------------------------- what must be refused

  /** The codes of protocol/wire-format/frame.md for the extension area, walked record by record. */
  function ExtensionFault(d: seq<byte>): Option<ErrorCode>
    decreases |d|
  {
    if |d| == 0 then None
    else if |d| < 4 then Some(MalformedFrame)
    else
      var n := U16At(d, 2);
      var padding := if n % 4 == 0 then 0 else 4 - n % 4;
      if |d| < 4 + n + padding then Some(MalformedFrame)
      else if U16At(d, 0) >= 0x8000 then Some(UnsupportedExtension)
      else ExtensionFault(d[4 + n + padding..])
  }

  /** The payload rules of the message types, by number. */
  function PayloadFault(kind: nat, payload: seq<byte>): Option<ErrorCode> {
    if kind == 2 && |payload| != 0 then Some(MalformedFrame)
    else if (kind == 3 || kind == 5) && |payload| != 24 then Some(MalformedFrame)
    else if kind == 4 && |payload| < 8 then Some(MalformedFrame)
    else if kind == 3 && U64At(payload, 8) > U64At(payload, 16) then Some(ReplayRangeInvalid)
    else None
  }

  /** The first check a packet fails. */
  function FirstFault(cfg: Codec.Config, p: seq<byte>): Option<ErrorCode> {
    if |p| < 48 then Some(MalformedFrame)
    else if |p| > cfg.maxFrameSize then Some(FrameTooLarge)
    else if p[0] != 0x52 || p[1] != 0x54 then Some(MalformedFrame)
    else if p[2] != 1 then Some(VersionMismatch)
    else
      var headerLength := U16At(p, 6);
      if headerLength < 48 || headerLength % 4 != 0 || headerLength > |p| then Some(MalformedFrame)
      else if headerLength + U32At(p, 40) != |p| then Some(MalformedFrame)
      else if ExtensionFault(p[48..headerLength]).Some? then ExtensionFault(p[48..headerLength])
      else if cfg.validateChecksum && U32At(p, 44) != Crc32c.Checksum(p[..44] + [0, 0, 0, 0] + p[48..]) then
        Some(ChecksumFailed)
      else if !(1 <= U16At(p, 4) <= 8 || 0xFF00 <= U16At(p, 4)) then Some(UnsupportedMessageType)
      else PayloadFault(U16At(p, 4), p[headerLength..])
  }

  /** The numbers of the message types. */
  predicate HasNumber(m: MessageType, n: nat) {
    match n
    case 1 => m == Data
    case 2 => m == Heartbeat
    case 3 => m == ReplayRequest
    case 4 => m == ReplayResponse
    case 5 => m == MessageType.ReplayUnavailable
    case 6 => m == SnapshotRequest
    case 7 => m == SnapshotResponse
    case 8 => m == MessageType.Error
    case _ => n >= 0xFF00 && m == Experimental(n % 0x1_0000)
  }

  /** Every field of the header lies at its offset. */
  predicate HeaderAt(h: FixedHeader, p: seq<byte>)
    requires |p| >= 48
  {
    && h.magic == U16At(p, 0) && h.version == p[2] && h.flags == p[3]
    && HasNumber(h.messageType, U16At(p, 4))
    && h.headerLength == U16At(p, 6)
    && h.streamId == U64At(p, 8) && h.sequence == U64At(p, 16)
    && h.timestampNs == U64At(p, 24) && h.publisherId == U64At(p, 32)
    && h.payloadLength == U32At(p, 40) && h.checksum == U32At(p, 44)
  }

  /** The record at the front, by its bytes. */
  lemma FrontAt(d: seq<byte>)
    ensures |d| == 0 ==> Extensions.Front(d) == Extensions.End
    ensures 0 < |d| < 4 ==> Extensions.Front(d) == Extensions.Broken
    ensures |d| >= 4 ==>
              var n := U16At(d, 2);
              var total := 4 + n + if n % 4 == 0 then 0 else 4 - n % 4;
              if |d| < total then Extensions.Front(d) == Extensions.Broken
              else
                && Extensions.Front(d).Record? && Extensions.Front(d).length == total
                && var x := Extensions.Front(d).extension;
                   x.extType == U16At(d, 0) && x.isCritical == (x.extType >= 0x8000) && x.value == d[4..4 + n]
  {
    if |d| >= 4 {
      ReadU16Is(d, 0);
      ReadU16Is(d, 2);
      hide BigEndian.ReadU16, U16At;
    }
  }

  lemma {:induction false} ValidateIsFault(d: seq<byte>)
    ensures Extensions.Validate(d)
         == match ExtensionFault(d) case None => Ok(()) case Some(code) => Err(Outcomes.Protocol(code))
    decreases |d|
  {
    hide Extensions.Front, U16At;
    FrontAt(d);
    var i := Extensions.Front(d);
    if i.Record? {
      ValidateIsFault(d[i.length..]);
    }
  }

  lemma RulesAreFault(m: MessageType, n: nat, payload: seq<byte>)
    requires HasNumber(m, n)
    ensures Codec.MessageRules(m, payload)
         == match PayloadFault(n, payload) case None => Ok(()) case Some(code) => Err(Outcomes.Protocol(code))
  {
    if |payload| == 24 {
      ReadU64Is(payload, 8);
      ReadU64Is(payload, 16);
    }
  }

  lemma TypeIsNumber(n: u16)
    ensures match Headers.FromU16(n)
            case Ok(m) => (1 <= n <= 8 || 0xFF00 <= n) && HasNumber(m, n)
            case Err(e) => !(1 <= n <= 8 || 0xFF00 <= n) && e == Outcomes.Protocol(UnsupportedMessageType)
  {}

  lemma SmallFieldsAt(p: seq<byte>)
    requires |p| >= 48
    ensures var h := p[..48];
            && BigEndian.ReadU16(h[0..2]) == U16At(p, 0) && h[2] == p[2] && h[3] == p[3]
            && BigEndian.ReadU16(h[4..6]) == U16At(p, 4) && BigEndian.ReadU16(h[6..8]) == U16At(p, 6)
            && BigEndian.ReadU32(h[40..44]) == U32At(p, 40) && BigEndian.ReadU32(h[44..48]) == U32At(p, 44)
  {
    hide BigEndian.Read, U16At, U32At, BigEndian.ReadU16, BigEndian.ReadU32;
    SliceOfHeader(p, 0, 2);
    SliceOfHeader(p, 4, 6);
    SliceOfHeader(p, 6, 8);
    SliceOfHeader(p, 40, 44);
    SliceOfHeader(p, 44, 48);
    ReadU16Is(p, 0);
    ReadU16Is(p, 4);
    ReadU16Is(p, 6);
    ReadU32Is(p, 40);
    ReadU32Is(p, 44);
  }

  lemma WideFieldsAt(p: seq<byte>)
    requires |p| >= 48
    ensures var h := p[..48];
            && BigEndian.ReadU64(h[8..16]) == U64At(p, 8) && BigEndian.ReadU64(h[16..24]) == U64At(p, 16)
            && BigEndian.ReadU64(h[24..32]) == U64At(p, 24) && BigEndian.ReadU64(h[32..40]) == U64At(p, 32)
  {
    hide BigEndian.Read, U64At, BigEndian.ReadU64;
    SliceOfHeader(p, 8, 16);
    SliceOfHeader(p, 16, 24);
    SliceOfHeader(p, 24, 32);
    SliceOfHeader(p, 32, 40);
    ReadU64Is(p, 8);
    ReadU64Is(p, 16);
    ReadU64Is(p, 24);
    ReadU64Is(p, 32);
  }

  lemma HeaderIsAt(p: seq<byte>)
    requires |p| >= 48
    ensures var r := Headers.DecodeHeader(p[..48]);
            && (r.Ok? <==> U16At(p, 0) == 0x5254 && p[2] == 1 && (1 <= U16At(p, 4) <= 8 || 0xFF00 <= U16At(p, 4)))
            && (r.Ok? ==> HeaderAt(r.value, p))
            && (r.Err? && U16At(p, 0) == 0x5254 && p[2] == 1 ==> r.error == Outcomes.Protocol(UnsupportedMessageType))
  {
    SmallFieldsAt(p);
    WideFieldsAt(p);
    TypeIsNumber(BigEndian.ReadU16(p[..48][4..6]));
    hide BigEndian.ReadU16, BigEndian.ReadU32, BigEndian.ReadU64, U16At, U32At, U64At, Headers.FromU16, HasNumber;
  }

  lemma SliceOfHeader(p: seq<byte>, i: nat, j: nat)
    requires i <= j <= 48 <= |p|
    ensures p[..48][i..j] == p[i..j]
  {}

  /** The length checks are the first part of the list. */
  lemma LengthsAreFault(cfg: Codec.Config, p: seq<byte>)
    ensures var r := Codec.CheckLengths(cfg, p);
            && (r.Ok? <==> && 48 <= |p| <= cfg.maxFrameSize && p[0] == 0x52 && p[1] == 0x54 && p[2] == 1
                           && 48 <= U16At(p, 6) <= |p| && U16At(p, 6) % 4 == 0
                           && U16At(p, 6) + U32At(p, 40) == |p|)
            && (r.Err? ==> FirstFault(cfg, p).Some? && r.error == Outcomes.Protocol(FirstFault(cfg, p).value))
            && (|p| >= 48 ==> Codec.HeaderLength(p) == U16At(p, 6))
  {
    hide BigEndian.Read, ExtensionFault, PayloadFault, Crc32c.Checksum;
    if |p| >= 48 {
      ReadU16Is(p, 0);
      ReadU16Is(p, 6);
      ReadU32Is(p, 40);
    }
  }

  lemma ZeroField()
    ensures BigEndian.Write(4, 0) == [0, 0, 0, 0]
  {
    assert BigEndian.Write(2, 0) == [0, 0];
  }

  lemma ChecksumIsFault(p: seq<byte>)
    requires |p| >= 48
    ensures Codec.ChecksumMatches(p) <==> U32At(p, 44) == Crc32c.Checksum(p[..44] + [0, 0, 0, 0] + p[48..])
  {
    hide BigEndian.Read, BigEndian.Write, Crc32c.Checksum;
    ReadU32Is(p, 44);
    ZeroField();
  }

  /**
   The decoder refuses exactly the packets with a fault, with the code of the first one, and otherwise returns what
   lies at the fields' offsets.
   */
  lemma DecodeFollowsFormat(cfg: Codec.Config, p: seq<byte>)
    ensures match FirstFault(cfg, p)
            case Some(code) => Codec.DecodeFrame(cfg, p) == Err(Outcomes.Protocol(code))
            case None =>
              && |p| >= 48 && 48 <= U16At(p, 6) <= |p|
              && Codec.DecodeFrame(cfg, p).Ok?
              && var f := Codec.DecodeFrame(cfg, p).value;
                 HeaderAt(f.header, p) && f.extensionBytes == p[48..U16At(p, 6)] && f.payload == p[U16At(p, 6)..]
  {
    LengthsAreFault(cfg, p);
    if Codec.CheckLengths(cfg, p).Ok? {
      ValidateIsFault(p[48..U16At(p, 6)]);
      ChecksumIsFault(p);
      HeaderIsAt(p);
      var header := Headers.DecodeHeader(p[..48]);
      if header.Ok? {
        RulesAreFault(header.value.messageType, U16At(p, 4), p[U16At(p, 6)..]);
      }
      hide Codec.CheckLengths, Extensions.Validate, Headers.DecodeHeader, Codec.MessageRules, Codec.ChecksumMatches,
           Codec.HeaderLength, ExtensionFault, PayloadFault, HeaderAt, Crc32c.Checksum;
    }
  }

  // ---------------------------------------------------------------- what is written

  /** An encoded frame: the frame's own header fields at their offsets, lengths and checksum filled in. */
  predicate WrittenAs(s: seq<byte>, f: OwnedFrame)
    requires |s| >= 48
  {
    && U16At(s, 0) == f.header.magic && s[2] == f.header.version && s[3] == f.header.flags
    && (if f.header.messageType.Experimental? then U16At(s, 4) == f.header.messageType.value
        else HasNumber(f.header.messageType, U16At(s, 4)))
    && U16At(s, 6) == (48 + |f.extensionBytes|) % 0x1_0000
    && U64At(s, 8) == f.header.streamId && U64At(s, 16) == f.header.sequence
    && U64At(s, 24) == f.header.timestampNs && U64At(s, 32) == f.header.publisherId
    && U32At(s, 40) == |f.payload| % 0x1_0000_0000
    && U32At(s, 44) == Crc32c.Checksum(s[..44] + [0, 0, 0, 0] + s[48..])
    && s[48..] == f.extensionBytes + f.payload
  }

  lemma SmallFieldsWritten(h: FixedHeader, tail: seq<byte>)
    ensures var s := Headers.EncodeHeader(h) + tail;
            && U16At(s, 0) == h.magic && s[2] == h.version && s[3] == h.flags
            && U16At(s, 4) == Headers.AsU16(h.messageType) && U16At(s, 6) == h.headerLength
            && U32At(s, 40) == h.payloadLength && U32At(s, 44) == h.checksum
  {
    Headers.FieldsOfEncoding(h, tail);
    hide BigEndian.ReadU16, BigEndian.ReadU32, BigEndian.ReadU64, U16At, U32At, Headers.EncodeHeader;
    var s := Headers.EncodeHeader(h) + tail;
    ReadU16Is(s, 0);
    ReadU16Is(s, 4);
    ReadU16Is(s, 6);
    ReadU32Is(s, 40);
    ReadU32Is(s, 44);
  }

  lemma WideFieldsWritten(h: FixedHeader, tail: seq<byte>)
    ensures var s := Headers.EncodeHeader(h) + tail;
            && U64At(s, 8) == h.streamId && U64At(s, 16) == h.sequence
            && U64At(s, 24) == h.timestampNs && U64At(s, 32) == h.publisherId
  {
    Headers.FieldsOfEncoding(h, tail);
    hide BigEndian.ReadU16, BigEndian.ReadU32, BigEndian.ReadU64, U64At, Headers.EncodeHeader;
    var s := Headers.EncodeHeader(h) + tail;
    ReadU64Is(s, 8);
    ReadU64Is(s, 16);
    ReadU64Is(s, 24);
    ReadU64Is(s, 32);
  }

  lemma TypeWritten(m: MessageType)
    ensures if m.Experimental? then Headers.AsU16(m) == m.value else HasNumber(m, Headers.AsU16(m))
  {}

  lemma BytesWrittenAs(f: OwnedFrame)
    ensures WrittenAs(Codec.Bytes(Codec.Filled(f)), f)
  {
    var g := Codec.Filled(f);
    var s, tail := Codec.Bytes(g), g.extensionBytes + g.payload;
    assert s == Headers.EncodeHeader(g.header) + tail;
    assert s[48..] == tail;
    SmallFieldsWritten(g.header, tail);
    WideFieldsWritten(g.header, tail);
    TypeWritten(g.header.messageType);
    Codec.EncodedChecksumMatches(f);
    ChecksumIsFault(s);
    hide Codec.Bytes, Headers.EncodeHeader, Headers.AsU16, HasNumber, U16At, U32At, U64At, Crc32c.Checksum,
         Codec.ChecksumMatches;
  }

  /** The encoder succeeds exactly within its three limits, and then writes the frame in this format. */
  lemma EncodeFollowsFormat(cfg: Codec.Config, f: OwnedFrame, n: nat)
    ensures var total := 48 + |f.extensionBytes| + |f.payload|;
            match Codec.EncodeFrame(cfg, f, n)
            case Ok(s) => |f.extensionBytes| % 4 == 0 && total <= cfg.maxFrameSize && total <= n
                          && |s| == total && WrittenAs(s, f)
            case Err(e) => if |f.extensionBytes| % 4 != 0 then e == Malformed()
                           else if total > cfg.maxFrameSize then e == Outcomes.Protocol(FrameTooLarge)
                           else n < total && e == Malformed()
  {
    BytesWrittenAs(f);
    hide WrittenAs, Codec.Filled;
    assert |Codec.Bytes(Codec.Filled(f))| == 48 + |f.extensionBytes| + |f.payload| by {
      FilledParts(f);
    }
  }

  lemma FilledParts(f: OwnedFrame)
    ensures Codec.Filled(f).extensionBytes == f.extensionBytes && Codec.Filled(f).payload == f.payload
  {}

  /** The three words of a replay payload. */
  lemma WordsWritten(a: nat, b: nat, c: nat)
    requires ReplayPayloads.FitWords(a, b, c)
    ensures var s := ReplayPayloads.EncodeWords(a, b, c);
            |s| == 24 && U64At(s, 0) == a && U64At(s, 8) == b && U64At(s, 16) == c
  {
    ReplayPayloads.WordsRoundTrip(a, b, c);
    hide BigEndian.ReadU64, U64At, ReplayPayloads.EncodeWords;
    var s := ReplayPayloads.EncodeWords(a, b, c);
    ReadU64Is(s, 0);
    ReadU64Is(s, 8);
    ReadU64Is(s, 16);
  }

  /** Request and notice payloads: request id, first and last sequence of the range. */
  lemma ReplayPayloadsWritten(id: nat, low: nat, high: nat)
    requires ReplayPayloads.FitWords(id, low, high)
    ensures var s := ReplayPayloads.EncodeRequest(ReplayPayloads.RequestPayload(id, low, high));
            |s| == 24 && U64At(s, 0) == id && U64At(s, 8) == low && U64At(s, 16) == high
    ensures var s := ReplayPayloads.EncodeUnavailable(ReplayPayloads.UnavailablePayload(id, low, high));
            |s| == 24 && U64At(s, 0) == id && U64At(s, 8) == low && U64At(s, 16) == high
  {
    WordsWritten(id, low, high);
  }

  /** A TLV record: type, length, value, and zeros up to the next multiple of four. */
  lemma TlvWritten(x: Extensions.HeaderExtension)
    ensures var s, n := Extensions.EncodeTlv(x), |x.value|;
            && |s| % 4 == 0 && 4 + n <= |s| < 8 + n
            && U16At(s, 0) == x.extType && U16At(s, 2) == n % 0x1_0000
            && s[4..4 + n] == x.value && forall i :: 4 + n <= i < |s| ==> s[i] == 0
  {
    hide BigEndian.Write;
    var s, n := Extensions.EncodeTlv(x), |x.value|;
    BigEndian.RoundTrip16(x.extType);
    Extensions.LengthField(n);
    assert s[0..2] == BigEndian.Write(2, x.extType) && s[2..4] == BigEndian.Write(2, n);
    ReadU16Is(s, 0);
    ReadU16Is(s, 2);
    hide BigEndian.Read, U16At;
    assert s[4..4 + n] == x.value;
  }

  /** The iterator takes an extension for critical exactly when its type has the top bit. */
  lemma {:induction false} CriticalByType(d: seq<byte>)
    requires Extensions.Parse(d).Ok?
    ensures forall x :: x in Extensions.Parse(d).value ==> (x.isCritical <==> x.extType >= 0x8000)
    decreases |d|
  {
    hide BigEndian.Read;
    var i := Extensions.Front(d);
    if i.Record? {
      CriticalByType(d[i.length..]);
    }
  }
}
