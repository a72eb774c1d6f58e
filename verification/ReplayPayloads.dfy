/** Payloads of REPLAY_REQUEST and REPLAY_UNAVAILABLE: three big-endian 64-bit words. */
module ReplayPayloads {
  import opened Outcomes
  import opened Frames
  import BigEndian

  const REPLAY_PAYLOAD_SIZE := 24

  /** A request for the inclusive range from..to. */
  datatype RequestPayload = RequestPayload(requestId: nat, fromSequence: nat, toSequence: nat)

  datatype UnavailablePayload = UnavailablePayload(requestId: nat, firstUnavailable: nat, lastUnavailable: nat)

  /** Three 64-bit words; larger numbers are truncated to their low 64 bits. */
  function EncodeWords(a: nat, b: nat, c: nat): (s: seq<byte>)
    ensures |s| == REPLAY_PAYLOAD_SIZE
  {
    BigEndian.Write(8, a) + BigEndian.Write(8, b) + BigEndian.Write(8, c)
  }

  predicate FitWords(a: nat, b: nat, c: nat) {
    var limit := 0x1_0000_0000_0000_0000;
    a < limit && b < limit && c < limit
  }

  function EncodeRequest(r: RequestPayload): seq<byte> {
    EncodeWords(r.requestId, r.fromSequence, r.toSequence)
  }

  function DecodeRequest(src: seq<byte>): Result<RequestPayload> {
    if |src| < REPLAY_PAYLOAD_SIZE then
      Err(Malformed())
    else
      var r := RequestPayload(BigEndian.ReadU64(src[0..8]), BigEndian.ReadU64(src[8..16]),
                              BigEndian.ReadU64(src[16..24]));
      if r.fromSequence > r.toSequence then Err(Protocol(ReplayRangeInvalid)) else Ok(r)
  }

  function EncodeUnavailable(u: UnavailablePayload): seq<byte> {
    EncodeWords(u.requestId, u.firstUnavailable, u.lastUnavailable)
  }

  function DecodeUnavailable(src: seq<byte>): Result<UnavailablePayload> {
    if |src| < REPLAY_PAYLOAD_SIZE then
      Err(Malformed())
    else
      Ok(UnavailablePayload(BigEndian.ReadU64(src[0..8]), BigEndian.ReadU64(src[8..16]),
                            BigEndian.ReadU64(src[16..24])))
  }

  /** Writes the three words in place. */
  method EncodeInto(a: nat, b: nat, c: nat, dst: array<byte>) returns (r: Result<()>)
    modifies dst
    ensures dst.Length < REPLAY_PAYLOAD_SIZE ==> r == Err(Malformed()) && dst[..] == old(dst[..])
    ensures dst.Length >= REPLAY_PAYLOAD_SIZE ==>
              r == Ok(()) && dst[..] == EncodeWords(a, b, c) + old(dst[REPLAY_PAYLOAD_SIZE..])
  {
    if dst.Length < REPLAY_PAYLOAD_SIZE {
      return Err(Malformed());
    }
    ghost var d, w := dst[..], BigEndian.Write(8, a);
    BigEndian.WriteAt(dst, 0, 8, a);
    assert dst[..] == w + d[8..];
    BigEndian.WriteAt(dst, 8, 8, b);
    w := w + BigEndian.Write(8, b);
    assert dst[..] == w + d[16..];
    BigEndian.WriteAt(dst, 16, 8, c);
    return Ok(());
  }

  lemma WordsRoundTrip(a: nat, b: nat, c: nat)
    requires FitWords(a, b, c)
    ensures var s := EncodeWords(a, b, c);
            BigEndian.ReadU64(s[0..8]) == a && BigEndian.ReadU64(s[8..16]) == b
            && BigEndian.ReadU64(s[16..24]) == c
  {
    var s := EncodeWords(a, b, c);
    assert s[0..8] == BigEndian.Write(8, a);
    assert s[8..16] == BigEndian.Write(8, b);
    assert s[16..24] == BigEndian.Write(8, c);
    BigEndian.RoundTrip64(a);
    BigEndian.RoundTrip64(b);
    BigEndian.RoundTrip64(c);
  }

  /** A request survives the wire exactly when its words fit and its range is not reversed. */
  lemma RequestRoundTrip(r: RequestPayload)
    ensures DecodeRequest(EncodeRequest(r)) == Ok(r) <==>
            FitWords(r.requestId, r.fromSequence, r.toSequence) && r.fromSequence <= r.toSequence
  {
    if FitWords(r.requestId, r.fromSequence, r.toSequence) {
      WordsRoundTrip(r.requestId, r.fromSequence, r.toSequence);
    }
  }

  /** A notice survives the wire exactly when its words fit. */
  lemma UnavailableRoundTrip(u: UnavailablePayload)
    ensures DecodeUnavailable(EncodeUnavailable(u)) == Ok(u) <==>
            FitWords(u.requestId, u.firstUnavailable, u.lastUnavailable)
  {
    if FitWords(u.requestId, u.firstUnavailable, u.lastUnavailable) {
      WordsRoundTrip(u.requestId, u.firstUnavailable, u.lastUnavailable);
    }
  }
}
