/** Frames as values: machine integers, message types, the fixed header and whole frames. */
module Frames {

  type byte = x: int | 0 <= x < 0x100
  type u16 = x: int | 0 <= x < 0x1_0000
  type u32 = x: int | 0 <= x < 0x1_0000_0000
  type u64 = x: int | 0 <= x < 0x1_0000_0000_0000_0000

  const MAGIC_RTDP: u16 := 0x5254
  const RTDP_VERSION_1: byte := 1
  const FIXED_HEADER_SIZE := 48

  datatype MessageType =
    | Data
    | Heartbeat
    | ReplayRequest
    | ReplayResponse
    | ReplayUnavailable
    | SnapshotRequest
    | SnapshotResponse
    | Error
    | Experimental(value: u16)

  datatype FixedHeader = FixedHeader(
    magic: u16,
    version: byte,
    flags: byte,
    messageType: MessageType,
    headerLength: u16,
    streamId: u64,
    sequence: u64,
    timestampNs: u64,
    publisherId: u64,
    payloadLength: u32,
    checksum: u32)

  /** Both an owned frame and a decoded view: the two differ only in who owns the bytes. */
  datatype OwnedFrame = OwnedFrame(
    header: FixedHeader,
    extensionBytes: seq<byte>,
    payload: seq<byte>)

  function NewHeader(messageType: MessageType, streamId: u64, sequence: u64, timestampNs: u64,
                     publisherId: u64, payloadLength: u32): FixedHeader {
    FixedHeader(MAGIC_RTDP, RTDP_VERSION_1, 0, messageType, 48, streamId, sequence, timestampNs,
                publisherId, payloadLength, 0)
  }

  /** A DATA frame without extensions; the payload length is truncated to 32 bits. */
  function NewData(streamId: u64, sequence: u64, timestampNs: u64, publisherId: u64,
                   payload: seq<byte>): OwnedFrame {
    OwnedFrame(NewHeader(Data, streamId, sequence, timestampNs, publisherId, |payload| % 0x1_0000_0000),
               [], payload)
  }
}
