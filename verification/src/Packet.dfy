/** An incoming packet as the deserializers are handed it. */
module Packet {
  import opened Bytes
  import opened Header

  /** An incoming packet: its claimed length may exceed the bytes that arrived. */
  datatype PacketInfo = PacketInfo(kind: byte, remainingLength: u32, remainingData: seq<byte>)

  /** `bounded`: the claimed slice, if the buffer really has it. */
  function Bounded(buffer: seq<byte>, from: nat, length: u32): (r: Option<seq<byte>>)
    ensures r.Some? <==> from + length <= |buffer|
  {
    if from + length <= |buffer| then Some(buffer[from..from + length]) else None
  }

  function PacketSize(remainingLength: u32): u32 {
    SaturatingAdd(SaturatingAdd(remainingLength, SizeVar(remainingLength)), 1)
  }
}
