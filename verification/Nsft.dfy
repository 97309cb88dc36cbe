/** NSFT-v1 spectrum packets: the streamer's in-place big-endian writer, the
    layout it must produce, a decoder, and the trailer check. */
module Nsft {
  import opened Bytes
  import opened Crc32
  import opened WordBits

  const FFT_N: nat := 65536
  const CHANNELS: nat := 2
  const HEADER_BYTES: nat := 68
  const PAYLOAD_BYTES: nat := 131072
  const PACKET_BYTES: nat := 131144

  datatype SpectrumMetadata = SpectrumMetadata(
    sampleRateHz: uint32, rfBandwidthHz: uint32, centerFrequencyHz: uint64, configEpoch: uint32)

  // The packet as a value ------------------------------------------------------

  function Preamble(channel: nat): seq<byte>
    requires channel < CHANNELS
  {
    [0x4e, 0x53, 0x46, 0x54, 1, 2, channel, 0]
  }

  function Header(sequence: uint32, channel: nat, timestamp: uint64, m: SpectrumMetadata): (h: seq<byte>)
    requires channel < CHANNELS
    ensures |h| == HEADER_BYTES
  {
    Preamble(channel) + Be64(sequence) + Be32(FFT_N) + Be32(m.sampleRateHz) + Be64(m.centerFrequencyHz)
    + Be64(timestamp) + Be32(m.configEpoch) + Be32(0) + Be32(FFT_N) + Be32(0) + Be32(0) + Be32(0)
    + Be32(PAYLOAD_BYTES)
  }

  function Payload(powers: seq<uint32>, encode: uint32 -> uint16): (p: seq<byte>)
    ensures |p| == 2 * |powers|
  {
    if powers == [] then []
    else
      var n := |powers| - 1;
      Payload(powers[..n], encode) + Be16(encode(powers[n]))
  }

  function ChannelPowers(powers: seq<uint32>, channel: nat): (p: seq<uint32>)
    requires channel < CHANNELS && |powers| == CHANNELS * FFT_N
    ensures |p| == FFT_N
  {
    powers[channel * FFT_N..channel * FFT_N + FFT_N]
  }

  function Packet(sequence: uint32, channel: nat, timestamp: uint64, m: SpectrumMetadata,
                  powers: seq<uint32>, encode: uint32 -> uint16): (p: seq<byte>)
    requires channel < CHANNELS && |powers| == CHANNELS * FFT_N
    ensures |p| == PACKET_BYTES
  {
    var body := Header(sequence, channel, timestamp, m) + Payload(ChannelPowers(powers, channel), encode);
    body + Be32(WordValue(Checksum(body)))
  }

  // The in-place writer --------------------------------------------------------

  method PutBe16(packet: array<byte>, at: nat, value: uint16)
    requires at + 2 <= packet.Length
    modifies packet
    ensures packet[..at + 2] == old(packet[..at]) + Be16(value)
    ensures forall i :: at + 2 <= i < packet.Length ==> packet[i] == old(packet[i])
  {
    packet[at] := value / 0x100 % 0x100;
    packet[at + 1] := value % 0x100;
  }

  method PutBe32(packet: array<byte>, at: nat, value: uint32)
    requires at + 4 <= packet.Length
    modifies packet
    ensures packet[..at + 4] == old(packet[..at]) + Be32(value)
    ensures forall i :: at + 4 <= i < packet.Length ==> packet[i] == old(packet[i])
  {
    packet[at] := value / 0x100_0000 % 0x100;
    packet[at + 1] := value / 0x1_0000 % 0x100;
    packet[at + 2] := value / 0x100 % 0x100;
    packet[at + 3] := value % 0x100;
    Be32Bytes(value);
  }

  method PutBe64(packet: array<byte>, at: nat, value: uint64)
    requires at + 8 <= packet.Length
    modifies packet
    ensures packet[..at + 8] == old(packet[..at]) + Be64(value)
    ensures forall i :: at + 8 <= i < packet.Length ==> packet[i] == old(packet[i])
  {
    PutBe32(packet, at, value / U32);
    PutBe32(packet, at + 4, value % U32);
  }

  method PutPreamble(packet: array<byte>, channel: nat)
    requires packet.Length >= HEADER_BYTES && channel < CHANNELS
    modifies packet
    ensures packet[..8] == Preamble(channel)
    ensures forall i :: 8 <= i < packet.Length ==> packet[i] == old(packet[i])
  {
    packet[0], packet[1], packet[2], packet[3] := 0x4e, 0x53, 0x46, 0x54;
    packet[4] := 1;
    packet[5] := 2;
    packet[6] := channel;
    packet[7] := 0;
  }

  method PutHeader(packet: array<byte>, sequence: uint32, channel: nat, timestamp: uint64, m: SpectrumMetadata)
    requires packet.Length >= PACKET_BYTES && channel < CHANNELS
    modifies packet
    ensures packet[..HEADER_BYTES] == Header(sequence, channel, timestamp, m)
    ensures forall i :: HEADER_BYTES <= i < packet.Length ==> packet[i] == old(packet[i])
  {
    hide Be16, Be32, Be64, Preamble;
    PutPreamble(packet, channel);
    PutBe64(packet, 8, sequence);
    PutBe32(packet, 16, FFT_N);
    PutBe32(packet, 20, m.sampleRateHz);
    PutBe64(packet, 24, m.centerFrequencyHz);
    PutBe64(packet, 32, timestamp);
    PutBe32(packet, 40, m.configEpoch);
    PutBe32(packet, 44, 0);
    PutBe32(packet, 48, FFT_N);
    PutBe32(packet, 52, 0);
    PutBe32(packet, 56, 0);
    PutBe32(packet, 60, 0);
    PutBe32(packet, 64, PAYLOAD_BYTES);
  }

  lemma ChannelPower(powers: seq<uint32>, channel: nat, bin: nat)
    requires channel < CHANNELS && |powers| == CHANNELS * FFT_N && bin < FFT_N
    ensures channel * FFT_N + bin < |powers|
    ensures ChannelPowers(powers, channel)[bin] == powers[channel * FFT_N + bin]
  {
    assert channel == 0 || channel == 1;
  }

  method PutPayload(packet: array<byte>, channel: nat, powers: array<uint32>, encode: uint32 -> uint16)
    requires packet.Length >= PACKET_BYTES && channel < CHANNELS && powers.Length == CHANNELS * FFT_N
    modifies packet
    ensures packet[..HEADER_BYTES + PAYLOAD_BYTES]
         == old(packet[..HEADER_BYTES]) + Payload(ChannelPowers(powers[..], channel), encode)
    ensures forall i :: HEADER_BYTES + PAYLOAD_BYTES <= i < packet.Length ==> packet[i] == old(packet[i])
  {
    hide Be16;
    ghost var all := powers[..];
    ghost var bins := ChannelPowers(all, channel);
    var bin := 0;
    while bin < FFT_N
      invariant 0 <= bin <= FFT_N
      invariant packet[..HEADER_BYTES + 2 * bin] == old(packet[..HEADER_BYTES]) + Payload(bins[..bin], encode)
      invariant forall i :: HEADER_BYTES + 2 * bin <= i < packet.Length ==> packet[i] == old(packet[i])
    {
      assert bins[..bin + 1][..bin] == bins[..bin];
      ChannelPower(all, channel, bin);
      PutBe16(packet, HEADER_BYTES + bin * 2, encode(powers[channel * FFT_N + bin]));
      bin := bin + 1;
    }
    assert bins[..FFT_N] == bins;
  }

  method PutTrailer(packet: array<byte>, body: nat)
    requires body + 4 <= packet.Length
    modifies packet
    ensures packet[..body + 4] == old(packet[..body]) + Be32(WordValue(Checksum(old(packet[..body]))))
    ensures forall i :: body + 4 <= i < packet.Length ==> packet[i] == old(packet[i])
  {
    hide Checksum, WordValue, Be32, Update;
    ghost var bytes := packet[..body];
    var crc := Crc32Update(0xffffffff, packet, body);
    var trailer := WordValue(crc ^ 0xffffffff);
    TrailerIsChecksum(bytes, crc, trailer);
    PutBe32(packet, body, trailer);
  }

  lemma TrailerIsChecksum(bytes: seq<byte>, crc: bv32, trailer: uint32)
    requires crc == Update(0xffffffff, bytes) && trailer == WordValue(crc ^ 0xffffffff)
    ensures trailer == WordValue(Checksum(bytes))
  {
    hide WordValue, Update;
  }

  /** Writes one packet and returns its length. Each field is written directly
      after the bytes before it, so no store touches an earlier field; nothing
      past the packet changes. */
  method BuildNsftPacket(packet: array<byte>, sequence: uint32, channel: nat, timestamp: uint64,
                         m: SpectrumMetadata, powers: array<uint32>, encode: uint32 -> uint16)
    returns (count: nat)
    requires packet.Length >= PACKET_BYTES && channel < CHANNELS && powers.Length == CHANNELS * FFT_N
    modifies packet
    ensures count == PACKET_BYTES
    ensures packet[..count] == Packet(sequence, channel, timestamp, m, powers[..], encode)
    ensures forall i :: count <= i < packet.Length ==> packet[i] == old(packet[i])
  {
    PutHeader(packet, sequence, channel, timestamp, m);
    PutPayload(packet, channel, powers, encode);
    PutTrailer(packet, HEADER_BYTES + PAYLOAD_BYTES);
    count := HEADER_BYTES + PAYLOAD_BYTES + 4;
  }

  // The receiver ---------------------------------------------------------------

  datatype Fields = Fields(
    magic: seq<byte>, version: byte, encoding: byte, channel: byte, reserved: byte,
    sequence: nat, fftLength: nat, sampleRateHz: nat, centerFrequencyHz: nat, timestamp: nat,
    configEpoch: nat, firstBin: nat, binCount: nat, droppedFrames: nat, inputOverruns: nat,
    droppedUpdates: nat, payloadBytes: nat)

  function DecodeHeader(p: seq<byte>): Fields
    requires |p| >= HEADER_BYTES
  {
    Fields(p[0..4], p[4], p[5], p[6], p[7], ReadBe64(p, 8), ReadBe32(p, 16), ReadBe32(p, 20),
           ReadBe64(p, 24), ReadBe64(p, 32), ReadBe32(p, 40), ReadBe32(p, 44), ReadBe32(p, 48),
           ReadBe32(p, 52), ReadBe32(p, 56), ReadBe32(p, 60), ReadBe32(p, 64))
  }

  function Bin(p: seq<byte>, i: nat): nat
    requires |p| == PACKET_BYTES && i < FFT_N
  {
    ReadBe16(p, HEADER_BYTES + 2 * i)
  }

  /** The receiver's integrity check: the trailer is the checksum of the rest. */
  predicate TrailerVerifies(p: seq<byte>)
    requires |p| == PACKET_BYTES
  {
    ReadBe32(p, PACKET_BYTES - 4) == WordValue(Checksum(p[..PACKET_BYTES - 4]))
  }

  lemma HeaderRoundTrip(sequence: uint32, channel: nat, timestamp: uint64, m: SpectrumMetadata, p: seq<byte>)
    requires channel < CHANNELS && |p| >= HEADER_BYTES
    requires p[..HEADER_BYTES] == Header(sequence, channel, timestamp, m)
    ensures DecodeHeader(p) == Fields(
        [0x4e, 0x53, 0x46, 0x54], 1, 2, channel, 0, sequence, FFT_N, m.sampleRateHz,
        m.centerFrequencyHz, timestamp, m.configEpoch, 0, FFT_N, 0, 0, 0, PAYLOAD_BYTES)
  {
    HeaderStart(sequence, channel, timestamp, m, p);
    HeaderMiddle(sequence, channel, timestamp, m, p);
    HeaderTail(sequence, channel, timestamp, m, p);
  }

  lemma HeaderStart(sequence: uint32, channel: nat, timestamp: uint64, m: SpectrumMetadata, p: seq<byte>)
    requires channel < CHANNELS && |p| >= HEADER_BYTES
    requires p[..HEADER_BYTES] == Header(sequence, channel, timestamp, m)
    ensures p[0..4] == [0x4e, 0x53, 0x46, 0x54] && p[4] == 1 && p[5] == 2 && p[6] == channel && p[7] == 0
    ensures ReadBe64(p, 8) == sequence && ReadBe32(p, 16) == FFT_N
  {
    var h := p[..HEADER_BYTES];
    assert forall i, j :: 0 <= i <= j <= HEADER_BYTES ==> p[i..j] == h[i..j];
    var start := p[0..8];
    assert start == Preamble(channel);
    assert p[0..4] == start[0..4] && p[4] == start[4] && p[5] == start[5];
    assert p[6] == start[6] && p[7] == start[7];
    assert p[8..16] == Be64(sequence);
    Be64RoundTrip(sequence, p, 8);
    assert p[16..20] == Be32(FFT_N);
    Be32RoundTrip(FFT_N, p, 16);
  }

  lemma HeaderMiddle(sequence: uint32, channel: nat, timestamp: uint64, m: SpectrumMetadata, p: seq<byte>)
    requires channel < CHANNELS && |p| >= HEADER_BYTES
    requires p[..HEADER_BYTES] == Header(sequence, channel, timestamp, m)
    ensures ReadBe32(p, 20) == m.sampleRateHz && ReadBe64(p, 24) == m.centerFrequencyHz
    ensures ReadBe64(p, 32) == timestamp && ReadBe32(p, 40) == m.configEpoch
  {
    var h := p[..HEADER_BYTES];
    assert forall i, j :: 0 <= i <= j <= HEADER_BYTES ==> p[i..j] == h[i..j];
    assert p[20..24] == Be32(m.sampleRateHz);
    Be32RoundTrip(m.sampleRateHz, p, 20);
    assert p[24..32] == Be64(m.centerFrequencyHz);
    Be64RoundTrip(m.centerFrequencyHz, p, 24);
    assert p[32..40] == Be64(timestamp);
    Be64RoundTrip(timestamp, p, 32);
    assert p[40..44] == Be32(m.configEpoch);
    Be32RoundTrip(m.configEpoch, p, 40);
  }

  lemma HeaderTail(sequence: uint32, channel: nat, timestamp: uint64, m: SpectrumMetadata, p: seq<byte>)
    requires channel < CHANNELS && |p| >= HEADER_BYTES
    requires p[..HEADER_BYTES] == Header(sequence, channel, timestamp, m)
    ensures ReadBe32(p, 44) == ReadBe32(p, 52) == ReadBe32(p, 56) == ReadBe32(p, 60) == 0
    ensures ReadBe32(p, 48) == FFT_N && ReadBe32(p, 64) == PAYLOAD_BYTES
  {
    var h := p[..HEADER_BYTES];
    assert h[44..48] == h[52..56] == h[56..60] == h[60..64] == Be32(0);
    assert h[48..52] == Be32(FFT_N) && h[64..68] == Be32(PAYLOAD_BYTES);
    assert forall i, j :: 0 <= i <= j <= HEADER_BYTES ==> p[i..j] == h[i..j];
    Be32RoundTrip(0, p, 44);
    Be32RoundTrip(FFT_N, p, 48);
    Be32RoundTrip(0, p, 52);
    Be32RoundTrip(0, p, 56);
    Be32RoundTrip(0, p, 60);
    Be32RoundTrip(PAYLOAD_BYTES, p, 64);
  }

  lemma {:induction false} PayloadAt(powers: seq<uint32>, encode: uint32 -> uint16, i: nat)
    requires i < |powers|
    ensures Payload(powers, encode)[2 * i..2 * i + 2] == Be16(encode(powers[i]))
    decreases |powers|
  {
    var n := |powers| - 1;
    if i < n {
      PayloadAt(powers[..n], encode, i);
      assert Payload(powers, encode)[..2 * n] == Payload(powers[..n], encode);
      assert Payload(powers, encode)[2 * i..2 * i + 2] == Payload(powers[..n], encode)[2 * i..2 * i + 2];
    }
  }

  /** A big-endian decoder recovers every field and bin of every packet the
      writer builds, and the trailer verifies. */
  lemma PacketRoundTrip(sequence: uint32, channel: nat, timestamp: uint64, m: SpectrumMetadata,
                        powers: seq<uint32>, encode: uint32 -> uint16)
    requires channel < CHANNELS && |powers| == CHANNELS * FFT_N
    ensures var p := Packet(sequence, channel, timestamp, m, powers, encode);
      && DecodeHeader(p) == Fields(
           [0x4e, 0x53, 0x46, 0x54], 1, 2, channel, 0, sequence, FFT_N, m.sampleRateHz,
           m.centerFrequencyHz, timestamp, m.configEpoch, 0, FFT_N, 0, 0, 0, PAYLOAD_BYTES)
      && (forall i :: 0 <= i < FFT_N ==> Bin(p, i) == encode(powers[channel * FFT_N + i]))
      && TrailerVerifies(p)
  {
    hide Header, Be16, Be32, DecodeHeader, Checksum, ReadBe16, ReadBe32;
    var p := Packet(sequence, channel, timestamp, m, powers, encode);
    var header := Header(sequence, channel, timestamp, m);
    var bins := ChannelPowers(powers, channel);
    var body := header + Payload(bins, encode);
    assert p[..PACKET_BYTES - 4] == body;
    assert p[..HEADER_BYTES] == header;
    HeaderRoundTrip(sequence, channel, timestamp, m, p);
    forall i | 0 <= i < FFT_N ensures Bin(p, i) == encode(powers[channel * FFT_N + i]) {
      PayloadAt(bins, encode, i);
      assert p[HEADER_BYTES + 2 * i..HEADER_BYTES + 2 * i + 2] == Payload(bins, encode)[2 * i..2 * i + 2];
      Be16RoundTrip(encode(bins[i]), p, HEADER_BYTES + 2 * i);
    }
    var crc := WordValue(Checksum(body));
    assert p[PACKET_BYTES - 4..PACKET_BYTES - 4 + 4] == Be32(crc);
    Be32RoundTrip(crc, p, PACKET_BYTES - 4);
  }

  /** A packet damaged in its header or payload by any burst of at most 32 bits
      never passes the trailer check. */
  lemma DamagedPacketRejected(p: seq<byte>, damaged: seq<byte>, first: nat, last: nat)
    requires |p| == |damaged| == PACKET_BYTES && TrailerVerifies(p)
    requires p[PACKET_BYTES - 4..] == damaged[PACKET_BYTES - 4..]
    requires DifferOnlyWithin(p[..PACKET_BYTES - 4], damaged[..PACKET_BYTES - 4], first, last)
    requires last - first <= 32 && p != damaged
    ensures !TrailerVerifies(damaged)
  {
    var (a, b) := (p[..PACKET_BYTES - 4], damaged[..PACKET_BYTES - 4]);
    assert p == a + p[PACKET_BYTES - 4..] && damaged == b + damaged[PACKET_BYTES - 4..];
    BurstDetected(0xffffffff, a, b, first, last);
    SameTrailer(p, damaged, PACKET_BYTES - 4);
    if TrailerVerifies(damaged) {
      WordValueInjective(Checksum(a), Checksum(b));
      ComplementInjective(Update(0xffffffff, a), Update(0xffffffff, b));
    }
  }

  lemma SameTrailer(p: seq<byte>, q: seq<byte>, at: nat)
    requires |p| == |q| && at + 4 == |p| && p[at..] == q[at..]
    ensures ReadBe32(p, at) == ReadBe32(q, at)
  {
    assert forall i :: 0 <= i < 4 ==> p[at + i] == p[at..][i] == q[at..][i] == q[at + i];
  }
}
