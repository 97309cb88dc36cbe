/** From the captured block to the bins a client receives: the streamer's run and a
    run of driver and accelerator, composed frame by frame. */
module EndToEnd {
  import opened Bytes
  import opened ClientStream
  import opened ConfigEpoch
  import FftDevice
  import opened Nsft
  import opened SocketStream

  type Transform = seq<byte> -> seq<uint32>

  /** The frame's block was in the input window when its capture ended at step `c`, and
      its powers are the output window while its packets are sent at step `s`. */
  ghost predicate Drives(run: seq<FftDevice.State>, c: nat, s: nat, f: FrameData) {
    && FftDevice.Frame(run, c, s)
    && run[c].input == f.block && run[s].output == f.powers && run[c].sequence == f.sequence
  }

  /** One run of driver and accelerator supplies all the frames, in order. */
  ghost predicate Composed(run: seq<FftDevice.State>, transform: Transform, captures: seq<nat>, sendings: seq<nat>,
                           frames: seq<FrameData>) {
    && FftDevice.Run(run, transform) && run[0].sequence == 0
    && |captures| == |sendings| == |frames|
    && (forall i :: 0 <= i < |frames| ==> Drives(run, captures[i], sendings[i], frames[i]))
    && forall i, j :: 0 <= i < j < |frames| ==> sendings[i] < captures[j]
  }

  lemma DrivenFrame(run: seq<FftDevice.State>, transform: Transform, c: nat, s: nat, f: FrameData)
    requires FftDevice.Run(run, transform) && FftDevice.Fills(transform) && Drives(run, c, s, f)
    ensures f.powers == transform(f.block) && |f.block| == FftDevice.WINDOW_BYTES
  {
    FftDevice.FrameIsTransformed(run, transform, c, s);
  }

  /** The packet of one channel, as part of the pair. */
  function HalfOf(pair: seq<byte>, channel: nat): (p: seq<byte>)
    requires |pair| == 2 * PACKET_BYTES && channel < CHANNELS
    ensures |p| == PACKET_BYTES
  {
    pair[channel * PACKET_BYTES..channel * PACKET_BYTES + PACKET_BYTES]
  }

  lemma HalfIsPacket(f: FrameData, channel: nat, encode: uint32 -> uint16)
    requires |f.powers| == CHANNELS * FFT_N && channel < CHANNELS
    ensures HalfOf(PairOf(f, encode), channel) == PacketOf(f, channel, encode)
  {
    hide PacketOf;
    var (a, b) := (PacketOf(f, 0, encode), PacketOf(f, 1, encode));
    assert (a + b)[..PACKET_BYTES] == a && (a + b)[PACKET_BYTES..] == b;
  }

  /** What a receiver decodes from one packet of a frame. */
  lemma PacketDecodes(f: FrameData, channel: nat, encode: uint32 -> uint16, p: seq<byte>, bin: nat)
    requires |f.powers| == CHANNELS * FFT_N && channel < CHANNELS && p == PacketOf(f, channel, encode)
    requires bin < FFT_N
    ensures |p| == PACKET_BYTES && Bin(p, bin) == encode(f.powers[channel * FFT_N + bin])
    ensures var d := DecodeHeader(p);
      && d.channel == channel && d.sequence == f.sequence && d.configEpoch == f.metadata.configEpoch
      && d.sampleRateHz == f.metadata.sampleRateHz && d.centerFrequencyHz == f.metadata.centerFrequencyHz
  {
    hide Packet, Bin, DecodeHeader, TrailerVerifies;
    PacketRoundTrip(f.sequence, channel, f.timestamp, f.metadata, f.powers, encode);
  }

  /** In every run of the streamer, composed with any run of driver and accelerator:
      each bin a receiver decodes from frame `i` is the encoded transform of the block
      read in the kept attempt of supply `i`, and the header it decodes carries the
      settings read both before and after that block. */
  lemma SentBinsAreTransformed(frames: seq<FrameData>, h: History, returned: seq<Returned>, encode: uint32 -> uint16,
                               supplies: seq<Supply>, run: seq<FftDevice.State>, transform: Transform,
                               captures: seq<nat>, sendings: seq<nat>, i: nat, channel: nat, bin: nat)
    requires SoundRun(frames, h, returned, encode) && AllFromSupplies(frames, supplies)
    requires FftDevice.Fills(transform) && Composed(run, transform, captures, sendings, frames)
    requires i < |frames| && channel < CHANNELS && bin < FFT_N
    ensures i < |h.pairs| && |h.pairs[i]| == 2 * PACKET_BYTES && Kept(supplies[i].attempts, 0).Some?
    ensures Kept(supplies[i].attempts, 0).value < |supplies[i].attempts|
    ensures var a := supplies[i].attempts[Kept(supplies[i].attempts, 0).value];
      var (p, d) := (HalfOf(h.pairs[i], channel), DecodeHeader(HalfOf(h.pairs[i], channel)));
      && Stable(a) && a.block.Some? && |transform(a.block.value)| == CHANNELS * FFT_N
      && Bin(p, bin) == encode(transform(a.block.value)[channel * FFT_N + bin])
      && d.channel == channel && d.sequence == (i + 1) % U32
      && d.sampleRateHz == a.before.sampleRate == a.after.sampleRate
      && d.centerFrequencyHz == a.before.centerFrequency == a.after.centerFrequency
  {
    hide PairOf, PacketOf, Bin, DecodeHeader, HalfOf, Legal, FftDevice.Run, FftDevice.Fills, Drives, Kept;
    assert FromSupply(frames[i], supplies[i]);
    assert Drives(run, captures[i], sendings[i], frames[i]);
    FrameOfRun(frames, h, returned, encode, i);
    DrivenFrame(run, transform, captures[i], sendings[i], frames[i]);
    HalfIsPacket(frames[i], channel, encode);
    PacketDecodes(frames[i], channel, encode, HalfOf(h.pairs[i], channel), bin);
  }

  ghost predicate Composable(frames: seq<FrameData>, transform: Transform) {
    exists run, captures, sendings :: Composed(run, transform, captures, sendings, frames)
  }

  /** Frames numbered from 1 come from some run of driver and accelerator exactly when
      the powers of each are the transform of its block. */
  lemma ComposableIff(frames: seq<FrameData>, transform: Transform)
    requires FftDevice.Fills(transform)
    requires forall i :: 0 <= i < |frames| ==> frames[i].sequence == (i + 1) % U32
    ensures Composable(frames, transform) <==>
              forall i :: 0 <= i < |frames| ==>
                |frames[i].block| == FftDevice.WINDOW_BYTES && frames[i].powers == transform(frames[i].block)
  {
    if Composable(frames, transform) {
      var run, captures, sendings :| Composed(run, transform, captures, sendings, frames);
      forall i | 0 <= i < |frames|
        ensures |frames[i].block| == FftDevice.WINDOW_BYTES && frames[i].powers == transform(frames[i].block)
      {
        DrivenFrame(run, transform, captures[i], sendings[i], frames[i]);
      }
    }
    if forall i :: 0 <= i < |frames| ==>
         |frames[i].block| == FftDevice.WINDOW_BYTES && frames[i].powers == transform(frames[i].block)
    {
      SomeRunComposes(frames, transform);
    }
  }

  lemma SomeRunComposes(frames: seq<FrameData>, transform: Transform)
    requires FftDevice.Fills(transform)
    requires forall i :: 0 <= i < |frames| ==>
               && frames[i].sequence == (i + 1) % U32
               && |frames[i].block| == FftDevice.WINDOW_BYTES && frames[i].powers == transform(frames[i].block)
    ensures Composable(frames, transform)
  {
    var blocks := seq(|frames|, i requires 0 <= i < |frames| => frames[i].block);
    var start := Start();
    var run, captures, sendings := FftDevice.BlocksCanBeSent(start, transform, blocks);
    hide FftDevice.Run, FftDevice.Frame, FftDevice.Fills;
    forall i | 0 <= i < |frames| ensures Drives(run, captures[i], sendings[i], frames[i]) {
      assert FftDevice.SendsAt(run, blocks[i], captures[i], sendings[i], i);
      FftDevice.FrameIsTransformed(run, transform, captures[i], sendings[i]);
    }
    assert Composed(run, transform, captures, sendings, frames);
  }

  /** An idle device with empty windows, and no frame begun. */
  function Start(): (s: FftDevice.State)
    ensures FftDevice.Init(s) && s.sequence == 0
  {
    var zeros := seq(FftDevice.WINDOW_BYTES, _ => 0);
    FftDevice.State(
      FftDevice.Device(FftDevice.Descriptor(0, 0, 0, 0, 0, 0, 0, 0), FftDevice.Idle, false, false, 0, 0, 0),
      zeros, seq(FftDevice.BINS, _ => 0), FftDevice.NextFrame, 0, zeros)
  }
}
