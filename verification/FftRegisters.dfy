/** The accelerator's registers bit by bit, the driver's program in numbers, and what the
    driver makes of every answer, in any state of the device. */
module FftRegisters {
  import opened Bytes
  import opened FftDevice

  // Bits -------------------------------------------------------------------------------

  lemma LowThree(v: nat)
    ensures (Bit(v, 0) <==> v % 2 == 1) && (Bit(v, 1) <==> v / 2 % 2 == 1) && (Bit(v, 2) <==> v / 4 % 2 == 1)
  {
    BitAfterTwo(v, 2);
    assert Bit(v, 1) == Bit(v / 2, 0);
  }

  lemma NothingAbove(v: nat, i: nat)
    requires v < 8 && i >= 3
    ensures !Bit(v, i)
  {
    BitAfterTwo(v, i);
    NoBits(i - 2);
  }

  lemma {:induction false} NoBits(i: nat)
    ensures !Bit(0, i) && (i > 0 ==> !Bit(1, i))
    decreases i
  {
    if i > 0 {
      NoBits(i - 1);
    }
  }

  /** Bit 0 of the status is a request being worked on, bit 1 a finished one, bit 2 an
      error, and there is nothing else. */
  lemma StatusBits(d: Device, i: nat)
    ensures Bit(StatusWord(d), i) <==>
            (i == 0 && d.stage != Idle && d.stage != Pending) || (i == 1 && d.done) || (i == 2 && d.error)
  {
    LowThree(StatusWord(d));
    if i >= 3 {
      NothingAbove(StatusWord(d), i);
    }
  }

  /** Ones written to bits 1 and 2 of the status clear them; nothing else changes. */
  lemma AcknowledgeBits(d: Device, value: nat)
    ensures Write(d, Status, value) ==
            d.(done := d.done && !Bit(value, 1), error := d.error && !Bit(value, 2))
  {
    LowThree(value);
  }

  /** Bit 0 of the control register starts an idle device, and is error 1 for any other. */
  lemma StartBit(d: Device, value: nat)
    ensures Write(d, Control, value) ==
            if !Bit(value, 0) then d
            else if d.stage == Idle then d.(stage := Pending) else d.(error := true, errorCode := 1)
  {
    LowThree(value);
  }

  // The driver's program -------------------------------------------------------------------

  function Writes(d: Device, accesses: seq<Access>): Device
    decreases |accesses|
  {
    if accesses == [] then d
    else
      var n := |accesses| - 1;
      Write(Writes(d, accesses[..n]), accesses[n].register, accesses[n].value)
  }

  lemma OneMoreWrite(d: Device, accesses: seq<Access>, k: nat)
    requires k < |accesses|
    ensures Writes(d, accesses[..k + 1]) == Write(Writes(d, accesses[..k]), accesses[k].register, accesses[k].value)
  {
    assert accesses[..k + 1][..k] == accesses[..k];
  }

  /** Whatever an idle device was left with, the program asks it for two channels of 65536
      points, from 0x18000000 to 0x18100000, under the frame's number, and clears what it
      said before. */
  lemma ProgramRequests(d: Device, sequence: uint32)
    requires d.stage == Idle
    ensures Writes(d, Program(sequence)) ==
            Device(Descriptor(16, 2, 3, 0x1800_0000, 524288, 0x1810_0000, 524288, sequence), Pending, false, false,
                   d.errorCode, d.resultSequence, d.binsWritten)
  {
    var p := Program(sequence);
    ProgramAccesses(sequence);
    assert p[..10] == p;
    hide Writes, Write, Program;
    FirstWrites(d, p);
    MiddleWrites(d, p);
    LastWrites(d, p, sequence);
    LowThree(1);
    OneMoreWrite(d, p, 9);
    StartBit(Writes(d, p[..9]), 1);
  }

  lemma FirstWrites(d: Device, p: seq<Access>)
    requires d.stage == Idle && |p| == 10 && p[0] == Access(Status, 6) && p[1] == Access(Log2N, 16)
    requires p[2] == Access(ChannelCount, 2) && p[3] == Access(ChannelMask, 3)
    ensures Writes(d, p[..4]) ==
            d.(done := false, error := false,
               descriptor := d.descriptor.(log2N := 16, channelCount := 2, channelMask := 3))
  {
    var quiet := d.(done := false, error := false);
    var c := d.descriptor;
    assert Writes(d, p[..0]) == d;
    LowThree(6);
    AcknowledgeBits(d, 6);
    hide Writes, Write, Bit;
    OneMoreWrite(d, p, 0);
    OneMoreConfigured(d, p, 1, quiet, c.(log2N := 16));
    OneMoreConfigured(d, p, 2, quiet.(descriptor := c.(log2N := 16)), c.(log2N := 16, channelCount := 2));
    OneMoreConfigured(d, p, 3, quiet.(descriptor := c.(log2N := 16, channelCount := 2)),
                      c.(log2N := 16, channelCount := 2, channelMask := 3));
  }

  lemma MiddleWrites(d: Device, p: seq<Access>)
    requires |p| == 10 && Writes(d, p[..4]).stage == Idle
    requires p[4] == Access(InputAddr, 0x1800_0000) && p[5] == Access(InputBytes, 524288)
    ensures var before := Writes(d, p[..4]);
      Writes(d, p[..6]) ==
      before.(descriptor := before.descriptor.(inputAddr := 0x1800_0000, inputBytes := 524288))
  {
    var before := Writes(d, p[..4]);
    var c := before.descriptor;
    hide Writes;
    OneMoreConfigured(d, p, 4, before, c.(inputAddr := 0x1800_0000));
    OneMoreConfigured(d, p, 5, before.(descriptor := c.(inputAddr := 0x1800_0000)),
                      c.(inputAddr := 0x1800_0000, inputBytes := 524288));
  }

  lemma LastWrites(d: Device, p: seq<Access>, sequence: uint32)
    requires |p| == 10 && Writes(d, p[..6]).stage == Idle
    requires p[6] == Access(OutputAddr, 0x1810_0000) && p[7] == Access(OutputBytes, 524288)
    requires p[8] == Access(Sequence, sequence)
    ensures var before := Writes(d, p[..6]);
      Writes(d, p[..9]) ==
      before.(descriptor := before.descriptor.(outputAddr := 0x1810_0000, outputBytes := 524288, sequence := sequence))
  {
    var before := Writes(d, p[..6]);
    var c := before.descriptor;
    var placed := c.(outputAddr := 0x1810_0000, outputBytes := 524288);
    hide Writes;
    OneMoreConfigured(d, p, 6, before, c.(outputAddr := 0x1810_0000));
    OneMoreConfigured(d, p, 7, before.(descriptor := c.(outputAddr := 0x1810_0000)), placed);
    OneMoreConfigured(d, p, 8, before.(descriptor := placed), placed.(sequence := sequence));
  }

  lemma ProgramAccesses(sequence: uint32)
    ensures Program(sequence) ==
            [Access(Status, 6), Access(Log2N, 16), Access(ChannelCount, 2), Access(ChannelMask, 3),
             Access(InputAddr, 0x1800_0000), Access(InputBytes, 524288), Access(OutputAddr, 0x1810_0000),
             Access(OutputBytes, 524288), Access(Sequence, sequence), Access(Control, 1)]
  {
  }

  lemma OneMoreConfigured(d: Device, p: seq<Access>, k: nat, before: Device, after: Descriptor)
    requires k < |p| && Writes(d, p[..k]) == before && before.stage == Idle
    requires p[k].register != Status && p[k].register != Control
    requires Configure(before.descriptor, p[k].register, p[k].value) == after
    ensures Writes(d, p[..k + 1]) == before.(descriptor := after)
  {
    hide Writes;
    OneMoreWrite(d, p, k);
  }

  /** While a request is worked on, its descriptor cannot be changed. */
  lemma BusyKeepsDescriptor(d: Device, r: Register, value: nat)
    requires d.stage != Idle && d.stage != Pending
    ensures Write(d, r, value).descriptor == d.descriptor && Write(d, r, value).stage == d.stage
  {
  }

  // Descriptors ----------------------------------------------------------------------------

  /** The lengths of the supported transforms. */
  ghost predicate LengthIs(log2N: nat, n: nat) {
    || (log2N == 10 && n == 1024) || (log2N == 11 && n == 2048) || (log2N == 12 && n == 4096)
    || (log2N == 13 && n == 8192) || (log2N == 14 && n == 16384) || (log2N == 15 && n == 32768)
    || (log2N == 16 && n == 65536)
  }

  /** One or two channels, and at least one of them. */
  ghost predicate ChannelsAre(count: nat, mask: nat, outputs: nat) {
    (count == 1 && mask == 1 && outputs == 1) || (count == 2 && (mask == 1 || mask == 2) && outputs == 1)
    || (count == 2 && mask == 3 && outputs == 2)
  }

  ghost predicate Acceptable(c: Descriptor) {
    exists n: nat, outputs: nat ::
      && LengthIs(c.log2N, n) && ChannelsAre(c.channelCount, c.channelMask, outputs)
      && c.inputAddr % 4 == 0 && c.outputAddr % 4 == 0
      && c.inputBytes == 4 * n * c.channelCount && c.outputBytes == 4 * n * outputs
      && c.inputAddr + c.inputBytes <= 0x1_0000_0000 && c.outputAddr + c.outputBytes <= 0x1_0000_0000
      && (c.inputAddr + c.inputBytes <= c.outputAddr || c.outputAddr + c.outputBytes <= c.inputAddr)
  }

  lemma Powers()
    ensures Power(1) == 2 && Power(2) == 4 && Power(10) == 1024 && Power(11) == 2048 && Power(12) == 4096
    ensures Power(13) == 8192 && Power(14) == 16384 && Power(15) == 32768 && Power(16) == 65536
  {
    assert Power(5) == 32 && Power(10) == 32 * Power(5);
    assert Power(16) == 64 * Power(10);
  }

  lemma LengthIff(log2N: nat, n: nat)
    ensures LengthIs(log2N, n) <==> 10 <= log2N <= 16 && n == Power(log2N)
  {
    Powers();
    hide Power;
  }

  lemma ChannelsIff(c: Descriptor, outputs: nat)
    ensures ChannelsAre(c.channelCount, c.channelMask, outputs) <==> !Fault(c, 3) && outputs == Selected(c.channelMask)
  {
    Powers();
    hide Power;
    if c.channelCount == 1 {
      assert Power(c.channelCount) == 2;
    } else if c.channelCount == 2 {
      assert Power(c.channelCount) == 4;
    }
  }

  /** Exactly which descriptors the device works on. */
  lemma RefusedIff(c: Descriptor)
    ensures Refused(c) <==> !Acceptable(c)
  {
    hide Power, LengthIs, ChannelsAre;
    var (n, outputs) := (Power(c.log2N), Selected(c.channelMask));
    LengthIff(c.log2N, n);
    ChannelsIff(c, outputs);
    forall m: nat, o: nat ensures LengthIs(c.log2N, m) && ChannelsAre(c.channelCount, c.channelMask, o) <==>
                                    10 <= c.log2N <= 16 && m == n && !Fault(c, 3) && o == outputs
    {
      LengthIff(c.log2N, m);
      ChannelsIff(c, o);
    }
    RefusedBy(c);
    SizesIff(c, n, outputs);
  }

  lemma RefusedBy(c: Descriptor)
    ensures Refused(c) <==> Fault(c, 2) || Fault(c, 3) || Fault(c, 4) || Fault(c, 5) || Fault(c, 6) || Fault(c, 10)
  {
    hide Power, Selected;
    if Refused(c) {
      var code :| Fault(c, code);
    }
  }

  lemma SizesIff(c: Descriptor, n: nat, outputs: nat)
    requires n == Power(c.log2N) && outputs == Selected(c.channelMask)
    ensures Fault(c, 5) <==> !(c.inputBytes == 4 * n * c.channelCount && c.outputBytes == 4 * n * outputs)
  {
    hide Power, Selected;
    assert n * c.channelCount * 4 == 4 * n * c.channelCount && n * outputs * 4 == 4 * n * outputs;
  }

  // What the driver makes of the answers ------------------------------------------------------

  /** In any state of the device: an error ends the program with its code; without one,
      waiting goes on or times out until the request is done, and a device still busy
      then is a timeout as well. */
  lemma PollIff(s: State, t: State)
    requires s.position == Polling
    ensures DriverStep(s, t) <==>
            if s.device.error then t == s.(position := Dead(AcceleratorError(s.device.errorCode)))
            else if !s.device.done then t == s || t == s.(position := Dead(Timeout))
            else t == s.(position := if s.device.stage == Idle || s.device.stage == Pending then CheckingTag
                                     else Dead(Timeout))
  {
    var status := StatusWord(s.device);
    LowThree(status);
    StatusBits(s.device, 0);
    StatusBits(s.device, 1);
    StatusBits(s.device, 2);
    hide Bit, StatusWord;
  }

  /** A result with another tag or another number of bins ends the program. */
  lemma ResultIff(s: State, t: State)
    ensures s.position == CheckingTag ==>
              (DriverStep(s, t) <==>
                 t == s.(position := if s.device.resultSequence == s.sequence then CheckingBins
                                     else Dead(ResultMetadata)))
    ensures s.position == CheckingBins ==>
              (DriverStep(s, t) <==>
                 t == s.(position := if s.device.binsWritten == 131072 then Sending else Dead(ResultMetadata)))
    ensures s.position.Dead? ==> !DriverStep(s, t)
  {
  }

  /** Frames are numbered one after another modulo 2^32, capture into the input, run the
      ten writes of the program and send. */
  lemma FrameIff(s: State, t: State)
    ensures s.position == NextFrame ==>
              (DriverStep(s, t) <==> t == s.(position := Capturing, sequence := (s.sequence + 1) % 0x1_0000_0000))
    ensures s.position == Capturing ==>
              (DriverStep(s, t) <==>
                 (t == s.(input := t.input) && |t.input| == |s.input|) || t == s.(position := Issuing(0)))
    ensures s.position == Sending ==> (DriverStep(s, t) <==> t == s.(position := NextFrame))
  {
  }

  /** The device may fail with codes 7 to 9 wherever it works, may say that it is done
      before or when it is idle again, and takes up every request. */
  lemma DeviceCan(s: State, transform: seq<byte> -> seq<uint32>, code: nat)
    ensures s.device.stage == Pending ==>
              DeviceStep(s, s.(device := s.device.(stage := Validating, done := false, error := false)), transform)
    ensures (s.device.stage.Validating? || s.device.stage.Reading? || s.device.stage.Writing?) && 7 <= code <= 9 ==>
              DeviceStep(s, s.(device := s.device.(stage := Idle, error := true, errorCode := code)), transform)
    ensures s.device.stage == Tagged ==>
              && DeviceStep(s, s.(device := s.device.(stage := Idle, done := true)), transform)
              && DeviceStep(s, s.(device := s.device.(stage := Finished, done := true)), transform)
    ensures s.device.stage == Finished ==> DeviceStep(s, s.(device := s.device.(stage := Idle)), transform)
  {
    hide Refused, Fault;
  }
}
