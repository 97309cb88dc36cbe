/** The FFT driver and the asynchronous accelerator, composed step by step: the
    driver's register program and polling loop inside the streamer's frame loop,
    against a device that moves on its own between any two of the driver's steps. */
module FftDevice {
  import opened Bytes

  const INPUT_PHYS: nat := 0x1800_0000
  const OUTPUT_PHYS: nat := 0x1810_0000
  const LOG2_N: nat := 16
  const FFT_CHANNELS: nat := 2
  const CHANNEL_MASK: nat := 3
  const WINDOW_BYTES: nat := 0x8_0000
  const BINS: nat := 0x2_0000

  const BUSY: nat := 1
  const DONE: nat := 2
  const ERROR: nat := 4
  const START: nat := 1

  const START_WHILE_BUSY: nat := 1

  // The device -----------------------------------------------------------------

  datatype Descriptor = Descriptor(
    log2N: nat, channelCount: nat, channelMask: nat, inputAddr: nat, inputBytes: nat,
    outputAddr: nat, outputBytes: nat, sequence: nat)

  /** Where a request stands. Only `Idle` and `Pending` show BUSY clear; `Finished`
      is a device that has set DONE and not yet cleared BUSY. */
  datatype Stage =
    | Idle
    | Pending
    | Validating
    | Reading(fetched: seq<byte>)
    | Writing(samples: seq<byte>, written: nat)
    | Tagged
    | Finished

  datatype Device = Device(
    descriptor: Descriptor, stage: Stage, done: bool, error: bool, errorCode: nat,
    resultSequence: nat, binsWritten: nat)

  datatype Register =
    | Status | Log2N | ChannelCount | ChannelMask | InputAddr | InputBytes
    | OutputAddr | OutputBytes | Sequence | Control

  predicate Busy(d: Device) {
    d.stage != Idle && d.stage != Pending
  }

  function StatusWord(d: Device): nat {
    (if Busy(d) then BUSY else 0) + (if d.done then DONE else 0) + (if d.error then ERROR else 0)
  }

  function Configure(c: Descriptor, r: Register, value: nat): Descriptor {
    match r
    case Log2N => c.(log2N := value)
    case ChannelCount => c.(channelCount := value)
    case ChannelMask => c.(channelMask := value)
    case InputAddr => c.(inputAddr := value)
    case InputBytes => c.(inputBytes := value)
    case OutputAddr => c.(outputAddr := value)
    case OutputBytes => c.(outputBytes := value)
    case Sequence => c.(sequence := value)
    case _ => c
  }

  /** A register write: acknowledgements clear bits, START queues a request or is an
      error, and descriptor writes are ignored while the device is busy. */
  function Write(d: Device, r: Register, value: nat): Device {
    match r
    case Status => d.(done := d.done && value / DONE % 2 == 0, error := d.error && value / ERROR % 2 == 0)
    case Control =>
      if value % 2 == 0 then d
      else if d.stage != Idle then d.(error := true, errorCode := START_WHILE_BUSY)
      else d.(stage := Pending)
    case _ => if Busy(d) then d else d.(descriptor := Configure(d.descriptor, r, value))
  }

  /** The selected channels, of a mask already known to be 1, 2 or 3. */
  function Selected(mask: nat): nat {
    if mask == 3 then 2 else 1
  }

  function Power(k: nat): nat {
    if k == 0 then 1 else 2 * Power(k - 1)
  }

  /** Whether start error `code` applies to a descriptor. */
  predicate Fault(c: Descriptor, code: nat) {
    match code
    case 2 => !(10 <= c.log2N <= 16)
    case 3 => !(1 <= c.channelCount <= 2) || !(1 <= c.channelMask <= Power(c.channelCount) - 1)
    case 4 => c.inputAddr % 4 != 0 || c.outputAddr % 4 != 0
    case 5 => c.inputBytes != Power(c.log2N) * c.channelCount * 4
           || c.outputBytes != Power(c.log2N) * Selected(c.channelMask) * 4
    case 6 => c.inputAddr + c.inputBytes > U32 || c.outputAddr + c.outputBytes > U32
    case 10 => c.inputAddr < c.outputAddr + c.outputBytes && c.outputAddr < c.inputAddr + c.inputBytes
    case _ => false
  }

  ghost predicate Refused(c: Descriptor) {
    exists code :: Fault(c, code)
  }

  /** Allocation and DMA failures, which no descriptor rules out. */
  predicate Failure(code: nat) {
    7 <= code <= 9
  }

  // The composed state ---------------------------------------------------------

  datatype Cause = AcceleratorError(code: nat) | Timeout | ResultMetadata

  /** The driver's position in the frame loop. */
  datatype Position =
    | NextFrame
    | Capturing
    | Issuing(i: nat)
    | Polling
    | CheckingTag
    | CheckingBins
    | Sending
    | Dead(cause: Cause)

  datatype State = State(
    device: Device, input: seq<byte>, output: seq<uint32>, position: Position, sequence: uint32,
    ghost atStart: seq<byte>)

  datatype Access = Access(register: Register, value: nat)

  /** The driver's register writes, in order. */
  function Program(sequence: uint32): (p: seq<Access>)
    ensures |p| == 10
  {
    [Access(Status, DONE + ERROR), Access(Log2N, LOG2_N), Access(ChannelCount, FFT_CHANNELS),
     Access(ChannelMask, CHANNEL_MASK), Access(InputAddr, INPUT_PHYS), Access(InputBytes, WINDOW_BYTES),
     Access(OutputAddr, OUTPUT_PHYS), Access(OutputBytes, WINDOW_BYTES), Access(Sequence, sequence),
     Access(Control, START)]
  }

  // Driver steps ---------------------------------------------------------------

  /** A frame begins: the sequence number wraps at 32 bits. */
  ghost predicate BeginFrame(s: State, t: State) {
    s.position == NextFrame && t == s.(position := Capturing, sequence := (s.sequence + 1) % U32)
  }

  /** The capture overwrites any part of the input window, any number of times. */
  ghost predicate CaptureMore(s: State, t: State) {
    s.position == Capturing && |t.input| == |s.input| && t == s.(input := t.input)
  }

  ghost predicate CaptureEnds(s: State, t: State) {
    s.position == Capturing && t == s.(position := Issuing(0))
  }

  ghost predicate Issue(s: State, t: State) {
    && s.position.Issuing? && s.position.i < 10
    && var i := s.position.i;
    var access := Program(s.sequence)[i];
    t == s.(device := Write(s.device, access.register, access.value),
            position := if i == 9 then Polling else Issuing(i + 1),
            atStart := if i == 9 then s.input else s.atStart)
  }

  /** One status read and what the polling loop and the check after it make of it;
      the clock decides whether a reading without DONE is the last. */
  ghost predicate Poll(s: State, t: State) {
    && s.position == Polling
    && var status := StatusWord(s.device);
    || (status / ERROR % 2 == 1 && t == s.(position := Dead(AcceleratorError(s.device.errorCode))))
    || (status / ERROR % 2 == 0 && status / DONE % 2 == 0 && (t == s || t == s.(position := Dead(Timeout))))
    || (status / ERROR % 2 == 0 && status / DONE % 2 == 1
        && t == s.(position := if status % 2 == 1 then Dead(Timeout) else CheckingTag))
  }

  ghost predicate CheckTag(s: State, t: State) {
    && s.position == CheckingTag
    && t == s.(position := if s.device.resultSequence != s.sequence then Dead(ResultMetadata) else CheckingBins)
  }

  ghost predicate CheckBins(s: State, t: State) {
    && s.position == CheckingBins
    && t == s.(position := if s.device.binsWritten != BINS then Dead(ResultMetadata) else Sending)
  }

  /** The packets of the frame are built from the output window and sent, or not. */
  ghost predicate EndFrame(s: State, t: State) {
    s.position == Sending && t == s.(position := NextFrame)
  }

  ghost predicate DriverStep(s: State, t: State) {
    || BeginFrame(s, t) || CaptureMore(s, t) || CaptureEnds(s, t) || Issue(s, t) || Poll(s, t)
    || CheckTag(s, t) || CheckBins(s, t) || EndFrame(s, t)
  }

  // Device steps ---------------------------------------------------------------

  /** The request is taken up: BUSY shows, and DONE and ERROR are cleared. */
  ghost predicate TakeUp(s: State, t: State) {
    s.device.stage == Pending && t == s.(device := s.device.(stage := Validating, done := false, error := false))
  }

  ghost predicate Refuse(s: State, t: State) {
    && s.device.stage == Validating
    && Fault(s.device.descriptor, t.device.errorCode)
    && t == s.(device := s.device.(stage := Idle, error := true, errorCode := t.device.errorCode))
  }

  ghost predicate BeginReading(s: State, t: State) {
    && s.device.stage == Validating && !Refused(s.device.descriptor)
    && t == s.(device := s.device.(stage := Reading([])))
  }

  /** A bit more of the input window is read, as it is now; from any other address,
      anything may be. */
  ghost predicate Fetch(s: State, t: State) {
    && s.device.stage.Reading? && t.device.stage.Reading?
    && t == s.(device := s.device.(stage := t.device.stage))
    && var (was, now) := (s.device.stage.fetched, t.device.stage.fetched);
    && was <= now && |now| <= s.device.descriptor.inputBytes
    && (s.device.descriptor.inputAddr == INPUT_PHYS && |now| <= |s.input| ==>
          now[|was|..] == s.input[|was|..|now|])
  }

  ghost predicate BeginWriting(s: State, t: State) {
    && s.device.stage.Reading? && |s.device.stage.fetched| == s.device.descriptor.inputBytes
    && t == s.(device := s.device.(stage := Writing(s.device.stage.fetched, 0)))
  }

  /** A bit more of the transform of what was read is written. */
  ghost predicate Store(s: State, t: State, transform: seq<byte> -> seq<uint32>) {
    && s.device.stage.Writing? && t.device.stage.Writing?
    && t == s.(device := s.device.(stage := t.device.stage), output := t.output)
    && var (was, now) := (s.device.stage.written, t.device.stage.written);
    && s.device.stage.samples == t.device.stage.samples && was <= now
    && 4 * now <= s.device.descriptor.outputBytes && |t.output| == |s.output|
    && (s.device.descriptor.outputAddr == OUTPUT_PHYS ==>
          forall k :: 0 <= k < |s.output| ==>
            t.output[k] == if was <= k < now && k < |transform(s.device.stage.samples)|
                           then transform(s.device.stage.samples)[k] else s.output[k])
  }

  ghost predicate Fail(s: State, t: State) {
    && (s.device.stage.Validating? || s.device.stage.Reading? || s.device.stage.Writing?)
    && Failure(t.device.errorCode)
    && t == s.(device := s.device.(stage := Idle, error := true, errorCode := t.device.errorCode))
  }

  ghost predicate Tag(s: State, t: State) {
    && s.device.stage.Writing? && 4 * s.device.stage.written == s.device.descriptor.outputBytes
    && var c := s.device.descriptor;
    t == s.(device := s.device.(stage := Tagged, resultSequence := c.sequence,
                                binsWritten := Power(c.log2N) * Selected(c.channelMask)))
  }

  /** DONE is set, and BUSY is cleared with it or later. */
  ghost predicate SetDone(s: State, t: State) {
    && s.device.stage == Tagged
    && (t == s.(device := s.device.(stage := Finished, done := true))
        || t == s.(device := s.device.(stage := Idle, done := true)))
  }

  ghost predicate ClearBusy(s: State, t: State) {
    s.device.stage == Finished && t == s.(device := s.device.(stage := Idle))
  }

  ghost predicate DeviceStep(s: State, t: State, transform: seq<byte> -> seq<uint32>) {
    || TakeUp(s, t) || Refuse(s, t) || BeginReading(s, t) || Fetch(s, t) || BeginWriting(s, t)
    || Store(s, t, transform) || Fail(s, t) || Tag(s, t) || SetDone(s, t) || ClearBusy(s, t)
  }

  ghost predicate Next(s: State, t: State, transform: seq<byte> -> seq<uint32>) {
    DriverStep(s, t) || DeviceStep(s, t, transform)
  }

  /** The streamer starts over an idle device in any other condition: stale status
      bits, any descriptor, anything in memory. */
  ghost predicate Init(s: State) {
    && s.position == NextFrame && s.device.stage == Idle
    && |s.input| == WINDOW_BYTES && |s.output| == BINS
  }

  ghost predicate Run(run: seq<State>, transform: seq<byte> -> seq<uint32>) {
    && run != [] && Init(run[0])
    && forall i :: 0 <= i < |run| - 1 ==> Next(run[i], run[i + 1], transform)
  }

  // The invariant --------------------------------------------------------------

  function Requested(sequence: uint32): Descriptor {
    Descriptor(LOG2_N, FFT_CHANNELS, CHANNEL_MASK, INPUT_PHYS, WINDOW_BYTES, OUTPUT_PHYS, WINDOW_BYTES, sequence)
  }

  /** The first `i` writes of the driver's program have taken effect. */
  ghost predicate Prepared(d: Device, sequence: uint32, i: nat) {
    && (i > 0 ==> !d.done && !d.error)
    && var (c, r) := (d.descriptor, Requested(sequence));
    && (i > 1 ==> c.log2N == r.log2N) && (i > 2 ==> c.channelCount == r.channelCount)
    && (i > 3 ==> c.channelMask == r.channelMask) && (i > 4 ==> c.inputAddr == r.inputAddr)
    && (i > 5 ==> c.inputBytes == r.inputBytes) && (i > 6 ==> c.outputAddr == r.outputAddr)
    && (i > 7 ==> c.outputBytes == r.outputBytes) && (i > 8 ==> c.sequence == r.sequence)
  }

  /** The output window and the result registers answer the request of this frame. */
  ghost predicate Answered(s: State, result: seq<uint32>) {
    && s.output == result
    && s.device.resultSequence == s.sequence && s.device.binsWritten == BINS
  }

  ghost predicate WrittenSoFar(output: seq<uint32>, result: seq<uint32>, written: nat) {
    written <= |output| == |result| && output[..written] == result[..written]
  }

  /** How far the device has come with the request of this frame. */
  ghost predicate InProgress(s: State, result: seq<uint32>) {
    && s.device.descriptor == Requested(s.sequence) && s.input == s.atStart
    && match s.device.stage {
      case Idle =>
        || (s.device.done && !s.device.error && Answered(s, result))
        || (s.device.error && !s.device.done && Failure(s.device.errorCode))
      case Pending => !s.device.done && !s.device.error
      case Validating => !s.device.done && !s.device.error
      case Reading(fetched) => !s.device.done && !s.device.error && fetched <= s.atStart
      case Writing(samples, written) =>
        && !s.device.done && !s.device.error && samples == s.atStart
        && WrittenSoFar(s.output, result, written)
      case Tagged => !s.device.done && !s.device.error && Answered(s, result)
      case Finished => s.device.done && !s.device.error && Answered(s, result)
    }
  }

  ghost predicate Inv(s: State, transform: seq<byte> -> seq<uint32>) {
    && |s.input| == WINDOW_BYTES && |s.output| == BINS && |transform(s.atStart)| == BINS
    && match s.position {
      case NextFrame => s.device.stage == Idle
      case Capturing => s.device.stage == Idle
      case Issuing(i) => i < 10 && s.device.stage == Idle && Prepared(s.device, s.sequence, i)
      case Polling => InProgress(s, transform(s.atStart))
      case CheckingTag => Settled(s, transform)
      case CheckingBins => Settled(s, transform)
      case Sending => Settled(s, transform)
      case Dead(cause) => cause == Timeout || (cause.AcceleratorError? && Failure(cause.code))
    }
  }

  /** What a normal return promises: the device idle, and this request answered. */
  ghost predicate Settled(s: State, transform: seq<byte> -> seq<uint32>) {
    s.device.stage == Idle && s.input == s.atStart && Answered(s, transform(s.atStart))
  }

  /** Transforms fill the output window. */
  ghost predicate Fills(transform: seq<byte> -> seq<uint32>) {
    forall x :: |transform(x)| == BINS
  }

  lemma PowerOf16()
    ensures Power(16) == 0x1_0000 && Power(2) == 4
  {
    assert Power(8) == 256;
    assert Power(16) == 256 * Power(8);
  }

  /** The driver's descriptor passes every check of the device. */
  lemma RequestIsValid(sequence: uint32)
    ensures !Refused(Requested(sequence))
    ensures Power(LOG2_N) * Selected(CHANNEL_MASK) == BINS
  {
    PowerOf16();
  }

  // Every step keeps the invariant ---------------------------------------------

  lemma IssueKeeps(s: State, t: State, transform: seq<byte> -> seq<uint32>)
    requires Inv(s, transform) && Fills(transform) && Issue(s, t)
    ensures Inv(t, transform)
  {
    var i := s.position.i;
    if i == 9 {
      assert s.device.descriptor == Requested(s.sequence);
    }
  }

  lemma DriverKeeps(s: State, t: State, transform: seq<byte> -> seq<uint32>)
    requires Inv(s, transform) && Fills(transform) && DriverStep(s, t)
    ensures Inv(t, transform)
  {
    if Issue(s, t) {
      IssueKeeps(s, t, transform);
    }
  }

  lemma FetchKeeps(s: State, t: State, transform: seq<byte> -> seq<uint32>)
    requires Inv(s, transform) && (Fetch(s, t) || BeginWriting(s, t)) && s.position == Polling
    ensures Inv(t, transform)
  {
    if Fetch(s, t) {
      var (was, now) := (s.device.stage.fetched, t.device.stage.fetched);
      assert now == was + now[|was|..];
    }
  }

  /** The device never refuses the driver's request. */
  lemma NeverRefused(s: State, t: State, transform: seq<byte> -> seq<uint32>)
    requires Inv(s, transform) && s.position == Polling
    ensures !Refuse(s, t)
  {
    hide Fault, Answered, WrittenSoFar;
    RequestIsValid(s.sequence);
  }

  lemma OtherwiseKeeps(s: State, t: State, transform: seq<byte> -> seq<uint32>)
    requires Inv(s, transform) && s.position == Polling
    requires TakeUp(s, t) || BeginReading(s, t) || Fail(s, t) || SetDone(s, t) || ClearBusy(s, t)
    ensures Inv(t, transform)
  {
    hide Refused, WrittenSoFar, Failure;
  }

  /** Once a request is under way the device can only move towards answering it. */
  lemma ProgressKeeps(s: State, t: State, transform: seq<byte> -> seq<uint32>)
    requires Inv(s, transform) && DeviceStep(s, t, transform) && s.position == Polling
    ensures Inv(t, transform)
  {
    if Store(s, t, transform) {
      StoreKeeps(s, t, transform);
    } else if Tag(s, t) {
      TagKeeps(s, t, transform);
    } else if Fetch(s, t) || BeginWriting(s, t) {
      FetchKeeps(s, t, transform);
    } else {
      NeverRefused(s, t, transform);
      OtherwiseKeeps(s, t, transform);
    }
  }

  lemma TagKeeps(s: State, t: State, transform: seq<byte> -> seq<uint32>)
    requires Inv(s, transform) && Tag(s, t) && s.position == Polling
    ensures Inv(t, transform)
  {
    RequestIsValid(s.sequence);
    assert s.output[..BINS] == s.output && transform(s.atStart)[..BINS] == transform(s.atStart);
  }

  lemma StoreKeeps(s: State, t: State, transform: seq<byte> -> seq<uint32>)
    requires Inv(s, transform) && Store(s, t, transform) && s.position == Polling
    ensures Inv(t, transform)
  {
    var (was, now) := (s.device.stage.written, t.device.stage.written);
    var result := transform(s.atStart);
    forall k | 0 <= k < now ensures t.output[k] == result[k] {
      assert k < was ==> s.output[..was][k] == result[..was][k];
    }
  }

  lemma DeviceKeeps(s: State, t: State, transform: seq<byte> -> seq<uint32>)
    requires Inv(s, transform) && DeviceStep(s, t, transform)
    ensures Inv(t, transform)
  {
    if s.position == Polling {
      ProgressKeeps(s, t, transform);
    }
  }

  lemma {:induction false} RunKeeps(run: seq<State>, transform: seq<byte> -> seq<uint32>, i: nat)
    requires Run(run, transform) && Fills(transform) && i < |run|
    ensures Inv(run[i], transform)
    decreases i
  {
    if i > 0 {
      RunKeeps(run, transform, i - 1);
      assert Next(run[i - 1], run[i], transform);
      if DriverStep(run[i - 1], run[i]) {
        DriverKeeps(run[i - 1], run[i], transform);
      } else {
        DeviceKeeps(run[i - 1], run[i], transform);
      }
    }
  }

  // What holds in every run ----------------------------------------------------

  /** In every interleaving, while the packets of a frame are sent the output window
      holds the transform of the input that was there at this frame's START, the
      result tag is this request's, and the device is idle. */
  lemma NormalReturnIsAnswered(run: seq<State>, transform: seq<byte> -> seq<uint32>, i: nat)
    requires Run(run, transform) && Fills(transform) && i < |run| && run[i].position == Sending
    ensures var s := run[i];
      && s.output == transform(s.atStart) && s.input == s.atStart
      && s.device.resultSequence == s.sequence && s.device.binsWritten == BINS
      && s.device.stage == Idle
  {
    RunKeeps(run, transform, i);
  }

  /** A DONE that the polling loop can see belongs to this request: it is complete. */
  lemma NoStaleDone(run: seq<State>, transform: seq<byte> -> seq<uint32>, i: nat)
    requires Run(run, transform) && Fills(transform) && i < |run|
    requires run[i].position == Polling && run[i].device.done
    ensures Answered(run[i], transform(run[i].atStart)) && !run[i].device.error
  {
    RunKeeps(run, transform, i);
  }

  /** The check of the result metadata never fails, and an accelerator error is
      never a refusal of the request or a start while busy. */
  lemma OnlyTheseFailures(run: seq<State>, transform: seq<byte> -> seq<uint32>, i: nat)
    requires Run(run, transform) && Fills(transform) && i < |run| && run[i].position.Dead?
    ensures run[i].position.cause != ResultMetadata
    ensures run[i].position.cause.AcceleratorError? ==> 7 <= run[i].position.cause.code <= 9
  {
    RunKeeps(run, transform, i);
  }

  /** Outside a request the device is idle, so captures never race with its reads;
      during one the input is what it was at START. */
  lemma CapturesNeverRace(run: seq<State>, transform: seq<byte> -> seq<uint32>, i: nat)
    requires Run(run, transform) && Fills(transform) && i < |run|
    ensures run[i].position.NextFrame? || run[i].position.Capturing? || run[i].position.Issuing?
            ==> run[i].device.stage == Idle
    ensures run[i].position == Polling ==> run[i].input == run[i].atStart
  {
    RunKeeps(run, transform, i);
  }

  // From a capture to its packets ---------------------------------------------

  predicate InRequest(p: Position) {
    !p.NextFrame? && !p.Capturing?
  }

  /** A capture ends at step `c`, and at step `s` the packets of the same frame are sent. */
  ghost predicate Frame(run: seq<State>, c: nat, s: nat) {
    && c < s < |run| && run[c].position == Capturing && run[c + 1] == run[c].(position := Issuing(0))
    && run[s].position == Sending
    && forall k :: c < k <= s ==> InRequest(run[k].position)
  }

  /** The captured block and the number of the frame are carried through its request. */
  ghost predicate Carries(s: State, block: seq<byte>, sequence: uint32) {
    && s.input == block && s.sequence == sequence
    && (!s.position.Issuing? ==> s.atStart == block)
  }

  lemma StepCarries(s: State, t: State, transform: seq<byte> -> seq<uint32>, block: seq<byte>, sequence: uint32)
    requires Next(s, t, transform) && InRequest(s.position) && InRequest(t.position) && Carries(s, block, sequence)
    ensures Carries(t, block, sequence)
  {
  }

  lemma {:induction false} FrameCarries(run: seq<State>, transform: seq<byte> -> seq<uint32>, c: nat, s: nat, k: nat)
    requires Run(run, transform) && Frame(run, c, s) && c < k <= s
    ensures Carries(run[k], run[c].input, run[c].sequence)
    decreases k
  {
    hide Init, Next;
    if k > c + 1 {
      FrameCarries(run, transform, c, s, k - 1);
      StepCarries(run[k - 1], run[k], transform, run[c].input, run[c].sequence);
    }
  }

  /** What is sent for a frame is the transform of the block captured for it, in every
      interleaving, and the result carries the frame's number. */
  lemma FrameIsTransformed(run: seq<State>, transform: seq<byte> -> seq<uint32>, c: nat, s: nat)
    requires Run(run, transform) && Fills(transform) && Frame(run, c, s)
    ensures run[s].output == transform(run[c].input) && |run[c].input| == WINDOW_BYTES
    ensures run[s].device.resultSequence == run[s].sequence == run[c].sequence
  {
    FrameCarries(run, transform, c, s, s);
    NormalReturnIsAnswered(run, transform, s);
    RunKeeps(run, transform, c);
  }

  // Every block can be captured and sent ----------------------------------------

  lemma NextKeeps(s: State, t: State, transform: seq<byte> -> seq<uint32>)
    requires Inv(s, transform) && Fills(transform) && Next(s, t, transform)
    ensures Inv(t, transform)
  {
    hide Inv, DriverStep, DeviceStep;
    if DriverStep(s, t) {
      DriverKeeps(s, t, transform);
    } else {
      DeviceKeeps(s, t, transform);
    }
  }

  /** Steps inside one request. */
  ghost predicate Path(p: seq<State>, transform: seq<byte> -> seq<uint32>) {
    && p != [] && Inv(p[|p| - 1], transform)
    && (forall i :: 0 <= i < |p| ==> InRequest(p[i].position))
    && forall i :: 0 <= i < |p| - 1 ==> Next(p[i], p[i + 1], transform)
  }

  lemma Onward(p: seq<State>, t: State, transform: seq<byte> -> seq<uint32>) returns (q: seq<State>)
    requires Path(p, transform) && Fills(transform)
    requires Next(p[|p| - 1], t, transform) && InRequest(t.position)
    ensures Path(q, transform) && q == p + [t]
  {
    hide Inv, Next, InRequest;
    NextKeeps(p[|p| - 1], t, transform);
    q := p + [t];
  }

  /** The driver can always bring a request from the end of a capture to polling. */
  lemma {:induction false} IssuePath(p: seq<State>, transform: seq<byte> -> seq<uint32>, i: nat)
    returns (q: seq<State>)
    requires Path(p, transform) && Fills(transform) && i < 10 && p[|p| - 1].position == Issuing(i)
    ensures Path(q, transform) && p <= q
    ensures q[|q| - 1].position == Polling && q[|q| - 1].device.stage == Pending
    decreases 10 - i
  {
    hide Path, Next, Inv;
    PathEnds(p, transform);
    var t := Issued(p[|p| - 1], transform, i);
    q := Onward(p, t, transform);
    if i < 9 {
      q := IssuePath(q, transform, i + 1);
    }
  }

  lemma PathEnds(p: seq<State>, transform: seq<byte> -> seq<uint32>)
    requires Path(p, transform)
    ensures p != [] && Inv(p[|p| - 1], transform)
  {
    hide Inv, Next;
  }

  lemma Issued(s: State, transform: seq<byte> -> seq<uint32>, i: nat) returns (t: State)
    requires Inv(s, transform) && i < 10 && s.position == Issuing(i)
    ensures Next(s, t, transform) && t.position == if i == 9 then Polling else Issuing(i + 1)
    ensures i == 9 ==> t.device.stage == Pending
  {
    var access := Program(s.sequence)[i];
    t := s.(device := Write(s.device, access.register, access.value),
            position := if i == 9 then Polling else Issuing(i + 1),
            atStart := if i == 9 then s.input else s.atStart);
    assert Issue(s, t);
  }

  lemma Staged(s: State, stage: Stage, transform: seq<byte> -> seq<uint32>) returns (t: State)
    requires DeviceStep(s, s.(device := s.device.(stage := stage)), transform)
    ensures Next(s, t, transform) && t == s.(device := s.device.(stage := stage))
  {
    hide DeviceStep;
    t := s.(device := s.device.(stage := stage));
  }

  /** The device can take up a request and read its whole input. */
  lemma ReadPath(p: seq<State>, transform: seq<byte> -> seq<uint32>) returns (q: seq<State>)
    requires Path(p, transform) && Fills(transform)
    requires p[|p| - 1].position == Polling && p[|p| - 1].device.stage == Pending
    ensures Path(q, transform) && p <= q
    ensures var s := q[|q| - 1]; s.position == Polling && s.device.stage == Writing(s.input, 0)
  {
    PathEnds(p, transform);
    var s := p[|p| - 1];
    ReadSteps(s, transform);
    hide Path, Next, Inv, DeviceStep;
    var t := s.(device := s.device.(stage := Validating, done := false, error := false));
    q := Onward(p, t, transform);
    t := Staged(t, Reading([]), transform);
    q := Onward(q, t, transform);
    t := Staged(t, Reading(s.input), transform);
    q := Onward(q, t, transform);
    t := Staged(t, Writing(s.input, 0), transform);
    q := Onward(q, t, transform);
  }

  lemma ReadSteps(s: State, transform: seq<byte> -> seq<uint32>)
    requires Inv(s, transform) && s.position == Polling && s.device.stage == Pending
    ensures var t := s.(device := s.device.(stage := Validating, done := false, error := false));
      var u := t.(device := t.device.(stage := Reading([])));
      var v := t.(device := t.device.(stage := Reading(s.input)));
      && Next(s, t, transform) && DeviceStep(t, u, transform) && DeviceStep(u, v, transform)
      && DeviceStep(v, t.(device := t.device.(stage := Writing(s.input, 0))), transform)
  {
    var t := s.(device := s.device.(stage := Validating, done := false, error := false));
    var u := t.(device := t.device.(stage := Reading([])));
    var v := t.(device := t.device.(stage := Reading(s.input)));
    RequestIsValid(s.sequence);
    assert TakeUp(s, t) && BeginReading(t, u) && Fetch(u, v);
    assert BeginWriting(v, t.(device := t.device.(stage := Writing(s.input, 0))));
  }

  /** It can then write the transform and set DONE. */
  lemma WritePath(p: seq<State>, transform: seq<byte> -> seq<uint32>) returns (q: seq<State>)
    requires Path(p, transform) && Fills(transform)
    requires var s := p[|p| - 1]; s.position == Polling && s.device.stage == Writing(s.input, 0)
    ensures Path(q, transform) && p <= q
    ensures var s := q[|q| - 1]; s.position == Polling && s.device.stage == Idle && s.device.done
  {
    hide Path, Next;
    PathEnds(p, transform);
    var s := p[|p| - 1];
    var t := s.(device := s.device.(stage := Writing(s.input, BINS)), output := transform(s.input));
    Written(s, t, transform);
    q := Onward(p, t, transform);
    var c := t.device.descriptor;
    var u := t.(device := t.device.(stage := Tagged, resultSequence := c.sequence,
                                    binsWritten := Power(c.log2N) * Selected(c.channelMask)));
    Finishing(t, u, transform);
    q := Onward(q, u, transform);
    t := u.(device := u.device.(stage := Idle, done := true));
    Finishing(u, t, transform);
    q := Onward(q, t, transform);
  }

  lemma Written(s: State, t: State, transform: seq<byte> -> seq<uint32>)
    requires Inv(s, transform) && Fills(transform) && s.position == Polling && s.device.stage == Writing(s.input, 0)
    requires t == s.(device := s.device.(stage := Writing(s.input, BINS)), output := transform(s.input))
    ensures Next(s, t, transform)
  {
    assert Store(s, t, transform);
  }

  lemma Finishing(s: State, t: State, transform: seq<byte> -> seq<uint32>)
    requires Tag(s, t) || SetDone(s, t)
    ensures Next(s, t, transform)
  {
  }

  /** The driver then sees DONE and checks the result. */
  lemma CheckPath(p: seq<State>, transform: seq<byte> -> seq<uint32>) returns (q: seq<State>)
    requires Path(p, transform) && Fills(transform)
    requires var s := p[|p| - 1]; s.position == Polling && s.device.stage == Idle && s.device.done
    ensures Path(q, transform) && p <= q && q[|q| - 1].position == Sending
  {
    hide Path, Next;
    PathEnds(p, transform);
    var s := p[|p| - 1];
    Checking(s, s.(position := CheckingTag), transform);
    q := Onward(p, s.(position := CheckingTag), transform);
    Checking(s.(position := CheckingTag), s.(position := CheckingBins), transform);
    q := Onward(q, s.(position := CheckingBins), transform);
    Checking(s.(position := CheckingBins), s.(position := Sending), transform);
    q := Onward(q, s.(position := Sending), transform);
  }

  lemma Checking(s: State, t: State, transform: seq<byte> -> seq<uint32>)
    requires Poll(s, t) || CheckTag(s, t) || CheckBins(s, t)
    ensures Next(s, t, transform)
  {
  }

  lemma RunContinues(run: seq<State>, p: seq<State>, transform: seq<byte> -> seq<uint32>)
    requires Run(run, transform) && Path(p, transform) && Next(run[|run| - 1], p[0], transform)
    ensures Run(run + p, transform)
  {
    hide Next, Init, Inv;
    var longer := run + p;
    forall i | 0 <= i < |longer| - 1 ensures Next(longer[i], longer[i + 1], transform) {
      if i < |run| - 1 {
        assert Next(run[i], run[i + 1], transform);
      } else if i > |run| - 1 {
        assert Next(p[i - |run|], p[i - |run| + 1], transform);
      }
    }
  }

  lemma Extend(run: seq<State>, t: State, transform: seq<byte> -> seq<uint32>) returns (longer: seq<State>)
    requires Run(run, transform) && Next(run[|run| - 1], t, transform)
    ensures Run(longer, transform) && longer == run + [t]
  {
    hide Next, Init;
    longer := run + [t];
    forall i | 0 <= i < |longer| - 1 ensures Next(longer[i], longer[i + 1], transform) {
      assert i < |run| - 1 ==> Next(run[i], run[i + 1], transform);
    }
  }

  /** At the start of a frame any block can be captured, and that frame sent. */
  lemma FrameCanBeSent(run: seq<State>, transform: seq<byte> -> seq<uint32>, block: seq<byte>)
    returns (longer: seq<State>, c: nat, s: nat)
    requires Run(run, transform) && Fills(transform) && run[|run| - 1].position == NextFrame
    requires |block| == WINDOW_BYTES
    ensures Run(longer, transform) && run <= longer && |run| <= c < s == |longer| - 1 && Frame(longer, c, s)
    ensures longer[c].input == block && longer[c].sequence == (run[|run| - 1].sequence + 1) % U32
  {
    assert run != [];
    RunKeeps(run, transform, |run| - 1);
    hide Run, Next, Path, Inv;
    var last := run[|run| - 1];
    var t := last.(position := Capturing, sequence := (last.sequence + 1) % U32);
    var u := t.(input := block);
    var v := u.(position := Issuing(0));
    CaptureSteps(last, t, u, v, transform);
    longer := Extend(run, t, transform);
    longer := Extend(longer, u, transform);
    c := |longer| - 1;
    var p := WholeRequest(v, transform);
    RunContinues(longer, p, transform);
    PathStays(longer, p, transform, c);
    longer := longer + p;
    s := |longer| - 1;
  }

  lemma CaptureSteps(last: State, t: State, u: State, v: State, transform: seq<byte> -> seq<uint32>)
    requires Inv(last, transform) && last.position == NextFrame && Fills(transform)
    requires t == last.(position := Capturing, sequence := (last.sequence + 1) % U32)
    requires |u.input| == WINDOW_BYTES && u == t.(input := u.input) && v == u.(position := Issuing(0))
    ensures Next(last, t, transform) && Next(t, u, transform) && Next(u, v, transform) && Path([v], transform)
  {
    assert BeginFrame(last, t) && CaptureMore(t, u) && CaptureEnds(u, v);
  }

  /** A whole request, from the end of its capture to its packets. */
  lemma WholeRequest(v: State, transform: seq<byte> -> seq<uint32>) returns (p: seq<State>)
    requires Path([v], transform) && Fills(transform) && v.position == Issuing(0)
    ensures Path(p, transform) && p[0] == v && p[|p| - 1].position == Sending
  {
    hide Path;
    p := IssuePath([v], transform, 0);
    PathEnds(p, transform);
    p := ReadPath(p, transform);
    p := WritePath(p, transform);
    p := CheckPath(p, transform);
    PathEnds(p, transform);
  }

  lemma PathStays(run: seq<State>, p: seq<State>, transform: seq<byte> -> seq<uint32>, c: nat)
    requires Path(p, transform) && c + 1 == |run| && run[c].position == Capturing
    requires p[0] == run[c].(position := Issuing(0)) && p[|p| - 1].position == Sending
    ensures Frame(run + p, c, |run| + |p| - 1)
  {
    hide Inv, Next;
  }

  /** Frame by frame, these blocks are captured and sent, numbered consecutively. */
  ghost predicate Sends(run: seq<State>, blocks: seq<seq<byte>>, captures: seq<nat>, sendings: seq<nat>) {
    && run != [] && |captures| == |sendings| == |blocks|
    && (forall i :: 0 <= i < |blocks| ==> SendsAt(run, blocks[i], captures[i], sendings[i], i))
    && forall i, j :: 0 <= i < j < |blocks| ==> sendings[i] < captures[j]
  }

  ghost predicate SendsAt(run: seq<State>, block: seq<byte>, c: nat, s: nat, i: nat)
    requires run != []
  {
    Frame(run, c, s) && run[c].input == block && run[c].sequence == (run[0].sequence + i + 1) % U32
  }

  lemma StillSends(run: seq<State>, longer: seq<State>, block: seq<byte>, c: nat, s: nat, i: nat)
    requires run != [] && run <= longer && SendsAt(run, block, c, s, i)
    ensures SendsAt(longer, block, c, s, i)
  {
    forall k | c < k <= s ensures InRequest(longer[k].position) {
      assert longer[k] == run[k];
    }
    assert longer[c] == run[c] && longer[c + 1] == run[c + 1] && longer[s] == run[s] && longer[0] == run[0];
  }

  lemma SendsOneMore(run: seq<State>, longer: seq<State>, blocks: seq<seq<byte>>, captures: seq<nat>,
                     sendings: seq<nat>, block: seq<byte>, c: nat, s: nat)
    requires Sends(run, blocks, captures, sendings) && run <= longer && |run| <= c
    requires SendsAt(longer, block, c, s, |blocks|)
    ensures Sends(longer, blocks + [block], captures + [c], sendings + [s])
  {
    hide SendsAt;
    forall i | 0 <= i < |blocks| + 1
      ensures SendsAt(longer, (blocks + [block])[i], (captures + [c])[i], (sendings + [s])[i], i)
    {
      if i < |blocks| {
        assert SendsAt(run, blocks[i], captures[i], sendings[i], i);
        StillSends(run, longer, blocks[i], captures[i], sendings[i], i);
      }
    }
    forall i | 0 <= i < |blocks| ensures sendings[i] < c {
      assert SendsAt(run, blocks[i], captures[i], sendings[i], i);
      SentInside(run, blocks[i], captures[i], sendings[i], i);
    }
  }

  lemma SentInside(run: seq<State>, block: seq<byte>, c: nat, s: nat, i: nat)
    requires run != [] && SendsAt(run, block, c, s, i)
    ensures s < |run|
  {
  }

  /** The blocks so far were sent and the next frame can begin. */
  ghost predicate HasSent(run: seq<State>, transform: seq<byte> -> seq<uint32>, blocks: seq<seq<byte>>,
                          captures: seq<nat>, sendings: seq<nat>) {
    && Run(run, transform) && Sends(run, blocks, captures, sendings)
    && run[|run| - 1].position == NextFrame
    && run[|run| - 1].sequence == (run[0].sequence + |blocks|) % U32
  }

  lemma OneMoreBlock(run: seq<State>, transform: seq<byte> -> seq<uint32>, blocks: seq<seq<byte>>,
                     captures: seq<nat>, sendings: seq<nat>, block: seq<byte>)
    returns (longer: seq<State>, c: nat, s: nat)
    requires HasSent(run, transform, blocks, captures, sendings) && Fills(transform) && |block| == WINDOW_BYTES
    ensures HasSent(longer, transform, blocks + [block], captures + [c], sendings + [s]) && longer[0] == run[0]
  {
    hide Run, Frame, Next;
    var sent;
    sent, c, s := FrameCanBeSent(run, transform, block);
    FrameIsTransformed(sent, transform, c, s);
    NumberedNext(run[0].sequence, |blocks|, run[|run| - 1].sequence);
    SendsOneMore(run, sent, blocks, captures, sendings, block, c, s);
    hide Sends;
    FrameEnds(sent, c, s);
    var t := Ended(sent[s], transform);
    longer := Extend(sent, t, transform);
    SendsStill(sent, longer, blocks + [block], captures + [c], sendings + [s]);
  }

  lemma FrameEnds(run: seq<State>, c: nat, s: nat)
    requires Frame(run, c, s)
    ensures s < |run| && run[s].position == Sending
  {
  }

  /** From every start and for every sequence of blocks there is a run of driver and
      device in which exactly these blocks are captured and sent, in order. */
  lemma {:induction false} BlocksCanBeSent(start: State, transform: seq<byte> -> seq<uint32>, blocks: seq<seq<byte>>)
    returns (run: seq<State>, captures: seq<nat>, sendings: seq<nat>)
    requires Init(start) && Fills(transform) && forall i :: 0 <= i < |blocks| ==> |blocks[i]| == WINDOW_BYTES
    ensures HasSent(run, transform, blocks, captures, sendings) && run[0] == start
    decreases |blocks|
  {
    if blocks == [] {
      run, captures, sendings := [start], [], [];
    } else {
      hide HasSent, Init;
      var n := |blocks| - 1;
      run, captures, sendings := BlocksCanBeSent(start, transform, blocks[..n]);
      var c, s;
      run, c, s := OneMoreBlock(run, transform, blocks[..n], captures, sendings, blocks[n]);
      assert blocks[..n] + [blocks[n]] == blocks;
      captures, sendings := captures + [c], sendings + [s];
    }
  }

  lemma NumberedNext(first: uint32, n: nat, last: uint32)
    requires last == (first + n) % U32
    ensures (last + 1) % U32 == (first + n + 1) % U32
  {
  }

  lemma Ended(s: State, transform: seq<byte> -> seq<uint32>) returns (t: State)
    requires s.position == Sending
    ensures Next(s, t, transform) && t == s.(position := NextFrame)
  {
    t := s.(position := NextFrame);
    assert EndFrame(s, t);
  }

  lemma SendsStill(run: seq<State>, longer: seq<State>, blocks: seq<seq<byte>>, captures: seq<nat>, sendings: seq<nat>)
    requires Sends(run, blocks, captures, sendings) && run <= longer
    ensures Sends(longer, blocks, captures, sendings)
  {
    hide SendsAt;
    forall i | 0 <= i < |blocks| ensures SendsAt(longer, blocks[i], captures[i], sendings[i], i) {
      assert SendsAt(run, blocks[i], captures[i], sendings[i], i);
      StillSends(run, longer, blocks[i], captures[i], sendings[i], i);
    }
  }
}
