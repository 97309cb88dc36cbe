/** Configuration epochs: the streamer's stored observation of the radio settings,
    and the bounded capture that discards a frame whose settings moved. */
module ConfigEpoch {
  import opened Bytes
  import opened Nsft
  import opened Wrappers

  const CAPTURE_ATTEMPTS: nat := 3

  datatype Configuration = Configuration(sampleRateHz: uint32, rfBandwidthHz: uint32, centerFrequencyHz: uint64)

  function ConfigurationOf(m: SpectrumMetadata): Configuration {
    Configuration(m.sampleRateHz, m.rfBandwidthHz, m.centerFrequencyHz)
  }

  predicate SameConfiguration(left: SpectrumMetadata, right: SpectrumMetadata) {
    && left.sampleRateHz == right.sampleRateHz && left.rfBandwidthHz == right.rfBandwidthHz
    && left.centerFrequencyHz == right.centerFrequencyHz
  }

  // Readings from the environment ----------------------------------------------

  /** The three attributes as the kernel reports them. */
  datatype Reading = Reading(sampleRate: uint64, bandwidth: uint64, centerFrequency: uint64)

  /** A zero attribute, or a rate or bandwidth beyond 32 bits, ends the program. */
  function ReadMetadata(r: Reading): (m: Option<SpectrumMetadata>)
    ensures m.Some? <==> 0 < r.sampleRate < U32 && 0 < r.bandwidth < U32 && 0 < r.centerFrequency
    ensures m.Some? ==>
              ConfigurationOf(m.value) == Configuration(r.sampleRate, r.bandwidth, r.centerFrequency)
  {
    if r.sampleRate == 0 || r.bandwidth == 0 then None
    else if r.sampleRate >= U32 || r.bandwidth >= U32 then None
    else if r.centerFrequency == 0 then None
    else Some(SpectrumMetadata(r.sampleRate, r.bandwidth, r.centerFrequency, 0))
  }

  /** One capture: the settings before and after, and the block read between them. */
  datatype Attempt = Attempt(before: Reading, block: Option<seq<byte>>, after: Reading)

  predicate Readable(a: Attempt) {
    ReadMetadata(a.before).Some? && a.block.Some? && ReadMetadata(a.after).Some?
  }

  predicate Stable(a: Attempt) {
    Readable(a) && SameConfiguration(ReadMetadata(a.before).value, ReadMetadata(a.after).value)
  }

  predicate Moved(a: Attempt) {
    Readable(a) && !SameConfiguration(ReadMetadata(a.before).value, ReadMetadata(a.after).value)
  }

  /** A frame of this attempt: its block, with settings equal to both readings. */
  ghost predicate FrameOf(a: Attempt, m: SpectrumMetadata, block: seq<byte>) {
    && Stable(a) && a.block == Some(block)
    && SameConfiguration(m, ReadMetadata(a.before).value) && SameConfiguration(m, ReadMetadata(a.after).value)
  }

  datatype Outcome = Returns(metadata: SpectrumMetadata, block: seq<byte>) | Discards | Fails
  datatype Capture = Frame(metadata: SpectrumMetadata, block: seq<byte>) | Fatal

  /** The attempt a capture keeps: the first whose settings did not move, provided
      nothing before it failed. */
  function Kept(attempts: seq<Attempt>, i: nat): Option<nat>
    requires i <= |attempts|
    decreases |attempts| - i
  {
    if i == |attempts| then None
    else if Stable(attempts[i]) then Some(i)
    else if Moved(attempts[i]) then Kept(attempts, i + 1)
    else None
  }

  lemma {:induction false} KeptMeaning(attempts: seq<Attempt>, i: nat, k: nat)
    requires i <= |attempts|
    ensures Kept(attempts, i) == Some(k) <==>
              i <= k < |attempts| && Stable(attempts[k]) && forall j :: i <= j < k ==> Moved(attempts[j])
    decreases |attempts| - i
  {
    if i < |attempts| && Moved(attempts[i]) {
      KeptMeaning(attempts, i + 1, k);
    }
  }

  // Counting changes -----------------------------------------------------------

  /** How often consecutive observations differ. */
  function Changes(log: seq<Configuration>): (n: nat)
    ensures n <= |log|
  {
    if |log| <= 1 then 0
    else Changes(log[..|log| - 1]) + (if log[|log| - 1] != log[|log| - 2] then 1 else 0)
  }

  function BothReadings(a: Attempt): seq<Configuration>
    requires Readable(a)
  {
    [ConfigurationOf(ReadMetadata(a.before).value), ConfigurationOf(ReadMetadata(a.after).value)]
  }

  /** What a failed attempt adds to the log: its first reading, if there was one. */
  function FirstReading(a: Attempt): seq<Configuration> {
    var before := ReadMetadata(a.before);
    if before.None? then [] else [ConfigurationOf(before.value)]
  }

  /** What discarded attempts add to the log: both readings of each. */
  function Discarded(attempts: seq<Attempt>): seq<Configuration>
    requires forall i :: 0 <= i < |attempts| ==> Moved(attempts[i])
  {
    if attempts == [] then []
    else
      assert Moved(attempts[|attempts| - 1]);
      Discarded(attempts[..|attempts| - 1]) + BothReadings(attempts[|attempts| - 1])
  }

  lemma AtStart(attempts: seq<Attempt>)
    ensures Discarded(attempts[..0]) == [] && Kept(attempts, |attempts|) == None
  {
  }

  /** What one attempt decides, after those before it were discarded. */
  lemma AtAttempt(attempts: seq<Attempt>, i: nat)
    requires i < |attempts| && forall j :: 0 <= j < i ==> Moved(attempts[j])
    ensures Kept(attempts, i) ==
            if Stable(attempts[i]) then Some(i) else if Moved(attempts[i]) then Kept(attempts, i + 1) else None
    ensures Moved(attempts[i]) ==>
              Readable(attempts[i])
              && Discarded(attempts[..i + 1]) == Discarded(attempts[..i]) + BothReadings(attempts[i])
    ensures !(Moved(attempts[i]) && Stable(attempts[i]))
  {
    assert attempts[..i + 1][..i] == attempts[..i];
  }

  // The tracker ----------------------------------------------------------------

  /** A returned frame and the length of the log when it was returned. */
  datatype Returned = Returned(metadata: SpectrumMetadata, at: nat)

  /** `m` is the observation the log ended with at length `at`, and its epoch counts
      the changes up to there. */
  ghost predicate Stamped(log: seq<Configuration>, m: SpectrumMetadata, at: nat) {
    && 0 < at <= |log|
    && ConfigurationOf(m) == log[at - 1]
    && m.configEpoch == Changes(log[..at]) % U32
  }

  ghost predicate AllStamped(log: seq<Configuration>, frames: seq<Returned>) {
    && (forall i :: 0 <= i < |frames| ==> Stamped(log, frames[i].metadata, frames[i].at))
    && (forall i, j :: 0 <= i < j < |frames| ==> frames[i].at <= frames[j].at)
  }

  lemma StillStamped(log: seq<Configuration>, frames: seq<Returned>, c: Configuration)
    requires AllStamped(log, frames)
    ensures AllStamped(log + [c], frames)
  {
    forall i | 0 <= i < |frames| ensures Stamped(log + [c], frames[i].metadata, frames[i].at) {
      assert (log + [c])[..frames[i].at] == log[..frames[i].at];
    }
  }

  lemma StampedFirst(m: SpectrumMetadata)
    ensures Stamped([ConfigurationOf(m)], m.(configEpoch := 0), 1)
  {
  }

  lemma StampedNext(log: seq<Configuration>, last: SpectrumMetadata, m: SpectrumMetadata, longer: seq<Configuration>)
    requires Stamped(log, last, |log|) && longer == log + [ConfigurationOf(m)]
    ensures Stamped(longer, m.(configEpoch := if SameConfiguration(m, last) then last.configEpoch
                                              else (last.configEpoch + 1) % U32), |longer|)
  {
    assert log[..|log|] == log && longer[..|longer|] == longer;
    ChangesGrow(log, ConfigurationOf(m), longer);
    hide Changes;
    assert SameConfiguration(m, last) <==> ConfigurationOf(m) == ConfigurationOf(last);
    NextResidue(Changes(log), last.configEpoch);
  }

  lemma ChangesGrow(log: seq<Configuration>, c: Configuration, longer: seq<Configuration>)
    requires log != [] && longer == log + [c]
    ensures Changes(longer) == Changes(log) + (if c != log[|log| - 1] then 1 else 0)
  {
    assert longer[..|log|] == log;
  }

  lemma NextResidue(n: nat, epoch: uint32)
    requires epoch == n % U32
    ensures (epoch + 1) % U32 == (n + 1) % U32
  {
  }

  class EpochTracker {
    var observed: SpectrumMetadata
    var initialized: bool
    ghost var log: seq<Configuration>
    ghost var frames: seq<Returned>

    /** The stored observation is the last in the log, its epoch counts the changes
        in the log, and every frame ever returned still agrees with the log. */
    ghost predicate Valid()
      reads this
    {
      && (initialized <==> log != [])
      && (initialized ==> Stamped(log, observed, |log|))
      && AllStamped(log, frames)
    }

    constructor ()
      ensures Valid() && log == [] && frames == []
    {
      observed := SpectrumMetadata(0, 0, 0, 0);
      initialized := false;
      log := [];
      frames := [];
    }

    method Observe(metadata: SpectrumMetadata) returns (r: SpectrumMetadata)
      requires Valid()
      modifies this
      ensures Valid() && initialized && observed == r
      ensures log == old(log) + [ConfigurationOf(metadata)] && frames == old(frames)
      ensures Stamped(log, r, |log|)
    {
      ghost var longer := log + [ConfigurationOf(metadata)];
      StillStamped(log, frames, ConfigurationOf(metadata));
      if !initialized {
        r := metadata.(configEpoch := 0);
        initialized := true;
        StampedFirst(metadata);
        assert longer == [ConfigurationOf(metadata)];
      } else {
        StampedNext(log, observed, metadata, longer);
        if SameConfiguration(metadata, observed) {
          r := metadata.(configEpoch := observed.configEpoch);
        } else {
          r := metadata.(configEpoch := (observed.configEpoch + 1) % U32);
        }
      }
      log := longer;
      observed := r;
    }

    /** One pass of the capture loop. */
    method CaptureOnce(attempt: Attempt) returns (outcome: Outcome)
      requires Valid()
      modifies this
      ensures Valid()
      ensures outcome.Returns? <==> Stable(attempt)
      ensures outcome.Discards? <==> Moved(attempt)
      ensures outcome.Returns? ==>
                && outcome.metadata == observed && FrameOf(attempt, observed, outcome.block)
                && log == old(log) + [ConfigurationOf(observed)]
                && frames == old(frames) + [Returned(observed, |log|)]
      ensures outcome.Discards? ==> log == old(log) + BothReadings(attempt)
      ensures outcome.Fails? ==> log == old(log) + FirstReading(attempt)
      ensures !outcome.Returns? ==> frames == old(frames)
    {
      var first := ReadMetadata(attempt.before);
      if first.None? {
        return Fails;
      }
      var before := Observe(first.value);
      if attempt.block.None? {
        return Fails;
      }
      var second := ReadMetadata(attempt.after);
      if second.None? {
        return Fails;
      }
      var after := second.value;
      if SameConfiguration(before, after) {
        after := after.(configEpoch := before.configEpoch);
        frames := frames + [Returned(after, |log|)];
        return Returns(after, attempt.block.value);
      }
      after := Observe(after);
      return Discards;
    }

    /** At most three captures. A frame comes from the first attempt whose settings
        did not move, carries that attempt's block and equals the stored observation;
        there is none exactly when a reading failed first or all three moved. */
    method CaptureFrame(attempts: seq<Attempt>) returns (result: Capture, ghost used: nat)
      requires Valid() && |attempts| == CAPTURE_ATTEMPTS
      modifies this
      ensures Valid() && used <= CAPTURE_ATTEMPTS
      ensures result.Frame? <==> Kept(attempts, 0).Some?
      ensures result.Frame? ==>
                && used > 0 && Kept(attempts, 0) == Some(used - 1)
                && (forall i :: 0 <= i < used - 1 ==> Moved(attempts[i]))
                && result.metadata == observed && FrameOf(attempts[used - 1], observed, result.block)
                && log == old(log) + Discarded(attempts[..used - 1]) + [ConfigurationOf(observed)]
                && frames == old(frames) + [Returned(observed, |log|)]
      ensures result.Fatal? ==>
                && (forall i :: 0 <= i < used ==> Moved(attempts[i])) && frames == old(frames)
                && log == old(log) + Discarded(attempts[..used])
                       + (if used < CAPTURE_ATTEMPTS then FirstReading(attempts[used]) else [])
    {
      hide FrameOf, Stamped, AllStamped, Moved, Stable, Readable, BothReadings, FirstReading, Kept, Discarded;
      AtStart(attempts);
      var attempt := 0;
      while attempt < CAPTURE_ATTEMPTS
        invariant Valid() && 0 <= attempt <= CAPTURE_ATTEMPTS && frames == old(frames)
        invariant forall i :: 0 <= i < attempt ==> Moved(attempts[i])
        invariant Kept(attempts, 0) == Kept(attempts, attempt)
        invariant log == old(log) + Discarded(attempts[..attempt])
      {
        AtAttempt(attempts, attempt);
        var outcome := CaptureOnce(attempts[attempt]);
        match outcome {
          case Returns(metadata, block) =>
            return Frame(metadata, block), attempt + 1;
          case Fails =>
            return Fatal, attempt;
          case Discards =>
            attempt := attempt + 1;
        }
      }
      return Fatal, attempt;
    }
  }

  // Epochs over a whole run ----------------------------------------------------

  /** No observation from `lo` to `hi` differs from the one before it. */
  ghost predicate Quiet(log: seq<Configuration>, lo: nat, hi: nat)
    requires lo <= hi <= |log|
  {
    forall i :: lo <= i < hi && i > 0 ==> log[i] == log[i - 1]
  }

  lemma {:induction false} ChangesBetween(log: seq<Configuration>, lo: nat, hi: nat)
    requires 0 < lo <= hi <= |log|
    ensures Changes(log[..lo]) <= Changes(log[..hi])
    ensures Changes(log[..lo]) == Changes(log[..hi]) <==> Quiet(log, lo, hi)
    ensures Quiet(log, lo, hi) ==> log[lo - 1] == log[hi - 1]
    decreases hi
  {
    if hi > lo {
      ChangesBetween(log, lo, hi - 1);
      assert log[..hi][..hi - 1] == log[..hi - 1];
    }
  }

  function ChangesFrom(log: seq<Configuration>, lo: nat, hi: nat): int
    requires lo <= hi <= |log|
  {
    Changes(log[..hi]) - Changes(log[..lo])
  }

  lemma SameResidue(a: nat, b: nat)
    requires a <= b
    ensures a % U32 == b % U32 <==> (b - a) % U32 == 0
  {
  }

  /** Any two frames of a run: their epochs are equal exactly when the number of
      changes observed between them is a multiple of 2^32, so with fewer changes
      exactly when none was observed, and then their settings are the same. */
  lemma EpochsOfFrames(tracker: EpochTracker, i: nat, j: nat)
    requires tracker.Valid() && i < j < |tracker.frames|
    ensures var (f, g) := (tracker.frames[i], tracker.frames[j]);
      && 0 < f.at <= g.at <= |tracker.log|
      && (f.metadata.configEpoch == g.metadata.configEpoch <==> ChangesFrom(tracker.log, f.at, g.at) % U32 == 0)
      && (ChangesFrom(tracker.log, f.at, g.at) < U32 ==>
            (f.metadata.configEpoch == g.metadata.configEpoch <==> Quiet(tracker.log, f.at, g.at)))
      && (Quiet(tracker.log, f.at, g.at) ==> ConfigurationOf(f.metadata) == ConfigurationOf(g.metadata))
  {
    var (f, g) := (tracker.frames[i], tracker.frames[j]);
    ChangesBetween(tracker.log, f.at, g.at);
    SameResidue(Changes(tracker.log[..f.at]), Changes(tracker.log[..g.at]));
  }

  lemma {:induction false} EveryStepChanges(log: seq<Configuration>, lo: nat, hi: nat)
    requires 0 < lo <= hi <= |log| && forall i :: lo <= i < hi ==> log[i] != log[i - 1]
    ensures ChangesFrom(log, lo, hi) == hi - lo
    decreases hi
  {
    if hi > lo {
      EveryStepChanges(log, lo, hi - 1);
      assert log[..hi][..hi - 1] == log[..hi - 1];
    }
  }

  // A run in which epochs wrap ---------------------------------------------------

  /** The settings during frame `i`: only the frequency moves, to one value first and
      then to two others in turn. */
  function Tuned(start: Reading, i: nat): Reading {
    start.(centerFrequency := if i == 0 then 1 else 2 + i % 2)
  }

  function Settings(start: Reading, i: nat): (c: Configuration)
    requires ReadMetadata(start).Some?
    ensures ReadMetadata(Tuned(start, i)).Some? && c == ConfigurationOf(ReadMetadata(Tuned(start, i)).value)
  {
    ConfigurationOf(ReadMetadata(Tuned(start, i)).value)
  }

  function Steady(start: Reading, i: nat, block: seq<byte>): (a: Attempt)
    requires ReadMetadata(start).Some?
    ensures Stable(a) && forall m, b :: FrameOf(a, m, b) ==> ConfigurationOf(m) == Settings(start, i)
  {
    Attempt(Tuned(start, i), Some(block), Tuned(start, i))
  }

  /** Each observation is that of its frame, after the one at the start. */
  ghost predicate TunedLog(log: seq<Configuration>, start: Reading, n: nat)
    requires ReadMetadata(start).Some?
  {
    |log| == n + 1 && forall i: nat :: i < n ==> log[i + 1] == Settings(start, i)
  }

  lemma TunedChanges(log: seq<Configuration>, start: Reading, n: nat)
    requires ReadMetadata(start).Some? && TunedLog(log, start, n) && n >= 2
    ensures ChangesFrom(log, 2, n + 1) == n - 1 && log[1] != log[n]
  {
    forall i | 2 <= i < n + 1 ensures log[i] != log[i - 1] {
      assert log[i - 2 + 1 + 1] == Settings(start, i - 1) && log[i - 2 + 1] == Settings(start, i - 2);
    }
    EveryStepChanges(log, 2, n + 1);
    assert log[0 + 1] == Settings(start, 0) && log[n - 1 + 1] == Settings(start, n - 1);
  }

  /** One frame captured at steady settings. */
  method CaptureSteady(tracker: EpochTracker, start: Reading, i: nat, block: seq<byte>)
    requires tracker.Valid() && ReadMetadata(start).Some?
    modifies tracker
    ensures tracker.Valid() && tracker.log == old(tracker.log) + [Settings(start, i)]
    ensures |tracker.frames| == |old(tracker.frames)| + 1 && old(tracker.frames) <= tracker.frames
    ensures tracker.frames[|old(tracker.frames)|].at == |tracker.log|
  {
    var a := Steady(start, i, block);
    var attempts := [a, a, a];
    KeptMeaning(attempts, 0, 0);
    var capture, used := tracker.CaptureFrame(attempts);
    AtStart(attempts);
  }

  /** The bound is tight: a run of the tracker, from the observation at the start on,
      in which two returned frames have one epoch and different settings. */
  method EpochWraps(start: Reading, block: seq<byte>) returns (tracker: EpochTracker)
    requires ReadMetadata(start).Some?
    ensures fresh(tracker) && tracker.Valid() && |tracker.frames| == U32 + 1
    ensures var (f, g) := (tracker.frames[0], tracker.frames[U32]);
      && f.metadata.configEpoch == g.metadata.configEpoch
      && ConfigurationOf(f.metadata) != ConfigurationOf(g.metadata)
      && 0 < f.at <= g.at <= |tracker.log| && ChangesFrom(tracker.log, f.at, g.at) == U32
  {
    hide Settings, Stamped, Changes;
    tracker := new EpochTracker();
    var first := tracker.Observe(ReadMetadata(start).value);
    var i := 0;
    while i < U32 + 1
      invariant 0 <= i <= U32 + 1 && fresh(tracker) && tracker.Valid()
      invariant |tracker.frames| == i && TunedLog(tracker.log, start, i)
      invariant forall k :: 0 <= k < i ==> tracker.frames[k].at == k + 2
    {
      CaptureSteady(tracker, start, i, block);
      i := i + 1;
    }
    TunedChanges(tracker.log, start, U32 + 1);
    EpochsOfFrames(tracker, 0, U32);
    FrameSettings(tracker, 0);
    FrameSettings(tracker, U32);
  }

  lemma FrameSettings(tracker: EpochTracker, k: nat)
    requires tracker.Valid() && k < |tracker.frames|
    ensures 0 < tracker.frames[k].at <= |tracker.log|
    ensures ConfigurationOf(tracker.frames[k].metadata) == tracker.log[tracker.frames[k].at - 1]
  {
    assert Stamped(tracker.log, tracker.frames[k].metadata, tracker.frames[k].at);
  }
}
