/** What a capture decides, told by the readings alone, and what an epoch counts. */
module CaptureOutcomes {
  import opened Bytes
  import opened ConfigEpoch
  import opened Nsft
  import opened Wrappers

  /** Three attributes that fit the packet's fields. */
  ghost predicate Usable(r: Reading) {
    && 0 < r.sampleRate < 0x1_0000_0000 && 0 < r.bandwidth < 0x1_0000_0000 && 0 < r.centerFrequency
  }

  /** An attempt is kept exactly when both readings are usable and the same, around a
      block, and discarded exactly when they are usable and differ. */
  lemma AttemptIff(a: Attempt)
    ensures Stable(a) <==> Usable(a.before) && a.block.Some? && a.after == a.before
    ensures Moved(a) <==> Usable(a.before) && a.block.Some? && Usable(a.after) && a.after != a.before
  {
  }

  /** Of at most three attempts the first steady one is kept, if all before it moved. */
  lemma CaptureIff(attempts: seq<Attempt>, k: nat)
    requires |attempts| == CAPTURE_ATTEMPTS
    ensures Kept(attempts, 0) == Some(k) <==>
            || (k == 0 && Stable(attempts[0])) || (k == 1 && Moved(attempts[0]) && Stable(attempts[1]))
            || (k == 2 && Moved(attempts[0]) && Moved(attempts[1]) && Stable(attempts[2]))
  {
    hide Stable, Moved;
    KeptMeaning(attempts, 0, k);
  }

  /** A frame of an attempt carries its settings. */
  lemma FrameIff(a: Attempt, m: SpectrumMetadata, block: seq<byte>)
    ensures FrameOf(a, m, block) <==>
            && Stable(a) && a.block == Some(block) && m.sampleRateHz == a.before.sampleRate
            && m.rfBandwidthHz == a.before.bandwidth && m.centerFrequencyHz == a.before.centerFrequency
  {
  }

  ghost predicate Differs(log: seq<Configuration>, i: nat) {
    0 < i < |log| && log[i] != log[i - 1]
  }

  /** The places where an observation differs from the one before it. */
  ghost function Differences(log: seq<Configuration>): set<nat> {
    set i: nat | i < |log| && Differs(log, i)
  }

  /** Epochs count the observations that differ from the one before. */
  lemma {:induction false} ChangesAre(log: seq<Configuration>)
    ensures Changes(log) == |Differences(log)|
    decreases |log|
  {
    if |log| <= 1 {
      assert Differences(log) == {};
    } else {
      var n := |log| - 1;
      ChangesAre(log[..n]);
      DifferencesGrow(log, n);
    }
  }

  lemma DifferencesGrow(log: seq<Configuration>, n: nat)
    requires n + 1 == |log|
    ensures Differences(log) == Differences(log[..n]) + if Differs(log, n) then {n} else {}
    ensures n !in Differences(log[..n])
  {
    forall i: nat ensures Differs(log[..n], i) <==> i < n && Differs(log, i) {
    }
    hide Differs;
  }

  /** The first frame's observation has epoch 0, and each difference adds one. */
  lemma EpochIs(log: seq<Configuration>, m: SpectrumMetadata, at: nat)
    requires Stamped(log, m, at)
    ensures 0 < at <= |log| && m.configEpoch == |Differences(log[..at])| % 0x1_0000_0000
    ensures at == 1 ==> m.configEpoch == 0
  {
    ChangesAre(log[..at]);
  }
}
