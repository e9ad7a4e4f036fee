/**
 * The per-monitor duplicate gate: given what was remembered about the last
 * frame let through and a new frame's hash and clock reading, decide whether
 * to skip the frame and what to remember next.
 *
 * Two policies occur in the repository. `Gate` is the one of the new crate's
 * filter and screenshot service and of the old tree's capture worker (there
 * with the force interval fixed at one minute and the threshold at 10):
 * force, then debounce, then similarity. `TryCreateDecision` is the old
 * monitor wrapper's rule: skip only a similar frame within five seconds.
 *
 * Clock readings are integer milliseconds; the state-changing code that
 * applies these decisions lives with each caller.
 */
module Dedup {
  import opened Wrappers
  import opened Ints
  import opened PerceptualHash

  /** `MonitorState`: the hash and clock reading of the last frame let through. */
  datatype GateState = GateState(lastHash: Option<bv64>, lastTime: Option<int>)

  /** `MonitorState::new()`: nothing seen yet. */
  const Fresh := GateState(None, None)

  /** Frames closer together than this many milliseconds are skipped. */
  const DebounceMs := 100

  /** The old capture worker's force interval (one minute) and threshold. */
  const FixedForceMs := 60 * 1000
  const FixedThreshold := 10

  datatype Verdict = Verdict(skip: bool, next: GateState)

  function Refreshed(hash: bv64, now: int): GateState {
    GateState(Some(hash), Some(now))
  }

  // ---------------------------------------------------------------------------
  // The configured force interval
  // ---------------------------------------------------------------------------

  /** Largest magnitude, in seconds, that `TimeDelta::try_seconds` accepts. */
  const MaxDeltaSecs := I64Max / 1000

  /**
   * `TimeDelta::try_seconds(force_interval_secs as i64)`: the interval in
   * milliseconds, or `None` where the source's `unwrap` would panic.
   */
  function ForceIntervalMs(secs: u64): (r: Option<int>)
    ensures r.Some? <==> -MaxDeltaSecs <= U64AsI64(secs) <= MaxDeltaSecs
    ensures secs <= MaxDeltaSecs ==> r == Some(secs * 1000)
  {
    var s := U64AsI64(secs);
    if -MaxDeltaSecs <= s <= MaxDeltaSecs then Some(s * 1000) else None
  }

  // ---------------------------------------------------------------------------
  // Force, debounce, similarity
  // ---------------------------------------------------------------------------

  /**
   * `should_skip`. A skip leaves the state as it was; an emit records the new
   * hash and clock reading. The rules apply in order: more than `forceMs`
   * since the last emit always emits; less than `DebounceMs` skips; a hash
   * closer than `threshold` to the last one skips; anything else emits.
   */
  function Gate(forceMs: int, threshold: nat, st: GateState, hash: bv64, now: int): (v: Verdict)
    ensures v.skip ==> v.next == st
    ensures !v.skip ==> v.next == Refreshed(hash, now)
    ensures st.lastTime.Some? && now - st.lastTime.value > forceMs ==> !v.skip
    ensures st.lastTime.Some? && !(now - st.lastTime.value > forceMs) && now - st.lastTime.value < DebounceMs
            ==> v.skip
    ensures st.lastTime.None? || DebounceMs <= now - st.lastTime.value <= forceMs
            ==> (v.skip <==> st.lastHash.Some? && HammingDistance(hash, st.lastHash.value) < threshold)
  {
    if st.lastTime.Some? && now - st.lastTime.value > forceMs then
      Verdict(false, Refreshed(hash, now))
    else if st.lastTime.Some? && now - st.lastTime.value < DebounceMs then
      Verdict(true, st)
    else if st.lastHash.Some? && HammingDistance(hash, st.lastHash.value) < threshold then
      Verdict(true, st)
    else
      Verdict(false, Refreshed(hash, now))
  }

  /** A monitor seen for the first time always has its frame emitted and recorded. */
  lemma FreshAlwaysEmits(forceMs: int, threshold: nat, hash: bv64, now: int)
    ensures Gate(forceMs, threshold, Fresh, hash, now) == Verdict(false, Refreshed(hash, now))
  {
  }

  /** Two emitted frames are at least `DebounceMs` apart, unless the force interval itself is shorter. */
  lemma EmitsAreSpaced(forceMs: int, threshold: nat, hash: bv64, last: bv64, t: int, now: int)
    requires !Gate(forceMs, threshold, Refreshed(last, t), hash, now).skip
    ensures now - t >= DebounceMs || now - t > forceMs
  {
  }

  /**
   * An unchanged frame (same hash) is skipped for as long as the force interval
   * has not passed since the last emit, given a positive threshold.
   */
  lemma RepeatedFrameSkipped(forceMs: int, threshold: nat, hash: bv64, t: int, now: int)
    requires 0 < threshold
    requires now - t <= forceMs
    ensures Gate(forceMs, threshold, Refreshed(hash, t), hash, now).skip
  {
    HammingZeroIff(hash, hash);
  }

  /** Hashes and clock readings of successive frames of one monitor. */
  datatype Frame = Frame(hash: bv64, time: int)

  /** The gate applied to successive frames: which were skipped, and the final state. */
  function RunGate(forceMs: int, threshold: nat, st: GateState, frames: seq<Frame>): (r: (seq<bool>, GateState))
    ensures |r.0| == |frames|
    decreases |frames|
  {
    if |frames| == 0 then ([], st)
    else
      var v := Gate(forceMs, threshold, st, frames[0].hash, frames[0].time);
      var rest := RunGate(forceMs, threshold, v.next, frames[1..]);
      ([v.skip] + rest.0, rest.1)
  }

  /**
   * A static screen: once a frame has been emitted at time t, later frames with
   * the same hash taken no later than the force interval after t are all
   * skipped and the remembered state does not move.
   */
  lemma {:induction false} StaticScreenSkipped(forceMs: int, threshold: nat, hash: bv64, t: int, frames: seq<Frame>)
    requires 0 < threshold
    requires forall i :: 0 <= i < |frames| ==> frames[i].hash == hash && frames[i].time - t <= forceMs
    ensures RunGate(forceMs, threshold, Refreshed(hash, t), frames).1 == Refreshed(hash, t)
    ensures forall i :: 0 <= i < |frames| ==> RunGate(forceMs, threshold, Refreshed(hash, t), frames).0[i]
    decreases |frames|
  {
    if |frames| > 0 {
      RepeatedFrameSkipped(forceMs, threshold, hash, t, frames[0].time);
      StaticScreenSkipped(forceMs, threshold, hash, t, frames[1..]);
    }
  }

  /** Once the force interval has passed, the same static screen is emitted again. */
  lemma StaticScreenForced(forceMs: int, threshold: nat, hash: bv64, t: int, now: int)
    requires now - t > forceMs
    ensures Gate(forceMs, threshold, Refreshed(hash, t), hash, now) == Verdict(false, Refreshed(hash, now))
  {
  }

  // ---------------------------------------------------------------------------
  // The old monitor wrapper's rule
  // ---------------------------------------------------------------------------

  /** The old monitor wrapper's window and threshold. */
  const LegacyWindowMs := 5000
  const LegacyThreshold := 10

  /**
   * `try_create_event`'s decision: skip exactly when both a last time and a
   * last hash are known, less than five seconds have passed and the distance
   * is below 10. There is no debounce and no separate force rule.
   */
  function TryCreateDecision(st: GateState, hash: bv64, now: int): (v: Verdict)
    ensures v.skip <==> (st.lastTime.Some? && st.lastHash.Some?
                         && now - st.lastTime.value < LegacyWindowMs
                         && HammingDistance(st.lastHash.value, hash) < LegacyThreshold)
    ensures v.skip ==> v.next == st
    ensures !v.skip ==> v.next == Refreshed(hash, now)
  {
    match (st.lastTime, st.lastHash)
    case (Some(lt), Some(lh)) =>
      if now - lt < LegacyWindowMs && HammingDistance(lh, hash) < LegacyThreshold
      then Verdict(true, st)
      else Verdict(false, Refreshed(hash, now))
    case _ => Verdict(false, Refreshed(hash, now))
  }

  /** Five seconds after the last emit a frame is emitted whatever it shows. */
  lemma LegacyWindowExpiryEmits(st: GateState, hash: bv64, now: int)
    requires st.lastTime.Some? && now - st.lastTime.value >= LegacyWindowMs
    ensures !TryCreateDecision(st, hash, now).skip
  {
  }

  /**
   * Unlike `Gate`, the old rule has no debounce: a frame arriving 1 ms after
   * the last emit but differing in 10 or more bits is emitted, where `Gate`
   * with any force interval of at least 1 ms skips it.
   */
  lemma LegacyHasNoDebounce(last: bv64, hash: bv64, t: int, forceMs: int, threshold: nat)
    requires HammingDistance(last, hash) >= LegacyThreshold
    requires forceMs >= 1
    ensures !TryCreateDecision(Refreshed(last, t), hash, t + 1).skip
    ensures Gate(forceMs, threshold, Refreshed(last, t), hash, t + 1).skip
  {
  }
}
