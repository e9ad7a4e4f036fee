/**
 * The old tree's monitor wrapper: a monitor's id and position, the hash and
 * clock reading of the last frame it let through, and the step that turns a
 * grabbed frame into an event unless it repeats a recent one.
 *
 * The frame grab and the clock are outside the model: `GetNextEvent` takes
 * the outcome of the grab, and both steps take the clock reading `now` in
 * milliseconds.
 */
module LegacyMonitor {
  import opened Wrappers
  import opened Ints
  import opened Text
  import opened PerceptualHash
  import opened Dedup
  import opened Event

  /** `MonitorImageEvent`: a frame, the id of the monitor it came from, and when it was taken. */
  datatype MonitorImageEvent = MonitorImageEvent(monitorId: string, image: RawImage, timestamp: int)

  /**
   * The id `SafeMonitor::new` gives a monitor: `{name}_{width}_{height}_{x}_{y}`,
   * the name taken as the monitor library reports it.
   */
  function MonitorId(name: string, width: u32, height: u32, x: i32, y: i32): string {
    name + "_" + Geometry(width, height, x, y)
  }

  /** The id is the name as reported, then '_', then the geometry. */
  lemma MonitorIdShape(name: string, width: u32, height: u32, x: i32, y: i32)
    ensures var id, g := MonitorId(name, width, height, x, y), Geometry(width, height, x, y);
            |id| == |name| + 1 + |g| && id[..|name|] == name && id[|name|] == '_' && id[|name| + 1..] == g
  {
  }

  /**
   * The id names a monitor unambiguously even though its name may itself
   * contain '_': the geometry always has exactly four fields, so reading the
   * id from the right recovers the geometry and then the name.
   */
  lemma MonitorIdInjective(n1: string, w1: u32, h1: u32, x1: i32, y1: i32,
                           n2: string, w2: u32, h2: u32, x2: i32, y2: i32)
    requires MonitorId(n1, w1, h1, x1, y1) == MonitorId(n2, w2, h2, x2, y2)
    ensures n1 == n2 && w1 == w2 && h1 == h2 && x1 == x2 && y1 == y2
  {
    NatToStringHasNoUnderscore(w1);
    NatToStringHasNoUnderscore(w2);
    NatToStringHasNoUnderscore(h1);
    NatToStringHasNoUnderscore(h2);
    IntToStringHasNoUnderscore(x1);
    IntToStringHasNoUnderscore(x2);
    IntToStringHasNoUnderscore(y1);
    IntToStringHasNoUnderscore(y2);
    SplitLastFour(n1, NatToString(w1), NatToString(h1), IntToString(x1), IntToString(y1),
                  n2, NatToString(w2), NatToString(h2), IntToString(x2), IntToString(y2));
    NatToStringInjective(w1, w2);
    NatToStringInjective(h1, h2);
    IntToStringInjective(x1, x2);
    IntToStringInjective(y1, y2);
  }

  /**
   * For a monitor with a non-empty name, the old id is the new crate's
   * friendly name of a description with the same name and geometry.
   */
  lemma MonitorIdIsFriendlyName<P>(info: ImageInfo<P>)
    requires info.name != ""
    ensures MonitorId(info.name, info.width, info.height, info.x, info.y) == FriendlyName(info)
  {
  }

  class SafeMonitor {
    const id: string
    const x: i32
    const y: i32
    var lastTime: Option<int>
    var lastHash: Option<bv64>

    /** The remembered hash and clock reading, as the gate's state. */
    function State(): GateState
      reads this
    {
      GateState(lastHash, lastTime)
    }

    /**
     * `SafeMonitor::new` from the values the monitor library reports: the id
     * from the name and geometry, the position, and nothing remembered yet.
     */
    constructor (name: string, width: u32, height: u32, x: i32, y: i32)
      ensures id == MonitorId(name, width, height, x, y) && this.x == x && this.y == y
      ensures State() == Fresh
    {
      this.x := x;
      this.y := y;
      id := name + "_" + Geometry(width, height, x, y);
      lastTime := None;
      lastHash := None;
    }

    /**
     * `try_create_event`: no event, and nothing remembered changes, exactly
     * when the old rule skips the frame; otherwise the frame's hash and `now`
     * are remembered and the event carries this monitor's id, the frame and
     * `now`.
     */
    method TryCreateEvent(image: RawImage, now: int) returns (event: Option<MonitorImageEvent>)
      modifies this
      ensures var v := TryCreateDecision(old(State()), DhashOf(image.thumbnail), now);
              && (event.None? <==> v.skip)
              && State() == v.next
              && (event.Some? ==> event.value == MonitorImageEvent(id, image, now))
    {
      var currentHash := Dhash(image.thumbnail);
      if lastTime.Some? && lastHash.Some? {
        var duration := now - lastTime.value;
        var distance := HammingDistance(lastHash.value, currentHash);
        if duration < LegacyWindowMs && distance < LegacyThreshold {
          return None;
        }
      }
      lastTime := Some(now);
      lastHash := Some(currentHash);
      return Some(MonitorImageEvent(id, image, now));
    }

    /**
     * `get_next_event`: a failed grab is passed on with its message and
     * nothing remembered changes; a grabbed frame goes through
     * `TryCreateEvent`.
     */
    method GetNextEvent(grabbed: Result<RawImage>, now: int) returns (r: Result<Option<MonitorImageEvent>>)
      modifies this
      ensures grabbed.Err? ==> r == Err(grabbed.error) && State() == old(State())
      ensures grabbed.Ok? ==>
                var v := TryCreateDecision(old(State()), DhashOf(grabbed.value.thumbnail), now);
                && r.Ok?
                && (r.value.None? <==> v.skip)
                && State() == v.next
                && (r.value.Some? ==> r.value.value == MonitorImageEvent(id, grabbed.value, now))
    {
      if grabbed.Err? {
        return Err(grabbed.error);
      }
      var event := TryCreateEvent(grabbed.value, now);
      return Ok(event);
    }
  }

  /**
   * The old rule on successive frames of one monitor: which produced an
   * event, and the state left behind.
   */
  function RunTryCreate(st: GateState, frames: seq<Frame>): (r: (seq<bool>, GateState))
    ensures |r.0| == |frames|
    decreases |frames|
  {
    if |frames| == 0 then ([], st)
    else
      var v := TryCreateDecision(st, frames[0].hash, frames[0].time);
      var rest := RunTryCreate(v.next, frames[1..]);
      ([!v.skip] + rest.0, rest.1)
  }

  /**
   * A static screen: once an event has been produced at time t, frames with
   * the same hash taken less than five seconds after t produce no event and
   * leave the remembered state alone.
   */
  lemma {:induction false} StaticScreenQuiet(hash: bv64, t: int, frames: seq<Frame>)
    requires forall i :: 0 <= i < |frames| ==> frames[i].hash == hash && frames[i].time - t < LegacyWindowMs
    ensures RunTryCreate(Refreshed(hash, t), frames).1 == Refreshed(hash, t)
    ensures forall i :: 0 <= i < |frames| ==> !RunTryCreate(Refreshed(hash, t), frames).0[i]
    decreases |frames|
  {
    if |frames| > 0 {
      HammingZeroIff(hash, hash);
      StaticScreenQuiet(hash, t, frames[1..]);
    }
  }

  /** A freshly built monitor produces an event for its first frame, whatever it shows. */
  lemma FirstFrameProducesEvent(hash: bv64, now: int)
    ensures TryCreateDecision(Fresh, hash, now) == Verdict(false, Refreshed(hash, now))
  {
  }
}
