/**
 * The new crate's screenshot service: one gate state per monitor, kept in the
 * payload of the monitor's description, and the capture round that grabs
 * every monitor in turn and keeps the frames the gate lets through.
 *
 * Grabbing a monitor's frame and reading the clock are outside the model:
 * `grab(i)` is the outcome of capturing the i-th monitor of the round and
 * `clock(i)` the clock reading taken when its frame is checked.
 */
module Screenshot {
  import opened Wrappers
  import opened Ints
  import opened PerceptualHash
  import opened Dedup
  import opened Config
  import opened Event
  import Filter

  // ---------------------------------------------------------------------------
  // The capture round, as a function of the monitors' states
  // ---------------------------------------------------------------------------

  /** The message a failed grab of monitor `m` is reported with. */
  function CaptureFailed(m: ImageInfo<GateState>): string {
    "Failed to capture image from monitor " + FriendlyName(m)
  }

  const StateMissing := "Monitor state not found"

  /** Monitor j stops the round: its grab failed or it has no gate state. */
  predicate Fails(states: seq<ImageInfo<GateState>>, grab: nat -> Result<RawImage>, j: nat)
    requires j < |states|
  {
    grab(j).Err? || states[j].payload.None?
  }

  /** Why a round stopped: a monitor's grab failed, or a monitor had no gate state. */
  datatype Failure = GrabFailed(monitor: ImageInfo<GateState>) | NoState

  /** The message each failure is reported with. */
  function Message(e: Failure): string {
    match e
    case GrabFailed(m) => CaptureFailed(m)
    case NoState => StateMissing
  }

  /** How monitor j stops the round: a failed grab is checked before a missing state. */
  function FailureOf(states: seq<ImageInfo<GateState>>, grab: nat -> Result<RawImage>, j: nat): Failure
    requires j < |states|
  {
    if grab(j).Err? then GrabFailed(states[j]) else NoState
  }

  /** The first monitor from i on that stops the round, or |states| if none does. */
  function FirstFailure(states: seq<ImageInfo<GateState>>, grab: nat -> Result<RawImage>, i: nat): (f: nat)
    requires i <= |states|
    ensures FailsFirstAt(states, grab, i, f)
    decreases |states| - i
  {
    if i == |states| || Fails(states, grab, i) then i else FirstFailure(states, grab, i + 1)
  }

  /** The gate's verdict on monitor j's frame against its state before the round. */
  function Decision(rule: Filter.Rule, states: seq<ImageInfo<GateState>>, grab: nat -> Result<RawImage>,
                    clock: nat -> int, j: nat): Verdict
    requires j < |states| && !Fails(states, grab, j)
  {
    rule(states[j].payload.value, grab(j).value, clock(j))
  }

  /** The states and the frames kept after monitor i has been visited without failing. */
  function AfterVisit(rule: Filter.Rule, states: seq<ImageInfo<GateState>>, grab: nat -> Result<RawImage>,
                      clock: nat -> int, i: nat, images: map<u32, ImageInfo<RawImage>>)
    : (r: (seq<ImageInfo<GateState>>, map<u32, ImageInfo<RawImage>>))
    requires i < |states| && !Fails(states, grab, i)
  {
    var v := Decision(rule, states, grab, clock, i);
    var kept := if v.skip then images
                else images[states[i].id := FromBaseInfo<RawImage, GateState>(states[i]).SetPayload(grab(i).value)];
    (states[i := states[i].SetPayload(v.next)], kept)
  }

  /** The frames a round kept, or the failure that stopped it. */
  datatype Outcome = Kept(images: map<u32, ImageInfo<RawImage>>) | Failed(failure: Failure)

  /** What a capture round leaves: the monitors' states, and its outcome. */
  datatype Round = Round(states: seq<ImageInfo<GateState>>, outcome: Outcome)

  /**
   * The round from monitor i on, with `images` kept so far: each monitor's
   * state is written back as soon as it is decided, a kept frame is stored
   * under its monitor's id, and the first failure ends the round.
   */
  function Visit(rule: Filter.Rule, states: seq<ImageInfo<GateState>>, grab: nat -> Result<RawImage>,
                 clock: nat -> int, i: nat, images: map<u32, ImageInfo<RawImage>>): (r: Round)
    requires i <= |states|
    ensures |r.states| == |states|
    decreases |states| - i
  {
    if i == |states| then Round(states, Kept(images))
    else if Fails(states, grab, i) then Round(states, Failed(FailureOf(states, grab, i)))
    else
      var next := AfterVisit(rule, states, grab, clock, i, images);
      Visit(rule, next.0, grab, clock, i + 1, next.1)
  }

  /** Monitor f is the first from i on that stops the round (f = |states| when none does). */
  predicate FailsFirstAt(states: seq<ImageInfo<GateState>>, grab: nat -> Result<RawImage>, i: nat, f: nat) {
    && i <= f <= |states|
    && (f < |states| ==> Fails(states, grab, f))
    && (forall j :: i <= j < f ==> !Fails(states, grab, j))
  }

  /** A monitor that does not fail hands the round on to the next one. */
  lemma VisitStep(rule: Filter.Rule, states: seq<ImageInfo<GateState>>, grab: nat -> Result<RawImage>,
                  clock: nat -> int, i: nat, images: map<u32, ImageInfo<RawImage>>)
    requires i < |states| && !Fails(states, grab, i)
    ensures var next := AfterVisit(rule, states, grab, clock, i, images);
            Visit(rule, states, grab, clock, i, images) == Visit(rule, next.0, grab, clock, i + 1, next.1)
  {
  }

  /**
   * Visiting monitor i changes no other monitor, so the round still stops
   * first at f from i + 1 on.
   */
  lemma AfterVisitFrom(rule: Filter.Rule, states: seq<ImageInfo<GateState>>, grab: nat -> Result<RawImage>,
                       clock: nat -> int, i: nat, images: map<u32, ImageInfo<RawImage>>, f: nat)
    requires FailsFirstAt(states, grab, i, f) && i < f
    ensures var next := AfterVisit(rule, states, grab, clock, i, images).0;
            && FailsFirstAt(next, grab, i + 1, f)
            && (forall j :: i < j < |states| ==> next[j] == states[j])
  {
    var next := AfterVisit(rule, states, grab, clock, i, images).0;
    assert forall j :: i < j < |states| ==> (Fails(next, grab, j) <==> Fails(states, grab, j));
  }

  /** One monitor's decision depends on that monitor alone. */
  lemma SameDecision(rule: Filter.Rule, s: seq<ImageInfo<GateState>>, t: seq<ImageInfo<GateState>>,
                     grab: nat -> Result<RawImage>, clock: nat -> int, j: nat)
    requires j < |s| && j < |t| && s[j] == t[j] && !Fails(s, grab, j)
    ensures !Fails(t, grab, j) && Decision(rule, s, grab, clock, j) == Decision(rule, t, grab, clock, j)
  {
  }

  /**
   * A round succeeds exactly when no monitor fails, and otherwise reports
   * the first failing monitor's error.
   */
  lemma VisitResult(rule: Filter.Rule, states: seq<ImageInfo<GateState>>,
                    grab: nat -> Result<RawImage>, clock: nat -> int, i: nat,
                    images: map<u32, ImageInfo<RawImage>>)
    requires i <= |states|
    ensures var r := Visit(rule, states, grab, clock, i, images);
            var f := FirstFailure(states, grab, i);
            && (r.outcome.Kept? <==> f == |states|)
            && (f < |states| ==> r.outcome == Failed(FailureOf(states, grab, f)))
  {
    if FirstFailure(states, grab, i) == |states| {
      VisitKeys(rule, states, grab, clock, i, images);
    } else {
      VisitError(rule, states, grab, clock, i, images, FirstFailure(states, grab, i));
    }
  }

  /** A round in which monitor f is the first to fail reports that monitor's error. */
  lemma {:induction false} VisitError(rule: Filter.Rule, states: seq<ImageInfo<GateState>>,
                                      grab: nat -> Result<RawImage>, clock: nat -> int, i: nat,
                                      images: map<u32, ImageInfo<RawImage>>, f: nat)
    requires FailsFirstAt(states, grab, i, f) && f < |states|
    ensures Visit(rule, states, grab, clock, i, images).outcome
              == Failed(FailureOf(states, grab, f))
    decreases f - i
  {
    if i < f {
      var next := AfterVisit(rule, states, grab, clock, i, images);
      AfterVisitFrom(rule, states, grab, clock, i, images, f);
      calc {
        Visit(rule, states, grab, clock, i, images).outcome;
        == { VisitStep(rule, states, grab, clock, i, images); }
        Visit(rule, next.0, grab, clock, i + 1, next.1).outcome;
        == { VisitError(rule, next.0, grab, clock, i + 1, next.1, f); }
        Failed(FailureOf(next.0, grab, f));
      }
    }
  }

  /**
   * Every monitor visited before the first failure has its state updated by
   * the gate; the failing monitor and those after it keep theirs.
   */
  lemma {:induction false} VisitStates(rule: Filter.Rule, states: seq<ImageInfo<GateState>>,
                                       grab: nat -> Result<RawImage>, clock: nat -> int, i: nat,
                                       images: map<u32, ImageInfo<RawImage>>, f: nat)
    requires FailsFirstAt(states, grab, i, f)
    ensures var r := Visit(rule, states, grab, clock, i, images);
            forall j :: 0 <= j < |states| ==>
              r.states[j] == if i <= j < f then states[j].SetPayload(Decision(rule, states, grab, clock, j).next)
                             else states[j]
    decreases |states| - i
  {
    if i < f {
      var next := AfterVisit(rule, states, grab, clock, i, images);
      AfterVisitFrom(rule, states, grab, clock, i, images, f);
      VisitStates(rule, next.0, grab, clock, i + 1, next.1, f);
      VisitStep(rule, states, grab, clock, i, images);
      StatesStep(rule, states, images, Visit(rule, states, grab, clock, i, images).states, grab, clock, i, f);
    }
  }

  /** The step of `VisitStates`: monitor i's update followed by those of i + 1 to f. */
  lemma StatesStep(rule: Filter.Rule, states: seq<ImageInfo<GateState>>, images: map<u32, ImageInfo<RawImage>>,
                   result: seq<ImageInfo<GateState>>, grab: nat -> Result<RawImage>, clock: nat -> int, i: nat, f: nat)
    requires FailsFirstAt(states, grab, i, f) && i < f
    requires FailsFirstAt(AfterVisit(rule, states, grab, clock, i, images).0, grab, i + 1, f)
    requires var after := AfterVisit(rule, states, grab, clock, i, images).0;
             && |result| == |states|
             && forall j :: 0 <= j < |states| ==>
                  result[j] == if i + 1 <= j < f then after[j].SetPayload(Decision(rule, after, grab, clock, j).next)
                               else after[j]
    ensures forall j :: 0 <= j < |states| ==>
              result[j] == if i <= j < f then states[j].SetPayload(Decision(rule, states, grab, clock, j).next)
                           else states[j]
  {
    var after := AfterVisit(rule, states, grab, clock, i, images).0;
    forall j | 0 <= j < |states|
      ensures result[j] == if i <= j < f then states[j].SetPayload(Decision(rule, states, grab, clock, j).next)
                           else states[j]
    {
      if i < j < f {
        SameDecision(rule, states, after, grab, clock, j);
      }
    }
  }

  /** A monitor j from i on that is kept by the round. */
  predicate KeptFrom(rule: Filter.Rule, states: seq<ImageInfo<GateState>>, grab: nat -> Result<RawImage>,
                     clock: nat -> int, i: nat, id: u32)
    requires i <= |states| && FailsFirstAt(states, grab, i, |states|)
  {
    exists j :: i <= j < |states| && states[j].id == id && !Decision(rule, states, grab, clock, j).skip
  }

  /** When no monitor fails, every frame the round keeps is stored under its own monitor's id. */
  lemma {:induction false} VisitValues(rule: Filter.Rule, states: seq<ImageInfo<GateState>>,
                                       grab: nat -> Result<RawImage>, clock: nat -> int, i: nat,
                                       images: map<u32, ImageInfo<RawImage>>)
    requires i <= |states|
    requires FailsFirstAt(states, grab, i, |states|)
    requires forall id :: id in images ==> images[id].id == id && images[id].payload.Some?
    ensures var r := Visit(rule, states, grab, clock, i, images);
            && r.outcome.Kept?
            && (forall id :: id in r.outcome.images ==>
                  r.outcome.images[id].id == id && r.outcome.images[id].payload.Some?)
    decreases |states| - i
  {
    if i < |states| {
      var next := AfterVisit(rule, states, grab, clock, i, images);
      AfterVisitFrom(rule, states, grab, clock, i, images, |states|);
      var v := Decision(rule, states, grab, clock, i);
      var m := states[i];
      assert next.1 == if v.skip then images
                       else images[m.id := FromBaseInfo<RawImage, GateState>(m).SetPayload(grab(i).value)];
      VisitValues(rule, next.0, grab, clock, i + 1, next.1);
      VisitStep(rule, states, grab, clock, i, images);
    }
  }

  /** No monitor from i on with id `id` has its frame kept. */
  predicate NoneKeptFrom(rule: Filter.Rule, states: seq<ImageInfo<GateState>>, grab: nat -> Result<RawImage>,
                         clock: nat -> int, i: nat, id: u32)
    requires i <= |states| && FailsFirstAt(states, grab, i, |states|)
  {
    forall k :: i <= k < |states| && states[k].id == id ==> Decision(rule, states, grab, clock, k).skip
  }

  /**
   * When no monitor fails, a frame already kept under `id` stays as it is
   * unless a later monitor with that id has its frame kept.
   */
  lemma {:induction false} VisitKeepsEntry(rule: Filter.Rule, states: seq<ImageInfo<GateState>>,
                                           grab: nat -> Result<RawImage>, clock: nat -> int, i: nat,
                                           images: map<u32, ImageInfo<RawImage>>, id: u32)
    requires i <= |states|
    requires FailsFirstAt(states, grab, i, |states|)
    requires id in images && NoneKeptFrom(rule, states, grab, clock, i, id)
    ensures var r := Visit(rule, states, grab, clock, i, images);
            r.outcome.Kept? && id in r.outcome.images && r.outcome.images[id] == images[id]
    decreases |states| - i
  {
    if i < |states| {
      var next := AfterVisit(rule, states, grab, clock, i, images);
      AfterVisitFrom(rule, states, grab, clock, i, images, |states|);
      forall k | i + 1 <= k < |states| && next.0[k].id == id
        ensures Decision(rule, next.0, grab, clock, k).skip
      {
        SameDecision(rule, states, next.0, grab, clock, k);
      }
      VisitKeepsEntry(rule, next.0, grab, clock, i + 1, next.1, id);
      VisitStep(rule, states, grab, clock, i, images);
    }
  }

  /**
   * When no monitor fails, the entry under monitor j's id is monitor j's
   * description carrying monitor j's frame, provided the gate let that frame
   * through and no later monitor with the same id had its frame kept.
   */
  lemma {:induction false} VisitKeptFrame(rule: Filter.Rule, states: seq<ImageInfo<GateState>>,
                                          grab: nat -> Result<RawImage>, clock: nat -> int, i: nat,
                                          images: map<u32, ImageInfo<RawImage>>, j: nat)
    requires i <= j < |states|
    requires FailsFirstAt(states, grab, i, |states|)
    requires !Decision(rule, states, grab, clock, j).skip
    requires NoneKeptFrom(rule, states, grab, clock, j + 1, states[j].id)
    ensures var r := Visit(rule, states, grab, clock, i, images);
            && r.outcome.Kept?
            && states[j].id in r.outcome.images
            && r.outcome.images[states[j].id] == FromBaseInfo<RawImage, GateState>(states[j]).SetPayload(grab(j).value)
    decreases j - i
  {
    var next := AfterVisit(rule, states, grab, clock, i, images);
    AfterVisitFrom(rule, states, grab, clock, i, images, |states|);
    VisitStep(rule, states, grab, clock, i, images);
    forall k | j + 1 <= k < |states| && next.0[k].id == states[j].id
      ensures Decision(rule, next.0, grab, clock, k).skip
    {
      SameDecision(rule, states, next.0, grab, clock, k);
    }
    if i < j {
      SameDecision(rule, states, next.0, grab, clock, j);
      VisitKeptFrame(rule, next.0, grab, clock, i + 1, next.1, j);
    } else {
      VisitKeepsEntry(rule, next.0, grab, clock, i + 1, next.1, states[j].id);
    }
  }

  /**
   * When no monitor fails, the round keeps exactly the monitors whose frame
   * the gate let through.
   */
  lemma {:induction false} VisitKeys(rule: Filter.Rule, states: seq<ImageInfo<GateState>>,
                                     grab: nat -> Result<RawImage>, clock: nat -> int, i: nat,
                                     images: map<u32, ImageInfo<RawImage>>)
    requires i <= |states|
    requires FailsFirstAt(states, grab, i, |states|)
    ensures var r := Visit(rule, states, grab, clock, i, images);
            && r.outcome.Kept?
            && (forall id :: id in r.outcome.images <==> id in images || KeptFrom(rule, states, grab, clock, i, id))
    decreases |states| - i
  {
    if i < |states| {
      var next := AfterVisit(rule, states, grab, clock, i, images);
      AfterVisitFrom(rule, states, grab, clock, i, images, |states|);
      var v := Decision(rule, states, grab, clock, i);
      assert next.1.Keys == if v.skip then images.Keys else images.Keys + {states[i].id};
      VisitKeys(rule, next.0, grab, clock, i + 1, next.1);
      var r := Visit(rule, states, grab, clock, i, images);
      VisitStep(rule, states, grab, clock, i, images);
      forall id
        ensures id in r.outcome.images <==> id in images || KeptFrom(rule, states, grab, clock, i, id)
      {
        KeptStep(rule, states, next.0, grab, clock, i, id);
      }
    }
  }

  /** Kept from i on: kept at i, or kept from i + 1 on, whatever happened to monitor i's state. */
  lemma KeptStep(rule: Filter.Rule, states: seq<ImageInfo<GateState>>, after: seq<ImageInfo<GateState>>,
                 grab: nat -> Result<RawImage>, clock: nat -> int, i: nat, id: u32)
    requires i < |states| == |after|
    requires FailsFirstAt(states, grab, i, |states|)
    requires forall j :: i < j < |states| ==> after[j] == states[j]
    requires FailsFirstAt(after, grab, i + 1, |states|)
    ensures KeptFrom(rule, states, grab, clock, i, id)
        <==> (states[i].id == id && !Decision(rule, states, grab, clock, i).skip)
             || KeptFrom(rule, after, grab, clock, i + 1, id)
  {
    if KeptFrom(rule, after, grab, clock, i + 1, id) {
      KeptLater(rule, states, after, grab, clock, i, id);
    }
    if KeptFrom(rule, states, grab, clock, i, id) {
      KeptEarlier(rule, states, after, grab, clock, i, id);
    }
  }

  lemma KeptLater(rule: Filter.Rule, states: seq<ImageInfo<GateState>>, after: seq<ImageInfo<GateState>>,
                  grab: nat -> Result<RawImage>, clock: nat -> int, i: nat, id: u32)
    requires i < |states| == |after|
    requires FailsFirstAt(states, grab, i, |states|)
    requires forall j :: i < j < |states| ==> after[j] == states[j]
    requires FailsFirstAt(after, grab, i + 1, |states|)
    requires KeptFrom(rule, after, grab, clock, i + 1, id)
    ensures KeptFrom(rule, states, grab, clock, i, id)
  {
    var j :| i + 1 <= j < |states| && after[j].id == id && !Decision(rule, after, grab, clock, j).skip;
    SameDecision(rule, after, states, grab, clock, j);
  }

  lemma KeptEarlier(rule: Filter.Rule, states: seq<ImageInfo<GateState>>, after: seq<ImageInfo<GateState>>,
                    grab: nat -> Result<RawImage>, clock: nat -> int, i: nat, id: u32)
    requires i < |states| == |after|
    requires FailsFirstAt(states, grab, i, |states|)
    requires forall j :: i < j < |states| ==> after[j] == states[j]
    requires FailsFirstAt(after, grab, i + 1, |states|)
    requires KeptFrom(rule, states, grab, clock, i, id)
    ensures (states[i].id == id && !Decision(rule, states, grab, clock, i).skip)
            || KeptFrom(rule, after, grab, clock, i + 1, id)
  {
    var j :| i <= j < |states| && states[j].id == id && !Decision(rule, states, grab, clock, j).skip;
    if j > i {
      SameDecision(rule, states, after, grab, clock, j);
      assert KeptFrom(rule, after, grab, clock, i + 1, id);
    }
  }

  /**
   * The first round after start-up keeps a frame for every monitor, when no
   * grab fails: every state is fresh, and a fresh state never skips.
   */
  lemma FirstRoundKeepsAll(config: CaptureConfig, states: seq<ImageInfo<GateState>>,
                           grab: nat -> Result<RawImage>, clock: nat -> int)
    requires Filter.UsableConfig(config)
    requires forall j :: 0 <= j < |states| ==> states[j].payload == Some(Fresh) && grab(j).Ok?
    ensures var r := Visit(Filter.GateRule(config), states, grab, clock, 0, map[]);
            r.outcome.Kept? && forall j :: 0 <= j < |states| ==> states[j].id in r.outcome.images
  {
    FreshRoundEmits(config, states, grab, clock);
    NoSkipKeepsAll(Filter.GateRule(config), states, grab, clock);
  }

  /** With every state fresh and every grab successful, the gate skips no frame. */
  lemma FreshRoundEmits(config: CaptureConfig, states: seq<ImageInfo<GateState>>,
                        grab: nat -> Result<RawImage>, clock: nat -> int)
    requires Filter.UsableConfig(config)
    requires forall j :: 0 <= j < |states| ==> states[j].payload == Some(Fresh) && grab(j).Ok?
    ensures forall j :: 0 <= j < |states| ==>
              !Fails(states, grab, j) && !Decision(Filter.GateRule(config), states, grab, clock, j).skip
  {
    forall j | 0 <= j < |states|
      ensures !Fails(states, grab, j) && !Decision(Filter.GateRule(config), states, grab, clock, j).skip
    {
      Filter.FreshRuleEmits(config, grab(j).value, clock(j));
      assert states[j].payload.value == Fresh;
    }
  }

  /** A round in which no monitor fails and the rule skips no frame keeps a frame for every monitor. */
  lemma NoSkipKeepsAll(rule: Filter.Rule, states: seq<ImageInfo<GateState>>,
                       grab: nat -> Result<RawImage>, clock: nat -> int)
    requires forall j :: 0 <= j < |states| ==> !Fails(states, grab, j) && !Decision(rule, states, grab, clock, j).skip
    ensures var r := Visit(rule, states, grab, clock, 0, map[]);
            r.outcome.Kept? && forall j :: 0 <= j < |states| ==> states[j].id in r.outcome.images
  {
    VisitKeys(rule, states, grab, clock, 0, map[]);
    forall j | 0 <= j < |states|
      ensures KeptFrom(rule, states, grab, clock, 0, states[j].id)
    {
    }
  }

  // ---------------------------------------------------------------------------
  // The service
  // ---------------------------------------------------------------------------

  class ScreenshotService {
    var monitorStates: seq<ImageInfo<GateState>>
    const config: CaptureConfig

    /**
     * `ScreenshotService::new` over the monitors the monitor library listed:
     * one description per monitor, in order, each with a fresh gate state.
     */
    constructor (config: CaptureConfig, monitors: seq<MonitorDesc>)
      ensures this.config == config && |monitorStates| == |monitors|
      ensures forall i :: 0 <= i < |monitors| ==>
                monitorStates[i] == NewImageInfo<GateState>(monitors[i]).SetPayload(Fresh)
    {
      this.config := config;
      var states: seq<ImageInfo<GateState>> := [];
      for i := 0 to |monitors|
        invariant |states| == i
        invariant forall j :: 0 <= j < i ==> states[j] == NewImageInfo<GateState>(monitors[j]).SetPayload(Fresh)
      {
        var info := NewImageInfo<GateState>(monitors[i]);
        info := info.SetPayload(Fresh);
        states := states + [info];
      }
      monitorStates := states;
    }

    /**
     * `capture`: one round over all monitors, in order, with the event
     * stamped `now`. The outcome is the one `Visit` describes; in particular
     * the monitors' states stay updated when the round fails part way.
     */
    method Capture(grab: nat -> Result<RawImage>, clock: nat -> int, now: int) returns (r: Result<CaptureEvent>)
      requires Filter.UsableConfig(config)
      modifies this
      ensures var out := Visit(Filter.GateRule(config), old(monitorStates), grab, clock, 0, map[]);
              && monitorStates == out.states
              && (r.Ok? <==> out.outcome.Kept?)
              && (r.Ok? ==> fresh(r.value) && r.value.images == out.outcome.images && r.value.timestamp == now)
              && (r.Err? ==> r.error == Message(out.outcome.failure))
    {
      var event := new CaptureEvent(now);
      var i := 0;
      while i < |monitorStates|
        invariant 0 <= i <= |monitorStates| == |old(monitorStates)|
        invariant fresh(event) && event.timestamp == now
        invariant Visit(Filter.GateRule(config), monitorStates, grab, clock, i, event.images)
               == Visit(Filter.GateRule(config), old(monitorStates), grab, clock, 0, map[])
        decreases |monitorStates| - i
      {
        var monitorState := monitorStates[i];
        var captureRes := grab(i);
        if captureRes.Err? {
          return Err(CaptureFailed(monitorState));
        }
        if monitorState.payload.None? {
          return Err(StateMissing);
        }
        var skip, next := Filter.GateStep(config, captureRes.value, monitorState.payload.value, clock(i));
        monitorStates := monitorStates[i := monitorState.SetPayload(next)];
        if !skip {
          var imageInfo := FromBaseInfo<RawImage, GateState>(monitorState);
          imageInfo := imageInfo.SetPayload(captureRes.value);
          event.AddImage(imageInfo);
        }
        i := i + 1;
      }
      return Ok(event);
    }
  }
}
