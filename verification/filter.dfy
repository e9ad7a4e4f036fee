/**
 * The new crate's filter stage: a map from monitor id to gate state, and the
 * step that removes from a capture event every frame the gate skips.
 *
 * Each frame's clock reading is passed in: `clock(id)` is the reading taken
 * when the frame of monitor `id` is checked.
 */
module Filter {
  import opened Wrappers
  import opened Ints
  import opened PerceptualHash
  import opened Dedup
  import opened Config
  import opened Event

  /** The gate state the filter holds for `id`, or a fresh one for an id not seen yet. */
  function StateIn(states: map<u32, GateState>, id: u32): GateState {
    if id in states then states[id] else Fresh
  }

  /** The hash of the frame an image record carries. */
  function FrameHash(info: ImageInfo<RawImage>): bv64
    requires info.payload.Some?
  {
    DhashOf(info.payload.value.thumbnail)
  }

  /** Every image record of the event carries its frame. */
  predicate AllFramed(images: map<u32, ImageInfo<RawImage>>) {
    forall id :: id in images ==> images[id].payload.Some?
  }

  /** The force interval the filter can use: one `TimeDelta::try_seconds` accepts. */
  predicate UsableConfig(config: CaptureConfig) {
    ForceIntervalMs(config.forceIntervalSecs).Some?
  }

  /**
   * A dedup rule: the verdict on a frame, given the monitor's state and the
   * clock reading. The argument about visiting the monitors holds for any
   * rule; the services use `GateRule` of their configuration.
   */
  type Rule = (GateState, RawImage, int) -> Verdict

  /** The gate of `should_skip` with the configured force interval and threshold. */
  function GateRule(config: CaptureConfig): (rule: Rule)
    requires UsableConfig(config)
    ensures forall st, image, now :: rule(st, image, now)
              == Gate(ForceIntervalMs(config.forceIntervalSecs).value, config.dhashThreshold,
                      st, DhashOf(image.thumbnail), now)
  {
    var forceMs := ForceIntervalMs(config.forceIntervalSecs).value;
    (st: GateState, image: RawImage, now: int) => Gate(forceMs, config.dhashThreshold, st, DhashOf(image.thumbnail), now)
  }

  /** The rule's verdict on the frame of `id` against the state held before the step. */
  function Decide(rule: Rule, states: map<u32, GateState>, images: map<u32, ImageInfo<RawImage>>,
                  clock: u32 -> int, id: u32): Verdict
    requires AllFramed(images) && id in images
  {
    rule(StateIn(states, id), images[id].payload.value, clock(id))
  }

  /**
   * The body shared by the `should_skip` of the filter and of the screenshot
   * service, on an explicit state: the gate's verdict on `image` at clock
   * reading `now`, and the state written back.
   */
  method GateStep(config: CaptureConfig, image: RawImage, state: GateState, now: int)
    returns (skip: bool, next: GateState)
    requires UsableConfig(config)
    ensures Verdict(skip, next)
         == Gate(ForceIntervalMs(config.forceIntervalSecs).value, config.dhashThreshold,
                 state, DhashOf(image.thumbnail), now)
  {
    var hash := Dhash(image.thumbnail);
    next := state;
    if state.lastTime.Some? {
      if now - state.lastTime.value > ForceIntervalMs(config.forceIntervalSecs).value {
        next := next.(lastHash := Some(hash));
        next := next.(lastTime := Some(now));
        return false, next;
      }
      if now - state.lastTime.value < DebounceMs {
        return true, next;
      }
    }
    if state.lastHash.Some? {
      if HammingDistance(hash, state.lastHash.value) < config.dhashThreshold {
        return true, next;
      }
    }
    next := next.(lastHash := Some(hash));
    next := next.(lastTime := Some(now));
    return false, next;
  }

  class FilterProcessor {
    const config: CaptureConfig
    var monitorStates: map<u32, GateState>

    /** `FilterProcessor::new`: no monitor seen yet. */
    constructor (config: CaptureConfig)
      ensures this.config == config && monitorStates == map[]
    {
      this.config := config;
      monitorStates := map[];
    }

    /**
     * `should_skip`: applies the gate to the frame of `monitorId` at clock
     * reading `now`, creating a fresh entry for an unseen id. Only the entry
     * of `monitorId` is created or changed.
     */
    method ShouldSkip(monitorId: u32, image: RawImage, now: int) returns (skip: bool)
      requires UsableConfig(config)
      modifies this
      ensures var v := GateRule(config)(StateIn(old(monitorStates), monitorId), image, now);
              skip == v.skip && monitorStates == old(monitorStates)[monitorId := v.next]
    {
      if monitorId !in monitorStates {
        monitorStates := monitorStates[monitorId := Fresh];
      }
      var state := monitorStates[monitorId];
      assert state == StateIn(old(monitorStates), monitorId);
      var next;
      skip, next := GateStep(config, image, state, now);
      monitorStates := monitorStates[monitorId := next];
    }

    /**
     * The body of `process` for one event: keep exactly the images the gate
     * lets through, leave them as they were, and leave the timestamp alone.
     * Every monitor in the event has its state decided against the state held
     * before the step; the states of other monitors are untouched. Images are
     * visited in no particular order.
     */
    method Process(event: CaptureEvent, clock: u32 -> int)
      requires UsableConfig(config) && AllFramed(event.images)
      modifies this, event
      ensures event.timestamp == old(event.timestamp)
      ensures event.images.Keys <= old(event.images).Keys
      ensures forall id :: id in event.images ==> event.images[id] == old(event.images)[id]
      ensures forall id :: id in old(event.images) ==>
                (id in event.images <==> !Decide(GateRule(config), old(monitorStates), old(event.images), clock, id).skip)
      ensures monitorStates.Keys == old(monitorStates).Keys + old(event.images).Keys
      ensures forall id :: id in monitorStates ==>
                monitorStates[id] == if id in old(event.images)
                                     then Decide(GateRule(config), old(monitorStates), old(event.images), clock, id).next
                                     else old(monitorStates)[id]
    {
      ghost var states0, images0, rule := monitorStates, event.images, GateRule(config);
      var pending := event.images.Keys;
      while pending != {}
        invariant event.timestamp == old(event.timestamp)
        invariant ImagesPartial(rule, states0, images0, clock, pending, event.images)
        invariant StatesPartial(rule, states0, images0, clock, pending, monitorStates)
        decreases pending
      {
        var id :| id in pending;
        ghost var images1, states1 := event.images, monitorStates;
        PendingDecision(rule, states0, images0, clock, pending, images1, states1, id);
        var skip := ShouldSkip(id, event.images[id].payload.value, clock(id));
        if skip {
          event.images := event.images - {id};
        }
        ProcessStep(rule, states0, images0, clock, pending, images1, states1, id, event.images, monitorStates);
        pending := pending - {id};
      }
      PartialDone(rule, states0, images0, clock, event.images, monitorStates);
    }
  }

  /**
   * The images of the event part way through `Process`, with the ids in
   * `pending` still to visit: the visited ids are kept exactly when the gate
   * let them through, the others are all still there, and nothing is altered.
   */
  predicate ImagesPartial(rule: Rule, states0: map<u32, GateState>, images0: map<u32, ImageInfo<RawImage>>,
                          clock: u32 -> int, pending: set<u32>, images: map<u32, ImageInfo<RawImage>>)
    requires AllFramed(images0)
  {
    && pending <= images0.Keys
    && images.Keys <= images0.Keys
    && (forall id :: id in images ==> images[id] == images0[id])
    && (forall id :: id in pending ==> id in images)
    && (forall id :: id in images0 && id !in pending ==>
          (id in images <==> !Decide(rule, states0, images0, clock, id).skip))
  }

  /** The gate states part way through `Process`: the visited ids are decided, the others as they were. */
  predicate StatesPartial(rule: Rule, states0: map<u32, GateState>, images0: map<u32, ImageInfo<RawImage>>,
                          clock: u32 -> int, pending: set<u32>, states: map<u32, GateState>)
    requires AllFramed(images0) && pending <= images0.Keys
  {
    && states.Keys == states0.Keys + (images0.Keys - pending)
    && (forall id :: id in states ==>
          states[id] == if id in images0 && id !in pending
                        then Decide(rule, states0, images0, clock, id).next
                        else states0[id])
  }

  /** Visiting one pending id keeps `ImagesPartial`. */
  lemma ImagesStep(rule: Rule, states0: map<u32, GateState>, images0: map<u32, ImageInfo<RawImage>>,
                   clock: u32 -> int, pending: set<u32>, images: map<u32, ImageInfo<RawImage>>, id: u32, skip: bool)
    requires AllFramed(images0)
    requires ImagesPartial(rule, states0, images0, clock, pending, images)
    requires id in pending && skip == Decide(rule, states0, images0, clock, id).skip
    ensures ImagesPartial(rule, states0, images0, clock, pending - {id}, if skip then images - {id} else images)
  {
    var after, rest := if skip then images - {id} else images, pending - {id};
    forall k | k in images0 && k !in rest
      ensures k in after <==> !Decide(rule, states0, images0, clock, k).skip
    {
      if k != id {
        assert k !in pending;
      }
    }
  }

  /** Visiting one pending id keeps `StatesPartial`. */
  lemma StatesStep(rule: Rule, states0: map<u32, GateState>, images0: map<u32, ImageInfo<RawImage>>,
                   clock: u32 -> int, pending: set<u32>, states: map<u32, GateState>, id: u32, next: GateState)
    requires AllFramed(images0) && pending <= images0.Keys
    requires StatesPartial(rule, states0, images0, clock, pending, states)
    requires id in pending && next == Decide(rule, states0, images0, clock, id).next
    ensures StatesPartial(rule, states0, images0, clock, pending - {id}, states[id := next])
  {
    var after, rest := states[id := next], pending - {id};
    assert after.Keys == states0.Keys + (images0.Keys - rest);
    forall k | k in after
      ensures after[k] == if k in images0 && k !in rest then Decide(rule, states0, images0, clock, k).next
                          else states0[k]
    {
      if k != id {
        assert k in states && after[k] == states[k];
      }
    }
  }

  /**
   * One turn of the loop of `Process`: applying the rule to the frame of a
   * pending id against the current states, and writing back its verdict,
   * keeps both partial descriptions with that id visited.
   */
  lemma ProcessStep(rule: Rule, states0: map<u32, GateState>, images0: map<u32, ImageInfo<RawImage>>,
                    clock: u32 -> int, pending: set<u32>, images: map<u32, ImageInfo<RawImage>>,
                    states: map<u32, GateState>, id: u32,
                    images': map<u32, ImageInfo<RawImage>>, states': map<u32, GateState>)
    requires AllFramed(images0)
    requires ImagesPartial(rule, states0, images0, clock, pending, images)
    requires StatesPartial(rule, states0, images0, clock, pending, states)
    requires id in pending && id in images && images[id].payload.Some?
    requires var v := rule(StateIn(states, id), images[id].payload.value, clock(id));
             images' == (if v.skip then images - {id} else images) && states' == states[id := v.next]
    ensures ImagesPartial(rule, states0, images0, clock, pending - {id}, images')
    ensures StatesPartial(rule, states0, images0, clock, pending - {id}, states')
  {
    PendingDecision(rule, states0, images0, clock, pending, images, states, id);
    var v := Decide(rule, states0, images0, clock, id);
    ImagesStep(rule, states0, images0, clock, pending, images, id, v.skip);
    StatesStep(rule, states0, images0, clock, pending, states, id, v.next);
  }

  /** While `id` is pending, the gate sees the state held before `Process` and the event's frame of `id`. */
  lemma PendingDecision(rule: Rule, states0: map<u32, GateState>, images0: map<u32, ImageInfo<RawImage>>,
                        clock: u32 -> int, pending: set<u32>, images: map<u32, ImageInfo<RawImage>>,
                        states: map<u32, GateState>, id: u32)
    requires AllFramed(images0)
    requires ImagesPartial(rule, states0, images0, clock, pending, images)
    requires StatesPartial(rule, states0, images0, clock, pending, states)
    requires id in pending
    ensures id in images && images[id].payload.Some?
    ensures rule(StateIn(states, id), images[id].payload.value, clock(id)) == Decide(rule, states0, images0, clock, id)
  {
    assert StateIn(states, id) == StateIn(states0, id);
  }

  /** With nothing pending, the partial states are the outcome `Process` promises. */
  lemma PartialDone(rule: Rule, states0: map<u32, GateState>, images0: map<u32, ImageInfo<RawImage>>,
                    clock: u32 -> int, images: map<u32, ImageInfo<RawImage>>, states: map<u32, GateState>)
    requires AllFramed(images0)
    requires ImagesPartial(rule, states0, images0, clock, {}, images)
    requires StatesPartial(rule, states0, images0, clock, {}, states)
    ensures images.Keys <= images0.Keys
    ensures forall id :: id in images ==> images[id] == images0[id]
    ensures forall id :: id in images0 ==> (id in images <==> !Decide(rule, states0, images0, clock, id).skip)
    ensures states.Keys == states0.Keys + images0.Keys
    ensures forall id :: id in states ==>
              states[id] == if id in images0 then Decide(rule, states0, images0, clock, id).next else states0[id]
  {
  }

  /**
   * The filter's decision for one monitor depends on that monitor's state
   * alone: changing the state held for another id changes nothing.
   */
  lemma DecideIsPerMonitor(rule: Rule, states: map<u32, GateState>, images: map<u32, ImageInfo<RawImage>>,
                           clock: u32 -> int, id: u32, other: u32, st: GateState)
    requires AllFramed(images) && id in images && other != id
    ensures Decide(rule, states[other := st], images, clock, id) == Decide(rule, states, images, clock, id)
  {
    assert StateIn(states[other := st], id) == StateIn(states, id);
  }

  /** Under the gate, a fresh state lets any frame through and records it. */
  lemma FreshRuleEmits(config: CaptureConfig, image: RawImage, now: int)
    requires UsableConfig(config)
    ensures GateRule(config)(Fresh, image, now) == Verdict(false, Refreshed(DhashOf(image.thumbnail), now))
  {
    FreshAlwaysEmits(ForceIntervalMs(config.forceIntervalSecs).value, config.dhashThreshold,
                     DhashOf(image.thumbnail), now);
  }

  /** A monitor the filter has never seen has its first frame kept. */
  lemma FirstFrameKept(config: CaptureConfig, states: map<u32, GateState>, images: map<u32, ImageInfo<RawImage>>,
                       clock: u32 -> int, id: u32)
    requires UsableConfig(config) && AllFramed(images) && id in images && id !in states
    ensures !Decide(GateRule(config), states, images, clock, id).skip
    ensures Decide(GateRule(config), states, images, clock, id).next == Refreshed(FrameHash(images[id]), clock(id))
  {
    FreshAlwaysEmits(ForceIntervalMs(config.forceIntervalSecs).value, config.dhashThreshold,
                     FrameHash(images[id]), clock(id));
  }

  /** Any configured force interval up to `MaxDeltaSecs` seconds is usable. */
  lemma UsableUpToMax(config: CaptureConfig)
    requires config.forceIntervalSecs <= MaxDeltaSecs
    ensures UsableConfig(config)
    ensures ForceIntervalMs(config.forceIntervalSecs) == Some(config.forceIntervalSecs * 1000)
  {
  }
}
