/**
 * The old tree's capture worker: one record per monitor holding its key, its
 * position and the gate state, and the round that grabs every monitor in
 * turn and collects, under each monitor's key, the frames the gate lets
 * through.
 *
 * The gate is `Dedup.Gate` with the force interval fixed at one minute and
 * the threshold at 10. Foreign parts are parameters: `crc` is the CRC-32 of
 * a text, `focus` the outcome of the focused-window lookup, `grab(i)` the
 * outcome of grabbing the i-th monitor and `clock(i)` the clock reading, in
 * milliseconds, taken when its frame is checked.
 */
module LegacyCapture {
  import opened Wrappers
  import opened Ints
  import opened Text
  import opened PerceptualHash
  import opened Dedup
  import opened Config
  import opened Event
  import Filter

  /** `MonitorInfo`: a monitor's key and position, and what the gate remembers of it. */
  datatype MonitorInfo = MonitorInfo(hash: string, x: i32, y: i32, lastDhash: Option<bv64>, lastTime: Option<int>)
  {
    function State(): GateState {
      GateState(lastDhash, lastTime)
    }

    /** The same monitor with gate state `st`. */
    function WithState(st: GateState): (r: MonitorInfo)
      ensures r.State() == st && r.hash == hash && r.x == x && r.y == y
    {
      this.(lastDhash := st.lastHash, lastTime := st.lastTime)
    }
  }

  // ---------------------------------------------------------------------------
  // Monitor keys
  // ---------------------------------------------------------------------------

  /** The name with every character other than an ASCII letter or digit removed, or "Monitor" if none is left. */
  function Prefix(name: string): (p: string)
    ensures AllAlnum(p) && |p| > 0
    ensures |KeepAlnum(name)| > 0 ==> p == KeepAlnum(name)
    ensures |KeepAlnum(name)| == 0 ==> p == "Monitor"
  {
    var safe := KeepAlnum(name);
    if |safe| == 0 then "Monitor" else safe
  }

  /** `{prefix}_{checksum}`. */
  function MonitorKey(prefix: string, checksum: u32): string {
    prefix + "_" + NatToString(checksum)
  }

  /** The key is the prefix, then '_', then the checksum in decimal, which reads back as the checksum. */
  lemma MonitorKeyShape(prefix: string, checksum: u32)
    ensures var key := MonitorKey(prefix, checksum);
            && |key| > |prefix| + 1 && key[..|prefix|] == prefix && key[|prefix|] == '_'
            && AllDigits(key[|prefix| + 1..]) && ParseNat(key[|prefix| + 1..]) == checksum as nat
  {
    ParseNatToString(checksum);
    assert MonitorKey(prefix, checksum)[|prefix| + 1..] == NatToString(checksum);
  }

  /**
   * `hash_position`: the key is the prefix followed by the CRC-32 of the text
   * `{width}_{height}_{x}_{y}`; the position is kept and nothing is
   * remembered yet.
   */
  function HashPosition(m: MonitorDesc, crc: string -> u32): (info: MonitorInfo)
    ensures info.x == m.x && info.y == m.y && info.State() == Fresh
  {
    MonitorInfo(MonitorKey(Prefix(m.name), crc(Geometry(m.width, m.height, m.x, m.y))), m.x, m.y, None, None)
  }

  /**
   * A key determines the prefix and the checksum it was built from: two
   * monitors share a key only when their sanitised names (or "Monitor") agree
   * and the checksums of their geometries are equal.
   */
  lemma MonitorKeyDetermines(m1: MonitorDesc, m2: MonitorDesc, crc: string -> u32)
    requires HashPosition(m1, crc).hash == HashPosition(m2, crc).hash
    ensures Prefix(m1.name) == Prefix(m2.name)
    ensures crc(Geometry(m1.width, m1.height, m1.x, m1.y)) == crc(Geometry(m2.width, m2.height, m2.x, m2.y))
  {
    var c1, c2 := crc(Geometry(m1.width, m1.height, m1.x, m1.y)), crc(Geometry(m2.width, m2.height, m2.x, m2.y));
    AlnumHasNoUnderscore(Prefix(m1.name));
    AlnumHasNoUnderscore(Prefix(m2.name));
    SplitUnderscore(Prefix(m1.name), NatToString(c1), Prefix(m2.name), NatToString(c2));
    NatToStringInjective(c1, c2);
  }

  /**
   * Two monitors whose names keep the same letters and digits and whose
   * geometries are equal share a key, whatever the checksum function.
   */
  lemma SameSanitisedNameSameKey(m1: MonitorDesc, m2: MonitorDesc, crc: string -> u32)
    requires KeepAlnum(m1.name) == KeepAlnum(m2.name)
    requires m1.width == m2.width && m1.height == m2.height && m1.x == m2.x && m1.y == m2.y
    ensures HashPosition(m1, crc).hash == HashPosition(m2, crc).hash
  {
  }

  // ---------------------------------------------------------------------------
  // The fixed gate
  // ---------------------------------------------------------------------------

  /**
   * The old worker's verdict on a frame: the gate with a one-minute force
   * interval and threshold 10. A skip keeps the record; an emit records the
   * frame's hash and `now`. More than 60 s since the last emit always emits;
   * otherwise less than 100 ms skips; otherwise the frame is skipped iff the
   * stored hash is fewer than 10 bits away.
   */
  function FixedVerdict(st: GateState, image: RawImage, now: int): (v: Verdict)
    ensures v.skip ==> v.next == st
    ensures !v.skip ==> v.next == Refreshed(DhashOf(image.thumbnail), now)
    ensures st.lastTime.Some? && now - st.lastTime.value > 60000 ==> !v.skip
    ensures st.lastTime.Some? && now - st.lastTime.value <= 60000 && now - st.lastTime.value < 100 ==> v.skip
    ensures st.lastTime.None? || 100 <= now - st.lastTime.value <= 60000
            ==> (v.skip <==> st.lastHash.Some? && HammingDistance(DhashOf(image.thumbnail), st.lastHash.value) < 10)
  {
    Gate(FixedForceMs, FixedThreshold, st, DhashOf(image.thumbnail), now)
  }

  /**
   * `should_skip` on a monitor's record: the gate's verdict on `image` at
   * clock reading `now`, and the record with the state written back.
   */
  method ShouldSkip(image: RawImage, info: MonitorInfo, now: int) returns (skip: bool, next: MonitorInfo)
    ensures var v := FixedRule()(info.State(), image, now);
            skip == v.skip && next == info.WithState(v.next)
  {
    var dhash := Dhash(image.thumbnail);
    next := info;
    if info.lastTime.Some? {
      if now - info.lastTime.value > 60 * 1000 {
        next := next.(lastDhash := Some(dhash));
        next := next.(lastTime := Some(now));
        return false, next;
      }
      if now - info.lastTime.value < 100 {
        return true, next;
      }
    }
    if info.lastDhash.Some? {
      if HammingDistance(dhash, info.lastDhash.value) < 10 {
        return true, next;
      }
    }
    next := next.(lastDhash := Some(dhash));
    next := next.(lastTime := Some(now));
    return false, next;
  }

  /**
   * The old worker's hard-coded policy is the new crate's configurable one
   * under the default capture configuration (force interval 60 s,
   * threshold 10).
   */
  lemma FixedPolicyIsDefault(exeDir: string, hostLookup: Option<string>, st: GateState, image: RawImage, now: int)
    ensures Filter.UsableConfig(DefaultConfig(exeDir, hostLookup).capture)
    ensures Filter.GateRule(DefaultConfig(exeDir, hostLookup).capture)(st, image, now) == FixedVerdict(st, image, now)
  {
    var config := DefaultConfig(exeDir, hostLookup).capture;
    assert config == CaptureConfig(60, 10);
    Filter.UsableUpToMax(config);
  }

  /** A monitor just built by `hash_position` has its first frame let through and recorded. */
  lemma NewMonitorEmits(m: MonitorDesc, crc: string -> u32, image: RawImage, now: int)
    ensures FixedVerdict(HashPosition(m, crc).State(), image, now)
         == Verdict(false, Refreshed(DhashOf(image.thumbnail), now))
  {
    FreshAlwaysEmits(FixedForceMs, FixedThreshold, DhashOf(image.thumbnail), now);
  }

  // ---------------------------------------------------------------------------
  // The capture round, as functions of the records before the round
  // ---------------------------------------------------------------------------

  /** The message a failed grab of the monitor with key `hash` is reported with. */
  function CaptureFailed(hash: string): string {
    "Failed to capture image from monitor " + hash
  }

  /** The first monitor from i on whose grab fails, or n if none does. */
  function FirstFailedGrab(grab: nat -> Result<RawImage>, i: nat, n: nat): (f: nat)
    requires i <= n
    ensures i <= f <= n && (f < n ==> grab(f).Err?)
    ensures forall j :: i <= j < f ==> grab(j).Ok?
    decreases n - i
  {
    if i == n || grab(i).Err? then i else FirstFailedGrab(grab, i + 1, n)
  }

  /** `FixedVerdict` as a rule value, the form in which the round below takes it. */
  function FixedRule(): (rule: Filter.Rule)
    ensures forall st, image, now :: rule(st, image, now) == FixedVerdict(st, image, now)
  {
    (st: GateState, image: RawImage, now: int) => FixedVerdict(st, image, now)
  }

  /** The rule's verdict on monitor j's frame against its record before the round. */
  function Judged(rule: Filter.Rule, infos: seq<MonitorInfo>, grab: nat -> Result<RawImage>, clock: nat -> int,
                  j: nat): Verdict
    requires j < |infos| && grab(j).Ok?
  {
    rule(infos[j].State(), grab(j).value, clock(j))
  }

  /**
   * The frames collected from the first i monitors, none of whose grabs
   * failed: each frame let through is stored under its monitor's key,
   * replacing any earlier frame stored under the same key.
   */
  function Collect(rule: Filter.Rule, infos: seq<MonitorInfo>, grab: nat -> Result<RawImage>, clock: nat -> int,
                   i: nat): (images: map<string, RawImage>)
    requires i <= |infos| && forall j :: 0 <= j < i ==> grab(j).Ok?
    decreases i
  {
    if i == 0 then map[]
    else
      var prior := Collect(rule, infos, grab, clock, i - 1);
      if Judged(rule, infos, grab, clock, i - 1).skip then prior
      else prior[infos[i - 1].hash := grab(i - 1).value]
  }

  /** Monitor j, among the first i, had its frame let through and has key `key`. */
  predicate KeptAs(rule: Filter.Rule, infos: seq<MonitorInfo>, grab: nat -> Result<RawImage>, clock: nat -> int,
                   i: nat, j: int, key: string)
    requires i <= |infos| && forall j :: 0 <= j < i ==> grab(j).Ok?
  {
    0 <= j < i && infos[j].hash == key && !Judged(rule, infos, grab, clock, j).skip
  }

  /** The keys collected are exactly the keys of the monitors whose frames the rule let through. */
  lemma {:induction false} CollectKeys(rule: Filter.Rule, infos: seq<MonitorInfo>, grab: nat -> Result<RawImage>,
                                       clock: nat -> int, i: nat, key: string)
    requires i <= |infos| && forall j :: 0 <= j < i ==> grab(j).Ok?
    ensures key in Collect(rule, infos, grab, clock, i) <==> exists j :: KeptAs(rule, infos, grab, clock, i, j, key)
    decreases i
  {
    if i > 0 {
      var p := i - 1;
      CollectKeys(rule, infos, grab, clock, p, key);
      if exists j :: KeptAs(rule, infos, grab, clock, i, j, key) {
        var j :| KeptAs(rule, infos, grab, clock, i, j, key);
        if j < p {
          assert KeptAs(rule, infos, grab, clock, p, j, key);
        }
      }
      if exists j :: KeptAs(rule, infos, grab, clock, p, j, key) {
        var j :| KeptAs(rule, infos, grab, clock, p, j, key);
        assert KeptAs(rule, infos, grab, clock, i, j, key);
      }
      if infos[p].hash == key && !Judged(rule, infos, grab, clock, p).skip {
        assert KeptAs(rule, infos, grab, clock, i, p, key);
      }
    }
  }

  /**
   * The frame stored under a key is that of the last monitor with that key
   * whose frame the rule let through.
   */
  lemma {:induction false} CollectValues(rule: Filter.Rule, infos: seq<MonitorInfo>, grab: nat -> Result<RawImage>,
                                         clock: nat -> int, i: nat, j: nat)
    requires j < i <= |infos| && forall j :: 0 <= j < i ==> grab(j).Ok?
    requires KeptAs(rule, infos, grab, clock, i, j, infos[j].hash)
    requires forall k :: j < k < i ==> !KeptAs(rule, infos, grab, clock, i, k, infos[j].hash)
    ensures infos[j].hash in Collect(rule, infos, grab, clock, i)
    ensures Collect(rule, infos, grab, clock, i)[infos[j].hash] == grab(j).value
    decreases i
  {
    var p := i - 1;
    if j < p {
      forall k | j < k < p
        ensures !KeptAs(rule, infos, grab, clock, p, k, infos[j].hash)
      {
        assert !KeptAs(rule, infos, grab, clock, i, k, infos[j].hash);
      }
      CollectValues(rule, infos, grab, clock, p, j);
      assert !KeptAs(rule, infos, grab, clock, i, p, infos[j].hash);
    }
  }

  /** The record of monitor j after a round that stopped at f: judged if it came before f, as it was otherwise. */
  function After(rule: Filter.Rule, infos: seq<MonitorInfo>, grab: nat -> Result<RawImage>, clock: nat -> int,
                 f: nat, j: nat): MonitorInfo
    requires j < |infos| && f <= |infos| && forall k :: 0 <= k < f ==> grab(k).Ok?
  {
    if j < f then infos[j].WithState(Judged(rule, infos, grab, clock, j).next) else infos[j]
  }

  /** `records` are the records `infos0` after a round that stopped at f. */
  predicate RecordsAfter(rule: Filter.Rule, infos0: seq<MonitorInfo>, grab: nat -> Result<RawImage>,
                         clock: nat -> int, f: nat, records: seq<MonitorInfo>)
    requires f <= |infos0| && forall k :: 0 <= k < f ==> grab(k).Ok?
  {
    |records| == |infos0| && forall j :: 0 <= j < |records| ==> records[j] == After(rule, infos0, grab, clock, f, j)
  }

  /** The grabs of the first i monitors and of monitor i succeeded: those of the first i + 1 did. */
  lemma GrabbedOneMore(grab: nat -> Result<RawImage>, i: nat)
    requires forall j :: 0 <= j < i ==> grab(j).Ok?
    requires grab(i).Ok?
    ensures forall j :: 0 <= j <= i ==> grab(j).Ok?
  {
  }

  /**
   * One turn of the round: judging monitor i against its record, writing
   * back the new record and keeping its frame when the rule lets it through
   * moves the records and the frames collected from the first i monitors to
   * those of the first i + 1.
   */
  lemma RoundStep(rule: Filter.Rule, infos0: seq<MonitorInfo>, grab: nat -> Result<RawImage>, clock: nat -> int,
                  i: nat, infos: seq<MonitorInfo>, images: map<string, RawImage>, skip: bool, next: MonitorInfo)
    requires i < |infos0| == |infos|
    requires forall j :: 0 <= j <= i ==> grab(j).Ok?
    requires RecordsAfter(rule, infos0, grab, clock, i, infos)
    requires images == Collect(rule, infos0, grab, clock, i)
    requires var v := rule(infos[i].State(), grab(i).value, clock(i));
             skip == v.skip && next == infos[i].WithState(v.next)
    ensures RecordsAfter(rule, infos0, grab, clock, i + 1, infos[i := next])
    ensures (if skip then images else images[infos[i].hash := grab(i).value])
         == Collect(rule, infos0, grab, clock, i + 1)
  {
    assert infos[i] == infos0[i];
  }

  /**
   * The round from monitor i on, over the current records and the frames
   * collected so far: a failed grab of monitor i ends it with that monitor's
   * message; otherwise monitor i is judged against its record, the record
   * written back and the frame stored under its key unless skipped.
   */
  function Sweep(rule: Filter.Rule, grab: nat -> Result<RawImage>, clock: nat -> int, i: nat,
                 records: seq<MonitorInfo>, images: map<string, RawImage>)
    : (r: (seq<MonitorInfo>, Result<map<string, RawImage>>))
    requires i <= |records|
    ensures |r.0| == |records|
    decreases |records| - i
  {
    if i == |records| then (records, Ok(images))
    else if grab(i).Err? then (records, Err(CaptureFailed(records[i].hash)))
    else
      var v := rule(records[i].State(), grab(i).value, clock(i));
      Sweep(rule, grab, clock, i + 1, records[i := records[i].WithState(v.next)],
            if v.skip then images else images[records[i].hash := grab(i).value])
  }

  /**
   * What the round does, started at monitor i with the records and frames
   * that the first i monitors left: it stops at the first failed grab from i
   * on, every monitor before that has its record judged and written back,
   * the rest keep theirs, and the round fails with the failed monitor's
   * message or yields the frames `Collect` describes.
   */
  lemma {:induction false} SweepMeaning(rule: Filter.Rule, infos0: seq<MonitorInfo>, grab: nat -> Result<RawImage>,
                                        clock: nat -> int, i: nat, records: seq<MonitorInfo>,
                                        images: map<string, RawImage>)
    requires i <= |infos0| == |records|
    requires forall j :: 0 <= j < i ==> grab(j).Ok?
    requires RecordsAfter(rule, infos0, grab, clock, i, records)
    requires images == Collect(rule, infos0, grab, clock, i)
    ensures var r := Sweep(rule, grab, clock, i, records, images);
            var f := FirstFailedGrab(grab, i, |infos0|);
            && RecordsAfter(rule, infos0, grab, clock, f, r.0)
            && (r.1.Ok? <==> f == |infos0|)
            && (r.1.Err? ==> r.1.error == CaptureFailed(infos0[f].hash))
            && (r.1.Ok? ==> r.1.value == Collect(rule, infos0, grab, clock, f))
    decreases |infos0| - i
  {
    if i < |infos0| && grab(i).Ok? {
      GrabbedOneMore(grab, i);
      var v := rule(records[i].State(), grab(i).value, clock(i));
      var next := records[i].WithState(v.next);
      var images' := if v.skip then images else images[records[i].hash := grab(i).value];
      RoundStep(rule, infos0, grab, clock, i, records, images, v.skip, next);
      SweepMeaning(rule, infos0, grab, clock, i + 1, records[i := next], images');
    } else if i < |infos0| {
      assert records[i] == After(rule, infos0, grab, clock, i, i);
    }
  }

  // ---------------------------------------------------------------------------
  // The worker
  // ---------------------------------------------------------------------------

  /** The old tree's image event: frames by monitor key, and the focused window if one was found. */
  datatype ImageEvent<W> = ImageEvent(images: map<string, RawImage>, focusWindow: Option<W>)

  /** Appending keeps the records before and puts the new one last. */
  lemma Pushed(infos: seq<MonitorInfo>, info: MonitorInfo)
    ensures |infos + [info]| == |infos| + 1 && (infos + [info])[|infos|] == info
    ensures forall j :: 0 <= j < |infos| ==> (infos + [info])[j] == infos[j]
  {
  }

  class CaptureProcessor {
    var monitorInfos: seq<MonitorInfo>

    /** `CaptureProcessor::new` over the monitors the monitor library listed, in order. */
    constructor (monitors: seq<MonitorDesc>, crc: string -> u32)
      ensures |monitorInfos| == |monitors|
      ensures forall i :: 0 <= i < |monitors| ==> monitorInfos[i] == HashPosition(monitors[i], crc)
    {
      var infos: seq<MonitorInfo> := [];
      for i := 0 to |monitors|
        invariant |infos| == i
        invariant forall j :: 0 <= j < i ==> infos[j] == HashPosition(monitors[j], crc)
      {
        var info := HashPosition(monitors[i], crc);
        Pushed(infos, info);
        infos := infos + [info];
      }
      monitorInfos := infos;
    }

    /**
     * `process`: a failed focused-window lookup fails the round before any
     * monitor is grabbed; otherwise the records are updated as `Round`
     * describes, and the frames it collected make up the event, with the
     * focused window.
     */
    method Process<W>(focus: Result<Option<W>>, grab: nat -> Result<RawImage>, clock: nat -> int)
      returns (r: Result<ImageEvent<W>>)
      modifies this
      ensures focus.Err? ==> r == Err(focus.error) && monitorInfos == old(monitorInfos)
      ensures focus.Ok? ==>
                var f := FirstFailedGrab(grab, 0, |old(monitorInfos)|);
                && RecordsAfter(FixedRule(), old(monitorInfos), grab, clock, f, monitorInfos)
                && (r.Ok? <==> f == |monitorInfos|)
                && (r.Err? ==> r.error == CaptureFailed(old(monitorInfos)[f].hash))
                && (r.Ok? ==> r.value == ImageEvent(Collect(FixedRule(), old(monitorInfos), grab, clock, f), focus.value))
    {
      if focus.Err? {
        return Err(focus.error);
      }
      var focusWindow := focus.value;
      SweepMeaning(FixedRule(), monitorInfos, grab, clock, 0, monitorInfos, map[]);
      var records, collected := Round(monitorInfos, grab, clock);
      monitorInfos := records;
      if collected.Err? {
        return Err(collected.error);
      }
      return Ok(ImageEvent(collected.value, focusWindow));
    }
  }

  /**
   * The loop of `process` over the monitors' records, in order, until a grab
   * fails: each visited monitor's record is judged by the fixed gate and
   * written back, and each frame let through is stored under its monitor's
   * key. A failed grab ends the round with its monitor's message, the
   * records of the monitors before it staying updated.
   */
  method Round(infos: seq<MonitorInfo>, grab: nat -> Result<RawImage>, clock: nat -> int)
    returns (records: seq<MonitorInfo>, collected: Result<map<string, RawImage>>)
    ensures (records, collected) == Sweep(FixedRule(), grab, clock, 0, infos, map[])
  {
    records := infos;
    var images: map<string, RawImage> := map[];
    var i := 0;
    while i < |records|
      invariant 0 <= i <= |records| == |infos|
      invariant Sweep(FixedRule(), grab, clock, i, records, images) == Sweep(FixedRule(), grab, clock, 0, infos, map[])
      decreases |records| - i
    {
      var info := records[i];
      var captureRes := grab(i);
      if captureRes.Err? {
        return records, Err(CaptureFailed(info.hash));
      }
      var skip, next := ShouldSkip(captureRes.value, info, clock(i));
      records := records[i := next];
      if !skip {
        images := images[info.hash := captureRes.value];
      }
      i := i + 1;
    }
    return records, Ok(images);
  }
}
