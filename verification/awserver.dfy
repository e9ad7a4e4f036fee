/**
 * The new crate's activity-server stage: it turns each event's data map into
 * heartbeats for the server's bucket, coalescing with the previous event's
 * map so that the server always sees every monitor reported so far.
 *
 * The HTTP client is outside the model. The heartbeats and bucket creations
 * the server accepted are kept as append-only logs in the processor, and
 * whether a request fails is a parameter of the operation that sends it. A
 * failed request adds nothing to the log.
 *
 * The event reaches `process` as its timestamp (integer milliseconds) and a
 * map from key to text, the parts the stage takes apart.
 */
module AwServer {
  import opened Wrappers
  import opened Ints
  import opened Text
  import opened Config
  import opened Event

  // ---------------------------------------------------------------------------
  // JSON values and `change_datas`
  // ---------------------------------------------------------------------------

  /** The JSON values a heartbeat's data can hold (arrays and objects are not needed here). */
  datatype Json = JNull | JBool(b: bool) | JNumber(n: int) | JString(s: string)

  /** `change_datas`: each text value becomes a JSON string under the same key. */
  function ChangeDatas(datas: map<string, string>): (m: map<string, Json>)
    ensures m.Keys == datas.Keys
  {
    map k | k in datas :: JString(datas[k])
  }

  /** The text values of a JSON map whose values are all strings; `None` if one is not. */
  function StringsOf(m: map<string, Json>): Option<map<string, string>> {
    if forall k :: k in m ==> m[k].JString? then Some(map k | k in m :: m[k].s) else None
  }

  /** `change_datas` loses nothing: the strings can be read back. */
  lemma ChangeDatasRoundTrip(datas: map<string, string>)
    ensures StringsOf(ChangeDatas(datas)) == Some(datas)
  {
    var m := ChangeDatas(datas);
    forall k | k in m
      ensures m[k] == JString(datas[k])
    {
    }
    var back := map k | k in m :: m[k].s;
    assert back.Keys == datas.Keys;
    assert forall k :: k in back ==> back[k] == datas[k];
    assert back == datas;
  }

  /** Every map of JSON strings is the image of exactly the text map read back from it. */
  lemma StringsOfChangeDatas(m: map<string, Json>, datas: map<string, string>)
    requires StringsOf(m) == Some(datas)
    ensures ChangeDatas(datas) == m
  {
    var back := ChangeDatas(datas);
    assert back.Keys == m.Keys;
    forall k | k in m
      ensures back[k] == m[k]
    {
      assert m[k].JString?;
    }
  }

  // ---------------------------------------------------------------------------
  // Merging with the previous map
  // ---------------------------------------------------------------------------

  /**
   * The incoming map extended with each previous key it lacks: the keys of
   * both, with the incoming value wherever the incoming map has the key.
   */
  function Merge(incoming: map<string, string>, previous: map<string, string>): (m: map<string, string>)
    ensures m.Keys == incoming.Keys + previous.Keys
  {
    map k | k in incoming.Keys + previous.Keys :: if k in incoming then incoming[k] else previous[k]
  }

  /** The merge is map override, with the incoming values winning. */
  lemma MergeIsOverride(incoming: map<string, string>, previous: map<string, string>)
    ensures Merge(incoming, previous) == previous + incoming
  {
    var m, o := Merge(incoming, previous), previous + incoming;
    assert m.Keys == o.Keys;
    assert forall k :: k in m ==> m[k] == o[k];
  }

  /** Merging with nothing leaves the incoming map as it is. */
  lemma MergeEmpty(incoming: map<string, string>)
    ensures Merge(incoming, map[]) == incoming
  {
    var m := Merge(incoming, map[]);
    assert m.Keys == incoming.Keys;
    assert forall k :: k in m ==> m[k] == incoming[k];
  }

  /** An empty incoming map keeps the previous map as it is. */
  lemma MergeIntoEmpty(previous: map<string, string>)
    ensures Merge(map[], previous) == previous
  {
    var m := Merge(map[], previous);
    assert m.Keys == previous.Keys;
    assert forall k :: k in m ==> m[k] == previous[k];
  }

  /** Merging twice with the same previous map is merging once. */
  lemma MergeIdempotent(incoming: map<string, string>, previous: map<string, string>)
    ensures Merge(Merge(incoming, previous), previous) == Merge(incoming, previous)
  {
    var m := Merge(incoming, previous);
    var mm := Merge(m, previous);
    assert mm.Keys == m.Keys;
    assert forall k :: k in mm ==> mm[k] == m[k];
  }

  // ---------------------------------------------------------------------------
  // Heartbeats and the step of `process`
  // ---------------------------------------------------------------------------

  /** The pulse time both heartbeats are sent with; the configured one is not used. */
  const HeartbeatPulse: real := 10.0

  /**
   * A heartbeat as sent to the server: bucket, event (timestamp, duration,
   * data), pulse time. The event's data is recorded as the text map it is
   * made from; what goes on the wire is `Data()`, and `ChangeDatasRoundTrip`
   * shows that the two determine each other.
   */
  datatype Heartbeat = Heartbeat(bucket: string, timestamp: int, duration: int, datas: map<string, string>,
                                 pulsetime: real)
  {
    /** The event's data as JSON. */
    function Data(): map<string, Json> {
      ChangeDatas(datas)
    }
  }

  /** The heartbeat at `at` reporting `datas`, with zero duration. */
  function Beat(bucket: string, at: int, datas: map<string, string>): Heartbeat {
    Heartbeat(bucket, at, 0, datas, HeartbeatPulse)
  }

  /** An event as the stage receives it: its timestamp and its data map. */
  datatype AwParts = AwParts(timestamp: int, datas: map<string, string>)

  const BucketMissing := "Bucket ID not initialized"
  const ClientMissing := "Client not initialized"
  const EmptyFirst := "Empty datas in first event."
  const SendFailed := "Failed to send heartbeat"
  const CreateFailed := "Failed to create bucket"

  /** What one call of `process` leaves: its result, the stored map, and the heartbeats the server accepted. */
  datatype Outcome = Outcome(result: Result<bool>, last: Option<map<string, string>>, sent: seq<Heartbeat>)

  /** The previous event's map is closed, by a heartbeat one millisecond early, when the new map is not empty. */
  predicate Closes(last: Option<map<string, string>>, parts: AwParts) {
    last.Some? && |parts.datas| != 0
  }

  /**
   * One call of `process` on the processor's state: `bucketId` and `hasClient`
   * say what `init` set up, `last` is the stored map, and `closingFails` and
   * `finalFails` say whether the closing and the final heartbeat are refused.
   */
  function Step(bucketId: Option<string>, hasClient: bool, last: Option<map<string, string>>,
                parts: AwParts, closingFails: bool, finalFails: bool): (o: Outcome)
    ensures o.result.Ok? ==> o.result.value && o.last == Some(Merged(last, parts))
    ensures o.last == last || o.last == Some(Merged(last, parts))
    ensures o.result.Err? ==> o.result.error in {BucketMissing, ClientMissing, EmptyFirst, SendFailed}
    ensures |o.sent| <= 2 && (o.sent != [] ==> bucketId.Some? && forall b :: b in o.sent ==> b.bucket == bucketId.value)
  {
    if bucketId.None? then Outcome(Err(BucketMissing), last, [])
    else if !hasClient then Outcome(Err(ClientMissing), last, [])
    else if last.None? && |parts.datas| == 0 then Outcome(Err(EmptyFirst), last, [])
    else if Closes(last, parts) && closingFails then Outcome(Err(SendFailed), last, [])
    else
      var closing := ClosingBeats(bucketId.value, last, parts);
      var merged := Merged(last, parts);
      if finalFails then Outcome(Err(SendFailed), Some(merged), closing)
      else Outcome(Ok(true), Some(merged), closing + [Beat(bucketId.value, parts.timestamp, merged)])
  }

  /** The closing heartbeat, if the previous map is closed: the previous map, one millisecond early. */
  function ClosingBeats(bucket: string, last: Option<map<string, string>>, parts: AwParts): seq<Heartbeat> {
    if Closes(last, parts) then [Beat(bucket, parts.timestamp - 1, last.value)] else []
  }

  /** The map stored by a call that gets past its checks. */
  function Merged(last: Option<map<string, string>>, parts: AwParts): map<string, string> {
    if last.Some? then Merge(parts.datas, last.value) else parts.datas
  }

  /** Without a bucket id or a client, `process` fails, sends nothing and keeps its map. */
  lemma UninitializedFails(bucketId: Option<string>, hasClient: bool, last: Option<map<string, string>>,
                           parts: AwParts, closingFails: bool, finalFails: bool)
    requires bucketId.None? || !hasClient
    ensures var o := Step(bucketId, hasClient, last, parts, closingFails, finalFails);
            && o.result == Err(if bucketId.None? then BucketMissing else ClientMissing)
            && o.last == last && o.sent == []
  {
  }

  /** The first event with an empty map is refused, and nothing is stored or sent. */
  lemma FirstEmptyFails(bucket: string, timestamp: int, closingFails: bool, finalFails: bool)
    ensures var o := Step(Some(bucket), true, None, AwParts(timestamp, map[]), closingFails, finalFails);
            o.result == Err(EmptyFirst) && o.last.None? && o.sent == []
  {
  }

  /**
   * A closing heartbeat, one millisecond before the event, is sent exactly
   * when there is a previous map, the new map is non-empty and the server
   * accepts it; it carries the previous map and comes first.
   */
  lemma ClosingHeartbeat(bucket: string, last: Option<map<string, string>>, parts: AwParts,
                         closingFails: bool, finalFails: bool)
    ensures var o := Step(Some(bucket), true, last, parts, closingFails, finalFails);
            && ((exists h :: h in o.sent && h.timestamp == parts.timestamp - 1)
                  <==> Closes(last, parts) && !closingFails)
            && (Closes(last, parts) && !closingFails ==> o.sent[0] == Beat(bucket, parts.timestamp - 1, last.value))
  {
    var o := Step(Some(bucket), true, last, parts, closingFails, finalFails);
    if exists h :: h in o.sent && h.timestamp == parts.timestamp - 1 {
      var h :| h in o.sent && h.timestamp == parts.timestamp - 1;
      assert h.timestamp != parts.timestamp;
    }
    if Closes(last, parts) && !closingFails {
      assert o.sent[0] in o.sent;
    }
  }

  /**
   * Whenever the map is stored, it is the incoming map extended with each
   * previous key it lacks, the incoming values winning; it is stored even
   * when the final heartbeat is refused.
   */
  lemma StoredMapIsMerge(bucket: string, last: Option<map<string, string>>, parts: AwParts,
                         closingFails: bool, finalFails: bool)
    requires !(last.None? && |parts.datas| == 0) && !(Closes(last, parts) && closingFails)
    ensures var o := Step(Some(bucket), true, last, parts, closingFails, finalFails);
            o.last == Some(last.GetOr(map[]) + parts.datas)
  {
    if last.Some? {
      MergeIsOverride(parts.datas, last.value);
    } else {
      assert map[] + parts.datas == parts.datas;
    }
  }

  /** The stored map never loses a key, and an empty incoming map after the first leaves it as it was. */
  lemma KeysNeverShrink(bucketId: Option<string>, hasClient: bool, last: Option<map<string, string>>,
                        parts: AwParts, closingFails: bool, finalFails: bool)
    ensures var o := Step(bucketId, hasClient, last, parts, closingFails, finalFails);
            && (last.Some? ==> o.last.Some? && last.value.Keys <= o.last.value.Keys)
            && (o.last.Some? && o.last != last ==> parts.datas.Keys <= o.last.value.Keys)
            && (|parts.datas| == 0 ==> o.last == last)
  {
    if last.Some? && |parts.datas| == 0 {
      MergeIntoEmpty(last.value);
    }
  }

  /**
   * A successful call returns `true` and ends with exactly one heartbeat at
   * the event's time carrying the new stored map; at most one heartbeat comes
   * before it, and every heartbeat goes to the bucket with zero duration and
   * the fixed pulse time.
   */
  lemma SuccessShape(bucketId: Option<string>, hasClient: bool, last: Option<map<string, string>>,
                     parts: AwParts, closingFails: bool, finalFails: bool)
    ensures var o := Step(bucketId, hasClient, last, parts, closingFails, finalFails);
            && (o.result.Ok? <==> bucketId.Some? && hasClient && !(last.None? && |parts.datas| == 0)
                                  && !(Closes(last, parts) && closingFails) && !finalFails)
            && (o.result.Ok? ==> && o.result.value
                                 && o.last.Some?
                                 && 1 <= |o.sent| <= 2
                                 && o.sent[|o.sent| - 1] == Beat(bucketId.value, parts.timestamp, o.last.value))
            && (forall h :: h in o.sent ==>
                  bucketId.Some? && h.bucket == bucketId.value && h.duration == 0 && h.pulsetime == 10.0)
  {
  }

  /** A refused closing heartbeat ends the call before the map is stored. */
  lemma ClosingFailureKeepsMap(bucket: string, last: Option<map<string, string>>, parts: AwParts, finalFails: bool)
    requires Closes(last, parts)
    ensures var o := Step(Some(bucket), true, last, parts, true, finalFails);
            o.result == Err(SendFailed) && o.last == last && o.sent == []
  {
  }

  /** Two calls with the same non-empty map: the second closes the first's map and stores the same map again. */
  lemma RepeatedEventStable(bucket: string, last: Option<map<string, string>>, datas: map<string, string>,
                            t1: int, t2: int)
    requires |datas| != 0
    ensures var o1 := Step(Some(bucket), true, last, AwParts(t1, datas), false, false);
            var o2 := Step(Some(bucket), true, o1.last, AwParts(t2, datas), false, false);
            && o1.last.Some? && o2.last == o1.last
            && o2.sent == [Beat(bucket, t2 - 1, o1.last.value), Beat(bucket, t2, o1.last.value)]
  {
    var o1 := Step(Some(bucket), true, last, AwParts(t1, datas), false, false);
    if last.Some? {
      MergeIdempotent(datas, last.value);
    }
    var m := o1.last.value;
    var again := Merge(datas, m);
    assert again.Keys == m.Keys;
    assert forall k :: k in again ==> again[k] == m[k];
    assert again == m;
    var o2 := Step(Some(bucket), true, o1.last, AwParts(t2, datas), false, false);
    assert o2.sent == [Beat(bucket, t2 - 1, m)] + [Beat(bucket, t2, m)];
  }

  // ---------------------------------------------------------------------------
  // Bucket creation
  // ---------------------------------------------------------------------------

  /** The client handle: the server's host and port. */
  datatype AwClient = AwClient(host: string, port: u16)

  /** The bucket description `init` asks the server to create. */
  datatype BucketRequest = BucketRequest(id: string, client: string, hostname: string, kind: string)

  const BucketType := "uno.guan810.screenshot"

  /** The bucket id: the configured bucket id and the host name, joined by '_'. */
  function BucketIdFor(config: AwServerConfig): string {
    config.bucketId + "_" + config.hostname
  }

  /** The bucket id is the configured bucket id, then '_', then the host name. */
  lemma BucketIdShape(config: AwServerConfig)
    ensures var id, b := BucketIdFor(config), config.bucketId;
            |id| == |b| + 1 + |config.hostname| && id[..|b|] == b && id[|b|] == '_' && id[|b| + 1..] == config.hostname
  {
  }

  /** Configured bucket ids without '_' give different buckets to different (bucket id, host name) pairs. */
  lemma BucketIdInjective(a: AwServerConfig, b: AwServerConfig)
    requires '_' !in a.bucketId && '_' !in b.bucketId
    ensures BucketIdFor(a) == BucketIdFor(b) <==> a.bucketId == b.bucketId && a.hostname == b.hostname
  {
    if BucketIdFor(a) == BucketIdFor(b) {
      SplitUnderscore(a.bucketId, a.hostname, b.bucketId, b.hostname);
    }
  }

  // ---------------------------------------------------------------------------
  // The processor
  // ---------------------------------------------------------------------------

  class AwServerProcessor {
    const config: AwServerConfig
    var client: Option<AwClient>
    var bucketId: Option<string>
    var lastDatas: Option<map<string, string>>
    /** The buckets the server created at this processor's request, oldest first. */
    var buckets: seq<BucketRequest>
    /** The heartbeats the server accepted from this processor, oldest first. */
    var sent: seq<Heartbeat>

    /** `AwServerProcessor::new`: nothing set up, no map stored. */
    constructor (config: AwServerConfig)
      ensures this.config == config
      ensures client.None? && bucketId.None? && lastDatas.None?
      ensures buckets == [] && sent == []
    {
      this.config := config;
      client := None;
      bucketId := None;
      lastDatas := None;
      buckets := [];
      sent := [];
    }

    /**
     * `init`: asks the server for the bucket `BucketIdFor(config)`; only once
     * the server has created it are the client and the bucket id kept.
     */
    method Init(createFails: bool) returns (r: Result<()>)
      modifies this
      ensures r.Ok? <==> !createFails
      ensures r.Err? ==> r.error == CreateFailed
      ensures r.Ok? ==> && client == Some(AwClient(config.host, config.port))
                        && bucketId == Some(BucketIdFor(config))
                        && buckets == old(buckets) + [BucketRequest(BucketIdFor(config), config.bucketId,
                                                                    config.hostname, BucketType)]
      ensures r.Err? ==> client == old(client) && bucketId == old(bucketId) && buckets == old(buckets)
      ensures lastDatas == old(lastDatas) && sent == old(sent)
    {
      var c := AwClient(config.host, config.port);
      var id := config.bucketId + "_" + config.hostname;
      var bucket := BucketRequest(id, config.bucketId, config.hostname, BucketType);
      if createFails {
        return Err(CreateFailed);
      }
      buckets := buckets + [bucket];
      client := Some(c);
      bucketId := Some(id);
      return Ok(());
    }

    /**
     * `process`: the outcome `Step` describes. The bucket id and the client
     * are left as they are.
     */
    method Process(parts: AwParts, closingFails: bool, finalFails: bool) returns (r: Result<bool>)
      modifies this
      ensures var o := Step(old(bucketId), old(client).Some?, old(lastDatas), parts, closingFails, finalFails);
              r == o.result && lastDatas == o.last && sent == old(sent) + o.sent
      ensures client == old(client) && bucketId == old(bucketId) && buckets == old(buckets)
    {
      if bucketId.None? {
        return Err(BucketMissing);
      }
      var bucket := bucketId.value;
      if client.None? {
        return Err(ClientMissing);
      }
      ghost var closing := ClosingBeats(bucket, lastDatas, parts);
      var timestamp, datas := parts.timestamp, parts.datas;
      var isEmpty := |datas| == 0;
      if lastDatas.Some? {
        var last := lastDatas.value;
        if !isEmpty {
          var finish := Beat(bucket, timestamp - 1, last);
          if closingFails {
            return Err(SendFailed);
          }
          assert closing == [finish];
          sent := sent + [finish];
        } else {
          LogUnchanged(sent, closing);
        }
        datas := MergePrevious(datas, last);
      } else {
        if isEmpty {
          return Err(EmptyFirst);
        }
        LogUnchanged(sent, closing);
      }
      assert sent == old(sent) + closing;
      assert datas == Merged(old(lastDatas), parts);
      lastDatas := Some(datas);
      var heartbeat := Beat(bucket, timestamp, lastDatas.value);
      if finalFails {
        return Err(SendFailed);
      }
      LogAppend(old(sent), closing, heartbeat);
      sent := sent + [heartbeat];
      return Ok(true);
    }
  }

  /** Sending no closing heartbeat leaves the log as it is. */
  lemma LogUnchanged(s: seq<Heartbeat>, t: seq<Heartbeat>)
    requires t == []
    ensures s + t == s
  {
  }

  /** Appending to a log that already holds `s + t`. */
  lemma LogAppend(s: seq<Heartbeat>, t: seq<Heartbeat>, h: Heartbeat)
    ensures s + t + [h] == s + (t + [h])
  {
  }

  /**
   * The loop of `process` that copies into `datas` each previous key it
   * lacks, visiting the previous keys in no particular order.
   */
  method MergePrevious(incoming: map<string, string>, previous: map<string, string>)
    returns (datas: map<string, string>)
    ensures datas == Merge(incoming, previous)
  {
    datas := incoming;
    var pending := previous.Keys;
    while pending != {}
      invariant MergePartial(incoming, previous, pending, datas)
      decreases pending
    {
      var key :| key in pending;
      MergeStep(incoming, previous, pending, datas, key);
      if key !in datas {
        datas := datas[key := previous[key]];
      }
      pending := pending - {key};
    }
    MergeDone(incoming, previous, datas);
  }

  /**
   * The map part way through the merge loop, with the previous keys in
   * `pending` still to visit: the incoming entries, and each visited previous
   * key the incoming map lacks.
   */
  predicate MergePartial(incoming: map<string, string>, previous: map<string, string>,
                         pending: set<string>, datas: map<string, string>) {
    && pending <= previous.Keys
    && datas.Keys == incoming.Keys + (previous.Keys - pending)
    && forall k :: k in datas ==> datas[k] == if k in incoming then incoming[k] else previous[k]
  }

  /** Visiting one pending key keeps `MergePartial`. */
  lemma MergeStep(incoming: map<string, string>, previous: map<string, string>,
                  pending: set<string>, datas: map<string, string>, key: string)
    requires MergePartial(incoming, previous, pending, datas) && key in pending
    ensures MergePartial(incoming, previous, pending - {key},
                         if key !in datas then datas[key := previous[key]] else datas)
  {
    var after := if key !in datas then datas[key := previous[key]] else datas;
    assert key in datas ==> key in incoming;
    assert after.Keys == incoming.Keys + (previous.Keys - (pending - {key}));
  }

  /** With no key pending, the map is the merge. */
  lemma MergeDone(incoming: map<string, string>, previous: map<string, string>, datas: map<string, string>)
    requires MergePartial(incoming, previous, {}, datas)
    ensures datas == Merge(incoming, previous)
  {
    var m := Merge(incoming, previous);
    assert datas.Keys == m.Keys;
    assert forall k :: k in datas ==> datas[k] == m[k];
  }
}
