# aw-watcher-screenshot in Dafny

A model of the decision logic of aw-watcher-screenshot, a desktop agent
that captures monitor screenshots at intervals, drops frames that repeat
recent ones, and reports activity heartbeats to an ActivityWatch server.
The repository is in the middle of a refactor, so two trees are modelled:

- the new crate `crates/aw-watcher-screenshot`:
  - the screenshot service and the filter stage, each with its own
    per-monitor dedup gate;
  - the event containers, with monitor names and object keys;
  - the configuration check and defaults;
  - the activity-server stage, which coalesces heartbeats;
- the old tree `src/`:
  - the monitor wrapper with its five-second rule;
  - the capture worker with its fixed one-minute policy.

| module | file | models |
|---|---|---|
| `Wrappers`, `Ints` | wrappers.dfy, ints.dfy | `Option`, `Result` (errors carry their message), the source's integer widths |
| `Text` | text.dfy | `format!("{}")` of integers, zero padding, the `[^a-zA-Z0-9]` sanitiser, and reading rendered numbers back |
| `PerceptualHash` | hash.dfy | the dhash bit loop over a 9x8 grey grid and the Hamming distance (the four copies in the repository are identical) |
| `Dedup` | dedup.dfy | the gate state, the force/debounce/similarity gate, and the old monitor wrapper's rule |
| `Calendar` | calendar.dfy | the UTC `%Y/%m/%d/%H` rendering of a millisecond timestamp |
| `Config` | config.dfy | the configuration record, the pulse-time check, the defaults |
| `Event` | event.dfy | `ImageInfo`, friendly names, object keys, `CaptureEvent`, `ImageEvent` (with `into_parts`), `AwEvent` |
| `Filter` | filter.dfy | `FilterProcessor`: its per-id state map, `should_skip`, and the retain step of `process` |
| `Screenshot` | screenshot.dfy | `ScreenshotService`: its monitor states and the `capture` round |
| `AwServer` | awserver.dfy | `AwServerProcessor`: `init`, the `process` state machine, `change_datas` |
| `LegacyMonitor` | legacy_monitor.dfy | the old `SafeMonitor` |
| `LegacyCapture` | legacy_capture.dfy | the old `CaptureProcessor`: monitor keys, the fixed gate, the `process` round |

**Conventions**
- Clock readings are integer milliseconds and are passed in, never read.
- Foreign calls are parameters of the operation that makes them:
  - a monitor grab, the focused-window lookup and CRC-32 are values or
    functions passed in;
  - a server request is a flag that says whether the server refuses it.
- Objects whose fields the source updates are classes.
- Every loop of the source is a `while` or `for` loop. Each is proved
  against a function of the state before the call:
  - `Visit` for the screenshot round;
  - `Sweep` for the old capture round (its meaning stated with `Collect` and `After`);
  - `Decide` for the filter;
  - `Step` and `Merge` for the activity-server stage;
  - `UploadsOf` for `into_parts`;
  - `DhashOf` for the hash loop.
- The properties are proved about those functions.

**Where the model follows the code rather than the design description**
- The activity-server stage has no retention timeout. It copies every key
  of the previous map that the new map lacks, however old the key is, so
  the model does the same.
- Both heartbeats use the fixed pulse time 10.0, not the configured one.

## Model

| member | source | states |
|---|---|---|
| Ints.U64AsI64 | crates/aw-watcher-screenshot/src/worker_impl/filter.rs:67 | `as i64` on a `u64` gives the two's-complement reading of the same 64 bits: in the i64 range, congruent modulo 2^64, and unchanged for values up to i64::MAX |
| Text.NatToStringInjective | crates/aw-watcher-screenshot/src/event.rs:61-64 | Two numbers render the same exactly when they are equal |
| Text.ParseNatToString | crates/aw-watcher-screenshot/src/event.rs:61-64 | A rendered natural number is all digits and reads back as itself |
| Text.ParseIntToString | crates/aw-watcher-screenshot/src/event.rs:61-64 | A rendered signed integer (leading '-' for negatives) reads back as itself |
| Text.IntToStringInjective | crates/aw-watcher-screenshot/src/event.rs:61-64 | Two signed integers render the same exactly when they are equal |
| Text.NatToStringHasNoUnderscore | crates/aw-watcher-screenshot/src/event.rs:61-64 | A rendered number never contains the field separator '_' |
| Text.ZeroPad | crates/aw-watcher-screenshot/src/event.rs:97-99 | A zero-padded number has exactly the requested width (or more digits), is all digits and reads back as the number |
| Text.KeepAlnum | crates/aw-watcher-screenshot/src/event.rs:26-27 | The sanitised name holds only ASCII letters and digits and is no longer than the input |
| Text.KeepAlnumOfAlnum | crates/aw-watcher-screenshot/src/event.rs:26-27 | A name already made of letters and digits passes unchanged |
| Text.KeepAlnumIdempotent | crates/aw-watcher-screenshot/src/event.rs:26-27 | Sanitising twice is sanitising once |
| Text.KeepAlnumAppend | crates/aw-watcher-screenshot/src/event.rs:26-27 | Sanitising distributes over concatenation, so it works character by character |
| Text.KeepAlnumKeepsEachAlnum | crates/aw-watcher-screenshot/src/event.rs:26-27 | Each letter or digit of the input survives in its place: the output is what the characters before it leave, then the character, then what the characters after it leave |
| Text.KeepAlnumOfChar | crates/aw-watcher-screenshot/src/event.rs:26-27 | A single letter or digit is kept; any other single character is removed |
| Text.KeepAlnumDropsEachOther | crates/aw-watcher-screenshot/src/event.rs:26-27 | Removing a character that is not a letter or digit from the input does not change the output |
| Text.KeepAlnumEmptyIff | crates/aw-watcher-screenshot/src/event.rs:26-27 | The sanitised name is empty exactly when the input has no letter or digit |
| PerceptualHash.BitIndex | src/capture/utils.rs:19 | The shift amount y*8+x computed on 32 bits stays below 64 and equals y*8+x, so no bit outside the word is touched |
| PerceptualHash.Comparisons | src/capture/utils.rs:14-18 | Entry k of the 64 comparisons is "pixel (k%8, k/8) is darker than its right neighbour" |
| PerceptualHash.HashPrefixBits | src/capture/utils.rs:13-22 | After the first n comparisons exactly the bits k < n whose comparison held are set |
| PerceptualHash.DhashBit | src/capture/utils.rs:13-22 | Bit y*8+x of the hash is set iff grey(x, y) < grey(x+1, y), for x, y in 0..8 |
| PerceptualHash.DhashOf | src/capture/utils.rs:13-23 | Bit k of the hash is set exactly when comparison k holds, for every k below 64 |
| PerceptualHash.Dhash | src/capture/utils.rs:3-24 | The nested loop computes `DhashOf` of the grid, so equal grids hash equally. The same loop is copied as `dhash` in the new crate's filter.rs:139-160 and screenshot.rs:154-175, and in the old tree's worker_impl/capture.rs:137-158 |
| PerceptualHash.PopCount | src/capture/utils.rs:27 | The count of set bits among the n lowest bits is at most n |
| PerceptualHash.HammingDistance | src/capture/utils.rs:26-28 | The distance is at most 64 |
| PerceptualHash.PopCountZero | src/capture/utils.rs:27 | The count is zero iff all the counted bits are clear |
| PerceptualHash.HammingZeroIff | src/capture/utils.rs:26-28 | The distance is 0 exactly when the two hashes are equal |
| PerceptualHash.HammingSymmetric | src/capture/utils.rs:26-28 | The distance is symmetric |
| PerceptualHash.SameFrameDistanceZero | crates/aw-watcher-screenshot/src/worker_impl/filter.rs:174-180 | The same frame hashed twice is at distance 0 |
| PerceptualHash.HammingTestValues | crates/aw-watcher-screenshot/src/worker_impl/filter.rs:183-188 | The unit test's values: distances 0, 1, 4 and 8. The same test appears in screenshot.rs:198-203 |
| Dedup.ForceIntervalMs | crates/aw-watcher-screenshot/src/worker_impl/filter.rs:66-67 | `TimeDelta::try_seconds(secs as i64)` succeeds iff the reinterpreted value is within i64::MAX/1000 in magnitude; for values up to that bound the interval is secs*1000 ms |
| Dedup.Gate | crates/aw-watcher-screenshot/src/worker_impl/filter.rs:64-89 | A skip leaves the state unchanged and an emit records (hash, now). More than the force interval since the last emit always emits. Otherwise less than 100 ms skips. Otherwise the frame is skipped iff a stored hash is closer than the threshold. The screenshot service's `should_skip` (screenshot.rs:113-136) follows the same rules |
| Dedup.FreshAlwaysEmits | crates/aw-watcher-screenshot/src/worker_impl/filter.rs:59-62 | From a fresh state (no hash, no time) every frame is emitted and recorded |
| Dedup.EmitsAreSpaced | crates/aw-watcher-screenshot/src/worker_impl/filter.rs:64-77 | An emit after an earlier one at t is at least 100 ms after t, unless the force interval was exceeded |
| Dedup.RepeatedFrameSkipped | crates/aw-watcher-screenshot/src/worker_impl/filter.rs:80-84 | With a positive threshold, an unchanged frame within the force interval is skipped |
| Dedup.RunGate | crates/aw-watcher-screenshot/src/screenshot.rs:105-137 | The gate over successive frames gives one verdict per frame |
| Dedup.StaticScreenSkipped | crates/aw-watcher-screenshot/src/screenshot.rs:105-137 | After an emit at t, every later identical frame within the force interval is skipped and the state stays at (hash, t) |
| Dedup.StaticScreenForced | crates/aw-watcher-screenshot/src/screenshot.rs:113-119 | Once the force interval has passed, the same static screen is emitted again and recorded |
| Dedup.TryCreateDecision | src/capture/monitor.rs:71-89 | Skip iff a last time and a last hash are both known, less than 5000 ms have passed and the distance is below 10. A skip keeps the state; an emit records (hash, now) |
| Dedup.LegacyWindowExpiryEmits | src/capture/monitor.rs:79 | 5000 ms or more after the last emit, a frame is emitted whatever it shows |
| Dedup.LegacyHasNoDebounce | src/capture/monitor.rs:76-82 | A very different frame 1 ms after an emit is emitted by the old rule and skipped by the newer gate |
| Calendar.DaysInYear | crates/aw-watcher-screenshot/src/event.rs:97-99 | A year has 365 or 366 days |
| Calendar.YearAndDay | crates/aw-watcher-screenshot/src/event.rs:97-99 | The day of year found is within its year |
| Calendar.YearAndDayOfStart | crates/aw-watcher-screenshot/src/event.rs:97-99 | Walking from any year to a day number finds the year and day of year it belongs to |
| Calendar.StartOfYearAndDay | crates/aw-watcher-screenshot/src/event.rs:97-99 | The year and day of year found for a day number give that day number back |
| Calendar.DaysInMonth | crates/aw-watcher-screenshot/src/event.rs:97-99 | A month has 28 to 31 days |
| Calendar.MonthFrom | crates/aw-watcher-screenshot/src/event.rs:97-99 | The month found contains the day of year |
| Calendar.CivilOf | crates/aw-watcher-screenshot/src/event.rs:97-99 | A timestamp's UTC date and hour form a valid date and hour |
| Calendar.CivilOfLocates | crates/aw-watcher-screenshot/src/event.rs:97-99 | The timestamp lies within the hour and day found for it |
| Calendar.CivilOfDayNumber | crates/aw-watcher-screenshot/src/event.rs:97-99 | Every valid date and hour is the one found for the start of that hour |
| Calendar.YearText | crates/aw-watcher-screenshot/src/event.rs:97-99 | `%Y` of years 0 to 9999 is four digits that read back as the year |
| Calendar.PathSubdirFields | crates/aw-watcher-screenshot/src/event.rs:97-99 | For years 0 to 9999 the sub-directory is `YYYY/MM/DD/HH`: 13 characters whose fields read back as the year, month, day and hour |
| Calendar.PathSubdirShape | crates/aw-watcher-screenshot/src/event.rs:97-99 | For every timestamp the sub-directory ends with `/MM/DD/HH` whose last field reads back as the UTC hour |
| Calendar.SameHourSameSubdir | crates/aw-watcher-screenshot/src/event.rs:128-130 | Timestamps in the same UTC hour share a sub-directory |
| Config.CheckPulse | crates/aw-watcher-screenshot/src/config.rs:103-114 | Rejected iff a present pulse time is below four trigger intervals, with the source's message, so exactly four intervals is accepted. An absent pulse time becomes four intervals. On success the pulse time is present and accepted, and nothing else changes |
| Config.JoinPath | crates/aw-watcher-screenshot/src/config.rs:131 | The joined path starts with the directory, ends with the name, and adds at most one separator |
| Config.DefaultCacheConfig | crates/aw-watcher-screenshot/src/config.rs:36-43 | Cache directory "cache" and WebP quality 75, a lossy setting |
| Config.DefaultS3Config | crates/aw-watcher-screenshot/src/config.rs:57-69 | Upload disabled, every string empty, no key prefix |
| Config.DefaultAwServerConfig | crates/aw-watcher-screenshot/src/config.rs:82-96 | localhost:5600, bucket id "aw-watcher-screenshot" (which has no '_'), timeout 60 s, pulse 10.0; the host name is the looked-up one or "unknown" |
| Config.DefaultConfig | crates/aw-watcher-screenshot/src/config.rs:117-137 | Trigger interval 2 s with timeout 20 s; capture 60 s and threshold 10; pulse 10.0, which passes the pulse check against 8.0; the cache directory is the executable's directory joined with "cache", and equals the cache default when that directory is empty; quality 75; the upload and server sections are their defaults |
| Config.DefaultConfigAccepted | crates/aw-watcher-screenshot/src/config.rs:103-137 | The pulse check of `load_from_file` applied to the default configuration returns it unchanged: it is neither rejected nor rewritten |
| Event.ImageInfo.SetPayload | crates/aw-watcher-screenshot/src/event.rs:51-53 | The payload becomes `Some(p)` and nothing else changes |
| Event.NewImageInfo | crates/aw-watcher-screenshot/src/event.rs:25-37 | The monitor's id and geometry are copied; the name is `KeepAlnum` of the monitor's name (letters and digits only, no longer); there is no payload |
| Event.CleanNameKept | crates/aw-watcher-screenshot/src/event.rs:26-27 | An already alphanumeric monitor name is kept as it is |
| Event.FromBaseInfo | crates/aw-watcher-screenshot/src/event.rs:39-49 | id, name, x, y, width and height are copied; the payload is `None` |
| Event.RebaseKeepsDescription | crates/aw-watcher-screenshot/src/event.rs:39-53 | Rebasing and then setting a payload changes only the payload |
| Event.GeometryShape | crates/aw-watcher-screenshot/src/event.rs:61-64 | `{w}_{h}_{x}_{y}` has at least seven characters, all digits, '-' or '_' |
| Event.FriendlyNameShape | crates/aw-watcher-screenshot/src/event.rs:55-65 | The friendly name ends with '_' and the geometry. A named monitor's starts with its name; an unnamed one's is `Monitor_`, the rendered id, then the geometry |
| Event.ObjectKeyShape | crates/aw-watcher-screenshot/src/event.rs:143-147 | The object key starts with the sub-directory and ends with `.webp` |
| Event.GeometryInjective | crates/aw-watcher-screenshot/src/event.rs:61-64 | `{w}_{h}_{x}_{y}` determines all four values |
| Event.FriendlyNameInjectiveNamed | crates/aw-watcher-screenshot/src/event.rs:55-65 | For sanitised non-empty names, the friendly name determines the name and the geometry |
| Event.FriendlyNameInjectiveUnnamed | crates/aw-watcher-screenshot/src/event.rs:55-65 | For unnamed monitors, `Monitor_{id}_...` determines the id and the geometry |
| Event.ObjectKeysDistinct | crates/aw-watcher-screenshot/src/event.rs:143-147 | Within one event, two object keys are equal iff the monitor ids are |
| Event.ObjectKeyInjective | crates/aw-watcher-screenshot/src/event.rs:143-147 | For years 0 to 9999, the key `{subdir}{millis}_{id}.webp` determines the timestamp and the monitor id |
| Event.UploadsOf | crates/aw-watcher-screenshot/src/event.rs:142-151 | One upload record per entry, under the same key, carrying that key and the entry's friendly name |
| Event.UploadsOfInsert | crates/aw-watcher-screenshot/src/event.rs:148-149 | Adding an entry adds exactly its upload record |
| Event.UploadKeysDistinct | crates/aw-watcher-screenshot/src/event.rs:142-151 | No two upload records of one event share an object key |
| Event.CaptureEvent.constructor | crates/aw-watcher-screenshot/src/event.rs:74-79 | No images; the given timestamp |
| Event.CaptureEvent.AddImage | crates/aw-watcher-screenshot/src/event.rs:81-83 | Inserts under the image's monitor id, replacing an earlier entry and leaving the others |
| Event.ImageEvent.constructor | crates/aw-watcher-screenshot/src/event.rs:111-117 | No data; the given timestamp and directory |
| Event.ImageEvent.AddData | crates/aw-watcher-screenshot/src/event.rs:119-121 | Inserts under the entry's monitor id, replacing an earlier entry and leaving the others |
| Event.ImageEvent.IntoParts | crates/aw-watcher-screenshot/src/event.rs:133-154 | The data map passes through unchanged. The new `AwEvent` holds `UploadsOf` the entries (so the same key set), keeps the timestamp and directory, and has `s3_info = Some(arg)` |
| Event.AwEvent.constructor | crates/aw-watcher-screenshot/src/event.rs:211-222 | No records; the given timestamp, directory and storage description |
| Event.AwEvent.GetData | crates/aw-watcher-screenshot/src/event.rs:224-226 | The record under the key, present iff the key is |
| Event.AwEvent.AddData | crates/aw-watcher-screenshot/src/event.rs:228-230 | Inserts under the key, replacing an earlier record and leaving the others |
| Filter.GateStep | crates/aw-watcher-screenshot/src/worker_impl/filter.rs:55-90 | The imperative body of `should_skip` returns exactly the gate's verdict and new state. The screenshot service's copy (screenshot.rs:105-137) is the same |
| Filter.FilterProcessor.constructor | crates/aw-watcher-screenshot/src/worker_impl/filter.rs:44-49 | No monitor state yet |
| Filter.FilterProcessor.ShouldSkip | crates/aw-watcher-screenshot/src/worker_impl/filter.rs:55-90 | An unseen id starts fresh. The result is the gate's verdict, and only that id's entry is created or changed |
| Filter.FilterProcessor.Process | crates/aw-watcher-screenshot/src/worker_impl/filter.rs:107-111 | Keeps exactly the images the gate lets through, each unchanged, and keeps the timestamp. Each monitor in the event gets its decided state, and the other states are untouched |
| Filter.DecideIsPerMonitor | crates/aw-watcher-screenshot/src/worker_impl/filter.rs:59-62 | One monitor's decision does not depend on the state held for another |
| Filter.FreshRuleEmits | crates/aw-watcher-screenshot/src/worker_impl/filter.rs:87-89 | Under the configured gate a fresh state emits and records the frame |
| Filter.FirstFrameKept | crates/aw-watcher-screenshot/src/worker_impl/filter.rs:59-89 | An id the filter has never seen has its first frame kept and (hash, now) recorded |
| Filter.UsableUpToMax | crates/aw-watcher-screenshot/src/worker_impl/filter.rs:66-67 | Any force interval up to i64::MAX/1000 seconds is accepted and converted to milliseconds |
| Screenshot.FirstFailure | crates/aw-watcher-screenshot/src/screenshot.rs:72-87 | The first monitor from i on whose grab fails or whose state is missing, or the number of monitors |
| Screenshot.Visit | crates/aw-watcher-screenshot/src/screenshot.rs:72-95 | The round keeps one state per monitor |
| Screenshot.VisitResult | crates/aw-watcher-screenshot/src/screenshot.rs:73-87 | The round succeeds iff no monitor fails, and otherwise reports the first failure |
| Screenshot.VisitError | crates/aw-watcher-screenshot/src/screenshot.rs:73-87 | The first failing monitor's failure is reported: a failed grab with the friendly name, checked before a missing state |
| Screenshot.VisitStates | crates/aw-watcher-screenshot/src/screenshot.rs:81-88 | Monitors before the first failure have their gate state updated, even when the round fails; the rest keep theirs |
| Screenshot.VisitKeys | crates/aw-watcher-screenshot/src/screenshot.rs:81-94 | Without failure the event holds exactly the monitors whose frame the gate let through |
| Screenshot.VisitValues | crates/aw-watcher-screenshot/src/screenshot.rs:92-94 | Every entry of a successful round is stored under its own monitor id and has a payload |
| Screenshot.VisitKeepsEntry | crates/aw-watcher-screenshot/src/screenshot.rs:81-94 | An entry already collected is left as it is when no later monitor with the same id is let through |
| Screenshot.VisitKeptFrame | crates/aw-watcher-screenshot/src/screenshot.rs:81-94 | The last monitor with an id whose frame the gate lets through leaves, under that id, its own description with its grabbed frame as payload |
| Screenshot.FreshRoundEmits | crates/aw-watcher-screenshot/src/screenshot.rs:47-50 | With every state fresh and every grab successful, the gate skips nothing |
| Screenshot.NoSkipKeepsAll | crates/aw-watcher-screenshot/src/screenshot.rs:72-97 | A round with no failure and no skip keeps every monitor |
| Screenshot.FirstRoundKeepsAll | crates/aw-watcher-screenshot/src/screenshot.rs:42-98 | The first round after start-up keeps a frame from every monitor when no grab fails |
| Screenshot.ScreenshotService.constructor | crates/aw-watcher-screenshot/src/screenshot.rs:42-57 | One sanitised description per listed monitor, in order, each with a fresh state |
| Screenshot.ScreenshotService.Capture | crates/aw-watcher-screenshot/src/screenshot.rs:69-98 | The states and the result are those of `Visit`; a success is a new event stamped now holding the kept frames; a failure carries its message |
| AwServer.ChangeDatas | crates/aw-watcher-screenshot/src/worker_impl/awserver.rs:106-111 | The JSON map has the same keys |
| AwServer.ChangeDatasRoundTrip | crates/aw-watcher-screenshot/src/worker_impl/awserver.rs:106-111 | Reading the strings back gives the original map |
| AwServer.StringsOfChangeDatas | crates/aw-watcher-screenshot/src/worker_impl/awserver.rs:106-111 | Every map of JSON strings is `change_datas` of the map read back from it |
| AwServer.Merge | crates/aw-watcher-screenshot/src/worker_impl/awserver.rs:78-82 | The merged keys are the union of both maps |
| AwServer.MergeIsOverride | crates/aw-watcher-screenshot/src/worker_impl/awserver.rs:78-82 | The merge is `previous + incoming`: incoming values win |
| AwServer.MergeEmpty | crates/aw-watcher-screenshot/src/worker_impl/awserver.rs:78-82 | Merging with an empty previous map changes nothing |
| AwServer.MergeIntoEmpty | crates/aw-watcher-screenshot/src/worker_impl/awserver.rs:78-82 | An empty incoming map gives back the previous map |
| AwServer.MergeIdempotent | crates/aw-watcher-screenshot/src/worker_impl/awserver.rs:78-82 | Merging twice with the same previous map is merging once |
| AwServer.MergePrevious | crates/aw-watcher-screenshot/src/worker_impl/awserver.rs:78-82 | The insert loop computes `Merge` |
| AwServer.Step | crates/aw-watcher-screenshot/src/worker_impl/awserver.rs:54-103 | Success returns `true` and stores `previous + incoming`. The stored map is either kept or that merge. An error is one of the four failure kinds. At most two heartbeats are sent, all to the bucket, and none without a bucket id |
| AwServer.UninitializedFails | crates/aw-watcher-screenshot/src/worker_impl/awserver.rs:55-60 | Without a bucket id or a client: that error, nothing sent, the map kept |
| AwServer.FirstEmptyFails | crates/aw-watcher-screenshot/src/worker_impl/awserver.rs:83-87 | A first event with an empty map fails with "Empty datas in first event.", nothing stored or sent |
| AwServer.ClosingHeartbeat | crates/aw-watcher-screenshot/src/worker_impl/awserver.rs:65-76 | A heartbeat at T−1 ms is sent iff there is a previous map, the new map is non-empty and the server accepts it. It comes first and carries the previous map |
| AwServer.StoredMapIsMerge | crates/aw-watcher-screenshot/src/worker_impl/awserver.rs:78-90 | Once past the checks, the stored map is `previous + incoming`, even when the final heartbeat is refused |
| AwServer.KeysNeverShrink | crates/aw-watcher-screenshot/src/worker_impl/awserver.rs:78-90 | The stored keys never shrink, a newly stored map holds the incoming keys, and an empty incoming map leaves the stored map as it was |
| AwServer.SuccessShape | crates/aw-watcher-screenshot/src/worker_impl/awserver.rs:92-102 | Success iff initialised, not empty-first, and neither send refused. Success returns `true` and ends with one heartbeat at T carrying the stored map, after at most one other. Every heartbeat goes to the bucket with zero duration and pulse 10.0 |
| AwServer.ClosingFailureKeepsMap | crates/aw-watcher-screenshot/src/worker_impl/awserver.rs:65-90 | A refused closing heartbeat fails the call before the map is stored, with nothing sent |
| AwServer.RepeatedEventStable | crates/aw-watcher-screenshot/src/worker_impl/awserver.rs:65-102 | Repeating a non-empty map closes the stored map and stores it again unchanged |
| AwServer.BucketIdShape | crates/aw-watcher-screenshot/src/worker_impl/awserver.rs:35 | The bucket is the configured bucket id, '_', then the host name |
| AwServer.BucketIdInjective | crates/aw-watcher-screenshot/src/worker_impl/awserver.rs:35 | For bucket ids without '_', `{bucket_id}_{hostname}` determines both parts |
| AwServer.AwServerProcessor.constructor | crates/aw-watcher-screenshot/src/worker_impl/awserver.rs:21-28 | No client, no bucket id, no stored map, empty logs |
| AwServer.AwServerProcessor.Init | crates/aw-watcher-screenshot/src/worker_impl/awserver.rs:32-52 | Succeeds iff the server creates the bucket. On success: bucket `{bucket_id}_{hostname}` of type `uno.guan810.screenshot`, client and bucket id kept. On failure: "Failed to create bucket" and nothing changes |
| AwServer.AwServerProcessor.Process | crates/aw-watcher-screenshot/src/worker_impl/awserver.rs:54-103 | Result, stored map and appended heartbeats are those of `Step`; bucket, client and bucket log unchanged |
| LegacyMonitor.MonitorIdShape | src/capture/monitor.rs:23-30 | The id is the name, '_', then `{w}_{h}_{x}_{y}` |
| LegacyMonitor.MonitorIdInjective | src/capture/monitor.rs:23-30 | `{name}_{w}_{h}_{x}_{y}` determines all five values, even when the name contains '_' |
| LegacyMonitor.MonitorIdIsFriendlyName | src/capture/monitor.rs:23-30 | For a non-empty name the old id is the new crate's friendly name |
| LegacyMonitor.SafeMonitor.constructor | src/capture/monitor.rs:19-39 | The id from name and geometry, the position, nothing remembered |
| LegacyMonitor.SafeMonitor.TryCreateEvent | src/capture/monitor.rs:71-89 | No event iff the old rule skips. The state becomes the rule's next state. An event carries this monitor's id, the frame and now |
| LegacyMonitor.SafeMonitor.GetNextEvent | src/capture/monitor.rs:41-48 | A failed grab passes its error on with the state unchanged; a grabbed frame goes through `TryCreateEvent` |
| LegacyMonitor.RunTryCreate | src/capture/monitor.rs:71-89 | The old rule over successive frames gives one outcome per frame |
| LegacyMonitor.StaticScreenQuiet | src/capture/monitor.rs:76-82 | After an event at t, identical frames within 5000 ms of t produce none and leave the state at (hash, t) |
| LegacyMonitor.FirstFrameProducesEvent | src/capture/monitor.rs:76-88 | A new monitor's first frame produces an event and is recorded |
| LegacyCapture.MonitorInfo.WithState | src/worker_impl/capture.rs:10-16 | Replaces the gate state and keeps key and position |
| LegacyCapture.Prefix | src/worker_impl/capture.rs:113-119 | The sanitised name, or "Monitor" when nothing is left; always non-empty letters and digits |
| LegacyCapture.HashPosition | src/worker_impl/capture.rs:106-129 | Keeps the position; nothing remembered yet |
| LegacyCapture.MonitorKeyShape | src/worker_impl/capture.rs:120-123 | The key is the prefix, '_', then the decimal checksum, which reads back as the checksum |
| LegacyCapture.MonitorKeyDetermines | src/worker_impl/capture.rs:120-123 | Equal keys imply equal prefixes and equal CRC-32 values of the geometry text |
| LegacyCapture.SameSanitisedNameSameKey | src/worker_impl/capture.rs:113-123 | Names with the same letters and digits and the same geometry give the same key |
| LegacyCapture.FixedVerdict | src/worker_impl/capture.rs:70-97 | A skip keeps the state and an emit records (dhash, now). More than 60000 ms since the last emit always emits; otherwise less than 100 ms skips; otherwise the frame is skipped iff a stored hash is at distance below 10 |
| LegacyCapture.ShouldSkip | src/worker_impl/capture.rs:70-97 | The verdict and the new record are the gate's with a one-minute force interval and threshold 10 |
| LegacyCapture.FixedPolicyIsDefault | src/worker_impl/capture.rs:74-92 | The old fixed policy is the new configurable gate under the default configuration (60 s, 10) |
| LegacyCapture.NewMonitorEmits | src/worker_impl/capture.rs:94-96 | A record just built by `hash_position` lets its first frame through and records it |
| LegacyCapture.FirstFailedGrab | src/worker_impl/capture.rs:26-29 | The first monitor whose grab fails, or the number of monitors; all grabs before it succeed |
| LegacyCapture.CollectKeys | src/worker_impl/capture.rs:26-36 | The collected keys are exactly the keys of the monitors whose frame the gate let through |
| LegacyCapture.CollectValues | src/worker_impl/capture.rs:31-35 | A key holds the frame of the last monitor with that key that the gate let through |
| LegacyCapture.RoundStep | src/worker_impl/capture.rs:26-36 | One turn of the loop moves the records and the collected frames from the first i monitors to the first i+1 |
| LegacyCapture.Sweep | src/worker_impl/capture.rs:26-36 | The round from monitor i on keeps one record per monitor |
| LegacyCapture.SweepMeaning | src/worker_impl/capture.rs:26-36 | The round stops at the first failed grab. Records before it are judged and written back, and the rest are unchanged. It fails iff a grab fails, with that monitor's key in the message, and otherwise yields the frames `Collect` describes |
| LegacyCapture.Round | src/worker_impl/capture.rs:26-36 | The loop over the records computes exactly the round `Sweep` describes from the first monitor with nothing collected |
| LegacyCapture.CaptureProcessor.constructor | src/worker_impl/capture.rs:45-53 | One `hash_position` record per listed monitor, in order |
| LegacyCapture.CaptureProcessor.Process | src/worker_impl/capture.rs:23-41 | A failed focus lookup fails first, with the records unchanged. Otherwise the records and the outcome are those of `Round`, and the event holds the collected frames and the focused window |

## Left out

- Pixel capture and monitor enumeration (the xcap library) are foreign. The screenshot and capture rounds take each grab's outcome as a parameter.
- The monitor queries of the constructors are foreign and can fail; the constructors take the values the library reported.
- The resize to 9x8 and the grey conversion are done by an image library. The hash takes the grey grid as input, and a frame is represented only by that grid.
- The focused-window lookup (src/worker_impl/capture.rs:56-68) is foreign. `LegacyCapture.CaptureProcessor.Process` takes its outcome.
- CRC-32 (src/worker_impl/capture.rs:131-135) is foreign and is taken as a function parameter.
- The unused `_get_short_hash` (crates/aw-watcher-screenshot/src/worker_impl/filter.rs:93-97) uses the standard library's unspecified hasher and is not modelled.
- The UUIDv7 id of the old tree's event (src/event.rs) is not modelled. `LegacyMonitor.MonitorImageEvent` keeps the monitor id, the frame and the time.
- `Utc::now()` is a parameter, in integer milliseconds. Each monitor's reading is `clock(i)` or `clock(id)`.
- Dates are proleptic Gregorian UTC. Years outside 0 to 9999 are rendered with a sign, as the date library does, but no property is proved for them.
- `ImageEvent::get_format_timestamp` (crates/aw-watcher-screenshot/src/event.rs:123-125) is not used by any modelled operation and is not modelled.
- `Config.CheckPulse`: `pulse_time` is an `f64` in the source and an exact real here. The conversion of the trigger interval to `f64` is taken as exact, so rounding for intervals above 2^53 is not modelled.
- Reading and parsing the configuration file (crates/aw-watcher-screenshot/src/config.rs:100-101) is I/O. `Config.CheckPulse` starts from the parsed record.
- The host-name lookup and the executable's directory are parameters of the defaults.
- `Filter.GateStep`, `Filter.FilterProcessor.ShouldSkip`, `Filter.FilterProcessor.Process`, `Screenshot.ScreenshotService.Capture`: the source's `TimeDelta::try_seconds(..).unwrap()` panics for a force interval beyond i64::MAX/1000 seconds. These members, and the helper `Filter.GateRule` they share, require `Filter.UsableConfig` instead of modelling the panic. `Dedup.ForceIntervalMs` states exactly when the panic happens, and `Filter.UsableUpToMax` shows every realistic value is usable.
- The HTTP client is outside the model. The heartbeats and bucket creations the server accepted are append-only logs in `AwServer.AwServerProcessor`, and whether a request is refused is a parameter. A refused request's error is the context message; the underlying cause is not modelled.
- `AwServer.AwServerProcessor.Process` takes the event as its timestamp and its text data map. The call site calls `into_parts()` with no argument and expects that pair, which does not match `ImageEvent::into_parts` in crates/aw-watcher-screenshot/src/event.rs, so that conversion is not modelled.
- The heartbeat data is recorded as the text map it is built from. `AwServer.Heartbeat.Data` gives the JSON, and `AwServer.ChangeDatasRoundTrip` shows that the two determine each other.
- `Filter.FilterProcessor.Process` reads each entry's frame from its payload and requires every entry to carry one. The retain closure at crates/aw-watcher-screenshot/src/worker_impl/filter.rs:109-111 passes the whole shared entry where `should_skip` takes an image, which does not type-check as written; the model takes the evident intent.
- `Config.JoinPath` uses '/' as the only separator. Windows separators and the lossy conversion of paths that are not valid UTF-8 are not modelled.
- The filter's `event.monitors.retain(..)` (crates/aw-watcher-screenshot/src/worker_impl/filter.rs:113) refers to a field `CaptureEvent` does not have, and is not modelled.
- The three-argument `add_image` calls in crates/aw-watcher-screenshot/src/worker_impl/capture.rs are not part of this model; `CaptureEvent::add_image` is modelled as defined in event.rs.
- The old tree's `ImageEvent` and `FocusWindow` are imported by src/worker_impl/capture.rs but not defined in src/event.rs. `LegacyCapture.ImageEvent` assumes frames by monitor key plus an optional focused window, with a later monitor with the same key replacing an earlier one.
- Error messages from a failed grab's own cause (the `anyhow` chain below the context) are not modelled. A failed round reports the context message. `LegacyMonitor.SafeMonitor.GetNextEvent` passes the grab's message through.
- `Event.ImageInfo.SetPayload` updates the record through `&mut self` in the source. Descriptions are shared read-only once built, so the model uses a value update.
- Pipeline wiring, channels, timers, concurrency, encoding, caching, object-store uploads and SQLite are outside the core and are not modelled.
