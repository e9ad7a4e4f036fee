/**
 * The events that flow through the new crate's pipeline and the names and
 * object keys derived from them.
 *
 * `ImageInfo` describes one monitor (id, sanitised name, position, size) and
 * carries a payload whose type depends on the stage: the gate state in the
 * screenshot service, the captured frame in a `CaptureEvent`, the encoded
 * bytes in an `ImageEvent`. Once built it is shared read-only, so it is a
 * value here; the three event containers are objects whose maps the source
 * fills in place.
 *
 * Timestamps are integer milliseconds since the Unix epoch (UTC).
 */
module Event {
  import opened Wrappers
  import opened Ints
  import opened Text
  import Calendar
  import opened PerceptualHash

  /** The values read from the monitor library for one display. */
  datatype MonitorDesc = MonitorDesc(id: u32, name: string, x: i32, y: i32, width: u32, height: u32)

  datatype ImageInfo<P> = ImageInfo(id: u32, name: string, x: i32, y: i32, width: u32, height: u32,
                                    payload: Option<P>)
  {
    /** `set_payload`: the same monitor description with payload `p`. */
    function SetPayload(p: P): (r: ImageInfo<P>)
      ensures r.payload == Some(p)
      ensures r.(payload := payload) == this
    {
      this.(payload := Some(p))
    }
  }

  /**
   * `ImageInfo::new`: the monitor's id and geometry, its name reduced to ASCII
   * letters and digits, and no payload yet.
   */
  function NewImageInfo<P>(m: MonitorDesc): (r: ImageInfo<P>)
    ensures r.id == m.id && r.x == m.x && r.y == m.y && r.width == m.width && r.height == m.height
    ensures AllAlnum(r.name) && |r.name| <= |m.name|
    ensures r.name == KeepAlnum(m.name)
    ensures r.payload.None?
  {
    ImageInfo(m.id, KeepAlnum(m.name), m.x, m.y, m.width, m.height, None)
  }

  /** A name that is already letters and digits only is kept as it is. */
  lemma CleanNameKept<P>(m: MonitorDesc)
    requires AllAlnum(m.name)
    ensures NewImageInfo<P>(m).name == m.name
  {
    KeepAlnumOfAlnum(m.name);
  }

  /** `from_base_info`: the same monitor description under another payload type, with no payload. */
  function FromBaseInfo<P, Q>(b: ImageInfo<Q>): (r: ImageInfo<P>)
    ensures r.id == b.id && r.name == b.name && r.x == b.x && r.y == b.y
    ensures r.width == b.width && r.height == b.height
    ensures r.payload.None?
  {
    ImageInfo(b.id, b.name, b.x, b.y, b.width, b.height, None)
  }

  /** The part of a monitor description that names it. */
  function Describe<P>(info: ImageInfo<P>): (string, u32, i32, i32, u32, u32) {
    (info.name, info.id, info.x, info.y, info.width, info.height)
  }

  /** Rebasing a description onto a new payload changes nothing but the payload. */
  lemma RebaseKeepsDescription<P, Q>(b: ImageInfo<Q>, p: P)
    ensures Describe(FromBaseInfo<P, Q>(b).SetPayload(p)) == Describe(b)
    ensures FromBaseInfo<P, Q>(b).SetPayload(p).payload == Some(p)
  {
  }

  // ---------------------------------------------------------------------------
  // Friendly names
  // ---------------------------------------------------------------------------

  /** `{width}_{height}_{x}_{y}`. */
  function Geometry(width: u32, height: u32, x: i32, y: i32): string {
    NatToString(width) + "_" + (NatToString(height) + "_" + (IntToString(x) + "_" + IntToString(y)))
  }

  /** Digits, '-' and '_' only: the characters of a geometry text. */
  predicate GeometryAlphabet(g: string) {
    forall i :: 0 <= i < |g| ==> IsDigit(g[i]) || g[i] == '-' || g[i] == '_'
  }

  lemma AlphabetAppend(a: string, b: string)
    requires GeometryAlphabet(a) && GeometryAlphabet(b)
    ensures GeometryAlphabet(a + b)
  {
  }

  lemma IntTextAlphabet(i: int)
    ensures GeometryAlphabet(IntToString(i))
  {
    IntToStringChars(i);
  }

  /**
   * A geometry text has four fields of at least one character each and is
   * made of digits, '-' and the three separators.
   */
  lemma GeometryShape(width: u32, height: u32, x: i32, y: i32)
    ensures |Geometry(width, height, x, y)| >= 7
    ensures GeometryAlphabet(Geometry(width, height, x, y))
  {
    IntTextAlphabet(width as int);
    IntTextAlphabet(height as int);
    IntTextAlphabet(x as int);
    IntTextAlphabet(y as int);
    assert GeometryAlphabet("_");
    AlphabetAppend(IntToString(x as int), "_");
    AlphabetAppend(IntToString(x as int) + "_", IntToString(y as int));
    AlphabetAppend(NatToString(height as nat), "_");
    AlphabetAppend(NatToString(height as nat) + "_", IntToString(x as int) + "_" + IntToString(y as int));
    AlphabetAppend(NatToString(width as nat), "_");
    AlphabetAppend(NatToString(width as nat) + "_",
                   NatToString(height as nat) + "_" + (IntToString(x as int) + "_" + IntToString(y as int)));
  }

  /**
   * `get_friendly_name`: `{prefix}_{width}_{height}_{x}_{y}`, the prefix being
   * the name, or `Monitor_{id}` for a monitor without one.
   */
  function FriendlyName<P>(info: ImageInfo<P>): string {
    var g := Geometry(info.width, info.height, info.x, info.y);
    if info.name == "" then "Monitor" + "_" + (NatToString(info.id) + "_" + g) else info.name + "_" + g
  }

  /**
   * The friendly name ends with '_' and the geometry; before that it is the
   * monitor's name, or `Monitor_` followed by the id when the name is empty.
   */
  lemma FriendlyNameShape<P>(info: ImageInfo<P>)
    ensures var r, g := FriendlyName(info), Geometry(info.width, info.height, info.x, info.y);
            |r| > |g| + 1 && r[|r| - |g| - 1] == '_' && r[|r| - |g|..] == g
    ensures var r, g := FriendlyName(info), Geometry(info.width, info.height, info.x, info.y);
            info.name != "" ==> |r| == |info.name| + 1 + |g| && r[..|info.name|] == info.name
    ensures var r, g := FriendlyName(info), Geometry(info.width, info.height, info.x, info.y);
            info.name == "" ==> && |r| == 9 + |NatToString(info.id)| + |g|
                                && r[..8] == "Monitor_" && r[8..|r| - |g| - 1] == NatToString(info.id)
  {
  }

  lemma SplitUnderscore(a: string, b: string, c: string, d: string)
    requires '_' !in a && '_' !in c
    requires a + "_" + b == c + "_" + d
    ensures a == c && b == d
  {
    assert "_" == ['_'];
    SplitAtSeparator(a, b, c, d, '_');
  }

  /** Different geometries are written differently. */
  lemma GeometryInjective(w1: u32, h1: u32, x1: i32, y1: i32, w2: u32, h2: u32, x2: i32, y2: i32)
    requires Geometry(w1, h1, x1, y1) == Geometry(w2, h2, x2, y2)
    ensures w1 == w2 && h1 == h2 && x1 == x2 && y1 == y2
  {
    NatToStringHasNoUnderscore(w1);
    NatToStringHasNoUnderscore(w2);
    SplitUnderscore(NatToString(w1), NatToString(h1) + "_" + (IntToString(x1) + "_" + IntToString(y1)),
                    NatToString(w2), NatToString(h2) + "_" + (IntToString(x2) + "_" + IntToString(y2)));
    NatToStringHasNoUnderscore(h1);
    NatToStringHasNoUnderscore(h2);
    SplitUnderscore(NatToString(h1), IntToString(x1) + "_" + IntToString(y1),
                    NatToString(h2), IntToString(x2) + "_" + IntToString(y2));
    IntToStringHasNoUnderscore(x1);
    IntToStringHasNoUnderscore(x2);
    SplitUnderscore(IntToString(x1), IntToString(y1), IntToString(x2), IntToString(y2));
    NatToStringInjective(w1, w2);
    NatToStringInjective(h1, h2);
    IntToStringInjective(x1, x2);
    IntToStringInjective(y1, y2);
  }

  /**
   * For monitors with sanitised, non-empty names the friendly name determines
   * the name and the geometry: two such monitors share a friendly name only if
   * they agree on all five.
   */
  lemma FriendlyNameInjectiveNamed<P>(a: ImageInfo<P>, b: ImageInfo<P>)
    requires AllAlnum(a.name) && AllAlnum(b.name) && a.name != "" && b.name != ""
    requires FriendlyName(a) == FriendlyName(b)
    ensures a.name == b.name && a.width == b.width && a.height == b.height && a.x == b.x && a.y == b.y
  {
    SplitUnderscore(a.name, Geometry(a.width, a.height, a.x, a.y), b.name, Geometry(b.width, b.height, b.x, b.y));
    GeometryInjective(a.width, a.height, a.x, a.y, b.width, b.height, b.x, b.y);
  }

  /** For monitors without a name the friendly name determines the id and the geometry. */
  lemma FriendlyNameInjectiveUnnamed<P>(a: ImageInfo<P>, b: ImageInfo<P>)
    requires a.name == "" && b.name == ""
    requires FriendlyName(a) == FriendlyName(b)
    ensures a.id == b.id && a.width == b.width && a.height == b.height && a.x == b.x && a.y == b.y
  {
    var ga, gb := Geometry(a.width, a.height, a.x, a.y), Geometry(b.width, b.height, b.x, b.y);
    var ia, ib := NatToString(a.id), NatToString(b.id);
    SplitUnderscore("Monitor", ia + "_" + ga, "Monitor", ib + "_" + gb);
    NatToStringHasNoUnderscore(a.id);
    NatToStringHasNoUnderscore(b.id);
    SplitUnderscore(ia, ga, ib, gb);
    NatToStringInjective(a.id, b.id);
    GeometryInjective(a.width, a.height, a.x, a.y, b.width, b.height, b.x, b.y);
  }

  // ---------------------------------------------------------------------------
  // Object keys
  // ---------------------------------------------------------------------------

  /**
   * The object key of monitor `key`'s image in an event taken at `millis`:
   * the event's sub-directory immediately followed, with no separator, by
   * `{millis}_{key}.webp`.
   */
  function ObjectKey(subdir: string, millis: int, key: u32): string {
    subdir + (IntToString(millis) + "_" + (NatToString(key) + ".webp"))
  }

  /** An object key starts with the event's sub-directory and ends with ".webp". */
  lemma ObjectKeyShape(subdir: string, millis: int, key: u32)
    ensures var k := ObjectKey(subdir, millis, key);
            |k| > |subdir| + 6 && k[..|subdir|] == subdir && k[|k| - 5..] == ".webp"
  {
  }

  lemma StripPrefix(p: string, a: string, b: string)
    requires p + a == p + b
    ensures a == b
  {
    assert a == (p + a)[|p|..];
    assert b == (p + b)[|p|..];
  }

  lemma StripSuffix(a: string, b: string, q: string)
    requires a + q == b + q
    ensures a == b
  {
    assert |a| == |b|;
    assert a == (a + q)[..|a|];
    assert b == (b + q)[..|b|];
  }

  /** Within one event, different monitors get different object keys. */
  lemma ObjectKeysDistinct(subdir: string, millis: int, k1: u32, k2: u32)
    ensures ObjectKey(subdir, millis, k1) == ObjectKey(subdir, millis, k2) <==> k1 == k2
  {
    if ObjectKey(subdir, millis, k1) == ObjectKey(subdir, millis, k2) {
      StripPrefix(subdir, IntToString(millis) + "_" + (NatToString(k1) + ".webp"),
                  IntToString(millis) + "_" + (NatToString(k2) + ".webp"));
      IntToStringHasNoUnderscore(millis);
      SplitUnderscore(IntToString(millis), NatToString(k1) + ".webp", IntToString(millis), NatToString(k2) + ".webp");
      StripSuffix(NatToString(k1), NatToString(k2), ".webp");
      NatToStringInjective(k1, k2);
    }
  }

  /**
   * Keys of events taken in years 0 to 9999 never collide: the key determines
   * both the timestamp and the monitor.
   */
  lemma ObjectKeyInjective(m1: int, k1: u32, m2: int, k2: u32)
    requires 0 <= Calendar.CivilOf(m1).year <= 9999 && 0 <= Calendar.CivilOf(m2).year <= 9999
    requires ObjectKey(Calendar.PathSubdir(m1), m1, k1) == ObjectKey(Calendar.PathSubdir(m2), m2, k2)
    ensures m1 == m2 && k1 == k2
  {
    Calendar.PathSubdirFields(m1);
    Calendar.PathSubdirFields(m2);
    var s1, s2 := Calendar.PathSubdir(m1), Calendar.PathSubdir(m2);
    var r1 := IntToString(m1) + "_" + (NatToString(k1) + ".webp");
    var r2 := IntToString(m2) + "_" + (NatToString(k2) + ".webp");
    assert r1 == ObjectKey(s1, m1, k1)[13..];
    assert r2 == ObjectKey(s2, m2, k2)[13..];
    IntToStringHasNoUnderscore(m1);
    IntToStringHasNoUnderscore(m2);
    SplitUnderscore(IntToString(m1), NatToString(k1) + ".webp", IntToString(m2), NatToString(k2) + ".webp");
    StripSuffix(NatToString(k1), NatToString(k2), ".webp");
    NatToStringInjective(k1, k2);
    IntToStringInjective(m1, m2);
  }

  // ---------------------------------------------------------------------------
  // Upload records
  // ---------------------------------------------------------------------------

  datatype UploadImageInfo = UploadImageInfo(monitorName: string, monitorId: u32, objectKey: string)

  datatype UploadS3Info = UploadS3Info(endpoint: string, bucket: string, prefix: string)

  /** The upload record `into_parts` derives for the entry under `key`. */
  function UploadFor(subdir: string, millis: int, key: u32, info: ImageInfo<WebpImage>): UploadImageInfo {
    UploadImageInfo(FriendlyName(info), key, ObjectKey(subdir, millis, key))
  }

  /** The upload records of all entries of an image event taken at `millis`, whose sub-directory is `subdir`. */
  function UploadsOf(subdir: string, millis: int, datas: map<u32, ImageInfo<WebpImage>>): (r: map<u32, UploadImageInfo>)
    ensures r.Keys == datas.Keys
    ensures forall k :: k in r ==> r[k].monitorId == k && r[k].monitorName == FriendlyName(datas[k])
  {
    map k | k in datas :: UploadFor(subdir, millis, k, datas[k])
  }

  /** Adding an entry adds its upload record. */
  lemma UploadsOfInsert(subdir: string, millis: int, datas: map<u32, ImageInfo<WebpImage>>, key: u32,
                        info: ImageInfo<WebpImage>)
    ensures UploadsOf(subdir, millis, datas[key := info])
         == UploadsOf(subdir, millis, datas)[key := UploadFor(subdir, millis, key, info)]
  {
  }

  /** No two upload records of one event share an object key. */
  lemma UploadKeysDistinct(subdir: string, millis: int, datas: map<u32, ImageInfo<WebpImage>>, k1: u32, k2: u32)
    requires k1 in datas && k2 in datas && k1 != k2
    ensures UploadsOf(subdir, millis, datas)[k1].objectKey != UploadsOf(subdir, millis, datas)[k2].objectKey
  {
    ObjectKeysDistinct(subdir, millis, k1, k2);
  }

  // ---------------------------------------------------------------------------
  // Event containers
  // ---------------------------------------------------------------------------

  /** Encoded image bytes. */
  type WebpImage = seq<u8>

  /** The frames captured in one round, by monitor id. */
  class CaptureEvent {
    var images: map<u32, ImageInfo<RawImage>>
    var timestamp: int

    /** `CaptureEvent::new`, with the clock reading passed in. */
    constructor (now: int)
      ensures images == map[] && timestamp == now
    {
      images := map[];
      timestamp := now;
    }

    /** `add_image`: stores the frame under its monitor id, replacing any earlier one. */
    method AddImage(info: ImageInfo<RawImage>)
      modifies this
      ensures images == old(images)[info.id := info]
      ensures timestamp == old(timestamp)
    {
      images := images[info.id := info];
    }

    function PathSubdir(): string
      reads this
    {
      Calendar.PathSubdir(timestamp)
    }
  }

  /** The encoded frames of one round, with the local directory they were written to. */
  class ImageEvent {
    var datas: map<u32, ImageInfo<WebpImage>>
    var timestamp: int
    var localDir: string

    constructor (timestamp: int, localDir: string)
      ensures datas == map[] && this.timestamp == timestamp && this.localDir == localDir
    {
      datas := map[];
      this.timestamp := timestamp;
      this.localDir := localDir;
    }

    /** `add_data`: stores the encoded frame under its monitor id, replacing any earlier one. */
    method AddData(info: ImageInfo<WebpImage>)
      modifies this
      ensures datas == old(datas)[info.id := info]
      ensures timestamp == old(timestamp) && localDir == old(localDir)
    {
      datas := datas[info.id := info];
    }

    /**
     * `into_parts`: an `AwEvent` with one upload record per entry, and the
     * entries themselves. The event keeps the timestamp and directory and
     * carries the given storage description. Entries are visited in no
     * particular order.
     */
    method IntoParts(s3Info: UploadS3Info) returns (aw: AwEvent, out: map<u32, ImageInfo<WebpImage>>)
      ensures fresh(aw)
      ensures aw.timestamp == timestamp && aw.localDir == localDir && aw.s3Info == Some(s3Info)
      ensures aw.datas == UploadsOf(Calendar.PathSubdir(timestamp), timestamp, datas)
      ensures out == datas
    {
      var entries, millis := datas, timestamp;
      var subdir := Calendar.PathSubdir(millis);
      aw := new AwEvent(millis, localDir, Some(s3Info));
      out := map[];
      var pending := entries.Keys;
      while pending != {}
        invariant PartsPartial(subdir, millis, entries, pending, out, aw.datas)
        invariant aw.timestamp == millis && aw.localDir == localDir && aw.s3Info == Some(s3Info)
        decreases pending
      {
        var key :| key in pending;
        var info := entries[key];
        PartsStep(subdir, millis, entries, pending, out, aw.datas, key);
        aw.AddData(key, UploadFor(subdir, millis, key, info));
        out := out[key := info];
        pending := pending - {key};
      }
      PartsDone(subdir, millis, entries, out, aw.datas);
    }
  }

  /**
   * `into_parts` part way through, with the keys in `pending` still to
   * visit: the visited entries are copied out and have their upload records.
   */
  predicate PartsPartial(subdir: string, millis: int, entries: map<u32, ImageInfo<WebpImage>>, pending: set<u32>,
                         out: map<u32, ImageInfo<WebpImage>>, uploads: map<u32, UploadImageInfo>)
  {
    && pending <= entries.Keys
    && out.Keys == entries.Keys - pending
    && (forall k :: k in out ==> out[k] == entries[k])
    && uploads == UploadsOf(subdir, millis, out)
  }

  /** Visiting one pending key keeps `PartsPartial`. */
  lemma PartsStep(subdir: string, millis: int, entries: map<u32, ImageInfo<WebpImage>>, pending: set<u32>,
                  out: map<u32, ImageInfo<WebpImage>>, uploads: map<u32, UploadImageInfo>, key: u32)
    requires PartsPartial(subdir, millis, entries, pending, out, uploads) && key in pending
    ensures PartsPartial(subdir, millis, entries, pending - {key}, out[key := entries[key]],
                         uploads[key := UploadFor(subdir, millis, key, entries[key])])
  {
    UploadsOfInsert(subdir, millis, out, key, entries[key]);
  }

  /** With nothing pending, every entry is copied out and has its upload record. */
  lemma PartsDone(subdir: string, millis: int, entries: map<u32, ImageInfo<WebpImage>>,
                  out: map<u32, ImageInfo<WebpImage>>, uploads: map<u32, UploadImageInfo>)
    requires PartsPartial(subdir, millis, entries, {}, out, uploads)
    ensures out == entries && uploads == UploadsOf(subdir, millis, entries)
  {
    assert out == entries;
  }

  /** The activity-server side of an image event: upload records by monitor id. */
  class AwEvent {
    var datas: map<u32, UploadImageInfo>
    var timestamp: int
    var localDir: string
    var s3Info: Option<UploadS3Info>

    constructor (timestamp: int, localDir: string, s3Info: Option<UploadS3Info>)
      ensures datas == map[] && this.timestamp == timestamp
      ensures this.localDir == localDir && this.s3Info == s3Info
    {
      datas := map[];
      this.timestamp := timestamp;
      this.localDir := localDir;
      this.s3Info := s3Info;
    }

    /** `get_data`: the record stored under `key`, if there is one. */
    function GetData(key: u32): (r: Option<UploadImageInfo>)
      reads this
      ensures r.Some? <==> key in datas
      ensures r.Some? ==> r.value == datas[key]
    {
      if key in datas then Some(datas[key]) else None
    }

    /** `add_data`: stores the record under `key`, replacing any earlier one. */
    method AddData(key: u32, info: UploadImageInfo)
      modifies this
      ensures datas == old(datas)[key := info]
      ensures timestamp == old(timestamp) && localDir == old(localDir) && s3Info == old(s3Info)
    {
      datas := datas[key := info];
    }
  }
}
