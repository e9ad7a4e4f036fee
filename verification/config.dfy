/**
 * The watcher's configuration record, the pulse-time check applied after the
 * configuration file has been parsed, and the default values.
 *
 * `pulse_time` is an `f64` in the source; here it is an exact `real`, and the
 * conversion of the trigger interval from `u64` to `f64` is taken to be exact.
 */
module Config {
  import opened Wrappers
  import opened Ints

  datatype TriggerConfig = TriggerConfig(intervalSecs: u64, timeoutSecs: Option<u64>)

  /** The dedup policy of the filter and the screenshot service. */
  datatype CaptureConfig = CaptureConfig(forceIntervalSecs: u64, dhashThreshold: u32)

  datatype CacheConfig = CacheConfig(cacheDir: string, webpQuality: u8)

  datatype S3Config = S3Config(enabled: bool, endpoint: string, bucket: string, accessKey: string,
                               secretKey: string, region: string, keyPrefix: Option<string>)

  datatype AwServerConfig = AwServerConfig(host: string, port: u16, bucketId: string, hostname: string,
                                           timeoutSecs: Option<u64>, pulseTime: Option<real>)

  datatype Config = Config(trigger: TriggerConfig, capture: CaptureConfig, cache: CacheConfig,
                           s3: S3Config, awServer: AwServerConfig)

  // ---------------------------------------------------------------------------
  // The pulse-time check of `load_from_file`
  // ---------------------------------------------------------------------------

  /** Four trigger intervals, in seconds: the smallest pulse time accepted. */
  function MinPulse(c: Config): real {
    c.trigger.intervalSecs as real * 4.0
  }

  /** A configured pulse time is rejected only when it is below four trigger intervals. */
  predicate PulseAccepted(c: Config) {
    c.awServer.pulseTime.None? || c.awServer.pulseTime.value >= MinPulse(c)
  }

  const PulseError := "pulse_time shall be greater than trigger interval"

  /**
   * The part of `load_from_file` after parsing: a present pulse time below
   * four trigger intervals is an error; an absent one is set to four trigger
   * intervals; nothing else changes. Equality with four intervals is accepted,
   * the comparison being strict.
   */
  method CheckPulse(parsed: Config) returns (r: Result<Config>)
    ensures r.Err? <==> !PulseAccepted(parsed)
    ensures r.Err? ==> r.error == PulseError
    ensures r.Ok? ==> r.value.awServer.pulseTime.Some? && PulseAccepted(r.value)
    ensures r.Ok? ==> r.value.trigger == parsed.trigger && r.value.capture == parsed.capture
                      && r.value.cache == parsed.cache && r.value.s3 == parsed.s3
                      && r.value.awServer.(pulseTime := parsed.awServer.pulseTime) == parsed.awServer
    ensures parsed.awServer.pulseTime.Some? && r.Ok? ==> r.value == parsed
    ensures parsed.awServer.pulseTime.None? ==> r.Ok? && r.value.awServer.pulseTime == Some(MinPulse(parsed))
  {
    var config := parsed;
    if config.awServer.pulseTime.Some? {
      var triggerInterval := config.trigger.intervalSecs as real;
      if config.awServer.pulseTime.value < triggerInterval * 4.0 {
        return Err(PulseError);
      }
    } else {
      config := config.(awServer := config.awServer.(pulseTime := Some(config.trigger.intervalSecs as real * 4.0)));
    }
    return Ok(config);
  }

  // ---------------------------------------------------------------------------
  // Defaults
  // ---------------------------------------------------------------------------

  /** `CacheConfig::default()`: a relative "cache" directory and WebP quality 75, a lossy setting. */
  function DefaultCacheConfig(): (c: CacheConfig)
    ensures c.cacheDir == "cache"
    ensures c.webpQuality == 75
    ensures 1 <= c.webpQuality < 100
  {
    CacheConfig("cache", 75)
  }

  /** `S3Config::default()`: disabled, every string empty, no key prefix. */
  function DefaultS3Config(): (c: S3Config)
    ensures !c.enabled && c.keyPrefix.None?
    ensures c.endpoint == c.bucket == c.accessKey == c.secretKey == c.region == ""
  {
    S3Config(false, "", "", "", "", "", None)
  }

  /**
   * `AwServerConfig::default()`. `hostLookup` is what the host-name lookup
   * returned, if it succeeded and was valid text.
   */
  function DefaultAwServerConfig(hostLookup: Option<string>): (c: AwServerConfig)
    ensures hostLookup.Some? ==> c.hostname == hostLookup.value
    ensures hostLookup.None? ==> c.hostname == "unknown"
    ensures c.bucketId == "aw-watcher-screenshot" && '_' !in c.bucketId
    ensures c.host == "localhost" && c.port == 5600 && c.timeoutSecs == Some(60) && c.pulseTime == Some(10.0)
  {
    AwServerConfig("localhost", 5600, "aw-watcher-screenshot", hostLookup.GetOr("unknown"), Some(60), Some(10.0))
  }

  /** `Path::join` of one relative component onto a directory, with '/' as separator. */
  function JoinPath(dir: string, name: string): (p: string)
    ensures |dir| + |name| <= |p| <= |dir| + 1 + |name|
    ensures p[..|dir|] == dir && p[|p| - |name|..] == name
  {
    if |dir| == 0 then name
    else if dir[|dir| - 1] == '/' then dir + name
    else dir + "/" + name
  }

  /**
   * `default_config`. `exeDir` is the directory of the running executable;
   * when the executable's path cannot be found the source falls back to the
   * path ".", whose parent is the empty path, so `exeDir` is "" and the cache
   * directory is the relative "cache".
   */
  function DefaultConfig(exeDir: string, hostLookup: Option<string>): (c: Config)
    ensures PulseAccepted(c) && c.awServer.pulseTime == Some(10.0) && MinPulse(c) == 8.0
    ensures c.trigger == TriggerConfig(2, Some(20)) && c.capture == CaptureConfig(60, 10)
    ensures var dir := c.cache.cacheDir;
            |exeDir| + 5 <= |dir| && dir[..|exeDir|] == exeDir && dir[|dir| - 5..] == "cache"
    ensures c.cache.webpQuality == 75 == DefaultCacheConfig().webpQuality
    ensures exeDir == "" ==> c.cache == DefaultCacheConfig()
    ensures c.s3 == DefaultS3Config() && c.awServer == DefaultAwServerConfig(hostLookup)
  {
    Config(TriggerConfig(2, Some(20)),
           CaptureConfig(60, 10),
           CacheConfig(JoinPath(exeDir, "cache"), 75),
           DefaultS3Config(),
           DefaultAwServerConfig(hostLookup))
  }

  /**
   * The pulse check of `load_from_file` applied to the default configuration
   * neither rejects it nor rewrites it: the default pulse time of 10 seconds is
   * present and above four trigger intervals of 2 seconds.
   */
  method DefaultConfigAccepted(exeDir: string, hostLookup: Option<string>) returns (r: Result<Config>)
    ensures r == Ok(DefaultConfig(exeDir, hostLookup))
  {
    r := CheckPulse(DefaultConfig(exeDir, hostLookup));
  }
}
