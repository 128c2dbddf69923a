/**
 * The clock's persistent store (SPIFFS.h, SPIFFS.cpp): a configuration
 * record of sixteen fields in "/config.json" and a statistics record of two
 * counters in "/stats.json", loaded and saved through the flash volume, with
 * a debug callback that receives progress lines.
 */
module Spiffs {
  import opened Arduino
  import opened Flash

  const ConfigPath: string := "/config.json"
  const StatsPath: string := "/stats.json"

  // ---------------------------------------------------------------------------
  // Records
  // ---------------------------------------------------------------------------

  /** The values of a `spiffs_config_t`, field by field. */
  datatype ConfigRecord = ConfigRecord(
    ntpPool: string,
    ntpUpdateInterval: Int32,
    tzs: string,
    showSeconds: bool,
    flashSeconds: bool,
    dayBlanking: Byte,
    blankHourStart: Byte,
    blankHourEnd: Byte,
    pirTimeout: Int32,
    usePIRPullup: bool,
    testMode: bool,
    webAuthentication: bool,
    webUsername: string,
    webPassword: string,
    displayRotate: Byte,
    spinUpSpeed: Byte)

  /** `spiffs_config_t`: the store assigns its fields one by one through a pointer. */
  class Config {
    var ntpPool: string
    var ntpUpdateInterval: Int32
    var tzs: string
    var showSeconds: bool
    var flashSeconds: bool
    var dayBlanking: Byte
    var blankHourStart: Byte
    var blankHourEnd: Byte
    var pirTimeout: Int32
    var usePIRPullup: bool
    var testMode: bool
    var webAuthentication: bool
    var webUsername: string
    var webPassword: string
    var displayRotate: Byte
    var spinUpSpeed: Byte

    function Values(): ConfigRecord
      reads this
    {
      ConfigRecord(ntpPool, ntpUpdateInterval, tzs, showSeconds, flashSeconds,
        dayBlanking, blankHourStart, blankHourEnd, pirTimeout, usePIRPullup,
        testMode, webAuthentication, webUsername, webPassword, displayRotate, spinUpSpeed)
    }
  }

  /** The values of a `spiffs_stats_t`. */
  datatype StatsRecord = StatsRecord(uptimeMins: ULong, tubeOnTimeMins: ULong)

  /** `spiffs_stats_t`: both counters start at 0. */
  class Stats {
    var uptimeMins: ULong
    var tubeOnTimeMins: ULong

    constructor()
      ensures uptimeMins == 0 && tubeOnTimeMins == 0
    {
      uptimeMins := 0;
      tubeOnTimeMins := 0;
    }

    function Values(): StatsRecord
      reads this
    {
      StatsRecord(uptimeMins, tubeOnTimeMins)
    }
  }

  // ---------------------------------------------------------------------------
  // The JSON keys and the conversions of ArduinoJson's `as<T>()`
  // ---------------------------------------------------------------------------

  /**
   * The keys of "/config.json", one per field of the configuration record, in
   * four runs of four that follow the order in which the fields are copied.
   */
  const TimeKeys: set<string> := {"ntp_pool", "ntp_update_interval", "time_zone_string", "showSeconds"}
  const BlankingKeys: set<string> := {"flashSeconds", "dayBlanking", "blankHourStart", "blankHourEnd"}
  const ControlKeys: set<string> := {"pirTimeout", "usePIRPullup", "testMode", "webAuthentication"}
  const WebKeys: set<string> := {"webUsername", "webPassword", "displayRotate", "spinUpSpeed"}
  const ConfigKeys: set<string> := TimeKeys + BlankingKeys + ControlKeys + WebKeys

  /** The keys of "/stats.json". */
  const StatsKeys: set<string> := {"uptime", "tubeontime"}

  /** `json[key]`: the value under `key`, if there is one. */
  function Get(obj: JsonObject, key: string): (v: Option<Value>)
    ensures v.Some? <==> key in obj
  {
    if key in obj then Some(obj[key]) else None
  }

  function AsString(v: Option<Value>): string
  {
    if v.Some? && v.value.Str? then v.value.s else ""
  }

  function AsInt(v: Option<Value>): Int32
  {
    if v.Some? && v.value.Int? then WrapInt32(v.value.i) else 0
  }

  function AsBool(v: Option<Value>): bool
  {
    if v.Some? && v.value.Bool? then v.value.b
    else v.Some? && v.value.Int? && v.value.i != 0
  }

  function AsByte(v: Option<Value>): Byte
  {
    if v.Some? && v.value.Int? then WrapByte(v.value.i) else 0
  }

  function AsULong(v: Option<Value>): ULong
  {
    if v.Some? && v.value.Int? then WrapULong(v.value.i) else 0
  }

  /** The object saveConfigToSpiffs builds: one key per field. */
  function EncodeConfig(c: ConfigRecord): JsonObject
  {
    map[
      "ntp_pool" := Str(c.ntpPool),
      "ntp_update_interval" := Int(c.ntpUpdateInterval),
      "time_zone_string" := Str(c.tzs),
      "showSeconds" := Bool(c.showSeconds),
      "flashSeconds" := Bool(c.flashSeconds),
      "dayBlanking" := Int(c.dayBlanking),
      "blankHourStart" := Int(c.blankHourStart),
      "blankHourEnd" := Int(c.blankHourEnd),
      "pirTimeout" := Int(c.pirTimeout),
      "usePIRPullup" := Bool(c.usePIRPullup),
      "testMode" := Bool(c.testMode),
      "webAuthentication" := Bool(c.webAuthentication),
      "webUsername" := Str(c.webUsername),
      "webPassword" := Str(c.webPassword),
      "displayRotate" := Int(c.displayRotate),
      "spinUpSpeed" := Int(c.spinUpSpeed)]
  }

  /** The record getConfigFromSpiffs copies out of a parsed object, field by field. */
  function DecodeConfig(obj: JsonObject): ConfigRecord
  {
    ConfigRecord(
      AsString(Get(obj, "ntp_pool")),
      AsInt(Get(obj, "ntp_update_interval")),
      AsString(Get(obj, "time_zone_string")),
      AsBool(Get(obj, "showSeconds")),
      AsBool(Get(obj, "flashSeconds")),
      AsByte(Get(obj, "dayBlanking")),
      AsByte(Get(obj, "blankHourStart")),
      AsByte(Get(obj, "blankHourEnd")),
      AsInt(Get(obj, "pirTimeout")),
      AsBool(Get(obj, "usePIRPullup")),
      AsBool(Get(obj, "testMode")),
      AsBool(Get(obj, "webAuthentication")),
      AsString(Get(obj, "webUsername")),
      AsString(Get(obj, "webPassword")),
      AsByte(Get(obj, "displayRotate")),
      AsByte(Get(obj, "spinUpSpeed")))
  }

  /** The object saveStatsToSpiffs builds. */
  function EncodeStats(s: StatsRecord): JsonObject
  {
    map["uptime" := Int(s.uptimeMins), "tubeontime" := Int(s.tubeOnTimeMins)]
  }

  /** The counters getStatsFromSpiffs reads out of a parsed object. */
  function DecodeStats(obj: JsonObject): StatsRecord
  {
    StatsRecord(AsULong(Get(obj, "uptime")), AsULong(Get(obj, "tubeontime")))
  }

  lemma KeyRunSizes()
    ensures |TimeKeys| == 4 && |BlankingKeys| == 4 && |ControlKeys| == 4 && |WebKeys| == 4
  {
  }

  lemma KeyRunsDisjoint()
    ensures TimeKeys !! BlankingKeys && TimeKeys !! ControlKeys && TimeKeys !! WebKeys
    ensures BlankingKeys !! ControlKeys && BlankingKeys !! WebKeys && ControlKeys !! WebKeys
  {
    assert TimeKeys !! BlankingKeys && TimeKeys !! ControlKeys && TimeKeys !! WebKeys;
  }

  /** The configuration file has sixteen keys, one per field, all distinct. */
  lemma ConfigKeysCount()
    ensures |ConfigKeys| == 16
  {
    KeyRunSizes();
    KeyRunsDisjoint();
    assert |TimeKeys + BlankingKeys| == 8;
    assert |TimeKeys + BlankingKeys + ControlKeys| == 12;
  }

  /** Saving writes exactly the sixteen configuration keys. */
  lemma EncodeConfigKeys(c: ConfigRecord)
    ensures EncodeConfig(c).Keys == ConfigKeys
  {
  }

  lemma EncodeTimeFields(c: ConfigRecord)
    ensures var m := EncodeConfig(c);
      "ntp_pool" in m && m["ntp_pool"] == Str(c.ntpPool)
      && "ntp_update_interval" in m && m["ntp_update_interval"] == Int(c.ntpUpdateInterval)
      && "time_zone_string" in m && m["time_zone_string"] == Str(c.tzs)
      && "showSeconds" in m && m["showSeconds"] == Bool(c.showSeconds)
  {
    KeyRunsDisjoint();
  }

  lemma EncodeBlankingFields(c: ConfigRecord)
    ensures var m := EncodeConfig(c);
      "flashSeconds" in m && m["flashSeconds"] == Bool(c.flashSeconds)
      && "dayBlanking" in m && m["dayBlanking"] == Int(c.dayBlanking)
      && "blankHourStart" in m && m["blankHourStart"] == Int(c.blankHourStart)
      && "blankHourEnd" in m && m["blankHourEnd"] == Int(c.blankHourEnd)
  {
    KeyRunsDisjoint();
  }

  lemma EncodeControlFields(c: ConfigRecord)
    ensures var m := EncodeConfig(c);
      "pirTimeout" in m && m["pirTimeout"] == Int(c.pirTimeout)
      && "usePIRPullup" in m && m["usePIRPullup"] == Bool(c.usePIRPullup)
      && "testMode" in m && m["testMode"] == Bool(c.testMode)
      && "webAuthentication" in m && m["webAuthentication"] == Bool(c.webAuthentication)
  {
    KeyRunsDisjoint();
  }

  lemma EncodeWebFields(c: ConfigRecord)
    ensures var m := EncodeConfig(c);
      "webUsername" in m && m["webUsername"] == Str(c.webUsername)
      && "webPassword" in m && m["webPassword"] == Str(c.webPassword)
      && "displayRotate" in m && m["displayRotate"] == Int(c.displayRotate)
      && "spinUpSpeed" in m && m["spinUpSpeed"] == Int(c.spinUpSpeed)
  {
    KeyRunsDisjoint();
  }

  /** Every field is read back from the key it was saved under, whatever its value. */
  lemma DecodeEncodeConfig(c: ConfigRecord)
    ensures DecodeConfig(EncodeConfig(c)) == c
  {
    EncodeTimeFields(c);
    EncodeBlankingFields(c);
    EncodeControlFields(c);
    EncodeWebFields(c);
  }

  /** Keys other than the sixteen do not affect what a load copies out. */
  lemma DecodeConfigOtherKeys(obj: JsonObject, key: string, v: Value)
    requires key !in ConfigKeys
    ensures DecodeConfig(obj[key := v]) == DecodeConfig(obj)
  {
  }

  lemma EncodeStatsKeys(s: StatsRecord)
    ensures EncodeStats(s).Keys == StatsKeys && |StatsKeys| == 2
  {
  }

  /** Both counters are read back from the keys they were saved under. */
  lemma DecodeEncodeStats(s: StatsRecord)
    ensures DecodeStats(EncodeStats(s)) == s
  {
  }

  // ---------------------------------------------------------------------------
  // SPIFFS_CLOCK
  // ---------------------------------------------------------------------------

  /** A `DebugCallback` function pointer, by identity. */
  datatype DebugCallback = DebugCallback(id: nat)

  /** One call of the debug callback: which callback, and the text it received. */
  datatype DebugLine = DebugLine(to: DebugCallback, text: string)

  /** The component tag debugMsg puts in front of every message. */
  const Tag: string := "SPIFFS: "

  predicate Tagged(text: string) {
    |Tag| <= |text| && text[..|Tag|] == Tag
  }

  class SpiffsClock {
    /** `_dbcb`; `None` is the null pointer. */
    var dbcb: Option<DebugCallback>
    var debug: bool
    var spiffsMounted: bool
    /** Every call made to a debug callback so far, in order. */
    var sent: seq<DebugLine>

    /** The static instance: `_dbcb` zero-initialised, both flags false, nothing sent. */
    constructor()
      ensures dbcb == None && !debug && !spiffsMounted && sent == [] && AllTagged()
    {
      dbcb := None;
      debug := false;
      spiffsMounted := false;
      sent := [];
    }

    /** Debug lines go out only with a callback set and debugging on. */
    predicate Active()
      reads this
    {
      dbcb.Some? && debug
    }

    /** Every text a debug callback has received from this component starts with the tag. */
    predicate AllTagged()
      reads this`sent
    {
      forall i | 0 <= i < |sent| :: Tagged(sent[i].text)
    }

    /**
     * debugMsg: when active, hands "SPIFFS: " + message to the callback, which
     * is recorded as one more line in `sent`; otherwise does nothing.
     */
    method DebugMsg(message: string)
      modifies this`sent
      requires AllTagged()
      ensures sent == if Active() then old(sent) + [DebugLine(dbcb.value, Tag + message)] else old(sent)
      ensures AllTagged()
    {
      if dbcb.Some? && debug {
        sent := sent + [DebugLine(dbcb.value, Tag + message)];
      }
    }

    /** setDebugCallback: installs `cb` (possibly null) and announces it. */
    method SetDebugCallback(cb: Option<DebugCallback>)
      modifies this`dbcb, this`sent
      ensures dbcb == cb
      requires AllTagged()
      ensures sent == if Active() then old(sent) + [DebugLine(cb.value, Tag + "Debugging started, callback set")] else old(sent)
      ensures AllTagged()
    {
      dbcb := cb;
      DebugMsg("Debugging started, callback set");
    }

    /** setDebugOutput */
    method SetDebugOutput(newDebug: bool)
      modifies this`debug
      ensures debug == newDebug
    {
      debug := newDebug;
    }

    /** testMountSpiffs: records whether `begin()` succeeds, unmounting again when it does. */
    method TestMountSpiffs(fs: Volume, io: Io) returns (mounted: bool)
      modifies this`spiffsMounted, fs
      ensures mounted == (old(fs.mounted) || io.mountOk) && spiffsMounted == mounted
      ensures !fs.mounted && fs.ends == old(fs.ends) + (if mounted then 1 else 0)
      ensures fs.files == old(fs.files) && fs.openHandles == old(fs.openHandles)
    {
      spiffsMounted := false;
      var ok := fs.Begin(io);
      if ok {
        spiffsMounted := true;
        fs.End();
      }
      mounted := spiffsMounted;
    }

    /** getSpiffsMounted */
    method GetSpiffsMounted() returns (mounted: bool)
      ensures mounted == spiffsMounted
    {
      mounted := spiffsMounted;
    }

    /** The first four field copies of getConfigFromSpiffs, each followed by its debug line. */
    method CopyTimeFields(json: JsonObject, config: Config)
      requires AllTagged()
      modifies config`ntpPool, config`ntpUpdateInterval, config`tzs, config`showSeconds, this`sent
      ensures AllTagged()
      ensures var v := DecodeConfig(json);
        config.ntpPool == v.ntpPool && config.ntpUpdateInterval == v.ntpUpdateInterval
        && config.tzs == v.tzs && config.showSeconds == v.showSeconds
      ensures !Active() ==> sent == old(sent)
      ensures |sent| == |old(sent)| + if Active() then 4 else 0
    {
      config.ntpPool := AsString(Get(json, "ntp_pool"));
      DebugMsg("Loaded NTP pool: " + config.ntpPool);
      config.ntpUpdateInterval := AsInt(Get(json, "ntp_update_interval"));
      DebugMsg("Loaded NTP update interval: " + IntToString(config.ntpUpdateInterval));
      config.tzs := AsString(Get(json, "time_zone_string"));
      DebugMsg("Loaded time zone string: " + config.tzs);
      config.showSeconds := AsBool(Get(json, "showSeconds"));
      DebugMsg("Loaded showSeconds: " + BoolToString(config.showSeconds));
    }

    /** The next four: seconds flashing and the blanking window. */
    method CopyBlankingFields(json: JsonObject, config: Config)
      requires AllTagged()
      modifies config`flashSeconds, config`dayBlanking, config`blankHourStart, config`blankHourEnd, this`sent
      ensures AllTagged()
      ensures var v := DecodeConfig(json);
        config.flashSeconds == v.flashSeconds && config.dayBlanking == v.dayBlanking
        && config.blankHourStart == v.blankHourStart && config.blankHourEnd == v.blankHourEnd
      ensures !Active() ==> sent == old(sent)
      ensures |sent| == |old(sent)| + if Active() then 4 else 0
    {
      config.flashSeconds := AsBool(Get(json, "flashSeconds"));
      DebugMsg("Loaded flashSeconds: " + BoolToString(config.flashSeconds));
      config.dayBlanking := AsByte(Get(json, "dayBlanking"));
      DebugMsg("Loaded dayBlanking: " + IntToString(config.dayBlanking));
      config.blankHourStart := AsByte(Get(json, "blankHourStart"));
      DebugMsg("Loaded blankHourStart: " + IntToString(config.blankHourStart));
      config.blankHourEnd := AsByte(Get(json, "blankHourEnd"));
      DebugMsg("Loaded blankHourEnd: " + IntToString(config.blankHourEnd));
    }

    /** The next four: the motion sensor, test mode and web authentication. */
    method CopyControlFields(json: JsonObject, config: Config)
      requires AllTagged()
      modifies config`pirTimeout, config`usePIRPullup, config`testMode, config`webAuthentication, this`sent
      ensures AllTagged()
      ensures var v := DecodeConfig(json);
        config.pirTimeout == v.pirTimeout && config.usePIRPullup == v.usePIRPullup
        && config.testMode == v.testMode && config.webAuthentication == v.webAuthentication
      ensures !Active() ==> sent == old(sent)
      ensures |sent| == |old(sent)| + if Active() then 4 else 0
    {
      config.pirTimeout := AsInt(Get(json, "pirTimeout"));
      DebugMsg("Loaded pirTimeout: " + IntToString(config.pirTimeout));
      config.usePIRPullup := AsBool(Get(json, "usePIRPullup"));
      DebugMsg("Loaded usePIRPullup: " + BoolToString(config.usePIRPullup));
      config.testMode := AsBool(Get(json, "testMode"));
      DebugMsg("Loaded testMode: " + BoolToString(config.testMode));
      config.webAuthentication := AsBool(Get(json, "webAuthentication"));
      DebugMsg("Loaded webAuthentication: " + BoolToString(config.webAuthentication));
    }

    /** The last four: the web credentials, display rotation and spin-up speed. */
    method CopyWebFields(json: JsonObject, config: Config)
      requires AllTagged()
      modifies config`webUsername, config`webPassword, config`displayRotate, config`spinUpSpeed, this`sent
      ensures AllTagged()
      ensures var v := DecodeConfig(json);
        config.webUsername == v.webUsername && config.webPassword == v.webPassword
        && config.displayRotate == v.displayRotate && config.spinUpSpeed == v.spinUpSpeed
      ensures !Active() ==> sent == old(sent)
      ensures |sent| == |old(sent)| + if Active() then 4 else 0
    {
      config.webUsername := AsString(Get(json, "webUsername"));
      DebugMsg("Loaded webUsername: " + config.webUsername);
      config.webPassword := AsString(Get(json, "webPassword"));
      DebugMsg("Loaded webPassword: " + config.webPassword);
      config.displayRotate := AsByte(Get(json, "displayRotate"));
      DebugMsg("Loaded displayRotate: " + IntToString(config.displayRotate));
      config.spinUpSpeed := AsByte(Get(json, "spinUpSpeed"));
      DebugMsg("Loaded spinUpSpeed: " + IntToString(config.spinUpSpeed));
    }

    /** All sixteen field copies of a parsed configuration object, one debug line each. */
    method CopyConfig(json: JsonObject, config: Config)
      requires AllTagged()
      modifies config, this`sent
      ensures AllTagged()
      ensures config.Values() == DecodeConfig(json)
      ensures !Active() ==> sent == old(sent)
      ensures |sent| == |old(sent)| + if Active() then 16 else 0
    {
      CopyTimeFields(json, config);
      CopyBlankingFields(json, config);
      CopyControlFields(json, config);
      CopyWebFields(json, config);
    }

    /**
     * The opened-file part of getConfigFromSpiffs: open "/config.json", parse
     * it, copy the fields when it parsed, and close the file when it opened.
     */
    method ReadConfig(fs: Volume, io: Io, config: Config) returns (loaded: bool)
      requires fs.mounted && ConfigPath in fs.files
      requires AllTagged()
      modifies this`sent, fs, config
      ensures AllTagged()
      ensures loaded == (io.openOk && old(fs.files)[ConfigPath].Json?)
      ensures loaded ==> config.Values() == DecodeConfig(old(fs.files)[ConfigPath].obj)
      ensures !loaded ==> unchanged(config)
      ensures fs.files == old(fs.files) && fs.mounted && fs.ends == old(fs.ends)
      ensures fs.openHandles == old(fs.openHandles)
      ensures !Active() ==> sent == old(sent)
      ensures Active() ==> |sent| > |old(sent)|
    {
      loaded := false;
      DebugMsg("reading config file");
      var configFile := fs.OpenRead(ConfigPath, io);
      if configFile.Some? {
        DebugMsg("opened config file");
        var json := fs.ReadObject(configFile.value);
        DebugMsg("\n");
        if json.Some? {
          DebugMsg("parsed json");
          CopyConfig(json.value, config);
          loaded := true;
        } else {
          DebugMsg("failed to load json config");
        }
        DebugMsg("Closing config file");
        fs.Close(configFile);
      }
    }

    /**
     * getConfigFromSpiffs: true exactly when the volume mounts, "/config.json"
     * exists, opens and parses; only then is `config` written.  The volume is
     * unmounted once on every path and the file, when opened, is closed.
     */
    method GetConfigFromSpiffs(fs: Volume, io: Io, config: Config) returns (loaded: bool)
      requires AllTagged()
      modifies this`sent, fs, config
      ensures AllTagged()
      ensures loaded == ((old(fs.mounted) || io.mountOk) && ConfigPath in old(fs.files)
        && io.openOk && old(fs.files)[ConfigPath].Json?)
      ensures loaded ==> config.Values() == DecodeConfig(old(fs.files)[ConfigPath].obj)
      ensures !loaded ==> unchanged(config)
      ensures fs.files == old(fs.files) && !fs.mounted && fs.ends == old(fs.ends) + 1
      ensures fs.openHandles == old(fs.openHandles)
      ensures !Active() ==> sent == old(sent)
      ensures Active() ==> |sent| > |old(sent)|
    {
      loaded := false;
      var ok := fs.Begin(io);
      if ok {
        DebugMsg("mounted file system");
        var present := fs.Exists(ConfigPath);
        if present {
          loaded := ReadConfig(fs, io, config);
        }
      } else {
        DebugMsg("failed to mount FS");
      }
      fs.End();
    }

    /**
     * The mounted part of saveConfigToSpiffs: build the object, open
     * "/config.json" for writing and print the object into it.  When the file
     * does not open it returns `false`, and the caller returns without `end()`.
     */
    method WriteConfig(fs: Volume, io: Io, config: Config) returns (written: bool)
      requires fs.mounted
      requires AllTagged()
      modifies this`sent, fs
      ensures AllTagged()
      ensures written == io.openOk
      ensures fs.files == if written then old(fs.files)[ConfigPath := Json(EncodeConfig(config.Values()))] else old(fs.files)
      ensures fs.mounted && fs.ends == old(fs.ends) && fs.openHandles == old(fs.openHandles)
      ensures !Active() ==> sent == old(sent)
      ensures Active() ==> |sent| > |old(sent)|
    {
      DebugMsg("saving config");
      var json: JsonObject := map[];
      json := json["ntp_pool" := Str(config.ntpPool)];
      json := json["ntp_update_interval" := Int(config.ntpUpdateInterval)];
      json := json["time_zone_string" := Str(config.tzs)];
      json := json["showSeconds" := Bool(config.showSeconds)];
      json := json["flashSeconds" := Bool(config.flashSeconds)];
      json := json["dayBlanking" := Int(config.dayBlanking)];
      json := json["blankHourStart" := Int(config.blankHourStart)];
      json := json["blankHourEnd" := Int(config.blankHourEnd)];
      json := json["pirTimeout" := Int(config.pirTimeout)];
      json := json["usePIRPullup" := Bool(config.usePIRPullup)];
      json := json["testMode" := Bool(config.testMode)];
      json := json["webAuthentication" := Bool(config.webAuthentication)];
      json := json["webUsername" := Str(config.webUsername)];
      json := json["webPassword" := Str(config.webPassword)];
      json := json["displayRotate" := Int(config.displayRotate)];
      json := json["spinUpSpeed" := Int(config.spinUpSpeed)];
      assert json == EncodeConfig(config.Values());

      var configFile := fs.OpenWrite(ConfigPath, io);
      if configFile.None? {
        DebugMsg("failed to open config file for writing");
        fs.Close(configFile);
        return false;
      }
      DebugMsg("\n");
      fs.PrintTo(configFile.value, json);
      fs.Close(configFile);
      DebugMsg("Saved config");
      return true;
    }

    /**
     * saveConfigToSpiffs: writes the sixteen keys to "/config.json".  Nothing
     * is written when the volume does not mount; when the file does not open
     * for writing it returns before `end()`, leaving the volume mounted.
     */
    method SaveConfigToSpiffs(fs: Volume, io: Io, config: Config)
      requires AllTagged()
      modifies this`sent, fs
      ensures AllTagged()
      ensures var mounts := old(fs.mounted) || io.mountOk;
        && fs.files == (if mounts && io.openOk then old(fs.files)[ConfigPath := Json(EncodeConfig(config.Values()))] else old(fs.files))
        && fs.mounted == (mounts && !io.openOk)
        && fs.ends == old(fs.ends) + (if mounts && !io.openOk then 0 else 1)
      ensures fs.openHandles == old(fs.openHandles)
      ensures !Active() ==> sent == old(sent)
      ensures Active() ==> |sent| > |old(sent)|
    {
      var ok := fs.Begin(io);
      if ok {
        DebugMsg("mounted file system");
        var written := WriteConfig(fs, io, config);
        if !written {
          return;
        }
      } else {
        DebugMsg("failed to mount FS");
      }
      fs.End();
    }

    /**
     * The opened-file part of getStatsFromSpiffs: open "/stats.json", parse
     * it, copy both counters when it parsed, and close the file when it opened.
     */
    method ReadStats(fs: Volume, io: Io, stats: Stats) returns (loaded: bool)
      requires fs.mounted && StatsPath in fs.files
      requires AllTagged()
      modifies this`sent, fs, stats
      ensures AllTagged()
      ensures loaded == (io.openOk && old(fs.files)[StatsPath].Json?)
      ensures loaded ==> stats.Values() == DecodeStats(old(fs.files)[StatsPath].obj)
      ensures !loaded ==> unchanged(stats)
      ensures fs.files == old(fs.files) && fs.mounted && fs.ends == old(fs.ends)
      ensures fs.openHandles == old(fs.openHandles)
      ensures !Active() ==> sent == old(sent)
      ensures Active() ==> |sent| > |old(sent)|
    {
      loaded := false;
      DebugMsg("reading stats file");
      var statsFile := fs.OpenRead(StatsPath, io);
      if statsFile.Some? {
        DebugMsg("opened stats file");
        var json := fs.ReadObject(statsFile.value);
        DebugMsg("\n");
        if json.Some? {
          DebugMsg("parsed stats json");
          stats.uptimeMins := AsULong(Get(json.value, "uptime"));
          DebugMsg("Loaded uptime: " + IntToString(stats.uptimeMins));
          stats.tubeOnTimeMins := AsULong(Get(json.value, "tubeontime"));
          DebugMsg("Loaded tubeontime: " + IntToString(stats.tubeOnTimeMins));
          loaded := true;
        } else {
          DebugMsg("failed to load json config");
        }
        DebugMsg("Closing stats file");
        fs.Close(statsFile);
      }
    }

    /**
     * getStatsFromSpiffs: true exactly when the volume mounts, "/stats.json"
     * exists, opens and parses; only then are the counters written.
     */
    method GetStatsFromSpiffs(fs: Volume, io: Io, stats: Stats) returns (loaded: bool)
      requires AllTagged()
      modifies this`sent, fs, stats
      ensures AllTagged()
      ensures loaded == ((old(fs.mounted) || io.mountOk) && StatsPath in old(fs.files)
        && io.openOk && old(fs.files)[StatsPath].Json?)
      ensures loaded ==> stats.Values() == DecodeStats(old(fs.files)[StatsPath].obj)
      ensures !loaded ==> unchanged(stats)
      ensures fs.files == old(fs.files) && !fs.mounted && fs.ends == old(fs.ends) + 1
      ensures fs.openHandles == old(fs.openHandles)
      ensures !Active() ==> sent == old(sent)
      ensures Active() ==> |sent| > |old(sent)|
    {
      loaded := false;
      var ok := fs.Begin(io);
      if ok {
        DebugMsg("mounted file system");
        var present := fs.Exists(StatsPath);
        if present {
          loaded := ReadStats(fs, io, stats);
        }
      } else {
        DebugMsg("failed to mount FS");
      }
      fs.End();
    }

    /**
     * The mounted part of saveStatsToSpiffs, with the same early return as
     * WriteConfig when the file does not open.
     */
    method WriteStats(fs: Volume, io: Io, stats: Stats) returns (written: bool)
      requires fs.mounted
      requires AllTagged()
      modifies this`sent, fs
      ensures AllTagged()
      ensures written == io.openOk
      ensures fs.files == if written then old(fs.files)[StatsPath := Json(EncodeStats(stats.Values()))] else old(fs.files)
      ensures fs.mounted && fs.ends == old(fs.ends) && fs.openHandles == old(fs.openHandles)
      ensures !Active() ==> sent == old(sent)
      ensures Active() ==> |sent| > |old(sent)|
    {
      DebugMsg("saving stats");
      var json: JsonObject := map[];
      json := json["uptime" := Int(stats.uptimeMins)];
      json := json["tubeontime" := Int(stats.tubeOnTimeMins)];

      var statsFile := fs.OpenWrite(StatsPath, io);
      if statsFile.None? {
        DebugMsg("failed to open stats file for writing");
        fs.Close(statsFile);
        return false;
      }
      DebugMsg("\n");
      fs.PrintTo(statsFile.value, json);
      fs.Close(statsFile);
      DebugMsg("Saved stats");
      return true;
    }

    /**
     * saveStatsToSpiffs: writes "uptime" and "tubeontime" to "/stats.json",
     * with the same failure paths as saveConfigToSpiffs.
     */
    method SaveStatsToSpiffs(fs: Volume, io: Io, stats: Stats)
      requires AllTagged()
      modifies this`sent, fs
      ensures AllTagged()
      ensures var mounts := old(fs.mounted) || io.mountOk;
        && fs.files == (if mounts && io.openOk then old(fs.files)[StatsPath := Json(EncodeStats(stats.Values()))] else old(fs.files))
        && fs.mounted == (mounts && !io.openOk)
        && fs.ends == old(fs.ends) + (if mounts && !io.openOk then 0 else 1)
      ensures fs.openHandles == old(fs.openHandles)
      ensures !Active() ==> sent == old(sent)
      ensures Active() ==> |sent| > |old(sent)|
    {
      var ok := fs.Begin(io);
      if ok {
        DebugMsg("mounted file system");
        var written := WriteStats(fs, io, stats);
        if !written {
          return;
        }
      } else {
        DebugMsg("failed to mount FS");
      }
      fs.End();
    }
  }

  /** `String(b)` for a `bool`: the value promotes to `int`, so `String(int)` prints "1" or "0". */
  function BoolToString(b: bool): string
  {
    IntToString(if b then 1 else 0)
  }

  /**
   * Save then load on a volume that mounts and opens: the load succeeds and
   * reproduces every field of the saved record.
   */
  method ConfigRoundTrip(clock: SpiffsClock, fs: Volume, src: Config, dst: Config) returns (loaded: bool)
    requires clock.AllTagged()
    modifies clock, fs, dst
    ensures loaded && dst.Values() == src.Values()
    ensures !fs.mounted
  {
    clock.SaveConfigToSpiffs(fs, Io(true, true), src);
    loaded := clock.GetConfigFromSpiffs(fs, Io(true, true), dst);
    DecodeEncodeConfig(old(src.Values()));
  }

  /** The same for the statistics counters. */
  method StatsRoundTrip(clock: SpiffsClock, fs: Volume, src: Stats, dst: Stats) returns (loaded: bool)
    requires clock.AllTagged()
    modifies clock, fs, dst
    ensures loaded && dst.Values() == src.Values()
    ensures !fs.mounted
  {
    clock.SaveStatsToSpiffs(fs, Io(true, true), src);
    loaded := clock.GetStatsFromSpiffs(fs, Io(true, true), dst);
    DecodeEncodeStats(old(src.Values()));
  }
}
