/**
 * The root command of cmd/photos2map/root.go: where the directory and the
 * output type come from, when debug logging is switched on, and which
 * renderer (if any) a run ends in. Flag parsing, configuration loading and
 * the filesystem are inputs: a flag is Some(value) when the user set it on
 * the command line and None otherwise; the configuration is the parsed
 * environment; `walk` gives the entries the walk of a directory visits.
 */
module Root {
  import opened Wrappers
  import opened Geo
  import opened Extract
  import opened Gpx

  /** The configuration read from PHOTOS2MAP_DEBUG, PHOTOS2MAP_DIR and PHOTOS2MAP_OUTPUT (or .env). */
  datatype Config = Config(debug: bool, dir: string, output: string)

  /** The default of both the --dir flag and the Dir setting. */
  const DirDefault: string := "."
  /** The default of both the --output flag and the Output setting. */
  const OutputDefault: string := "html"

  const NoDataMessage: string := "No GPS data found in the images."

  /** logrus levels, in the order of their numeric values (Panic is 0, Trace is 6). */
  datatype Level = PanicLevel | FatalLevel | ErrorLevel | WarnLevel | InfoLevel | DebugLevel | TraceLevel

  function Rank(l: Level): nat
  {
    match l
    case PanicLevel => 0
    case FatalLevel => 1
    case ErrorLevel => 2
    case WarnLevel => 3
    case InfoLevel => 4
    case DebugLevel => 5
    case TraceLevel => 6
  }

  /** logrus' IsLevelEnabled: messages at `l` are emitted when the logger is set to `current`. */
  predicate IsLevelEnabled(current: Level, l: Level)
  {
    Rank(current) >= Rank(l)
  }

  /** The value cmd.Flags().GetString returns: what the user set, else the flag's default. */
  function FlagValue(flag: Option<string>, default: string): (v: string)
    ensures flag.Some? ==> v == flag.value
    ensures flag.None? ==> v == default
  {
    if flag.Some? then flag.value else default
  }

  /**
   * The directory to scan: the --dir flag when the user set it, else the
   * configured Dir when it differs from ".", else ".". The guard on "." is
   * redundant: an unset flag always yields the configured value.
   */
  function ResolveDir(dirFlag: Option<string>, conf: Config): (dir: string)
    ensures dirFlag.Some? ==> dir == dirFlag.value
    ensures dirFlag.None? ==> dir == conf.dir
  {
    var dir := FlagValue(dirFlag, DirDefault);
    if dirFlag.None? && conf.dir != DirDefault then conf.dir else dir
  }

  /** The output type, resolved like the directory with "html" as the default. */
  function ResolveOutput(outputFlag: Option<string>, conf: Config): (outputType: string)
    ensures outputFlag.Some? ==> outputType == outputFlag.value
    ensures outputFlag.None? ==> outputType == conf.output
  {
    var outputType := FlagValue(outputFlag, OutputDefault);
    if outputFlag.None? && conf.output != OutputDefault then conf.output else outputType
  }

  /** rootCmdPreRun: the logger level after the pre-run hook. */
  function PreRunLevel(current: Level, debugFlag: bool, conf: Config): (next: Level)
    ensures debugFlag || conf.debug ==> next == DebugLevel
    ensures !debugFlag && !conf.debug ==> next == current
  {
    if debugFlag || conf.debug then DebugLevel else current
  }

  /** From logrus' default Info level, debug messages appear iff the flag or the setting asks for them. */
  lemma DebugLoggingIffRequested(debugFlag: bool, conf: Config)
    ensures IsLevelEnabled(PreRunLevel(InfoLevel, debugFlag, conf), DebugLevel) <==> debugFlag || conf.debug
  {
  }

  /** How a run ends. */
  datatype RunOutcome =
    | WalkFatal(err: string)           // log.Fatalf in the scanner
    | NoGpsData(message: string)       // the informational message, no renderer
    | GpxRendered(result: GpxOutcome)  // GenerateGPX ran
    | MapRendered(gpsData: seq<GeoData>) // GenerateMap ran on these records

  /**
   * run: resolve the settings, scan the directory, then print the message
   * for an empty result, or call exactly one renderer: GPX iff the output
   * type is exactly "gpx", the map for any other string.
   */
  method Run(dirFlag: Option<string>, outputFlag: Option<string>, conf: Config,
             walk: string -> seq<Entry>, gpxCreateErr: Option<string>, marshal: GpxDoc -> MarshalResult)
    returns (o: RunOutcome)
    ensures var scan := Scan(walk(ResolveDir(dirFlag, conf)));
            scan.Fatal? ==> o == WalkFatal(scan.err)
    ensures var scan := Scan(walk(ResolveDir(dirFlag, conf)));
            scan.Found? && scan.gpsData == [] ==> o == NoGpsData(NoDataMessage)
    ensures var scan := Scan(walk(ResolveDir(dirFlag, conf)));
            o.GpxRendered? <==> scan.Found? && scan.gpsData != [] && ResolveOutput(outputFlag, conf) == "gpx"
    ensures var scan := Scan(walk(ResolveDir(dirFlag, conf)));
            o.GpxRendered? ==> o.result == (if gpxCreateErr.Some? then CreateFailed(gpxCreateErr.value)
                                            else Written(Content(marshal(Document(scan.gpsData)))))
    ensures var scan := Scan(walk(ResolveDir(dirFlag, conf)));
            o.MapRendered? <==> scan.Found? && scan.gpsData != [] && ResolveOutput(outputFlag, conf) != "gpx"
    ensures o.MapRendered? ==> o.gpsData == Scan(walk(ResolveDir(dirFlag, conf))).gpsData
  {
    var dir := FlagValue(dirFlag, DirDefault);
    var outputType := FlagValue(outputFlag, OutputDefault);
    if dirFlag.None? && conf.dir != DirDefault {
      dir := conf.dir;
    }
    if outputFlag.None? && conf.output != OutputDefault {
      outputType := conf.output;
    }
    var scan := ExtractGPSData(walk(dir));
    if scan.Fatal? {
      return WalkFatal(scan.err);
    }
    var gpsData := scan.gpsData;
    if |gpsData| > 0 {
      if outputType == "gpx" {
        var result := GenerateGPX(gpsData, gpxCreateErr, marshal);
        o := GpxRendered(result);
      } else {
        o := MapRendered(gpsData);
      }
    } else {
      o := NoGpsData(NoDataMessage);
    }
  }

  /** The GPX renderer is chosen by exact, case-sensitive comparison. */
  lemma UpperCaseGpxSelectsMap(outputFlag: Option<string>, conf: Config)
    requires outputFlag == Some("GPX")
    ensures ResolveOutput(outputFlag, conf) != "gpx"
  {
    assert "GPX"[0] != "gpx"[0];
  }
}
