/** The `k1-dt` command-line front end of src/cli/main.py. Argument parsing is taken
    as done (an `Invocation` is the parsed namespace); printing is modelled as the
    list of lines written to standard output; the sleep between ticks is modelled only
    by the errors it raises for a length it cannot wait. */
module TwinCli {
  import opened Results
  import opened TwinEngine
  import Decimal

  /** `run`'s defaults for the positional `ticks` and for `--interval`. */
  const DefaultTicks: int := 10
  const DefaultInterval: real := 0.2

  /** The parsed command line: no subcommand, `state`, or `run` with its two optional
      arguments (absent when not given on the command line). */
  datatype Invocation = NoCommand | StateCommand | RunCommand(ticks: Option<int>, interval: Option<real>)

  /** The engine after the command, and the lines it printed. */
  datatype Outcome = Outcome(engine: Engine, lines: seq<string>)

  function Max0(n: int): nat {
    if n < 0 then 0 else n
  }

  function Line(key: string, n: int): string {
    key + ": " + Decimal.IntToString(n)
  }

  /** `cmd_state`: one load, then the status, asset and tick lines. */
  function CmdState(e: Engine, probe: DirProbe): (o: Outcome)
    ensures o.engine.tick == e.tick && o.engine.assets == Observe(probe)
    ensures |o.lines| == 3
    ensures o.lines[0] == "status: ok"
    ensures o.lines[1] == Line("assets", Observe(probe))
    ensures o.lines[2] == Line("tick", e.tick)
  {
    var loaded := LoadAssets(e, probe);
    var s := State(loaded);
    Outcome(loaded, ["status: ok", Line("assets", s[1].1.n), Line("tick", s[0].1.n)])
  }

  /** The error `time.sleep` raises for a negative length. */
  const NegativeSleep: Exception := ValueError("sleep length must be non-negative")

  /** The error `time.sleep` raises when the length does not fit its signed 64-bit
      count of nanoseconds; it converts before it checks the sign. */
  const SleepTooLarge: Exception := OverflowError("timestamp too large to convert to C _PyTime_t")

  /** 2^63: the nanosecond counts `time.sleep` can hold are -2^63 up to 2^63 - 1. */
  const NanosLimit: real := 9223372036854775808.0

  /** Whether `interval` seconds overflow that count. */
  predicate SleepOverflows(interval: real) {
    interval * 1000000000.0 >= NanosLimit || interval * 1000000000.0 < -NanosLimit
  }

  /** In seconds the bound is about 292 years: 9223372036.854775808 s either way, and a
      negative length at the bound itself is still in range (it is the `ValueError`). */
  lemma SleepOverflowsInSeconds(interval: real)
    ensures SleepOverflows(interval) <==>
      interval >= 9223372036.854775808 || interval < -9223372036.854775808
  {
  }

  /** `cmd_run`: one load, `ticks` ticks (none when `ticks` is zero or negative, as
      `range` yields nothing), then the requested count echoed verbatim and the state.
      Each tick is followed by `time.sleep(interval)`, which raises `OverflowError` for a
      length beyond its nanosecond range and otherwise `ValueError` for a negative one:
      either way the first tick then ends the command before anything is printed. */
  method CmdRun(e: Engine, ticks: int, interval: real, probe: DirProbe) returns (o: Result<Outcome>)
    ensures o.Err? <==> ticks > 0 && (interval < 0.0 || SleepOverflows(interval))
    ensures o.Err? && SleepOverflows(interval) ==> o.error == SleepTooLarge
    ensures o.Err? && !SleepOverflows(interval) ==> o.error == NegativeSleep
    ensures o.Ok? ==> o.value.engine.tick == e.tick + Max0(ticks)
    ensures o.Ok? ==> o.value.engine.assets == Observe(probe) && o.value.engine.assetsDir == e.assetsDir
    ensures o.Ok? ==> o.value.lines == [Line("done ticks", ticks), Line("assets", Observe(probe)),
                                        Line("tick", e.tick + Max0(ticks))]
  {
    var engine := LoadAssets(e, probe);
    var i := 0;
    while i < ticks
      invariant 0 <= i <= Max0(ticks)
      invariant i > 0 ==> interval >= 0.0 && !SleepOverflows(interval)
      invariant engine.tick == e.tick + i
      invariant engine.assets == Observe(probe) && engine.assetsDir == e.assetsDir
    {
      engine := Tick(engine);
      if SleepOverflows(interval) {
        return Err(SleepTooLarge);
      } else if interval < 0.0 {
        return Err(NegativeSleep);
      }
      i := i + 1;
    }
    var s := State(engine);
    o := Ok(Outcome(engine, [Line("done ticks", ticks), Line("assets", s[1].1.n), Line("tick", s[0].1.n)]));
  }

  /** `main`: a fresh engine on the default directory; `run` goes to `cmd_run` with the
      defaults filled in, anything else to `cmd_state`. */
  method Dispatch(inv: Invocation, probe: DirProbe) returns (o: Result<Outcome>)
    ensures o.Err? <==>
      inv.RunCommand? && inv.ticks.GetOr(DefaultTicks) > 0
      && (inv.interval.GetOr(DefaultInterval) < 0.0 || SleepOverflows(inv.interval.GetOr(DefaultInterval)))
    ensures o.Err? && SleepOverflows(inv.interval.GetOr(DefaultInterval)) ==> o.error == SleepTooLarge
    ensures o.Err? && !SleepOverflows(inv.interval.GetOr(DefaultInterval)) ==> o.error == NegativeSleep
    ensures o.Ok? ==> o.value.engine.assetsDir == DefaultAssetsDir
    ensures o.Ok? ==> o.value.engine.assets == Observe(probe)
    ensures o.Ok? && inv.RunCommand? ==>
      var t := inv.ticks.GetOr(DefaultTicks);
      o.value.engine.tick == Max0(t)
      && o.value.lines == [Line("done ticks", t), Line("assets", Observe(probe)), Line("tick", Max0(t))]
    ensures !inv.RunCommand? ==>
      o.Ok? && o.value.engine.tick == 0
      && o.value.lines == ["status: ok", Line("assets", Observe(probe)), Line("tick", 0)]
  {
    var engine := Create(DefaultAssetsDir);
    if inv.RunCommand? {
      o := CmdRun(engine, inv.ticks.GetOr(DefaultTicks), inv.interval.GetOr(DefaultInterval), probe);
    } else {
      o := Ok(CmdState(engine, probe));
    }
  }

  /** A printed count line reads back as the number it was written from. */
  lemma LineReadsBack(key: string, n: int)
    ensures Decimal.ParseInt(Line(key, n)[|key| + 2..]) == Some(n)
  {
    assert Line(key, n)[|key| + 2..] == Decimal.IntToString(n);
    Decimal.IntToStringRoundTrip(n);
  }

  /** `run` with no count given performs ten ticks on the fresh engine. */
  method DefaultRun(probe: DirProbe) returns (o: Result<Outcome>)
    ensures o.Ok? && o.value.engine.tick == 10
    ensures |o.value.lines| == 3 && o.value.lines[0] == Line("done ticks", 10)
  {
    var inv := RunCommand(None, None);
    assert inv.ticks.GetOr(DefaultTicks) == 10 && inv.interval.GetOr(DefaultInterval) == DefaultInterval;
    o := Dispatch(inv, probe);
  }
}
