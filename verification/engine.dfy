/** The digital-twin state engine of src/sim/core.py: a logical clock (`tick`) and a
    snapshot of how many visible entries the assets directory held at the last load.
    The engine's lock only serialises `tick` and `state`; each call is modelled as one
    atomic transition on an immutable record. */
module TwinEngine {
  import Json
  import opened Results

  /** The directory the engine scans when none is given. */
  const DefaultAssetsDir: string := "00_Engineering_Source"

  /** What the host reports about the assets directory when it is scanned:
      `os.path.isdir` false, `os.listdir` raising, or the listed entry names. */
  datatype DirProbe = NotADirectory | ListingFailed | Listed(names: seq<string>)

  /** The engine's fields; `running` is the flag `run` polls and `stop` clears. */
  datatype Engine = Engine(assetsDir: string, tick: nat, assets: nat, running: bool)

  /** `TwinEngine(assets_dir)`. */
  function Create(assetsDir: string): (e: Engine)
    ensures e.assetsDir == assetsDir
    ensures e.tick == 0 && e.assets == 0 && !e.running
  {
    Engine(assetsDir, 0, 0, false)
  }

  /** A hidden entry: its name starts with a dot. */
  predicate IsHidden(name: string) {
    |name| > 0 && name[0] == '.'
  }

  /** Number of entries that are not hidden. */
  function CountVisible(names: seq<string>): (n: nat)
    ensures n <= |names|
  {
    if |names| == 0 then 0
    else CountVisible(names[..|names| - 1]) + (if IsHidden(names[|names| - 1]) then 0 else 1)
  }

  /** The asset count a scan yields: every failure reads as zero assets. */
  function Observe(probe: DirProbe): (n: nat)
    ensures probe.Listed? ==> n <= |probe.names|
    ensures !probe.Listed? ==> n == 0
  {
    match probe
    case Listed(names) => CountVisible(names)
    case _ => 0
  }

  /** `load_assets`: never fails, never touches the clock, replaces the asset count. */
  function LoadAssets(e: Engine, probe: DirProbe): (r: Engine)
    ensures r.tick == e.tick && r.assetsDir == e.assetsDir && r.running == e.running
    ensures r.assets == Observe(probe)
    ensures probe.Listed? ==> r.assets <= |probe.names|
    ensures !probe.Listed? ==> r.assets == 0
  {
    e.(assets := Observe(probe))
  }

  /** `tick`: advances the clock by exactly one and leaves everything else alone. */
  function Tick(e: Engine): (r: Engine)
    ensures r.tick == e.tick + 1
    ensures r.assets == e.assets && r.assetsDir == e.assetsDir && r.running == e.running
  {
    e.(tick := e.tick + 1)
  }

  /** `n` successive `tick` calls. */
  function Ticks(e: Engine, n: nat): Engine
    decreases n
  {
    if n == 0 then e else Tick(Ticks(e, n - 1))
  }

  /** `state`: the dict `{"tick": ..., "assets": ...}`, in that key order. */
  function State(e: Engine): (s: Json.Object)
    ensures |s| == 2
    ensures s[0].0 == "tick" && s[1].0 == "assets"
  {
    [("tick", Json.Int(e.tick)), ("assets", Json.Int(e.assets))]
  }

  /** `stop`: clears the flag the `run` loop polls. */
  function Stop(e: Engine): (r: Engine)
    ensures !r.running
    ensures r.tick == e.tick && r.assets == e.assets && r.assetsDir == e.assetsDir
  {
    e.(running := false)
  }

  /** `run`: sets the flag, then ticks once per iteration until it finds the flag cleared.
      `stopAfter` is the number of iterations that complete before a `stop` from another
      caller is observed; the sleep between iterations is left out. */
  method Run(e: Engine, stopAfter: nat) returns (r: Engine)
    ensures r.tick == e.tick + stopAfter
    ensures r.assets == e.assets && r.assetsDir == e.assetsDir
    ensures !r.running
  {
    r := e.(running := true);
    var done := 0;
    if stopAfter == 0 {
      r := Stop(r);
    }
    while r.running
      invariant done <= stopAfter
      invariant r.running <==> done < stopAfter
      invariant r.tick == e.tick + done
      invariant r.assets == e.assets && r.assetsDir == e.assetsDir
      decreases stopAfter - done
    {
      r := Tick(r);
      done := done + 1;
      if done == stopAfter {
        r := Stop(r);
      }
    }
  }

  /** Counting is additive over a split listing. */
  lemma {:induction false} CountVisibleAppend(a: seq<string>, b: seq<string>)
    ensures CountVisible(a + b) == CountVisible(a) + CountVisible(b)
    decreases |b|
  {
    if |b| > 0 {
      CountVisibleAppend(a, b[..|b| - 1]);
      assert (a + b)[..|a + b| - 1] == a + b[..|b| - 1];
      assert (a + b)[|a + b| - 1] == b[|b| - 1];
    } else {
      assert a + b == a;
    }
  }

  /** Every entry counts exactly when none of them is hidden. */
  lemma {:induction false} CountVisibleAll(names: seq<string>)
    ensures CountVisible(names) == |names| <==> forall i :: 0 <= i < |names| ==> !IsHidden(names[i])
    decreases |names|
  {
    if |names| > 0 {
      var init := names[..|names| - 1];
      CountVisibleAll(init);
      assert forall i :: 0 <= i < |init| ==> init[i] == names[i];
    }
  }

  /** Nothing counts exactly when every entry is hidden. */
  lemma {:induction false} CountVisibleNone(names: seq<string>)
    ensures CountVisible(names) == 0 <==> forall i :: 0 <= i < |names| ==> IsHidden(names[i])
    decreases |names|
  {
    if |names| > 0 {
      var init := names[..|names| - 1];
      CountVisibleNone(init);
      assert forall i :: 0 <= i < |init| ==> init[i] == names[i];
    }
  }

  /** The listing `["a", ".hidden", "b"]` gives two assets. */
  lemma HiddenEntryExample()
    ensures Observe(Listed(["a", ".hidden", "b"])) == 2
  {
    var names := ["a", ".hidden", "b"];
    assert names[..2] == ["a", ".hidden"];
    assert names[..2][..1] == ["a"];
    assert CountVisible(["a"]) == 1;
    assert CountVisible(["a", ".hidden"]) == 1;
  }

  /** `n` ticks advance the clock by `n` and change nothing else; from a fresh engine
      the clock then reads `n`. */
  lemma {:induction false} TicksAdvance(e: Engine, n: nat)
    ensures Ticks(e, n).tick == e.tick + n
    ensures Ticks(e, n).assets == e.assets && Ticks(e, n).running == e.running
    ensures Ticks(e, n).assetsDir == e.assetsDir
    ensures e == Create(e.assetsDir) ==> Ticks(e, n).tick == n
    decreases n
  {
    if n > 0 {
      TicksAdvance(e, n - 1);
    }
  }

  /** `stop` is idempotent: a second call changes nothing. */
  lemma StopIdempotent(e: Engine)
    ensures Stop(Stop(e)) == Stop(e)
    ensures !e.running ==> Stop(e) == e
  {
  }

  /** The snapshot carries the two counters and nothing else: equal snapshots mean
      equal counters, and the counters can be read back from it. */
  lemma StateFaithful(e1: Engine, e2: Engine)
    ensures State(e1) == State(e2) <==> e1.tick == e2.tick && e1.assets == e2.assets
    ensures State(e1)[0].1 == Json.Int(e1.tick) && State(e1)[1].1 == Json.Int(e1.assets)
  {
    if State(e1) == State(e2) {
      assert State(e1)[0] == State(e2)[0];
      assert State(e1)[1] == State(e2)[1];
    }
  }

  /** A call on the engine, as a caller issues it. */
  datatype Call = TickCall | LoadCall(probe: DirProbe) | StateCall | StopCall | RunCall(stopAfter: nat)

  function Step(e: Engine, c: Call): Engine {
    match c
    case TickCall => Tick(e)
    case LoadCall(p) => LoadAssets(e, p)
    case StateCall => e
    case StopCall => Stop(e)
    case RunCall(k) => Stop(Ticks(e.(running := true), k))
  }

  function Apply(e: Engine, calls: seq<Call>): Engine
    decreases |calls|
  {
    if |calls| == 0 then e else Apply(Step(e, calls[0]), calls[1..])
  }

  /** Ticks the calls perform. */
  function TickCount(calls: seq<Call>): nat {
    if |calls| == 0 then 0
    else
      (match calls[0]
       case TickCall => 1
       case RunCall(k) => k
       case _ => 0) + TickCount(calls[1..])
  }

  /** The probe of the last load among the calls, if any. */
  function LastLoad(calls: seq<Call>): Option<DirProbe> {
    if |calls| == 0 then None
    else if calls[|calls| - 1].LoadCall? then Some(calls[|calls| - 1].probe)
    else LastLoad(calls[..|calls| - 1])
  }

  /** Snapshot semantics over any sequence of calls: the clock moves only by ticks, the
      asset count is the result of the most recent load (or unchanged without one), and
      the configured directory never changes. */
  lemma {:induction false} ApplyCounters(e: Engine, calls: seq<Call>)
    ensures Apply(e, calls).tick == e.tick + TickCount(calls)
    ensures Apply(e, calls).assets ==
      (match LastLoad(calls) case Some(p) => Observe(p) case None => e.assets)
    ensures Apply(e, calls).assetsDir == e.assetsDir
    decreases |calls|
  {
    if |calls| > 0 {
      var e1 := Step(e, calls[0]);
      if calls[0].RunCall? {
        TicksAdvance(e.(running := true), calls[0].stopAfter);
      }
      ApplyCounters(e1, calls[1..]);
      LastLoadCons(calls);
    }
  }

  /** The last load of `c :: rest` is the last load of `rest`, or `c` itself when `rest` has none. */
  lemma {:induction false} LastLoadCons(calls: seq<Call>)
    requires |calls| > 0
    ensures LastLoad(calls) ==
      (match LastLoad(calls[1..])
       case Some(p) => Some(p)
       case None => if calls[0].LoadCall? then Some(calls[0].probe) else None)
    decreases |calls|
  {
    if |calls| > 1 {
      assert calls[1..][..|calls[1..]| - 1] == calls[..|calls| - 1][1..];
      LastLoadCons(calls[..|calls| - 1]);
    }
  }
}
