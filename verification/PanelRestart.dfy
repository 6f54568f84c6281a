/**
 The restart protocol between request handlers, the 30-second job and manual restarts: an atomic
 flag, a mutex, and a running configuration that is compared with a freshly generated one.
 */
module PanelRestart {
  import opened Options

  datatype InboundConfig = InboundConfig(listen: string, port: int, protocol: string, settings: string,
                                         streamSettings: string, tag: string, sniffing: string)

  datatype Config = Config(log: string, routing: string, dns: string, inbounds: seq<InboundConfig>,
                           outbounds: string, transport: string, policy: string, api: string, stats: string,
                           reverse: string, fakeDns: string, observatory: string, burstObservatory: string)

  /** Equal in every field but the two observatories. */
  predicate Same(a: Config, b: Config) {
    a.(observatory := b.observatory, burstObservatory := b.burstObservatory) == b
  }

  /** `InboundConfig.Equals` */
  method InboundEquals(c: InboundConfig, other: InboundConfig) returns (equal: bool)
    ensures equal <==> c == other
  {
    if c.listen != other.listen { return false; }
    if c.port != other.port { return false; }
    if c.protocol != other.protocol { return false; }
    if c.settings != other.settings { return false; }
    if c.streamSettings != other.streamSettings { return false; }
    if c.tag != other.tag { return false; }
    return c.sniffing == other.sniffing;
  }

  /** `Config.Equals`: the observatory sections are not compared. */
  method Equals(c: Config, other: Config) returns (equal: bool)
    ensures equal <==> Same(c, other)
  {
    if |c.inbounds| != |other.inbounds| { return false; }
    for i := 0 to |c.inbounds|
      invariant c.inbounds[..i] == other.inbounds[..i]
    {
      var inboundEqual := InboundEquals(c.inbounds[i], other.inbounds[i]);
      if !inboundEqual { return false; }
    }
    assert c.inbounds == other.inbounds;
    if c.log != other.log || c.routing != other.routing || c.dns != other.dns { return false; }
    if c.outbounds != other.outbounds || c.transport != other.transport || c.policy != other.policy { return false; }
    if c.api != other.api || c.stats != other.stats { return false; }
    return c.reverse == other.reverse && c.fakeDns == other.fakeDns;
  }

  /** The process's configuration and whether it runs, after a restart that generated `latest`. */
  function AfterRestart(config: Option<Config>, running: bool, force: bool, latest: Config, starts: bool)
    : (r: (Option<Config>, bool))
    ensures r.0.Some? && Same(r.0.value, latest)
    ensures force || !running ==> r.0 == Some(latest)
    ensures starts ==> r.1
    ensures running && !force && config.Some? && Same(config.value, latest) ==> r == (config, true)
    ensures !starts && r.1 ==> running && !force && r.0 == config
  {
    if running && !force && config.Some? && Same(config.value, latest) then (config, true) else (Some(latest), starts)
  }

  /** The package variables of the service, as one call of each operation changes them. */
  class XrayService {
    var isNeedXrayRestart: bool
    var config: Option<Config>
    var running: bool

    constructor ()
      ensures !isNeedXrayRestart && config.None? && !running
    {
      isNeedXrayRestart, config, running := false, None, false;
    }

    method SetToNeedRestart()
      modifies this`isNeedXrayRestart
      ensures isNeedXrayRestart
    {
      isNeedXrayRestart := true;
    }

    /** Compare and swap: a set flag is taken exactly once. */
    method IsNeedRestartAndSetFalse() returns (taken: bool)
      modifies this`isNeedXrayRestart
      ensures taken == old(isNeedXrayRestart) && !isNeedXrayRestart
    {
      taken := isNeedXrayRestart;
      if taken {
        isNeedXrayRestart := false;
      }
    }

    /** `RestartXray`, given what could be generated and whether the new process starts. */
    method RestartXray(generated: Option<Config>, isForce: bool, starts: bool) returns (ok: bool)
      modifies this`config, this`running
      ensures generated.None? ==> !ok && config == old(config) && running == old(running)
      ensures generated.Some? ==>
        (config, running) == AfterRestart(old(config), old(running), isForce, generated.value, starts) && ok == running
      ensures generated.Some? && !starts ==>
        (ok <==> old(running) && !isForce && old(config).Some? && Same(old(config).value, generated.value))
      ensures generated.Some? && !starts ==>
        running == ok && config == if ok then old(config) else generated
    {
      if generated.None? {
        return false;
      }
      if running && config.Some? {
        if !isForce {
          var equal := Equals(config.value, generated.value);
          if equal {
            return true;
          }
        }
        running := false;
      }
      config := generated;
      running := starts;
      return starts;
    }

    method StopXray() returns (ok: bool)
      modifies this`running
      ensures ok == old(running) && !running
    {
      ok := running;
      if running {
        running := false;
      }
    }
  }

  // ---- the protocol as a state machine ----

  /** What one committed version of the database yields: the template, and the enabled inbounds. */
  datatype Database = Database(template: Config, inbounds: seq<InboundConfig>)

  /** The configuration built from a template and from inbounds that were read separately. */
  function Generated(template: Config, inbounds: seq<InboundConfig>): Config {
    template.(inbounds := template.inbounds + inbounds)
  }

  /** Where a thread is.  Versions are positions in the commit history. */
  datatype Pc =
    | Idle
    | Committed(version: nat)
    | Taken
    | Waiting(force: bool)
    | Locked(force: bool)
    | HasTemplate(force: bool, templateAt: nat)
    | HasConfig(force: bool, templateAt: nat, inboundsAt: nat)

  /** `requests`, `templateSeen` and `inboundsSeen` only record history: no step looks at them. */
  datatype State = State(
    history: seq<Database>, flag: bool, lock: Option<nat>, threads: map<nat, Pc>,
    config: Option<Config>, running: bool,
    requests: set<nat>, templateSeen: nat, inboundsSeen: nat)
  {
    function At(t: nat): Pc {
      if t in threads then threads[t] else Idle
    }

    function Go(t: nat, pc: Pc): State {
      this.(threads := threads[t := pc])
    }

    /** The configuration assembled from what was read at two moments. */
    function From(templateAt: nat, inboundsAt: nat): Config
      requires templateAt < |history| && inboundsAt < |history|
    {
      Generated(history[templateAt].template, history[inboundsAt].inbounds)
    }
  }

  datatype Step =
    | Change(db: Database)             // any commit that asks for nothing
    | Commit(t: nat, db: Database)     // a handler commits ...
    | Request(t: nat)                  // ... and then sets the flag
    | Take(t: nat)                     // the job swaps the flag from true to false
    | Call(t: nat, force: bool)        // RestartXray is called
    | Acquire(t: nat)
    | ReadTemplate(t: nat)
    | ReadInbounds(t: nat)
    | FailConfig(t: nat)               // the configuration cannot be generated
    | Finish(t: nat, starts: bool)     // keep the process, or stop it and start a new one
    | Stop                             // StopXray
    | Crash                            // the process ends by itself

  predicate Enabled(s: State, step: Step) {
    match step
    case Change(_) => true
    case Commit(t, _) => s.At(t).Idle?
    case Request(t) => s.At(t).Committed?
    case Take(t) => s.At(t).Idle? && s.flag
    case Call(t, _) => s.At(t).Idle?
    case Acquire(t) => (s.At(t).Taken? || s.At(t).Waiting?) && s.lock.None?
    case ReadTemplate(t) => s.At(t).Locked? && |s.history| > 0
    case ReadInbounds(t) => s.At(t).HasTemplate? && |s.history| > 0
    case FailConfig(t) => s.At(t).Locked? || s.At(t).HasTemplate?
    case Finish(t, _) => s.At(t).HasConfig? && s.At(t).templateAt < |s.history| && s.At(t).inboundsAt < |s.history|
    case Stop => s.lock.None?
    case Crash => true
  }

  function Apply(s: State, step: Step): State
    requires Enabled(s, step)
  {
    match step
    case Change(db) => s.(history := s.history + [db])
    case Commit(t, db) => s.(history := s.history + [db]).Go(t, Committed(|s.history|))
    case Request(t) => s.(flag := true, requests := s.requests + {s.At(t).version}).Go(t, Idle)
    case Take(t) => s.(flag := false).Go(t, Taken)
    case Call(t, force) => s.Go(t, Waiting(force))
    case Acquire(t) => s.(lock := Some(t)).Go(t, Locked(s.At(t).Waiting? && s.At(t).force))
    case ReadTemplate(t) => s.Go(t, HasTemplate(s.At(t).force, |s.history| - 1))
    case ReadInbounds(t) => s.Go(t, HasConfig(s.At(t).force, s.At(t).templateAt, |s.history| - 1))
    case FailConfig(t) => s.(lock := None).Go(t, Idle)
    case Finish(t, starts) => Finished(s, t, starts)
    case Stop => s.(running := false)
    case Crash => s.(running := false)
  }

  /** The end of `RestartXray`: keep an equal running configuration, otherwise replace the process. */
  function Finished(s: State, t: nat, starts: bool): State
    requires Enabled(s, Finish(t, starts))
  {
    var pc := s.At(t);
    var latest := s.From(pc.templateAt, pc.inboundsAt);
    var (config, running) := AfterRestart(s.config, s.running, pc.force, latest, starts);
    s.(lock := None, config := config, running := running,
       templateSeen := pc.templateAt, inboundsSeen := pc.inboundsAt).Go(t, Idle)
  }

  predicate Runs(s: State, steps: seq<Step>, end: State)
    decreases |steps|
  {
    if steps == [] then s == end
    else Enabled(s, steps[0]) && Runs(Apply(s, steps[0]), steps[1..], end)
  }

  /** A first version is stored; nobody has asked for anything and nothing runs. */
  predicate Initial(s: State) {
    && |s.history| == 1 && !s.flag && s.lock.None? && s.threads == map[] && s.requests == {}
    && s.config.None? && !s.running
    && s.templateSeen == 0 && s.inboundsSeen == 0
  }

  // ---- no request is lost ----

  /** A thread that will still read a version from v on, or has read one and will install it. */
  predicate Pending(pc: Pc, v: nat) {
    match pc
    case Taken => true
    case Waiting(_) => true
    case Locked(_) => true
    case HasTemplate(_, a) => a >= v
    case HasConfig(_, a, b) => a >= v && b >= v
    case Idle => false
    case Committed(_) => false
  }

  /** The process's configuration agrees, in what `Equals` compares, with versions from v on. */
  ghost predicate AgreesFrom(s: State, v: nat) {
    s.config.Some? && exists i: nat, j: nat ::
      v <= i < |s.history| && v <= j < |s.history| && Same(s.config.value, s.From(i, j))
  }

  /** What became of a request for version v. */
  ghost predicate Accounted(s: State, v: nat) {
    s.flag || (exists t: nat :: Pending(s.At(t), v)) || AgreesFrom(s, v)
  }

  predicate Holds(pc: Pc) {
    pc.Locked? || pc.HasTemplate? || pc.HasConfig?
  }

  /** What a thread has read is stored, and not older than what the process was started from. */
  predicate Fits(s: State, pc: Pc) {
    match pc
    case Committed(v) => v < |s.history|
    case HasTemplate(_, a) => s.templateSeen <= a < |s.history|
    case HasConfig(_, a, b) => s.templateSeen <= a < |s.history| && s.inboundsSeen <= b < |s.history|
    case _ => true
  }

  ghost predicate Served(s: State, v: nat) {
    s.config.Some? && v <= s.templateSeen && v <= s.inboundsSeen
  }

  /** The lock holder is the one thread inside `RestartXray`, and what is remembered exists. */
  ghost predicate Orderly(s: State) {
    && |s.history| > 0
    && (forall t: nat :: Holds(s.At(t)) <==> s.lock == Some(t))
    && (forall t: nat :: Fits(s, s.At(t)))
    && (s.config.Some? ==> s.templateSeen < |s.history| && s.inboundsSeen < |s.history|
                           && Same(s.config.value, s.From(s.templateSeen, s.inboundsSeen)))
    && (s.config.None? ==> s.templateSeen == 0 && s.inboundsSeen == 0)
    && (forall v :: v in s.requests ==> v < |s.history|)
  }

  ghost predicate Kept(s: State, v: nat) {
    s.flag || (exists t: nat :: Pending(s.At(t), v)) || Served(s, v)
  }

  ghost predicate Inv(s: State) {
    Orderly(s) && forall v :: v in s.requests ==> Kept(s, v)
  }

  lemma StepKeepsOrder(s: State, step: Step)
    requires Orderly(s) && Enabled(s, step)
    ensures Orderly(Apply(s, step))
  {
    match step {
      case Change(_) => OutsideKeepsOrder(s, step);
      case Commit(_, _) => OutsideKeepsOrder(s, step);
      case Request(_) => OutsideKeepsOrder(s, step);
      case Take(_) => OutsideKeepsOrder(s, step);
      case Call(_, _) => OutsideKeepsOrder(s, step);
      case Stop => OutsideKeepsOrder(s, step);
      case Crash => OutsideKeepsOrder(s, step);
      case Finish(t, starts) => FinishKeepsOrder(s, t, starts);
      case _ => InsideKeepsOrder(s, step);
    }
  }

  /** Steps that do not touch the lock. */
  lemma OutsideKeepsOrder(s: State, step: Step)
    requires Orderly(s) && Enabled(s, step)
    requires step.Change? || step.Commit? || step.Request? || step.Take? || step.Call? || step.Stop? || step.Crash?
    ensures Orderly(Apply(s, step))
  {
    var after := Apply(s, step);
    forall t: nat
      ensures Fits(after, after.At(t)) && (Holds(after.At(t)) <==> after.lock == Some(t))
    {
      assert Fits(s, s.At(t));
    }
  }

  /** Steps of a restart before its end. */
  lemma InsideKeepsOrder(s: State, step: Step)
    requires Orderly(s) && Enabled(s, step)
    requires step.Acquire? || step.ReadTemplate? || step.ReadInbounds? || step.FailConfig?
    ensures Orderly(Apply(s, step))
  {
    var after := Apply(s, step);
    assert Fits(s, s.At(step.t));
    forall t: nat
      ensures Fits(after, after.At(t)) && (Holds(after.At(t)) <==> after.lock == Some(t))
    {
      assert Fits(s, s.At(t));
    }
  }

  lemma FinishKeepsOrder(s: State, u: nat, starts: bool)
    requires Orderly(s) && Enabled(s, Finish(u, starts))
    ensures Orderly(Apply(s, Finish(u, starts)))
  {
    var after := Apply(s, Finish(u, starts));
    assert Fits(s, s.At(u));
    forall t: nat
      ensures Fits(after, after.At(t)) && (Holds(after.At(t)) <==> after.lock == Some(t))
    {
      assert Fits(s, s.At(t));
    }
  }

  /** A request stays accounted for, whoever takes the next step. */
  lemma StepKeepsRequest(s: State, step: Step, v: nat)
    requires Orderly(s) && Enabled(s, step) && !step.FailConfig? && v < |s.history|
    requires Kept(s, v)
    ensures Kept(Apply(s, step), v)
  {
    if Served(s, v) {
      assert step.Finish? ==> Fits(s, s.At(step.t));
    } else if s.flag {
      if step.Take? {
        assert Pending(Apply(s, step).At(step.t), v);
      }
    } else {
      var u: nat :| Pending(s.At(u), v);
      assert Fits(s, s.At(u));
      StepKeepsPending(s, step, u, v);
    }
  }

  lemma StepKeepsPending(s: State, step: Step, u: nat, v: nat)
    requires Enabled(s, step) && !step.FailConfig? && v < |s.history|
    requires Pending(s.At(u), v) && Fits(s, s.At(u))
    ensures Kept(Apply(s, step), v)
  {
    var after := Apply(s, step);
    if step.Finish? && u == step.t {
      assert Served(after, v);
    } else {
      assert Pending(after.At(u), v);
    }
  }

  lemma StepKeeps(s: State, step: Step)
    requires Inv(s) && Enabled(s, step) && !step.FailConfig?
    ensures Inv(Apply(s, step))
  {
    StepKeepsOrder(s, step);
    var after := Apply(s, step);
    forall v | v in after.requests
      ensures Kept(after, v)
    {
      if v in s.requests {
        StepKeepsRequest(s, step, v);
      }
    }
  }

  lemma {:induction false} RunKeeps(s: State, steps: seq<Step>, end: State)
    requires Inv(s) && Runs(s, steps, end) && forall k :: 0 <= k < |steps| ==> !steps[k].FailConfig?
    ensures Inv(end)
    decreases |steps|
  {
    if steps != [] {
      StepKeeps(s, steps[0]);
      RunKeeps(Apply(s, steps[0]), steps[1..], end);
    }
  }

  /** A step after which no process may run: a stop, a crash, or a restart whose start fails. */
  predicate MayStop(step: Step) {
    step.Stop? || step.Crash? || (step.Finish? && !step.starts)
  }

  /** Without such a step there is a process as soon as there is a configuration. */
  lemma {:induction false} KeepsRunning(s: State, steps: seq<Step>, end: State)
    requires Runs(s, steps, end) && (s.config.Some? ==> s.running)
    requires forall k :: 0 <= k < |steps| ==> !MayStop(steps[k])
    ensures end.config.Some? ==> end.running
    decreases |steps|
  {
    if steps != [] {
      KeepsRunning(Apply(s, steps[0]), steps[1..], end);
    }
  }

  /**
     In every run in which configurations can be generated, each request is accounted for: the flag
     is set, or a restart is under way that reads its version or a later one, or the process's
     configuration agrees with its version or later ones.  In the last case the process runs, unless
     a step of the run may have stopped it.
   */
  lemma NoRequestLost(s: State, steps: seq<Step>, end: State, v: nat)
    requires Initial(s) && Runs(s, steps, end) && forall k :: 0 <= k < |steps| ==> !steps[k].FailConfig?
    requires v in end.requests
    ensures Accounted(end, v)
    ensures AgreesFrom(end, v) && (forall k :: 0 <= k < |steps| ==> !MayStop(steps[k])) ==> end.running
  {
    assert forall t: nat :: s.At(t) == Idle;
    RunKeeps(s, steps, end);
    if forall k :: 0 <= k < |steps| ==> !MayStop(steps[k]) {
      KeepsRunning(s, steps, end);
    }
    assert Kept(end, v);
    if Served(end, v) {
      assert Same(end.config.value, end.From(end.templateSeen, end.inboundsSeen));
    }
  }

  /** Once the flag is down and no restart is under way, every request has been served. */
  lemma QuietMeansServed(s: State, steps: seq<Step>, end: State, v: nat)
    requires Initial(s) && Runs(s, steps, end) && forall k :: 0 <= k < |steps| ==> !steps[k].FailConfig?
    requires v in end.requests && !end.flag && forall t: nat :: end.At(t).Idle? || end.At(t).Committed?
    ensures AgreesFrom(end, v) && ((forall k :: 0 <= k < |steps| ==> !MayStop(steps[k])) ==> end.running)
  {
    NoRequestLost(s, steps, end, v);
  }

  /** The steps of one run of the 30-second job, when nothing comes between them. */
  function JobRun(t: nat): seq<Step> {
    [Take(t), Acquire(t), ReadTemplate(t), ReadInbounds(t), Finish(t, true)]
  }

  lemma RunsFive(s: State, a: Step, b: Step, c: Step, d: Step, e: Step)
    requires Enabled(s, a)
    requires (var s1 := Apply(s, a);
      Enabled(s1, b) && (var s2 := Apply(s1, b);
        Enabled(s2, c) && (var s3 := Apply(s2, c);
          Enabled(s3, d) && Enabled(Apply(s3, d), e))))
    ensures Runs(s, [a, b, c, d, e], Apply(Apply(Apply(Apply(Apply(s, a), b), c), d), e))
  {
    hide Apply, Enabled;
    var s1 := Apply(s, a);
    var s2 := Apply(s1, b);
    var s3 := Apply(s2, c);
    var s4 := Apply(s3, d);
    var s5 := Apply(s4, e);
    RunsFirst(s4, e, [], s5);
    RunsFirst(s3, d, [e], s5);
    RunsFirst(s2, c, [d, e], s5);
    RunsFirst(s1, b, [c, d, e], s5);
    RunsFirst(s, a, [b, c, d, e], s5);
    assert [e] + [] == [e] && [d] + [e] == [d, e] && [c] + [d, e] == [c, d, e];
    assert [b] + [c, d, e] == [b, c, d, e] && [a] + [b, c, d, e] == [a, b, c, d, e];
  }

  lemma RunsFirst(s: State, step: Step, rest: seq<Step>, end: State)
    requires Enabled(s, step) && (if rest == [] then Apply(s, step) == end else Runs(Apply(s, step), rest, end))
    ensures Runs(s, [step] + rest, end)
  {
    hide Apply, Enabled;
    assert ([step] + rest)[1..] == rest;
  }

  /** Whenever the flag is up and the lock is free, the job can run, and its run serves every request. */
  lemma JobServes(s: State, t: nat) returns (end: State)
    requires Inv(s) && s.flag && s.lock.None? && s.At(t).Idle?
    ensures Runs(s, JobRun(t), end)
    ensures !end.flag && end.running && forall v :: v in end.requests ==> AgreesFrom(end, v)
  {
    hide AfterRestart, Same, Generated, Fits, Pending, Kept;
    var s1 := Apply(s, Take(t));
    var s2 := Apply(s1, Acquire(t));
    var s3 := Apply(s2, ReadTemplate(t));
    var s4 := Apply(s3, ReadInbounds(t));
    end := Apply(s4, Finish(t, true));
    RunsFive(s, Take(t), Acquire(t), ReadTemplate(t), ReadInbounds(t), Finish(t, true));
    var last := |s.history| - 1;
    assert Same(end.config.value, end.From(last, last));
  }

  // ---- what the claim needs ----

  /**
     The claim needs restarts that succeed: from any quiet state, a restart that cannot generate its
     configuration loses the request it took.
   */
  lemma FailedRestartLosesRequest(s: State, db: Database, t: nat) returns (end: State)
    requires |s.history| > 0 && !s.flag && s.lock.None? && (forall u: nat :: s.At(u).Idle?)
    requires s.config.Some? ==> !Same(s.config.value, Generated(db.template, db.inbounds))
    ensures Runs(s, [Commit(t, db), Request(t), Take(t), Acquire(t), FailConfig(t)], end)
    ensures |s.history| in end.requests && !Accounted(end, |s.history|)
  {
    var s2 := Apply(Apply(s, Commit(t, db)), Request(t));
    end := Apply(Apply(Apply(s2, Take(t)), Acquire(t)), FailConfig(t));
    RunsFive(s, Commit(t, db), Request(t), Take(t), Acquire(t), FailConfig(t));
    assert end.history == s.history + [db];
    forall u: nat
      ensures end.At(u).Idle?
    {
      assert s.At(u).Idle?;
    }
  }

  /**
     A restart ends with exactly what it generated, in all fields, unless it leaves a running process
     alone whose observatories differ: a change to them alone waits for another reason to restart.
   */
  lemma InstalledExactly(s: State, t: nat, starts: bool)
    requires Enabled(s, Finish(t, starts))
    ensures (var pc, config := s.At(t), s.config;
      var latest := s.From(pc.templateAt, pc.inboundsAt);
      Apply(s, Finish(t, starts)).config == Some(latest) <==>
        !(s.running && !pc.force && config.Some? && Same(config.value, latest)
          && (config.value.observatory != latest.observatory
            || config.value.burstObservatory != latest.burstObservatory)))
  {
    var pc := s.At(t);
    var latest := s.From(pc.templateAt, pc.inboundsAt);
    if s.config.Some? && Same(s.config.value, latest) {
      SameInFull(s.config.value, latest);
    }
  }

  lemma SameInFull(a: Config, b: Config)
    requires Same(a, b)
    ensures a == b <==> a.observatory == b.observatory && a.burstObservatory == b.burstObservatory
  {
    assert a.(observatory := b.observatory, burstObservatory := b.burstObservatory) == b;
  }
}
