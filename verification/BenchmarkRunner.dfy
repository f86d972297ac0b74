/**
 The benchmark runner and its watchdog thread as two interleaved programs over shared flags.

 An action names the thread that takes its next atomic step, and what the parser does if that step parses
 a query.  A run of the protocol is any sequence of actions from the initial state.
 */
module BenchmarkRunner {
  import opened Wrappers
  import opened ParserBenchmark

  datatype Config = Config(work: Workload, timedRuns: nat, timeoutSeconds: Option<nat>)
  {
    /** Iterations of 10 ms that the watchdog waits. */
    function Waits(): nat {
      if timeoutSeconds.Some? then timeoutSeconds.value * 100 else 0
    }
  }

  datatype RunnerPc =
    | LoopHead | Activate | ClearTimeout | Spawn | BeginRun | ReadFlag | ParseQuery
    | Deactivate | Join | Report | Cleanup | Finalize | Finished
  {
    predicate BeforeRun() {
      LoopHead? || Activate? || ClearTimeout? || Spawn?
    }

    /** From starting the watchdog to joining it. */
    predicate InRun() {
      BeginRun? || ReadFlag? || ParseQuery? || Deactivate? || Join?
    }

    predicate AfterWork() {
      Deactivate? || Join? || Report?
    }

    /** Between the two assignments to `is_active`. */
    predicate Active() {
      ClearTimeout? || Spawn? || BeginRun? || ReadFlag? || ParseQuery? || Deactivate?
    }

    predicate Over() {
      Finalize? || Finished?
    }
  }

  datatype WatchdogPc = Absent | Wait | FirstLook | SetTimeout | CallInterrupt | WaitAgain | SecondLook | Ended

  /** The shared flags. */
  datatype Flags = Flags(isActive: bool, timeout: bool, interrupted: bool)

  /** The watchdog thread: the run it was started for, and how often it has waited. */
  datatype Dog = Dog(pc: WatchdogPc, run: nat, waits: nat, waitsAgain: nat)
  {
    predicate Alive() {
      pc != Absent && pc != Ended
    }
  }

  /**
   What Run has done so far, and how it ended: `error` is the runner's string for the exception that left Run, and
   `met` the flag values that it read and the parses that followed.
   */
  datatype Progress = Progress(
    counters: Counters, parses: seq<Parse>, early: bool, thrown: Option<Parse>, error: string, met: seq<Moment>)

  const NOTHING := Progress(ZERO, [], false, None, "", [])

  /** The moments at which the flag was clear and the parse went on. */
  function Clear(ps: seq<Parse>): (ms: seq<Moment>)
    ensures |ms| == |ps| && forall k :: 0 <= k < |ps| ==> ms[k] == Moment(false, ps[k])
  {
    seq(|ps|, k requires 0 <= k < |ps| => Moment(false, ps[k]))
  }

  /** The message of an exception as ErrorData makes it, up to the name of its type in front. */
  function FinalMessage(message: string): (s: string)
    ensures s != ""
  {
    "Error: " + message
  }

  datatype Verdict = Timing | Incorrect | TimedOut | Error

  /** A logged result, with what happened in its run. */
  datatype Entry = Entry(run: nat, verdict: Verdict, progress: Progress, timeout: bool, waits: nat)

  datatype State = State(
    pc: RunnerPc, run: nat, flags: Flags, dog: Dog, progress: Progress, results: seq<Entry>, killed: bool)

  datatype Action = Runner(parse: Parse) | Watchdog

  function Initial(): State {
    State(LoopHead, 0, Flags(false, false, false), Dog(Absent, 0, 0, 0), NOTHING, [], false)
  }

  /** The order in which the runner looks at what happened. */
  function Judge(c: Config, g: Progress, timeout: bool): Verdict {
    if g.error != "" then Error
    else if timeout then TimedOut
    else if !Verified(c.work, g.counters) then Incorrect
    else Timing
  }

  /** The runner's next atomic step; a step that cannot be taken leaves the state alone. */
  function RunnerStep(c: Config, s: State, p: Parse): State {
    match s.pc
    case LoopHead => s.(pc := if s.run < c.timedRuns + 1 then Activate else Finalize)
    case Activate => s.(flags := s.flags.(isActive := true), pc := ClearTimeout)
    case ClearTimeout => s.(flags := s.flags.(timeout := false), pc := Spawn)
    case Spawn => s.(dog := Dog(if c.timeoutSeconds.Some? then Wait else Ended, s.run, 0, 0), pc := BeginRun)
    case BeginRun => s.(progress := NOTHING, pc := ReadFlag)
    case ReadFlag =>
      if |s.progress.parses| >= c.work.Total() then s.(pc := Deactivate)
      else if s.flags.interrupted then s.(progress := Stopped(s.progress), pc := Deactivate)
      else s.(pc := ParseQuery)
    case ParseQuery =>
      if c.work.Throws(p) then s.(progress := Raised(s.progress, p), pc := Deactivate)
      else s.(progress := Parsing(c.work, s.progress, p), pc := ReadFlag)
    case Deactivate => s.(flags := s.flags.(isActive := false), pc := Join)
    case Join => if s.dog.Alive() then s else s.(pc := if s.run > 0 then Report else Cleanup)
    case Report =>
      var verdict := Judge(c, s.progress, s.flags.timeout);
      s.(results := s.results + [Entry(s.run, verdict, s.progress, s.flags.timeout, s.dog.waits)],
         pc := if verdict.Timing? then Cleanup else Finalize)
    case Cleanup => s.(flags := s.flags.(interrupted := false), run := s.run + 1, pc := LoopHead)
    case Finalize => s.(pc := Finished)
    case Finished => s
  }

  function Parsing(w: Workload, g: Progress, p: Parse): Progress
    requires !w.Throws(p)
  {
    g.(counters := Tally(w, g.counters, p), parses := g.parses + [p], met := g.met + [Moment(false, p)])
  }

  /** Run reads a set flag and returns; it does not get to parse the query. */
  function Stopped(g: Progress): Progress {
    g.(early := true, met := g.met + [Moment(true, Parsed(0))])
  }

  function Raised(g: Progress, p: Parse): Progress
    requires !p.Parsed?
  {
    g.(thrown := Some(p), error := FinalMessage(p.message), met := g.met + [Moment(false, p)])
  }

  /** The watchdog's next atomic step. */
  function WatchdogStep(c: Config, s: State): State {
    var d := s.dog;
    match d.pc
    case Absent => s
    case Wait =>
      if d.waits < c.Waits() && s.flags.isActive then s.(dog := d.(waits := d.waits + 1))
      else s.(dog := d.(pc := FirstLook))
    case FirstLook => s.(dog := d.(pc := if s.flags.isActive then SetTimeout else Ended))
    case SetTimeout => s.(flags := s.flags.(timeout := true), dog := d.(pc := CallInterrupt))
    case CallInterrupt => s.(flags := s.flags.(interrupted := true), dog := d.(pc := WaitAgain))
    case WaitAgain =>
      if d.waitsAgain < c.Waits() && s.flags.isActive then s.(dog := d.(waitsAgain := d.waitsAgain + 1))
      else s.(dog := d.(pc := SecondLook))
    case SecondLook => if s.flags.isActive then s.(killed := true) else s.(dog := d.(pc := Ended))
    case Ended => s
  }

  /** Nothing happens once the process has been killed. */
  function Step(c: Config, s: State, a: Action): State {
    if s.killed then s
    else if a.Runner? then RunnerStep(c, s, a.parse)
    else WatchdogStep(c, s)
  }

  function Exec(c: Config, actions: seq<Action>): State {
    if actions == [] then Initial() else Step(c, Exec(c, actions[..|actions| - 1]), actions[|actions| - 1])
  }

  // ---------------------------------------------------------------------------
  // What every step keeps
  // ---------------------------------------------------------------------------

  /** How the flags stand to the two program counters. */
  predicate FlagsAgree(c: Config, pc: RunnerPc, run: nat, f: Flags, d: Dog) {
    && (f.isActive <==> pc.Active())
    && (d.Alive() ==> pc.InRun() && d.run == run && c.timeoutSeconds.Some?)
    && (pc.InRun() && f.isActive && c.timeoutSeconds.Some? ==> d.Alive())
    && (pc.BeforeRun() ==> !f.interrupted)
    && (pc.Spawn? ==> !f.timeout)
    && (d.pc.Wait? || d.pc.FirstLook? || d.pc.SetTimeout? ==> !f.timeout && !f.interrupted)
    && (d.pc.CallInterrupt? ==> f.timeout && !f.interrupted)
    && (d.pc.WaitAgain? || d.pc.SecondLook? ==> f.timeout && f.interrupted)
    && (pc.InRun() || pc.Report? ==> (f.interrupted ==> f.timeout))
    && (pc.BeginRun? && !d.Alive() ==> !f.interrupted)
  }

  /** How long the watchdog has waited. */
  predicate WaitsAgree(c: Config, pc: RunnerPc, f: Flags, d: Dog, killed: bool) {
    && d.waits <= c.Waits() && d.waitsAgain <= c.Waits()
    && (d.pc.FirstLook? && f.isActive ==> d.waits == c.Waits())
    && (d.pc.SetTimeout? ==> d.waits == c.Waits())
    && (pc.InRun() || pc.Report? ==> (f.timeout ==> d.waits == c.Waits() && c.timeoutSeconds.Some?))
    && (d.pc.SecondLook? && f.isActive ==> d.waitsAgain == c.Waits())
    && (killed ==> d.pc.SecondLook? && f.isActive && d.waits == c.Waits() && d.waitsAgain == c.Waits())
  }

  /** The moment at which Run stopped, if it did. */
  function Last(g: Progress): seq<Moment> {
    if g.early then [Moment(true, Parsed(0))] else if g.thrown.Some? then [Moment(false, g.thrown.value)] else []
  }

  predicate ProgressAgrees(w: Workload, g: Progress) {
    && NoneThrows(w, g.parses) && g.counters == TallyAll(w, g.parses)
    && |g.parses| <= w.Total()
    && (g.early || g.thrown.Some? ==> |g.parses| < w.Total())
    && (g.early ==> g.thrown.None?)
    && g.met == Clear(g.parses) + Last(g)
    && (if g.thrown.None? then g.error == ""
        else w.Throws(g.thrown.value) && g.error == FinalMessage(g.thrown.value.message))
  }

  /** What Run has done. */
  predicate WorkAgrees(w: Workload, pc: RunnerPc, g: Progress, interrupted: bool) {
    && ProgressAgrees(w, g)
    && (pc.ReadFlag? || pc.ParseQuery? ==> !g.early && g.thrown.None?)
    && (pc.ParseQuery? ==> |g.parses| < w.Total())
    && (pc.AfterWork() ==> (g.early ==> interrupted) && (|g.parses| < w.Total() ==> g.early || g.thrown.Some?))
  }

  /** The verdict of a run says exactly what happened in it. */
  predicate EntryAgrees(c: Config, e: Entry) {
    var g := e.progress;
    && (g.early ==> e.verdict.TimedOut? && |g.parses| < c.work.Total())
    && (e.verdict.Error? <==> g.thrown.Some?)
    && (e.verdict.TimedOut? <==> g.thrown.None? && e.timeout)
    && (e.verdict.Incorrect? <==>
          g.thrown.None? && !e.timeout && |g.parses| == c.work.Total() && !AllExpected(c.work, g.parses))
    && (e.verdict.Timing? <==>
          g.thrown.None? && !e.timeout && |g.parses| == c.work.Total() && AllExpected(c.work, g.parses))
    && (e.timeout ==> c.timeoutSeconds.Some? && e.waits == c.Waits())
    && (|g.parses| < c.work.Total() <==> g.early || g.thrown.Some?)
    && NoneThrows(c.work, g.parses) && (g.thrown.Some? ==> c.work.Throws(g.thrown.value))
  }

  /** Entry k is that of hot run k + 1, and all but the last are timings. */
  predicate Numbered(c: Config, results: seq<Entry>) {
    && |results| <= c.timedRuns
    && forall k :: 0 <= k < |results| ==>
         && EntryAgrees(c, results[k]) && results[k].run == k + 1
         && (k < |results| - 1 ==> results[k].verdict.Timing?)
  }

  predicate LastTimed(results: seq<Entry>) {
    results != [] ==> results[|results| - 1].verdict.Timing?
  }

  /** A hot run logs exactly one result, and only after a timing does the runner go on. */
  predicate ResultsAgree(c: Config, pc: RunnerPc, run: nat, results: seq<Entry>) {
    && Numbered(c, results)
    && (!pc.Over() ==> LastTimed(results))
    && (pc.BeforeRun() || pc.InRun() || pc.Report? ==> |results| == (if run > 0 then run - 1 else 0))
    && (pc.Report? ==> run > 0)
    && (pc.Cleanup? ==> |results| == run)
    && (pc.Over() ==> |results| == c.timedRuns || !LastTimed(results))
    && run <= c.timedRuns + 1 && (!pc.LoopHead? && !pc.Over() ==> run <= c.timedRuns)
  }

  predicate Invariant(c: Config, s: State) {
    && FlagsAgree(c, s.pc, s.run, s.flags, s.dog)
    && WaitsAgree(c, s.pc, s.flags, s.dog, s.killed)
    && WorkKept(c, s)
    && ResultsAgree(c, s.pc, s.run, s.results)
  }

  lemma RunnerKeepsFlags(c: Config, s: State, p: Parse)
    requires FlagsAgree(c, s.pc, s.run, s.flags, s.dog)
    ensures var t := RunnerStep(c, s, p); FlagsAgree(c, t.pc, t.run, t.flags, t.dog)
  {
    hide Judge, Parsing, Workload.Total, Config.Waits;
  }

  lemma WatchdogKeepsFlags(c: Config, s: State)
    requires FlagsAgree(c, s.pc, s.run, s.flags, s.dog)
    ensures var t := WatchdogStep(c, s); FlagsAgree(c, t.pc, t.run, t.flags, t.dog)
  {
    hide Config.Waits;
  }

  lemma RunnerKeepsWaits(c: Config, s: State, p: Parse)
    requires FlagsAgree(c, s.pc, s.run, s.flags, s.dog) && WaitsAgree(c, s.pc, s.flags, s.dog, s.killed) && !s.killed
    ensures var t := RunnerStep(c, s, p); WaitsAgree(c, t.pc, t.flags, t.dog, t.killed)
  {
    hide Judge, Parsing, Workload.Total, Config.Waits;
  }

  lemma WatchdogKeepsWaits(c: Config, s: State)
    requires FlagsAgree(c, s.pc, s.run, s.flags, s.dog) && WaitsAgree(c, s.pc, s.flags, s.dog, s.killed) && !s.killed
    ensures var t := WatchdogStep(c, s); WaitsAgree(c, t.pc, t.flags, t.dog, t.killed)
  {
    hide Config.Waits;
  }

  lemma ParsingKept(w: Workload, g: Progress, p: Parse)
    requires ProgressAgrees(w, g) && !g.early && g.thrown.None? && |g.parses| < w.Total() && !w.Throws(p)
    ensures ProgressAgrees(w, Parsing(w, g, p))
  {
    hide Tally;
    assert (g.parses + [p])[..|g.parses|] == g.parses;
    assert Clear(g.parses + [p]) == Clear(g.parses) + [Moment(false, p)];
  }

  lemma NothingAgrees(w: Workload)
    ensures ProgressAgrees(w, NOTHING)
  {}

  lemma StoppingKept(w: Workload, g: Progress, p: Parse)
    requires ProgressAgrees(w, g) && !g.early && g.thrown.None? && |g.parses| < w.Total()
    ensures ProgressAgrees(w, Stopped(g))
    ensures w.Throws(p) ==> ProgressAgrees(w, Raised(g, p))
  {
    hide TallyAll, Workload.Total, FinalMessage;
  }

  predicate WorkKept(c: Config, t: State) {
    WorkAgrees(c.work, t.pc, t.progress, t.flags.interrupted)
  }

  lemma ReadFlagKeepsWork(c: Config, s: State, p: Parse)
    requires WorkKept(c, s) && s.pc.ReadFlag?
    ensures WorkKept(c, RunnerStep(c, s, p))
  {
    assert |s.progress.parses| <= c.work.Total();
    if |s.progress.parses| < c.work.Total() {
      StoppingKept(c.work, s.progress, p);
    }
    hide ProgressAgrees, Workload.Total;
  }

  lemma ParseQueryKeepsWork(c: Config, s: State, p: Parse)
    requires WorkKept(c, s) && s.pc.ParseQuery?
    ensures WorkKept(c, RunnerStep(c, s, p))
  {
    if c.work.Throws(p) {
      StoppingKept(c.work, s.progress, p);
    } else {
      ParsingKept(c.work, s.progress, p);
    }
    hide ProgressAgrees, Tally, Workload.Total;
  }

  lemma RunnerKeepsWork(c: Config, s: State, p: Parse)
    requires WorkKept(c, s)
    ensures WorkKept(c, RunnerStep(c, s, p))
  {
    if s.pc.ReadFlag? {
      hide RunnerStep, WorkKept;
      ReadFlagKeepsWork(c, s, p);
    } else if s.pc.ParseQuery? {
      hide RunnerStep, WorkKept;
      ParseQueryKeepsWork(c, s, p);
    } else {
      NothingAgrees(c.work);
      hide ProgressAgrees, Parsing, Workload.Total, Workload.Throws, Judge;
      var t := RunnerStep(c, s, p);
      assert t.progress == if s.pc.BeginRun? then NOTHING else s.progress;
      assert t.pc.AfterWork() ==> s.pc.AfterWork() && t.flags.interrupted == s.flags.interrupted;
    }
  }

  lemma EntryKept(c: Config, g: Progress, f: Flags, run: nat, d: Dog)
    requires FlagsAgree(c, Report, run, f, d) && WaitsAgree(c, Report, f, d, false)
    requires WorkAgrees(c.work, Report, g, f.interrupted) && Checkable(c.work)
    ensures EntryAgrees(c, Entry(run, Judge(c, g, f.timeout), g, f.timeout, d.waits))
  {
    hide TallyAll, Verified, FinalMessage;
    VerifiedMeaning(c.work, g.parses);
  }

  lemma RunnerKeepsResults(c: Config, s: State, p: Parse)
    requires ResultsAgree(c, s.pc, s.run, s.results) && !s.pc.Report?
    ensures var t := RunnerStep(c, s, p); ResultsAgree(c, t.pc, t.run, t.results)
  {
    hide Judge, Parsing, Numbered, Workload.Total;
  }

  lemma NumberedGrows(c: Config, results: seq<Entry>, e: Entry)
    requires Numbered(c, results) && LastTimed(results) && |results| < c.timedRuns
    requires EntryAgrees(c, e) && e.run == |results| + 1
    ensures Numbered(c, results + [e])
  {
    hide EntryAgrees;
  }

  lemma ReportKeepsResults(c: Config, s: State, p: Parse)
    requires Invariant(c, s) && s.pc.Report? && !s.killed && Checkable(c.work)
    ensures var t := RunnerStep(c, s, p); ResultsAgree(c, t.pc, t.run, t.results)
  {
    EntryKept(c, s.progress, s.flags, s.run, s.dog);
    var e := Entry(s.run, Judge(c, s.progress, s.flags.timeout), s.progress, s.flags.timeout, s.dog.waits);
    hide Judge, EntryAgrees, FlagsAgree, WaitsAgree, WorkAgrees;
    NumberedGrows(c, s.results, e);
    hide Numbered;
  }

  lemma RunnerKeeps(c: Config, s: State, p: Parse)
    requires Invariant(c, s) && Checkable(c.work) && !s.killed
    ensures Invariant(c, RunnerStep(c, s, p))
  {
    hide FlagsAgree, WaitsAgree, WorkAgrees, ResultsAgree, RunnerStep;
    RunnerKeepsFlags(c, s, p);
    RunnerKeepsWaits(c, s, p);
    RunnerKeepsWork(c, s, p);
    if s.pc.Report? {
      ReportKeepsResults(c, s, p);
    } else {
      RunnerKeepsResults(c, s, p);
    }
  }

  lemma WatchdogKeeps(c: Config, s: State)
    requires Invariant(c, s) && !s.killed
    ensures Invariant(c, WatchdogStep(c, s))
  {
    WatchdogKeepsFlags(c, s);
    WatchdogKeepsWaits(c, s);
    hide FlagsAgree, WaitsAgree, ResultsAgree, ProgressAgrees;
  }

  lemma {:induction false} Reachable(c: Config, actions: seq<Action>)
    requires Checkable(c.work)
    ensures Invariant(c, Exec(c, actions))
  {
    if actions == [] {
      NothingAgrees(c.work);
    } else {
      var s, a := Exec(c, actions[..|actions| - 1]), actions[|actions| - 1];
      Reachable(c, actions[..|actions| - 1]);
      hide Invariant, RunnerStep, WatchdogStep;
      if !s.killed && a.Runner? {
        RunnerKeeps(c, s, a.parse);
      } else if !s.killed {
        WatchdogKeeps(c, s);
      }
    }
  }

  // ---------------------------------------------------------------------------
  // Main results, for every interleaving and everything the parser may do
  // ---------------------------------------------------------------------------

  /**
   A hot run that returned early because it was interrupted is reported as TIMEOUT, never as INCORRECT or as
   a timing; one that raised is reported as ERROR; and each verdict is given in exactly the cases it stands for.
   */
  lemma VerdictsAreRight(c: Config, actions: seq<Action>, k: nat)
    requires Checkable(c.work) && k < |Exec(c, actions).results|
    ensures EntryAgrees(c, Exec(c, actions).results[k]) && Exec(c, actions).results[k].run == k + 1
  {
    Reachable(c, actions);
    hide EntryAgrees, FlagsAgree, WaitsAgree, WorkAgrees, Exec;
  }

  /** Of a logged run: what may have happened in it, and what its verdict stands for. */
  predicate LogMeaning(c: Config, e: Entry) {
    var w, ps := c.work, e.progress.parses;
    && (forall k :: 0 <= k < |ps| ==> ps[k].Parsed? || (w.malformed && ps[k].Rejected?))
    && (e.progress.thrown.Some? ==> e.progress.thrown.value.Failed? || (e.progress.thrown.value.Rejected? && !w.malformed))
    && (e.verdict == Error <==> e.progress.thrown.Some?)
    && (e.verdict == TimedOut <==> e.progress.thrown.None? && e.timeout)
    && (e.verdict == Timing <==>
          && e.progress.thrown.None? && !e.timeout && |ps| == w.iterations * w.queryCount
          && forall k :: 0 <= k < |ps| ==> AsWanted(w, ps[k]))
    && (e.timeout ==> c.timeoutSeconds.Some? && e.waits * 10 == c.timeoutSeconds.value * 1_000)
  }

  /**
   Every logged run raised only what its workload does not swallow; it is a timing exactly if nothing was raised, no
   timeout was set after waiting for it in steps of 10 ms, and every parse did what the workload wants.  So a malformed
   workload whose queries are all rejected in time is a timing.
   */
  lemma LogsAreRight(c: Config, actions: seq<Action>, k: nat)
    requires Checkable(c.work) && k < |Exec(c, actions).results|
    ensures LogMeaning(c, Exec(c, actions).results[k])
  {
    hide Exec, EntryAgrees, LogMeaning;
    VerdictsAreRight(c, actions, k);
    EntryMeaning(c, Exec(c, actions).results[k]);
  }

  lemma EntryMeaning(c: Config, e: Entry)
    requires EntryAgrees(c, e)
    ensures LogMeaning(c, e)
  {
    assert AllExpected(c.work, e.progress.parses) <==> forall k :: 0 <= k < |e.progress.parses| ==> AsWanted(c.work, e.progress.parses[k]);
  }

  /** How Run ended, as its caller sees it. */
  function EndingOf(g: Progress): Ending {
    if g.early then Interrupted else if g.thrown.Some? then Threw(g.thrown.value) else Returned
  }

  /**
   When Run is over, it has done what its loops do on the flag values and parses that the interleaving let it meet,
   whatever would have come after them.  The parse recorded with a set flag is never read: Run stops before it.
   */
  lemma RunAsMet(c: Config, actions: seq<Action>, env: seq<Moment>)
    requires Checkable(c.work) && Exec(c, actions).pc.Deactivate?
    requires |env| == c.work.Total() && Exec(c, actions).progress.met <= env
    ensures var g := Exec(c, actions).progress;
      && RunsTo(c.work, env, EndingOf(g), |g.parses|)
      && Parses(env, |g.parses|) == g.parses && NoneThrows(c.work, g.parses) && g.counters == TallyAll(c.work, g.parses)
  {
    Reachable(c, actions);
    hide Exec, FlagsAgree, WaitsAgree, ResultsAgree, TallyAll;
    var g := Exec(c, actions).progress;
    var done := |g.parses|;
    assert forall k :: 0 <= k < |g.met| ==> env[k] == g.met[k];
    forall k | 0 <= k < done ensures GoesOn(c.work, env, k) && env[k].parse == g.parses[k] {
      assert g.met[k] == Moment(false, g.parses[k]);
    }
    if g.early || g.thrown.Some? {
      assert env[done] == g.met[done] == Last(g)[0];
    }
  }

  /** A watchdog that can still take a step was started for the run that is going on. */
  lemma {:induction false} WatchdogIsolated(c: Config, actions: seq<Action>)
    requires Checkable(c.work)
    ensures var s := Exec(c, actions);
      WatchdogStep(c, s) != s && !s.killed ==> s.dog.run == s.run && s.pc.InRun() && c.timeoutSeconds.Some?
  {
    Reachable(c, actions);
    hide WaitsAgree, WorkAgrees, ResultsAgree, Exec, Config.Waits;
  }

  /**
   No interruption outlives its run: the flag is clear when the next watchdog is about to be started.  When Run
   begins, it is set exactly if that watchdog has already waited its time and interrupted this very run.
   */
  lemma RunStartsClean(c: Config, actions: seq<Action>)
    requires Checkable(c.work)
    ensures var s := Exec(c, actions);
      && (s.pc.BeforeRun() ==> !s.flags.interrupted)
      && (s.pc.BeginRun? ==>
            (s.flags.interrupted <==> s.dog.run == s.run && (s.dog.pc.WaitAgain? || s.dog.pc.SecondLook?)))
      && (s.pc.BeginRun? && s.flags.interrupted ==> s.flags.timeout && s.dog.waits == c.Waits() && c.timeoutSeconds.Some?)
  {
    Reachable(c, actions);
    hide WorkAgrees, ResultsAgree, Exec, Config.Waits;
  }

  lemma ExecSnoc(c: Config, actions: seq<Action>, a: Action)
    ensures Exec(c, actions + [a]) == Step(c, Exec(c, actions), a)
  {
    assert (actions + [a])[..|actions|] == actions;
    hide Step;
  }

  /**
   With any timeout there is a schedule in which Run begins already interrupted: the watchdog is started
   before Run, so a runner that is held up between the two loses its whole run.
   */
  lemma InterruptedBeforeRun(c: Config, p: Parse) returns (actions: seq<Action>)
    requires c.timeoutSeconds.Some?
    ensures Exec(c, actions).pc.BeginRun? && Exec(c, actions).flags.interrupted
  {
    hide Exec, Parsing, Judge, Config.Waits, Workload.Total;
    actions := [];
    assert Exec(c, actions) == Initial() by { ExecNothing(c); }
    for i := 0 to 4
      invariant var s := Exec(c, actions);
        && s.pc == [LoopHead, Activate, ClearTimeout, Spawn, BeginRun][i] && s.run == 0 && !s.killed
        && (i >= 2 ==> s.flags.isActive) && (i == 4 ==> s.dog == Dog(Wait, 0, 0, 0))
    {
      ExecSnoc(c, actions, Runner(p));
      actions := actions + [Runner(p)];
    }
    for k := 0 to c.Waits()
      invariant var s := Exec(c, actions);
        s.pc.BeginRun? && s.flags.isActive && !s.killed && s.dog.pc.Wait? && s.dog.waits == k
    {
      ExecSnoc(c, actions, Watchdog);
      actions := actions + [Watchdog];
    }
    for i := 0 to 4
      invariant var s := Exec(c, actions);
        && s.pc.BeginRun? && s.flags.isActive && !s.killed && s.dog.waits == c.Waits()
        && s.dog.pc == [Wait, FirstLook, SetTimeout, CallInterrupt, WaitAgain][i]
        && (i == 4 ==> s.flags.interrupted)
    {
      ExecSnoc(c, actions, Watchdog);
      actions := actions + [Watchdog];
    }
  }

  lemma ExecNothing(c: Config)
    ensures Exec(c, []) == Initial()
  {}

  /** Before hot run r is judged, exactly the r - 1 hot runs before it have been reported, all with a timing. */
  lemma OneResultPerRun(c: Config, actions: seq<Action>)
    requires Checkable(c.work)
    ensures var s := Exec(c, actions);
      && (s.pc.InRun() && s.run > 0 ==> |s.results| == s.run - 1)
      && (s.pc.InRun() ==> forall k :: 0 <= k < |s.results| ==> s.results[k].verdict.Timing?)
      && (s.pc.Finished? ==> |s.results| == c.timedRuns || !LastTimed(s.results))
  {
    Reachable(c, actions);
    hide FlagsAgree, WaitsAgree, WorkAgrees, EntryAgrees, Exec;
  }

  /** Once a result other than a timing is logged, no further run is started and nothing more is logged. */
  lemma {:induction false} NothingAfterBadResult(c: Config, actions: seq<Action>, more: seq<Action>)
    requires Checkable(c.work) && !LastTimed(Exec(c, actions).results)
    ensures Exec(c, actions + more).results == Exec(c, actions).results
    ensures Exec(c, actions + more).run == Exec(c, actions).run && Exec(c, actions + more).pc.Over()
  {
    Reachable(c, actions);
    hide FlagsAgree, WaitsAgree, WorkKept, Step, LastTimed, Numbered;
    if more == [] {
      assert actions + more == actions;
    } else {
      var n := |more| - 1;
      NothingAfterBadResult(c, actions, more[..n]);
      ExecLast(c, actions, more);
      OverStays(c, Exec(c, actions + more[..n]), more[n]);
      hide Exec;
    }
  }

  lemma OverStays(c: Config, s: State, a: Action)
    requires s.pc.Over()
    ensures var t := Step(c, s, a); t.results == s.results && t.run == s.run && t.pc.Over()
  {
    hide Parsing, Judge, Config.Waits;
  }

  lemma ExecLast(c: Config, actions: seq<Action>, more: seq<Action>)
    requires more != []
    ensures Exec(c, actions + more) == Step(c, Exec(c, actions + more[..|more| - 1]), more[|more| - 1])
  {
    var all := actions + more;
    assert all[..|all| - 1] == actions + more[..|more| - 1];
    hide Step;
  }

  /** The process is killed only while a run is still active after two full waits. */
  lemma KilledOnlyWhenStuck(c: Config, actions: seq<Action>)
    requires Checkable(c.work) && Exec(c, actions).killed
    ensures var s := Exec(c, actions);
      && s.dog.waits == c.Waits() && s.dog.waitsAgain == c.Waits() && s.flags.interrupted
      && (s.pc.BeginRun? || s.pc.ReadFlag? || s.pc.ParseQuery? || s.pc.Deactivate?)
  {
    Reachable(c, actions);
    hide WorkAgrees, ResultsAgree, Exec, Config.Waits;
  }

  /** Neither thread waits for the other forever: until the runner has finished, one of them can move. */
  lemma NoDeadlock(c: Config, actions: seq<Action>, p: Parse)
    requires !Exec(c, actions).killed && !Exec(c, actions).pc.Finished?
    ensures var s := Exec(c, actions); Step(c, s, Runner(p)) != s || Step(c, s, Watchdog) != s
  {
    hide Exec, Config.Waits, Parsing, Judge, Workload.Total, Workload.Throws;
  }

  /** The watchdog alone for n steps. */
  function Watched(c: Config, s: State, n: nat): State
    decreases n
  {
    if n == 0 then s else Watched(c, Step(c, s, Watchdog), n - 1)
  }

  /** The steps that the watchdog has left when no run is active. */
  function StepsLeft(pc: WatchdogPc): nat {
    match pc
    case Absent => 0
    case Wait => 2
    case FirstLook => 1
    case SetTimeout => 4
    case CallInterrupt => 3
    case WaitAgain => 2
    case SecondLook => 1
    case Ended => 0
  }

  lemma InactiveStep(c: Config, s: State)
    requires !s.flags.isActive && !s.killed
    ensures var t := Step(c, s, Watchdog);
      && !t.flags.isActive && !t.killed && t.dog.waits == s.dog.waits && t.dog.waitsAgain == s.dog.waitsAgain
      && StepsLeft(t.dog.pc) == if s.dog.Alive() then StepsLeft(s.dog.pc) - 1 else 0
  {}

  /** Once the run is over, the watchdog does not wait any more: it ends in four steps, and does not kill the process. */
  lemma JoinIsPrompt(c: Config, s: State, n: nat)
    requires !s.flags.isActive && !s.killed && n >= 4
    ensures var t := Watched(c, s, n);
      !t.dog.Alive() && !t.killed && t.dog.waits == s.dog.waits && t.dog.waitsAgain == s.dog.waitsAgain
  {
    WatchdogEnds(c, s, n);
  }

  lemma {:induction false} WatchdogEnds(c: Config, s: State, n: nat)
    requires !s.flags.isActive && !s.killed && n >= StepsLeft(s.dog.pc)
    ensures var t := Watched(c, s, n);
      !t.dog.Alive() && !t.killed && t.dog.waits == s.dog.waits && t.dog.waitsAgain == s.dog.waitsAgain
    decreases n
  {
    hide Step;
    if n > 0 {
      InactiveStep(c, s);
      WatchdogEnds(c, Step(c, s, Watchdog), n - 1);
    }
  }

  /** How many runs the schedule has completed: the times that the runner has cleaned up after one. */
  function Completed(c: Config, actions: seq<Action>): nat {
    if actions == [] then 0
    else
      var before := actions[..|actions| - 1];
      var s := Exec(c, before);
      Completed(c, before) + if s.pc.Cleanup? && !s.killed && actions[|actions| - 1].Runner? then 1 else 0
  }

  /** The number of a run counts the runs before it, so the first hot run follows one that is not logged. */
  lemma {:induction false} RunsAreNumbered(c: Config, actions: seq<Action>)
    ensures Exec(c, actions).run == Completed(c, actions)
  {
    hide Judge, Parsing, Config.Waits;
    if actions != [] {
      RunsAreNumbered(c, actions[..|actions| - 1]);
    }
  }

  // ---------------------------------------------------------------------------
  // Termination
  // ---------------------------------------------------------------------------

  function Times(a: nat, b: nat): nat {
    a * b
  }

  /** An upper bound on the steps that the runner has left in this run. */
  function RunnerRank(w: Workload, pc: RunnerPc, parses: nat): nat
    requires parses <= w.Total()
  {
    match pc
    case LoopHead => 2 * w.Total() + 13
    case Activate => 2 * w.Total() + 12
    case ClearTimeout => 2 * w.Total() + 11
    case Spawn => 2 * w.Total() + 10
    case BeginRun => 2 * w.Total() + 9
    case ReadFlag => 2 * (w.Total() - parses) + 8
    case ParseQuery => 2 * (w.Total() - parses) + 7
    case Deactivate => 6
    case Join => 5
    case Report => 4
    case Cleanup => 3
    case Finalize => 1
    case Finished => 0
  }

  function RunsLeft(c: Config, s: State): nat {
    if s.pc.Over() || s.run > c.timedRuns then 0 else c.timedRuns + 1 - s.run
  }

  function RunnerSteps(c: Config, s: State): nat
    requires |s.progress.parses| <= c.work.Total()
  {
    Times(RunsLeft(c, s), 2 * c.work.Total() + 14) + RunnerRank(c.work, s.pc, |s.progress.parses|)
  }

  /** An upper bound on the steps that the watchdog has left. */
  function WatchdogSteps(c: Config, d: Dog): nat
    requires d.waits <= c.Waits() && d.waitsAgain <= c.Waits()
  {
    match d.pc
    case Absent => 0
    case Wait => 2 * c.Waits() - d.waits + 6
    case FirstLook => c.Waits() + 5
    case SetTimeout => c.Waits() + 4
    case CallInterrupt => c.Waits() + 3
    case WaitAgain => c.Waits() - d.waitsAgain + 2
    case SecondLook => 1
    case Ended => 0
  }

  /** Bounds the steps left in the whole protocol; a killed process takes none. */
  function Measure(c: Config, s: State): nat
    requires Invariant(c, s)
  {
    if s.killed then 0 else Times(RunnerSteps(c, s), 2 * c.Waits() + 7) + WatchdogSteps(c, s.dog)
  }

  lemma LessRuns(a: nat, b: nat, m: nat)
    requires a < b
    ensures Times(a, m) + m <= Times(b, m)
  {
    var d := b - a - 1;
    assert b * m == (a + 1 + d) * m == a * m + m + d * m;
  }

  /** The rank of the runner's place in this run. */
  function Rank(w: Workload, s: State): nat
    requires |s.progress.parses| <= w.Total()
  {
    RunnerRank(w, s.pc, |s.progress.parses|)
  }

  lemma WorkRankShrinks(c: Config, s: State, p: Parse)
    requires |s.progress.parses| <= c.work.Total() && (s.pc.ParseQuery? ==> |s.progress.parses| < c.work.Total())
    requires s.pc.BeginRun? || s.pc.ReadFlag? || s.pc.ParseQuery?
    ensures var t := RunnerStep(c, s, p); |t.progress.parses| <= c.work.Total() && Rank(c.work, t) < Rank(c.work, s)
  {
    hide Tally, Judge, Workload.Total;
  }

  lemma RankShrinks(c: Config, s: State, p: Parse)
    requires |s.progress.parses| <= c.work.Total() && (s.pc.ParseQuery? ==> |s.progress.parses| < c.work.Total())
    requires RunnerStep(c, s, p) != s
    ensures var t := RunnerStep(c, s, p);
      && |t.progress.parses| <= c.work.Total()
      && if s.pc.Cleanup? then Rank(c.work, t) < 2 * c.work.Total() + 14 else Rank(c.work, t) < Rank(c.work, s)
  {
    if s.pc.BeginRun? || s.pc.ReadFlag? || s.pc.ParseQuery? {
      WorkRankShrinks(c, s, p);
      hide RunnerStep, RunnerRank, Workload.Total;
    } else {
      hide Parsing, Judge, Workload.Total, Workload.Throws;
      assert RunnerStep(c, s, p).progress == s.progress;
    }
  }

  lemma RunsLeftShrink(c: Config, s: State, p: Parse)
    requires s.pc.Cleanup? ==> s.run <= c.timedRuns
    ensures var t := RunnerStep(c, s, p); RunsLeft(c, t) <= RunsLeft(c, s)
    ensures var t := RunnerStep(c, s, p); s.pc.Cleanup? ==> RunsLeft(c, t) < RunsLeft(c, s)
  {
    hide Parsing, Judge, Workload.Total, Workload.Throws;
  }

  lemma RunnerStepsShrink(c: Config, s: State, p: Parse)
    requires Invariant(c, s) && RunnerStep(c, s, p) != s
    ensures |RunnerStep(c, s, p).progress.parses| <= c.work.Total()
    ensures RunnerSteps(c, RunnerStep(c, s, p)) < RunnerSteps(c, s)
  {
    var t := RunnerStep(c, s, p);
    RankShrinks(c, s, p);
    RunsLeftShrink(c, s, p);
    hide Invariant, RunnerStep, RunnerRank, Workload.Total, RunsLeft, Times;
    if RunsLeft(c, t) < RunsLeft(c, s) {
      LessRuns(RunsLeft(c, t), RunsLeft(c, s), 2 * c.work.Total() + 14);
    }
  }

  lemma DogUntouched(c: Config, s: State, p: Parse)
    ensures var t := RunnerStep(c, s, p); t.killed == s.killed && (t.dog == s.dog || (t.dog.waits == t.dog.waitsAgain == 0))
  {
    hide Parsing, Judge, Workload.Total;
  }

  lemma RunnerMeasureShrinks(c: Config, s: State, p: Parse)
    requires Invariant(c, s) && !s.killed && RunnerStep(c, s, p) != s
    requires Invariant(c, RunnerStep(c, s, p))
    ensures Measure(c, RunnerStep(c, s, p)) < Measure(c, s)
  {
    var t := RunnerStep(c, s, p);
    RunnerStepsShrink(c, s, p);
    LessRuns(RunnerSteps(c, t), RunnerSteps(c, s), 2 * c.Waits() + 7);
    DogUntouched(c, s, p);
    hide FlagsAgree, WorkAgrees, ResultsAgree, RunnerSteps, RunnerStep, Config.Waits, Times;
  }

  lemma WatchdogStepsShrink(c: Config, s: State)
    requires s.dog.waits <= c.Waits() && s.dog.waitsAgain <= c.Waits() && WatchdogStep(c, s) != s
    ensures var t := WatchdogStep(c, s);
      && t.dog.waits <= c.Waits() && t.dog.waitsAgain <= c.Waits()
      && t.pc == s.pc && t.run == s.run && t.progress == s.progress
      && (t.killed || WatchdogSteps(c, t.dog) < WatchdogSteps(c, s.dog))
      && WatchdogSteps(c, s.dog) > 0
  {
    hide Config.Waits;
  }

  lemma SameRunnerSteps(c: Config, s: State, t: State)
    requires |s.progress.parses| <= c.work.Total() && t.pc == s.pc && t.run == s.run && t.progress == s.progress
    ensures RunnerSteps(c, t) == RunnerSteps(c, s)
  {
    hide Workload.Total, Times;
  }

  lemma WatchdogMeasureShrinks(c: Config, s: State)
    requires Invariant(c, s) && !s.killed && WatchdogStep(c, s) != s
    requires Invariant(c, WatchdogStep(c, s))
    ensures Measure(c, WatchdogStep(c, s)) < Measure(c, s)
  {
    WatchdogStepsShrink(c, s);
    SameRunnerSteps(c, s, WatchdogStep(c, s));
    hide FlagsAgree, WorkAgrees, ResultsAgree, RunnerSteps, WatchdogStep, WatchdogSteps, Config.Waits, Times;
  }

  /** Every step that changes the state brings the end of the protocol nearer. */
  lemma MeasureShrinks(c: Config, s: State, a: Action)
    requires Invariant(c, s) && Checkable(c.work) && Step(c, s, a) != s
    ensures Invariant(c, Step(c, s, a)) && Measure(c, Step(c, s, a)) < Measure(c, s)
  {
    hide Invariant, Measure, RunnerStep, WatchdogStep;
    if a.Runner? {
      RunnerKeeps(c, s, a.parse);
      RunnerMeasureShrinks(c, s, a.parse);
    } else {
      WatchdogKeeps(c, s);
      WatchdogMeasureShrinks(c, s);
    }
  }

  /** The steps of a run of the protocol that changed anything. */
  function Moves(c: Config, actions: seq<Action>): nat {
    if actions == [] then 0
    else
      var before := actions[..|actions| - 1];
      Moves(c, before) + if Exec(c, actions) != Exec(c, before) then 1 else 0
  }

  lemma InitialInvariant(c: Config)
    ensures Invariant(c, Initial())
  {
    NothingAgrees(c.work);
  }

  /** Whatever the schedule and the parser do, the whole benchmark takes boundedly many steps. */
  lemma {:induction false} BoundedSteps(c: Config, actions: seq<Action>)
    requires Checkable(c.work)
    ensures Invariant(c, Exec(c, actions)) && Invariant(c, Initial())
    ensures Moves(c, actions) + Measure(c, Exec(c, actions)) <= Measure(c, Initial())
  {
    InitialInvariant(c);
    hide Invariant, Measure, Step;
    if actions != [] {
      BoundedSteps(c, actions[..|actions| - 1]);
      var s, a := Exec(c, actions[..|actions| - 1]), actions[|actions| - 1];
      if Step(c, s, a) != s {
        MeasureShrinks(c, s, a);
      }
    }
  }
}
