/**
 The parser micro benchmarks and the work that one of their runs does: counters that Run resets and updates,
 and Verify.  The interrupt flag, which the watchdog sets and Cleanup clears, belongs to the module BenchmarkRunner.
 */
module ParserBenchmark {
  import opened Wrappers

  /** What one call of the parser does: statements, or an exception with its raw message, a ParserException or another. */
  datatype Parse = Parsed(statements: nat) | Rejected(message: string) | Failed(message: string)

  datatype Workload = Workload(malformed: bool, iterations: nat, queryCount: nat, statementCount: nat)
  {
    function Total(): nat {
      iterations * queryCount
    }

    /** The exception leaves Run: only the malformed workload swallows a ParserException. */
    predicate Throws(p: Parse) {
      p.Failed? || (p.Rejected? && !malformed)
    }

    /** The parser did what the workload expects of it. */
    predicate Expected(p: Parse) {
      if malformed then p.Rejected? else p == Parsed(statementCount)
    }
  }

  datatype Counters = Counters(statementsParsed: nat, parserErrors: nat, validStatementCounts: bool)

  const ZERO := Counters(0, 0, true)

  function Tally(w: Workload, k: Counters, p: Parse): Counters
    requires !w.Throws(p)
  {
    if w.malformed then k.(parserErrors := k.parserErrors + if p.Rejected? then 1 else 0)
    else
      k.(statementsParsed := k.statementsParsed + p.statements,
         validStatementCounts := k.validStatementCounts && p.statements == w.statementCount)
  }

  predicate NoneThrows(w: Workload, ps: seq<Parse>) {
    forall k :: 0 <= k < |ps| ==> !w.Throws(ps[k])
  }

  predicate AllExpected(w: Workload, ps: seq<Parse>) {
    forall k :: 0 <= k < |ps| ==> w.Expected(ps[k])
  }

  function TallyAll(w: Workload, ps: seq<Parse>): Counters
    requires NoneThrows(w, ps)
  {
    if ps == [] then ZERO else Tally(w, TallyAll(w, ps[..|ps| - 1]), ps[|ps| - 1])
  }

  predicate Verified(w: Workload, k: Counters) {
    if w.malformed then k.parserErrors == w.Total()
    else k.validStatementCounts && k.statementsParsed == w.Total() * w.statementCount
  }

  lemma PrefixOf(w: Workload, ps: seq<Parse>)
    requires ps != [] && NoneThrows(w, ps)
    ensures var n := |ps| - 1;
      && NoneThrows(w, ps[..n]) && !w.Throws(ps[n])
      && (AllExpected(w, ps) <==> AllExpected(w, ps[..n]) && w.Expected(ps[n]))
      && TallyAll(w, ps) == Tally(w, TallyAll(w, ps[..n]), ps[n])
  {
    hide Workload.Expected, Workload.Throws;
    assert forall k :: 0 <= k < |ps| - 1 ==> ps[k] == ps[..|ps| - 1][k];
  }

  /** Malformed input: there is at most one error a parse, and one for each exactly if all were rejected. */
  lemma {:induction false} ErrorsCounted(w: Workload, ps: seq<Parse>)
    requires NoneThrows(w, ps) && w.malformed
    ensures var errors := TallyAll(w, ps).parserErrors; errors <= |ps| && (errors == |ps| <==> AllExpected(w, ps))
  {
    if ps != [] {
      PrefixOf(w, ps);
      ErrorsCounted(w, ps[..|ps| - 1]);
      hide NoneThrows, AllExpected, TallyAll;
    }
  }

  /** Other input: the counts are valid exactly if all were as expected, and then add up to the expected sum. */
  lemma {:induction false} StatementsCounted(w: Workload, ps: seq<Parse>)
    requires NoneThrows(w, ps) && !w.malformed
    ensures TallyAll(w, ps).validStatementCounts <==> AllExpected(w, ps)
    ensures AllExpected(w, ps) ==> TallyAll(w, ps).statementsParsed == |ps| * w.statementCount
  {
    if ps != [] {
      var n := |ps| - 1;
      PrefixOf(w, ps);
      StatementsCounted(w, ps[..n]);
      hide NoneThrows, AllExpected, TallyAll;
      OneMore(n, w.statementCount);
    }
  }

  lemma OneMore(n: int, m: int)
    ensures (n + 1) * m == n * m + m
  {}

  /** After a run that parsed everything, Verify accepts exactly when every parse did what was expected. */
  lemma CompleteRunVerifies(w: Workload, ps: seq<Parse>)
    requires NoneThrows(w, ps)
    requires |ps| == w.Total()
    ensures Verified(w, TallyAll(w, ps)) <==> AllExpected(w, ps)
  {
    if w.malformed {
      ErrorsCounted(w, ps);
    } else {
      StatementsCounted(w, ps);
    }
    hide TallyAll, AllExpected, NoneThrows;
  }

  /** A shortened run never verifies: malformed input lacks errors, other workloads lack statements. */
  lemma ShortRunFailsVerify(w: Workload, ps: seq<Parse>)
    requires NoneThrows(w, ps)
    requires |ps| < w.Total() && (w.malformed || w.statementCount > 0)
    ensures !Verified(w, TallyAll(w, ps))
  {
    hide TallyAll, AllExpected, NoneThrows;
    if w.malformed {
      ErrorsCounted(w, ps);
    } else {
      StatementsCounted(w, ps);
      Less(|ps|, w.Total(), w.statementCount);
    }
  }

  /** Without it a run that stops early could pass Verify: every registered workload has it. */
  predicate Checkable(w: Workload) {
    w.malformed || w.statementCount > 0
  }

  /** And it is needed: otherwise a run that parsed nothing passes. */
  lemma EmptyRunVerifies(w: Workload)
    requires !Checkable(w)
    ensures Verified(w, TallyAll(w, []))
  {
    assert w.statementCount == 0;
  }

  /** Verify accepts exactly the runs that parsed everything, and everything as expected. */
  lemma VerifiedMeaning(w: Workload, ps: seq<Parse>)
    requires NoneThrows(w, ps) && |ps| <= w.Total() && Checkable(w)
    ensures Verified(w, TallyAll(w, ps)) <==> |ps| == w.Total() && AllExpected(w, ps)
  {
    if |ps| == w.Total() {
      CompleteRunVerifies(w, ps);
    } else {
      ShortRunFailsVerify(w, ps);
    }
  }

  lemma Less(a: nat, b: nat, c: nat)
    requires a < b && c > 0
    ensures a * c < b * c
  {
    assert b * c == a * c + (b - a) * c;
  }

  // ---------------------------------------------------------------------------
  // Grammar construction
  // ---------------------------------------------------------------------------

  /** The grammar benchmark as a workload: every iteration counts one if a grammar was constructed. */
  const GRAMMAR_CONSTRUCTION := Workload(false, 250, 1, 1)

  predicate Constructions(ps: seq<Parse>) {
    forall k :: 0 <= k < |ps| ==> ps[k] == Parsed(0) || ps[k] == Parsed(1)
  }

  lemma {:induction false} ConstructionsCounted(ps: seq<Parse>)
    requires Constructions(ps)
    ensures NoneThrows(GRAMMAR_CONSTRUCTION, ps)
    ensures var k := TallyAll(GRAMMAR_CONSTRUCTION, ps);
      k.statementsParsed <= |ps| && (k.validStatementCounts <==> k.statementsParsed == |ps|)
  {
    if ps != [] {
      ConstructionsCounted(ps[..|ps| - 1]);
    }
  }

  /** Its own Verify, which only compares the count, accepts the same runs as that of the workload. */
  lemma GrammarVerifyAgrees(ps: seq<Parse>)
    requires Constructions(ps) && |ps| <= 250
    ensures NoneThrows(GRAMMAR_CONSTRUCTION, ps)
    ensures Verified(GRAMMAR_CONSTRUCTION, TallyAll(GRAMMAR_CONSTRUCTION, ps)) <==>
      TallyAll(GRAMMAR_CONSTRUCTION, ps).statementsParsed == 250
  {
    ConstructionsCounted(ps);
    hide TallyAll;
  }

  /** How Run ends; an exception leaves it with the parse that raised it. */
  datatype Ending = Returned | Interrupted | Threw(parse: Parse)

  /**
   What Run meets at its k-th query: the value it reads from the shared flag, and what the parser then does.
   */
  datatype Moment = Moment(interrupted: bool, parse: Parse)

  /** The k-th query is where Run stops early. */
  predicate Stops(w: Workload, m: Moment) {
    m.interrupted || w.Throws(m.parse)
  }

  function Parses(env: seq<Moment>, n: nat): (ps: seq<Parse>)
    requires n <= |env|
    ensures |ps| == n && forall k :: 0 <= k < n ==> ps[k] == env[k].parse
  {
    seq(n, k requires 0 <= k < n => env[k].parse)
  }

  predicate GoesOn(w: Workload, env: seq<Moment>, k: nat) {
    k < |env| && !Stops(w, env[k])
  }

  /** Run on the moments `env` ends like this after `done` queries, the first at which it stops. */
  predicate RunsTo(w: Workload, env: seq<Moment>, ending: Ending, done: nat) {
    && done <= |env| == w.Total()
    && (forall k :: 0 <= k < done ==> GoesOn(w, env, k))
    && (if done == w.Total() then ending == Returned
        else Stops(w, env[done]) && ending == if env[done].interrupted then Interrupted else Threw(env[done].parse))
  }

  /** Before the k-th query the flag was clear, and the parser returned or raised what the malformed workload swallows. */
  predicate Survived(w: Workload, m: Moment) {
    !m.interrupted && (m.parse.Parsed? || (w.malformed && m.parse.Rejected?))
  }

  /**
   Which exceptions leave Run: every one that is no ParserException, and a ParserException unless the input is
   malformed on purpose.
   */
  predicate EndsBy(w: Workload, env: seq<Moment>, ending: Ending, done: nat) {
    match ending
    case Returned => done == w.iterations * w.queryCount
    case Interrupted => done < |env| && env[done].interrupted
    case Threw(p) =>
      done < |env| && !env[done].interrupted && env[done].parse == p && (p.Failed? || (p.Rejected? && !w.malformed))
  }

  /** Run ends at the first query that it does not survive, and returns if there is none. */
  lemma RunMeaning(w: Workload, env: seq<Moment>, ending: Ending, done: nat)
    requires |env| == w.iterations * w.queryCount
    ensures RunsTo(w, env, ending, done) <==>
      done <= |env| && EndsBy(w, env, ending, done) && forall k :: 0 <= k < done ==> Survived(w, env[k])
  {
    assert forall k :: 0 <= k < |env| ==> (GoesOn(w, env, k) <==> Survived(w, env[k]));
  }

  /** What the workload wants of a parse: a ParserException from malformed input, the statements from other input. */
  predicate AsWanted(w: Workload, p: Parse) {
    (w.malformed && p.Rejected?) || (!w.malformed && p == Parsed(w.statementCount))
  }

  /** After a run that returned, Verify accepts exactly if every query of every iteration did what the workload wants. */
  lemma AcceptedMeaning(w: Workload, env: seq<Moment>, done: nat)
    requires RunsTo(w, env, Returned, done)
    ensures NoneThrows(w, Parses(env, done))
    ensures Verified(w, TallyAll(w, Parses(env, done))) <==> forall k :: 0 <= k < |env| ==> AsWanted(w, env[k].parse)
  {
    var ps := Parses(env, done);
    forall k | 0 <= k < done ensures !w.Throws(ps[k]) {
      assert GoesOn(w, env, k);
    }
    hide TallyAll, Verified;
    CompleteRunVerifies(w, ps);
    assert forall k :: 0 <= k < done ==> (w.Expected(ps[k]) <==> AsWanted(w, env[k].parse));
  }

  /** There is one way for Run to end. */
  lemma RunIsDetermined(w: Workload, env: seq<Moment>, e1: Ending, done1: nat, e2: Ending, done2: nat)
    requires RunsTo(w, env, e1, done1) && RunsTo(w, env, e2, done2)
    ensures e1 == e2 && done1 == done2
  {
    assert done1 < done2 ==> GoesOn(w, env, done1);
    assert done2 < done1 ==> GoesOn(w, env, done2);
  }

  class BenchmarkState {
    var counters: Counters

    constructor ()
      ensures counters == ZERO
    {
      counters := ZERO;
    }

    /**
     The nested loops of Run.  The flag is shared with the watchdog, so its value at each read comes from
     `env`; the counters end as the tally of the parses before the first query at which Run stops.
     */
    method Run(w: Workload, env: seq<Moment>) returns (ending: Ending, done: nat)
      requires |env| == w.Total()
      modifies this
      ensures RunsTo(w, env, ending, done) && EndsBy(w, env, ending, done)
      ensures forall k :: 0 <= k < done ==> Survived(w, env[k])
      ensures NoneThrows(w, Parses(env, done)) && counters == TallyAll(w, Parses(env, done))
    {
      counters := ZERO;
      done := 0;
      for i := 0 to w.iterations
        invariant done == i * w.queryCount && done <= w.Total()
        invariant forall k :: 0 <= k < done ==> GoesOn(w, env, k) && Survived(w, env[k])
        invariant NoneThrows(w, Parses(env, done)) && counters == TallyAll(w, Parses(env, done))
      {
        Rows(i, w.iterations, w.queryCount);
        for q := 0 to w.queryCount
          invariant done == i * w.queryCount + q && done <= w.Total()
          invariant forall k :: 0 <= k < done ==> GoesOn(w, env, k) && Survived(w, env[k])
          invariant NoneThrows(w, Parses(env, done)) && counters == TallyAll(w, Parses(env, done))
        {
          assert done < w.Total();
          if env[done].interrupted {
            return Interrupted, done;
          }
          var parse := env[done].parse;
          if w.Throws(parse) {
            return Threw(parse), done;
          }
          assert Survived(w, env[done]);
          assert Parses(env, done + 1)[..done] == Parses(env, done);
          counters := Tally(w, counters, parse);
          done := done + 1;
        }
      }
      return Returned, done;
    }

    /** On the counters that a run left, Verify accepts if and only if the run parsed everything as expected. */
    method Verify(w: Workload, ghost parses: seq<Parse>) returns (ok: bool)
      ensures Checkable(w) && NoneThrows(w, parses) && |parses| <= w.Total() && counters == TallyAll(w, parses) ==>
        (ok <==> |parses| == w.Total() && AllExpected(w, parses))
    {
      if Checkable(w) && NoneThrows(w, parses) && |parses| <= w.Total() {
        VerifiedMeaning(w, parses);
      }
      if w.malformed {
        return counters.parserErrors == w.iterations * w.queryCount;
      }
      ok := counters.validStatementCounts && counters.statementsParsed == w.iterations * w.queryCount * w.statementCount;
    }
  }

  lemma Rows(i: nat, n: nat, m: nat)
    requires i < n
    ensures (i + 1) * m == i * m + m <= n * m
  {
    assert n * m == (i + 1) * m + (n - i - 1) * m;
  }
}
