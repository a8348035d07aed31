/**
 * What `Module.run` guarantees, proved about its specification in Engine:
 * the ledger is exactly the set of attempted fingerprints and each fingerprint
 * is attempted at most once; the error counter is the number of trailing
 * consecutive failures; the run stops right after the first delete that trips
 * the circuit breaker or the stop flag; the page cursor moves only past a
 * stuck page, and every pass that does not end the run makes progress.
 */
module RunProperties {
  import opened Options
  import opened Fingerprints
  import opened Outcomes
  import opened Config
  import opened Engine

  predicate Succeeded(a: Attempt)
  {
    Classify(a.reply.resp).Success?
  }

  /** The fingerprints of the entities a trace of delete calls attempted. */
  function Attempted(trace: seq<Attempt>): set<Entity>
  {
    if trace == [] then {}
    else Attempted(trace[..|trace| - 1]) + {RemoveTbs(trace[|trace| - 1].entity)}
  }

  /** The number of failed attempts since the last success (or since the start). */
  function TrailingFailures(trace: seq<Attempt>): (n: nat)
    ensures n <= |trace|
  {
    if trace == [] then 0
    else if Succeeded(trace[|trace| - 1]) then 0
    else TrailingFailures(trace[..|trace| - 1]) + 1
  }

  /** No two attempts share a fingerprint. */
  predicate DistinctFingerprints(trace: seq<Attempt>)
  {
    forall i, j :: 0 <= i < j < |trace| ==> RemoveTbs(trace[i].entity) != RemoveTbs(trace[j].entity)
  }

  /**
   * The run-state invariant: the ledger holds exactly the fingerprints
   * attempted, each was attempted once, and the counter is the trailing run
   * of failures.
   */
  predicate Consistent(st: RunState)
  {
    && st.ledger == Attempted(st.trace)
    && DistinctFingerprints(st.trace)
    && st.errors == TrailingFailures(st.trace)
  }

  /** The check after the i-th delete call trips. */
  predicate TripsAt(trace: seq<Attempt>, maxErrors: int, i: nat)
    requires i < |trace|
  {
    Trips(TrailingFailures(trace[..i + 1]), trace[i].reply, maxErrors)
  }

  /** None of the first n delete calls tripped the check. */
  predicate Calm(trace: seq<Attempt>, maxErrors: int, n: nat)
    requires n <= |trace|
  {
    forall i :: 0 <= i < n ==> !TripsAt(trace, maxErrors, i)
  }

  lemma {:induction false} AttemptedMembers(trace: seq<Attempt>, fp: Entity)
    ensures fp in Attempted(trace) <==> exists i :: 0 <= i < |trace| && RemoveTbs(trace[i].entity) == fp
    decreases |trace|
  {
    if trace != [] {
      var prefix := trace[..|trace| - 1];
      AttemptedMembers(prefix, fp);
      if fp in Attempted(prefix) {
        var i :| 0 <= i < |prefix| && RemoveTbs(prefix[i].entity) == fp;
        assert RemoveTbs(trace[i].entity) == fp;
      }
      if exists i :: 0 <= i < |trace| && RemoveTbs(trace[i].entity) == fp {
        var i :| 0 <= i < |trace| && RemoveTbs(trace[i].entity) == fp;
        if i < |prefix| {
          assert RemoveTbs(prefix[i].entity) == fp;
        }
      }
    }
  }

  /**
   * `error_count` counts consecutive failures: the last TrailingFailures
   * attempts all failed, and the one before them, if any, succeeded.
   */
  lemma {:induction false} TrailingFailuresAreConsecutive(trace: seq<Attempt>)
    ensures forall i :: |trace| - TrailingFailures(trace) <= i < |trace| ==> !Succeeded(trace[i])
    ensures TrailingFailures(trace) < |trace| ==> Succeeded(trace[|trace| - TrailingFailures(trace) - 1])
    decreases |trace|
  {
    if trace != [] && !Succeeded(trace[|trace| - 1]) {
      var prefix := trace[..|trace| - 1];
      TrailingFailuresAreConsecutive(prefix);
      forall i | |trace| - TrailingFailures(trace) <= i < |trace|
        ensures !Succeeded(trace[i])
      {
        if i < |prefix| {
          assert trace[i] == prefix[i];
        }
      }
      if TrailingFailures(trace) < |trace| {
        assert trace[|trace| - TrailingFailures(trace) - 1] == prefix[|prefix| - TrailingFailures(prefix) - 1];
      }
    }
  }

  /** Whether the check trips at an attempt depends only on the calls up to it. */
  lemma TripsAtPrefix(trace: seq<Attempt>, trace': seq<Attempt>, maxErrors: int, n: nat)
    requires |trace| <= |trace'| && trace'[..|trace|] == trace
    requires n <= |trace|
    ensures Calm(trace, maxErrors, n) <==> Calm(trace', maxErrors, n)
  {
    forall i | 0 <= i < n
      ensures TripsAt(trace, maxErrors, i) <==> TripsAt(trace', maxErrors, i)
    {
      assert trace[..i + 1] == trace'[..i + 1];
    }
  }

  /** The i-th delete call of the trace passed its entity and got the service's i-th answer. */
  predicate Answered(svc: Service, trace: seq<Attempt>)
  {
    forall i :: 0 <= i < |trace| ==> trace[i].reply == svc.delete(i, trace[i].entity)
  }

  /**
   * How the trace ends for each outcome: a halted run stopped right after the
   * first delete call that tripped the check; any other run never tripped it.
   */
  predicate Settled(o: RunOutcome, trace: seq<Attempt>, maxErrors: int)
  {
    if o == Halted then |trace| > 0 && Calm(trace, maxErrors, |trace| - 1) && TripsAt(trace, maxErrors, |trace| - 1)
    else Calm(trace, maxErrors, |trace|)
  }

  /** The invariant of the run loop between two passes. */
  predicate Inv(svc: Service, maxErrors: int, st: RunState)
  {
    Consistent(st) && Answered(svc, st.trace) && Calm(st.trace, maxErrors, |st.trace|)
  }

  /** One visited entity keeps the invariant, and halts exactly when its delete trips the check. */
  lemma VisitEntityKeeps(svc: Service, maxErrors: int, e: Entity, st: RunState)
    requires Consistent(st) && Answered(svc, st.trace)
    ensures var v := VisitEntity(svc, maxErrors, e, st);
      && Consistent(v.st) && Answered(svc, v.st.trace) && Extends(st, v.st)
      && (RemoveTbs(e) in st.ledger ==> !v.halt && v.st == st)
      && (RemoveTbs(e) !in st.ledger ==>
            |v.st.trace| == |st.trace| + 1 && (v.halt <==> TripsAt(v.st.trace, maxErrors, |st.trace|)))
  {
    var v := VisitEntity(svc, maxErrors, e, st);
    var fp := RemoveTbs(e);
    if fp !in st.ledger {
      var t := v.st.trace;
      assert t[..|t| - 1] == st.trace;
      assert t[..|st.trace| + 1] == t;
      assert Attempted(t) == st.ledger + {fp};
      forall i, j | 0 <= i < j < |t|
        ensures RemoveTbs(t[i].entity) != RemoveTbs(t[j].entity)
      {
        if j == |t| - 1 {
          AttemptedMembers(st.trace, fp);
          assert t[i] == st.trace[i];
        } else {
          assert t[i] == st.trace[i] && t[j] == st.trace[j];
        }
      }
      forall i | 0 <= i < |t|
        ensures t[i].reply == svc.delete(i, t[i].entity)
      {
        if i < |st.trace| {
          assert t[i] == st.trace[i];
        }
      }
    }
  }

  /**
   * The loop over one page keeps the invariant and the cursor; it returns
   * `halt` exactly when its last delete tripped the check, and no earlier
   * delete did.
   */
  lemma {:induction false} ProcessPageKeeps(svc: Service, maxErrors: int, es: seq<Entity>, st: RunState)
    requires Inv(svc, maxErrors, st)
    ensures var v := ProcessPage(svc, maxErrors, es, st);
      && Consistent(v.st) && Answered(svc, v.st.trace) && Extends(st, v.st)
      && v.st.page == st.page && v.st.collects == st.collects
      && Settled(if v.halt then Halted else Exhausted, v.st.trace, maxErrors)
    decreases |es|
  {
    if es != [] {
      var w := VisitEntity(svc, maxErrors, es[0], st);
      VisitEntityKeeps(svc, maxErrors, es[0], st);
      TripsAtPrefix(st.trace, w.st.trace, maxErrors, |st.trace|);
      if !w.halt {
        if RemoveTbs(es[0]) !in st.ledger {
          assert Calm(w.st.trace, maxErrors, |w.st.trace|);
        }
        ProcessPageKeeps(svc, maxErrors, es[1..], w.st);
      }
    }
  }

  /**
   * One pass of the loop keeps the invariant; a pass that halts does so right
   * after the first delete that tripped the check.
   */
  lemma StepKeeps(svc: Service, maxErrors: int, st: RunState)
    requires Inv(svc, maxErrors, st)
    ensures match Step(svc, maxErrors, st)
      case Next(s) => Inv(svc, maxErrors, s) && Extends(st, s)
      case Done(o, s) =>
        && Consistent(s) && Answered(svc, s.trace) && Extends(st, s)
        && (o == Exhausted || o == Halted) && Settled(o, s.trace, maxErrors)
  {
    var es := svc.collect(st.collects, st.page);
    var st1 := st.(collects := st.collects + 1);
    if |es| != 0 && !Stuck(es, st.ledger) {
      ProcessPageKeeps(svc, maxErrors, es, st1);
    }
  }

  lemma {:induction false} RunFromKeeps(svc: Service, maxErrors: int, st: RunState, fuel: nat)
    requires Inv(svc, maxErrors, st)
    ensures var r := RunFrom(svc, maxErrors, st, fuel);
      && Consistent(r.final) && Answered(svc, r.final.trace) && Extends(st, r.final)
      && Settled(r.outcome, r.final.trace, maxErrors)
    decreases fuel
  {
    if fuel > 0 {
      StepKeeps(svc, maxErrors, st);
      RunFromUnfold(svc, maxErrors, st, fuel);
      match Step(svc, maxErrors, st)
      case Done(_, _) =>
      case Next(s) =>
        RunFromKeeps(svc, maxErrors, s, fuel - 1);
    }
  }

  /**
   * The guarantees of a whole run: the ledger is exactly the set of
   * fingerprints attempted, `delete` is called at most once per fingerprint,
   * `error_count` is the number of trailing consecutive failures, and the run
   * halts right after the first delete that trips the circuit breaker or the
   * module's stop flag, with no delete after it; a run that does not halt
   * never tripped the check and ends under the error ceiling.
   */
  lemma RunGuarantees(svc: Service, config: ModuleConfig, fuel: nat)
    ensures var r := RunSpec(svc, config, fuel);
      var t := r.final.trace;
      && r.final.ledger == Attempted(t)
      && DistinctFingerprints(t)
      && r.final.errors == TrailingFailures(t)
      && Answered(svc, t)
      && (r.outcome == Halted ==>
            && |t| > 0 && Calm(t, MaxErrorCount(config), |t| - 1)
            && (r.final.errors >= MaxErrorCount(config) || t[|t| - 1].reply.stop))
      && (r.outcome != Halted ==> Calm(t, MaxErrorCount(config), |t|))
      && (r.outcome != Halted && t != [] ==> r.final.errors < MaxErrorCount(config))
  {
    var init := InitialState(StartPage(config));
    if Enabled(config) {
      RunFromKeeps(svc, MaxErrorCount(config), init, fuel);
    }
    var r := RunSpec(svc, config, fuel);
    var t := r.final.trace;
    if t != [] {
      assert t[..|t|] == t;
      if r.outcome == Halted {
        assert TripsAt(t, MaxErrorCount(config), |t| - 1);
      } else {
        assert !TripsAt(t, MaxErrorCount(config), |t| - 1);
      }
    }
  }

  /** An empty page ends the run normally with cursor, ledger and counter unchanged. */
  lemma EmptyPageEndsRun(svc: Service, maxErrors: int, st: RunState, fuel: nat)
    requires fuel > 0 && svc.collect(st.collects, st.page) == []
    ensures var r := RunFrom(svc, maxErrors, st, fuel);
      && r.outcome == Exhausted
      && r.final.page == st.page && r.final.ledger == st.ledger && r.final.errors == st.errors
      && r.final.trace == st.trace
  {
  }

  /**
   * A non-empty page whose fingerprints are all known moves the cursor on by
   * one, with no delete call and nothing else changed.
   */
  lemma StuckPageAdvances(svc: Service, maxErrors: int, st: RunState)
    requires var es := svc.collect(st.collects, st.page);
      |es| > 0 && forall i :: 0 <= i < |es| ==> RemoveTbs(es[i]) in st.ledger
    ensures Step(svc, maxErrors, st) == Next(st.(page := st.page + 1, collects := st.collects + 1))
  {
  }

  /**
   * The entities of a page that the page loop deletes when nothing trips, in
   * listing order: each entity whose fingerprint is neither in the ledger nor
   * that of an earlier entity of the page.
   */
  function FreshEntities(es: seq<Entity>, ledger: set<Entity>): (picked: seq<Entity>)
    ensures |picked| <= |es|
    ensures forall i :: 0 <= i < |picked| ==> picked[i] in es && RemoveTbs(picked[i]) !in ledger
    decreases |es|
  {
    if es == [] then []
    else if RemoveTbs(es[0]) in ledger then FreshEntities(es[1..], ledger)
    else
      var rest := FreshEntities(es[1..], ledger + {RemoveTbs(es[0])});
      assert forall i :: 0 <= i < |rest| ==> rest[i] in es[1..];
      [es[0]] + rest
  }

  /** The entities passed to the delete calls of a trace, in order. */
  function Deleted(trace: seq<Attempt>): (d: seq<Entity>)
    ensures |d| == |trace| && forall i :: 0 <= i < |trace| ==> d[i] == trace[i].entity
  {
    seq(|trace|, i requires 0 <= i < |trace| => trace[i].entity)
  }

  /**
   * The page loop deletes the page's entities with a fresh fingerprint, in
   * listing order, up to the halt: the entities of its delete calls are a
   * prefix of FreshEntities, and all of it when the page ends without a halt.
   */
  lemma {:induction false} ProcessPageDeletesFresh(svc: Service, maxErrors: int, es: seq<Entity>, st: RunState)
    ensures var v := ProcessPage(svc, maxErrors, es, st);
      var d := Deleted(v.st.trace[|st.trace|..]);
      d <= FreshEntities(es, st.ledger) && (!v.halt ==> d == FreshEntities(es, st.ledger))
    decreases |es|
  {
    var n := |st.trace|;
    if es == [] {
      assert st.trace[n..] == [];
    } else {
      var v := VisitEntity(svc, maxErrors, es[0], st);
      if RemoveTbs(es[0]) in st.ledger {
        ProcessPageDeletesFresh(svc, maxErrors, es[1..], st);
      } else if v.halt {
        assert v.st.trace[n..] == [v.st.trace[n]];
      } else {
        var w := ProcessPage(svc, maxErrors, es[1..], v.st);
        var rest := FreshEntities(es[1..], st.ledger + {RemoveTbs(es[0])});
        assert FreshEntities(es, st.ledger) == [es[0]] + rest;
        assert Deleted(w.st.trace[n..]) == [es[0]] + Deleted(w.st.trace[n + 1..]) by {
          DeletedFirst(w.st.trace, n);
          assert w.st.trace[n] == v.st.trace[n];
        }
        ProcessPageDeletesFresh(svc, maxErrors, es[1..], v.st);
      }
    }
  }

  lemma DeletedFirst(trace: seq<Attempt>, n: nat)
    requires n < |trace|
    ensures Deleted(trace[n..]) == [trace[n].entity] + Deleted(trace[n + 1..])
  {
    assert trace[n..] == [trace[n]] + trace[n + 1..];
  }

  /** A page holding an unknown fingerprint gets at least one delete call, which grows the ledger. */
  lemma {:induction false} ProcessPageProgress(svc: Service, maxErrors: int, es: seq<Entity>, st: RunState, k: nat)
    requires k < |es| && RemoveTbs(es[k]) !in st.ledger
    ensures var v := ProcessPage(svc, maxErrors, es, st);
      st.ledger < v.st.ledger && |st.trace| < |v.st.trace|
    decreases |es|
  {
    if RemoveTbs(es[0]) in st.ledger {
      ProcessPageProgress(svc, maxErrors, es[1..], st, k - 1);
    }
  }

  /**
   * Every pass of the loop that does not end the run makes progress: either
   * the page was stuck and the cursor moved on by exactly one with ledger,
   * counter and trace unchanged, or the cursor stayed put and the ledger
   * strictly grew through new delete calls.
   */
  lemma StepProgress(svc: Service, maxErrors: int, st: RunState)
    ensures Step(svc, maxErrors, st).Next? ==>
      var s := Step(svc, maxErrors, st).st;
      || (s.page == st.page + 1 && s.ledger == st.ledger && s.errors == st.errors && s.trace == st.trace)
      || (s.page == st.page && st.ledger < s.ledger && |st.trace| < |s.trace|)
  {
    var es := svc.collect(st.collects, st.page);
    var st1 := st.(collects := st.collects + 1);
    if |es| > 0 && !Stuck(es, st.ledger) {
      StuckIffAllKnown(es, st.ledger);
      var k :| 0 <= k < |es| && RemoveTbs(es[k]) !in st.ledger;
      ProcessPageProgress(svc, maxErrors, es, st1, k);
      var v := ProcessPage(svc, maxErrors, es, st1);
      if !v.halt {
        assert Step(svc, maxErrors, st) == Next(v.st);
      }
    }
  }

  /** Whether a service's delete calls behave as the given module's `_delete`. */
  ghost predicate DeletesAs(svc: Service, kind: ModuleKind)
  {
    forall k: nat, e: Entity :: DeleteStopFlag(kind, svc.delete(k, e).resp) == Some(svc.delete(k, e).stop)
  }

  /**
   * What stops a module's run: for the followed-forum, followed-user and fan
   * modules only the circuit breaker can; for the thread and reply modules the
   * last response may instead carry the quota-exceeded code.
   */
  lemma HaltCause(kind: ModuleKind, svc: Service, config: ModuleConfig, fuel: nat)
    requires DeletesAs(svc, kind)
    ensures var r := RunSpec(svc, config, fuel);
      var t := r.final.trace;
      r.outcome == Halted ==>
        && |t| > 0
        && (|| r.final.errors >= MaxErrorCount(config)
            || (&& ReadsErrorCode(kind) && t[|t| - 1].reply.resp.Decoded?
                && t[|t| - 1].reply.resp.errCode == Code(QuotaExceededCode)))
  {
    RunGuarantees(svc, config, fuel);
    var r := RunSpec(svc, config, fuel);
    var t := r.final.trace;
    if r.outcome == Halted && r.final.errors < MaxErrorCount(config) {
      var last := t[|t| - 1];
      assert last.reply == svc.delete(|t| - 1, last.entity);
      assert DeleteStopFlag(kind, last.reply.resp) == Some(last.reply.stop);
    }
  }
}
