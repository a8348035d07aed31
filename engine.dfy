/**
 * The generic bulk-delete engine, `Module.run`: page through a module's
 * listing, delete every entity not already attempted, count consecutive
 * failures, and stop on an empty page, on the circuit breaker or on the
 * module's own stop flag.
 *
 * The pure functions below (VisitEntity, ProcessPage, Step, RunFrom, RunSpec)
 * are the specification; the method Run is the loop itself, proved to compute
 * RunSpec.
 */
module Engine {
  import opened Options
  import opened Fingerprints
  import opened Outcomes
  import opened Config

  /** What a module's `_delete` returns: the response and its stop flag. */
  datatype DeleteReply = DeleteReply(resp: Response, stop: bool)

  /**
   * A module's two remote collaborators, `_collect` and `_delete`. The first
   * argument of each is how many calls to that collaborator the run has made
   * before, so the answers may follow the remote service as it changes.
   */
  datatype Service = Service(collect: (nat, int) -> seq<Entity>, delete: (nat, Entity) -> DeleteReply)

  /** One delete call the run made: the entity passed and the reply. */
  datatype Attempt = Attempt(entity: Entity, reply: DeleteReply)

  /**
   * The run's state: the page cursor `current_page`, the ledger
   * `deleted_entity` and the counter `error_count` of the source, together with
   * the number of collect calls made and the delete calls made, in order.
   */
  datatype RunState = RunState(page: int, ledger: set<Entity>, errors: nat, collects: nat, trace: seq<Attempt>)

  /**
   * How a run ends: Disabled and Exhausted are the two plain returns, Halted
   * is the `sys.exit(-1)` after a tripped check, OutOfFuel means the run was
   * still going when the bound on collect calls was reached.
   */
  datatype RunOutcome = Disabled | Exhausted | Halted | OutOfFuel

  datatype RunResult = RunResult(outcome: RunOutcome, final: RunState)

  /** The result of visiting entities of one page: whether the run must stop, and the state. */
  datatype Visit = Visit(halt: bool, st: RunState)

  /** The result of one pass of the `while True` loop. */
  datatype StepResult = Done(outcome: RunOutcome, st: RunState) | Next(st: RunState)

  /**
   * The later state only adds to the ledger, the trace and the collect count.
   */
  predicate Extends(st: RunState, st': RunState)
  {
    && st.ledger <= st'.ledger
    && |st.trace| <= |st'.trace|
    && st'.trace[..|st.trace|] == st.trace
    && st.collects <= st'.collects
  }

  lemma ExtendsTransitive(s1: RunState, s2: RunState, s3: RunState)
    requires Extends(s1, s2) && Extends(s2, s3)
    ensures Extends(s1, s3)
  {
  }

  function InitialState(startPage: int): RunState
  {
    RunState(startPage, {}, 0, 0, [])
  }

  /** The fingerprints of a page that the ledger does not hold yet. */
  function NewFingerprints(page: seq<Entity>, ledger: set<Entity>): set<Entity>
  {
    (set e | e in page :: RemoveTbs(e)) - ledger
  }

  /** A page all of whose fingerprints are already in the ledger. */
  predicate Stuck(page: seq<Entity>, ledger: set<Entity>)
  {
    NewFingerprints(page, ledger) == {}
  }

  /** A page is stuck exactly when every fingerprint on it is already in the ledger. */
  lemma StuckIffAllKnown(page: seq<Entity>, ledger: set<Entity>)
    ensures Stuck(page, ledger) <==> forall i :: 0 <= i < |page| ==> RemoveTbs(page[i]) in ledger
  {
    if !Stuck(page, ledger) {
      var fp :| fp in NewFingerprints(page, ledger);
      var e :| e in page && RemoveTbs(e) == fp;
      var i :| 0 <= i < |page| && page[i] == e;
      assert RemoveTbs(page[i]) !in ledger;
    } else {
      forall i | 0 <= i < |page|
        ensures RemoveTbs(page[i]) in ledger
      {
        assert RemoveTbs(page[i]) !in NewFingerprints(page, ledger);
      }
    }
  }

  /** The check after each delete: the circuit breaker or the module's stop flag. */
  predicate Trips(errors: nat, reply: DeleteReply, maxErrors: int)
  {
    errors >= maxErrors || reply.stop
  }

  /**
   * One entity of a page: skipped when its fingerprint is known, otherwise
   * recorded in the ledger, deleted, classified and checked.
   */
  function VisitEntity(svc: Service, maxErrors: int, e: Entity, st: RunState): (v: Visit)
    ensures RemoveTbs(e) in st.ledger ==> v == Visit(false, st)
    ensures RemoveTbs(e) !in st.ledger ==>
      && v.st.ledger == st.ledger + {RemoveTbs(e)}
      && |v.st.trace| == |st.trace| + 1
      && v.st.trace[..|st.trace|] == st.trace
      && v.st.trace[|st.trace|].entity == e
      && v.st.page == st.page && v.st.collects == st.collects
  {
    var fp := RemoveTbs(e);
    if fp in st.ledger then Visit(false, st)
    else
      var reply := svc.delete(|st.trace|, e);
      var errors := NextErrorCount(st.errors, reply.resp);
      var st' := st.(ledger := st.ledger + {fp}, errors := errors, trace := st.trace + [Attempt(e, reply)]);
      Visit(Trips(errors, reply, maxErrors), st')
  }

  /** The `for entity in current_page_entity` loop, stopping at the first trip. */
  function ProcessPage(svc: Service, maxErrors: int, es: seq<Entity>, st: RunState): (v: Visit)
    ensures v.st.page == st.page && v.st.collects == st.collects
    ensures Extends(st, v.st)
    ensures |v.st.trace| <= |st.trace| + |es|
    ensures v.halt ==> |st.trace| < |v.st.trace|
    ensures !v.halt ==> forall i :: 0 <= i < |es| ==> RemoveTbs(es[i]) in v.st.ledger
    ensures forall i :: |st.trace| <= i < |v.st.trace| ==> v.st.trace[i].entity in es
    decreases |es|
  {
    if es == [] then Visit(false, st)
    else
      var v := VisitEntity(svc, maxErrors, es[0], st);
      if v.halt then v
      else
        var w := ProcessPage(svc, maxErrors, es[1..], v.st);
        ExtendsTransitive(st, v.st, w.st);
        assert forall i :: 1 <= i < |es| ==> es[i] == es[1..][i - 1];
        assert forall i :: |v.st.trace| <= i < |w.st.trace| ==> w.st.trace[i].entity in es[1..];
        w
  }

  /**
   * One pass of the `while True` loop: fetch the current page and act on it.
   * An empty page ends the run; a stuck page moves the cursor on and changes
   * nothing else; any other page keeps the cursor, and the pass ends only when
   * a delete on it tripped the check.
   */
  function Step(svc: Service, maxErrors: int, st: RunState): (r: StepResult)
    ensures r.st.collects == st.collects + 1
    ensures Extends(st, r.st)
    ensures var es := svc.collect(st.collects, st.page);
      (r.Done? && r.outcome == Exhausted) <==> |es| == 0
    ensures var es := svc.collect(st.collects, st.page);
      r.st.page != st.page <==> |es| > 0 && Stuck(es, st.ledger)
    ensures r.st.page != st.page ==> r == Next(st.(page := st.page + 1, collects := st.collects + 1))
    ensures r.Done? ==> r.outcome == Exhausted || (r.outcome == Halted && |st.trace| < |r.st.trace|)
    ensures r.Done? && r.outcome == Exhausted ==> r.st == st.(collects := st.collects + 1)
    ensures var es := svc.collect(st.collects, st.page);
      r.Next? ==> forall i :: 0 <= i < |es| ==> RemoveTbs(es[i]) in r.st.ledger
  {
    var es := svc.collect(st.collects, st.page);
    var st1 := st.(collects := st.collects + 1);
    if |es| == 0 then Done(Exhausted, st1)
    else if Stuck(es, st.ledger) then
      StuckIffAllKnown(es, st.ledger);
      Next(st1.(page := st.page + 1))
    else
      var v := ProcessPage(svc, maxErrors, es, st1);
      if v.halt then Done(Halted, v.st) else Next(v.st)
  }

  /** The loop run from a state with at most `fuel` more collect calls. */
  function RunFrom(svc: Service, maxErrors: int, st: RunState, fuel: nat): (r: RunResult)
    ensures r.outcome != Disabled
    ensures Extends(st, r.final) && r.final.collects <= st.collects + fuel
    ensures r.outcome == OutOfFuel ==> r.final.collects == st.collects + fuel
    ensures r.outcome == Exhausted ==>
      r.final.collects > 0 && svc.collect(r.final.collects - 1, r.final.page) == []
    ensures r.outcome == Halted ==> |st.trace| < |r.final.trace|
    decreases fuel
  {
    if fuel == 0 then RunResult(OutOfFuel, st)
    else match Step(svc, maxErrors, st)
      case Done(o, s) => RunResult(o, s)
      case Next(s) =>
        var r := RunFrom(svc, maxErrors, s, fuel - 1);
        ExtendsTransitive(st, s, r.final);
        r
  }

  /**
   * `Module.run` for a module with the given section: nothing at all when
   * disabled, otherwise the loop from `start_page` with an empty ledger.
   */
  function RunSpec(svc: Service, config: ModuleConfig, fuel: nat): (r: RunResult)
    ensures !Enabled(config) <==> r.outcome == Disabled
    ensures !Enabled(config) ==> r.final.collects == 0 && r.final.trace == []
  {
    var init := InitialState(StartPage(config));
    if !Enabled(config) then RunResult(Disabled, init)
    else RunFrom(svc, MaxErrorCount(config), init, fuel)
  }

  /** One pass of the loop, unfolded for the method's proof. */
  lemma RunFromUnfold(svc: Service, maxErrors: int, st: RunState, fuel: nat)
    requires fuel > 0
    ensures RunFrom(svc, maxErrors, st, fuel) ==
      match Step(svc, maxErrors, st)
      case Done(o, s) => RunResult(o, s)
      case Next(s) => RunFrom(svc, maxErrors, s, fuel - 1)
  {
  }

  /** One entity of the page loop, unfolded for the method's proof. */
  lemma ProcessPageUnfold(svc: Service, maxErrors: int, es: seq<Entity>, i: nat, st: RunState)
    requires i < |es|
    ensures ProcessPage(svc, maxErrors, es[i..], st) ==
      var v := VisitEntity(svc, maxErrors, es[i], st);
      if v.halt then v else ProcessPage(svc, maxErrors, es[i + 1..], v.st)
  {
    assert es[i..][1..] == es[i + 1..];
  }

  /**
   * The `for entity in current_page_entity` loop of `Module.run`, over the
   * ledger, counter and delete calls it updates; it returns at the first
   * tripped check (where the source calls `sys.exit(-1)`).
   */
  method DeletePage(svc: Service, maxErrorCount: int, currentPageEntity: seq<Entity>, st: RunState) returns (v: Visit)
    ensures v == ProcessPage(svc, maxErrorCount, currentPageEntity, st)
  {
    var deletedEntity: set<Entity>, errorCount: nat, trace: seq<Attempt> := st.ledger, st.errors, st.trace;
    for i := 0 to |currentPageEntity|
      invariant ProcessPage(svc, maxErrorCount, currentPageEntity[i..], st.(ledger := deletedEntity, errors := errorCount, trace := trace))
             == ProcessPage(svc, maxErrorCount, currentPageEntity, st)
    {
      var entity := currentPageEntity[i];
      var noTbsEntity := RemoveTbs(entity);
      ProcessPageUnfold(svc, maxErrorCount, currentPageEntity, i, st.(ledger := deletedEntity, errors := errorCount, trace := trace));
      ghost var errorsBefore := errorCount;
      if noTbsEntity !in deletedEntity {
        deletedEntity := deletedEntity + {noTbsEntity};
        var reply := svc.delete(|trace|, entity);
        trace := trace + [Attempt(entity, reply)];
        match reply.resp {
          case Decoded(no, _) =>
            if no == Some(0) {
              errorCount := 0;
            } else {
              errorCount := errorCount + 1;
            }
          case Undecodable =>
            errorCount := errorCount + 1;
          case NoResponse =>
            errorCount := errorCount + 1;
        }
        assert errorCount == NextErrorCount(errorsBefore, reply.resp);
        var stop := reply.stop;
        if errorCount >= maxErrorCount {
          stop := true;
        }
        if stop {
          return Visit(true, st.(ledger := deletedEntity, errors := errorCount, trace := trace));
        }
      }
    }
    return Visit(false, st.(ledger := deletedEntity, errors := errorCount, trace := trace));
  }

  /**
   * One pass of the `while True` loop of `Module.run`: fetch the current page,
   * return on an empty page, move on past a stuck page, otherwise delete the
   * page's new entities.
   */
  method Pass(svc: Service, maxErrorCount: int, st: RunState) returns (r: StepResult)
    ensures r == Step(svc, maxErrorCount, st)
  {
    var currentPageEntity := svc.collect(st.collects, st.page);
    var fetched := st.(collects := st.collects + 1);
    if |currentPageEntity| == 0 {
      return Done(Exhausted, fetched);
    }
    if NewFingerprints(currentPageEntity, st.ledger) == {} {
      return Next(fetched.(page := st.page + 1));
    }
    var v := DeletePage(svc, maxErrorCount, currentPageEntity, fetched);
    if v.halt {
      return Done(Halted, v.st);
    }
    return Next(v.st);
  }

  /**
   * `Module.run`, for the module named `name`, with at most `fuel` collect
   * calls; the final state and how the run ended are returned for inspection.
   */
  method Run(name: string, config: GlobalConfig, svc: Service, fuel: nat) returns (r: RunResult)
    ensures r == RunSpec(svc, ModuleConfigOf(config, name), fuel)
  {
    var moduleConfig := ModuleConfigOf(config, name);
    var maxErrorCount := MaxErrorCount(moduleConfig);
    var st := InitialState(StartPage(moduleConfig));
    if !Enabled(moduleConfig) {
      return RunResult(Disabled, st);
    }
    ghost var goal := RunSpec(svc, moduleConfig, fuel);
    while true
      invariant st.collects <= fuel
      invariant RunFrom(svc, maxErrorCount, st, fuel - st.collects) == goal
      decreases fuel - st.collects
    {
      if st.collects == fuel {
        return RunResult(OutOfFuel, st);
      }
      var pass := Pass(svc, maxErrorCount, st);
      RunFromUnfold(svc, maxErrorCount, st, fuel - st.collects);
      match pass {
        case Done(outcome, final) =>
          return RunResult(outcome, final);
        case Next(next) =>
          st := next;
      }
    }
  }
}
