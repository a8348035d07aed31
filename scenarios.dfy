/**
 * Concrete runs of the engine on small scripted services. After a page with
 * new entities the cursor stays where it is and the same page is fetched
 * again; only a page whose fingerprints are all known moves the cursor on.
 */
module Scenarios {
  import opened Options
  import opened Fingerprints
  import opened Outcomes
  import opened Config
  import opened Engine

  const A1: Entity := map["id" := "A", "tbs" := "x1"]
  const B1: Entity := map["id" := "B", "tbs" := "x1"]
  const A2: Entity := map["id" := "A", "tbs" := "x2"]
  const B2: Entity := map["id" := "B", "tbs" := "x2"]

  const Ok: DeleteReply := DeleteReply(Decoded(Some(0), Absent), false)
  const Rejected: DeleteReply := DeleteReply(Decoded(Some(1), Absent), false)

  const Enabled3: ModuleConfig := ModuleConfig(Some(true), None, None)

  /**
   * The first two collect calls list A and B (with a fresh token the second
   * time), every later one lists nothing; the first delete succeeds, every
   * later one is rejected.
   */
  const RefetchService: Service := Service(
    (k: nat, page: int) => if k == 0 then [A1, B1] else if k == 1 then [A2, B2] else [],
    (k: nat, e: Entity) => if k == 0 then Ok else Rejected)

  /**
   * Page 1 lists A and B; deleting A succeeds and deleting B fails. The page
   * is fetched again and still lists A and B with a fresh token: it is stuck,
   * so the cursor moves to page 2, which is empty. The run ends normally with
   * both fingerprints in the ledger, one consecutive failure, two delete calls
   * and three collect calls.
   */
  lemma RefetchedTokensAreRecognised()
    ensures var r := RunSpec(RefetchService, Enabled3, 10);
      && r.outcome == Exhausted
      && r.final.page == 2
      && r.final.ledger == {map["id" := "A"], map["id" := "B"]}
      && r.final.errors == 1
      && r.final.collects == 3
      && r.final.trace == [Attempt(A1, Ok), Attempt(B1, Rejected)]
  {
    var s2 := AfterPage1.(page := 2, collects := 2);
    RefetchFirstPass();
    RefetchSecondPass();
    assert Step(RefetchService, 3, s2) == Done(Exhausted, s2.(collects := 3));
    RunFromUnfold(RefetchService, 3, InitialState(1), 10);
    RunFromUnfold(RefetchService, 3, AfterPage1, 9);
    RunFromUnfold(RefetchService, 3, s2, 8);
  }

  /** The state after page 1 of RefetchService: both fingerprints known, one failure. */
  const AfterPage1: RunState :=
    RunState(1, {map["id" := "A"], map["id" := "B"]}, 1, 1, [Attempt(A1, Ok), Attempt(B1, Rejected)])

  /** The first pass of RefetchedTokensAreRecognised: A succeeds, B fails, no halt. */
  lemma RefetchFirstPass()
    ensures Step(RefetchService, 3, InitialState(1)) == Next(AfterPage1)
  {
    var svc := RefetchService;
    var fa, fb := map["id" := "A"], map["id" := "B"];
    assert RemoveTbs(A1) == fa && RemoveTbs(B1) == fb;
    assert fa != fb by { assert fa["id"] != fb["id"]; }
    var v1 := VisitEntity(svc, 3, A1, InitialState(1).(collects := 1));
    assert v1 == Visit(false, RunState(1, {fa}, 0, 1, [Attempt(A1, Ok)]));
    assert VisitEntity(svc, 3, B1, v1.st) == Visit(false, AfterPage1);
    assert [A1, B1][1..] == [B1] && [B1][1..] == [];
    assert ProcessPage(svc, 3, [B1], v1.st) == ProcessPage(svc, 3, [], AfterPage1);
    assert NewFingerprints([A1, B1], {}) == {fa, fb};
  }

  /** The second pass of RefetchedTokensAreRecognised: page 1 again, now stuck. */
  lemma RefetchSecondPass()
    ensures Step(RefetchService, 3, AfterPage1) == Next(AfterPage1.(page := 2, collects := 2))
  {
    var fa, fb := map["id" := "A"], map["id" := "B"];
    assert RemoveTbs(A2) == fa && RemoveTbs(B2) == fb;
    assert NewFingerprints([A2, B2], {fa, fb}) == {};
  }

  /**
   * With the ceiling at 3, the third consecutive failure halts the run in the
   * middle of the page: the fourth entity is never deleted.
   */
  lemma ThirdFailureHaltsMidPage()
    ensures var r := RunSpec(SilentService, Enabled3, 10);
      r.outcome == Halted && r.final.errors == 3 && |r.final.trace| == 3
  {
    assert RunFrom(SilentService, 3, InitialState(1), 10) == RunResult(Halted, SilentHalt) by {
      SilentFirstPass();
      RunFromUnfold(SilentService, 3, InitialState(1), 10);
    }
  }

  /** Every collect call lists entities 1 to 4; no delete call gets a response. */
  const SilentService: Service := Service(
    (k: nat, page: int) => [map["id" := "1"], map["id" := "2"], map["id" := "3"], map["id" := "4"]],
    (k: nat, e: Entity) => DeleteReply(NoResponse, false))

  /** The state in which ThirdFailureHaltsMidPage halts: entities 1 to 3 attempted, all failed. */
  const SilentHalt: RunState :=
    var no := DeleteReply(NoResponse, false);
    RunState(1, {map["id" := "1"], map["id" := "2"], map["id" := "3"]}, 3, 1,
             [Attempt(map["id" := "1"], no), Attempt(map["id" := "2"], no), Attempt(map["id" := "3"], no)])

  /** The first pass of ThirdFailureHaltsMidPage halts at the third entity. */
  lemma SilentFirstPass()
    ensures Step(SilentService, 3, InitialState(1)) == Done(Halted, SilentHalt)
  {
    var e1, e2, e3, e4 := map["id" := "1"], map["id" := "2"], map["id" := "3"], map["id" := "4"];
    SilentPageHaltsAtThird();
    assert "tbs" !in e1 && RemoveTbs(e1) == e1;
    assert e1 in NewFingerprints([e1, e2, e3, e4], {});
  }

  /** The page of ThirdFailureHaltsMidPage: three failures, a halt at the third. */
  lemma SilentPageHaltsAtThird()
    ensures ProcessPage(SilentService, 3, [map["id" := "1"], map["id" := "2"], map["id" := "3"], map["id" := "4"]],
                        InitialState(1).(collects := 1))
         == Visit(true, SilentHalt)
  {
    var svc := SilentService;
    var e1, e2, e3, e4 := map["id" := "1"], map["id" := "2"], map["id" := "3"], map["id" := "4"];
    assert "tbs" !in e1 && "tbs" !in e2 && "tbs" !in e3;
    assert RemoveTbs(e1) == e1 && RemoveTbs(e2) == e2 && RemoveTbs(e3) == e3;
    assert e1 != e2 by { assert e1["id"] != e2["id"]; }
    assert e1 != e3 by { assert e1["id"] != e3["id"]; }
    assert e2 != e3 by { assert e2["id"] != e3["id"]; }
    var s0 := InitialState(1).(collects := 1);
    var no := DeleteReply(NoResponse, false);
    var v1 := VisitEntity(svc, 3, e1, s0);
    assert v1 == Visit(false, s0.(ledger := {e1}, errors := 1, trace := [Attempt(e1, no)]));
    var v2 := VisitEntity(svc, 3, e2, v1.st);
    assert v2 == Visit(false, v1.st.(ledger := {e1, e2}, errors := 2, trace := [Attempt(e1, no), Attempt(e2, no)]));
    assert VisitEntity(svc, 3, e3, v2.st) == Visit(true, SilentHalt);
    assert [e1, e2, e3, e4][1..] == [e2, e3, e4] && [e2, e3, e4][1..] == [e3, e4];
    assert ProcessPage(svc, 3, [e2, e3, e4], v1.st) == ProcessPage(svc, 3, [e3, e4], v2.st);
  }

  /**
   * A thread-module reply carrying the quota-exceeded code halts the run after
   * the first delete, though the error ceiling is far from reached.
   */
  lemma QuotaCodeHaltsAtOnce()
    ensures var quota := Decoded(Some(1), Code(QuotaExceededCode));
      var svc := Service(
              (k: nat, page: int) => [map["tid" := "7", "pid" := "8"], map["tid" := "7", "pid" := "9"]],
              (k: nat, e: Entity) => DeleteReply(quota, DeleteStopFlag(Thread, quota).value));
      var r := RunSpec(svc, Enabled3, 10);
      r.outcome == Halted && r.final.errors == 1 && |r.final.trace| == 1
  {
    var quota := Decoded(Some(1), Code(QuotaExceededCode));
    var e1, e2 := map["tid" := "7", "pid" := "8"], map["tid" := "7", "pid" := "9"];
    var svc := Service(
      (k: nat, page: int) => [e1, e2],
      (k: nat, e: Entity) => DeleteReply(quota, DeleteStopFlag(Thread, quota).value));
    var s0 := InitialState(1);
    var st := RunState(1, {e1}, 1, 1, [Attempt(e1, DeleteReply(quota, true))]);
    assert ProcessPage(svc, 3, [e1, e2], s0.(collects := 1)) == Visit(true, st) by {
      assert "tbs" !in e1 && RemoveTbs(e1) == e1;
      assert VisitEntity(svc, 3, e1, s0.(collects := 1)) == Visit(true, st);
    }
    assert Step(svc, 3, s0) == Done(Halted, st) by {
      assert e1 in NewFingerprints([e1, e2], {});
    }
    RunFromUnfold(svc, 3, s0, 10);
  }
}
