/**
 Sequences of calls on a service that starts empty, as the demonstration
 program drives it: what every reachable store looks like, which ids the
 creates hand out, and which records end up completed.
 */
module History {
  import opened Wrappers
  import opened Consultations
  import opened ConsultationService
  import Queries

  /** One call on the service; `now` is the clock reading taken by a create. */
  datatype Command =
    | Create(patientId: string, physicianId: string, consultType: ConsultationType,
             complaint: string, now: int)
    | Update(consultId: int, assessment: string, plan: string)

  /** What a call returns: the new id of a create, the flag of an update. */
  datatype Reply = NewId(id: int) | Found(found: bool)

  datatype StepResult = StepResult(store: Store, reply: Reply)

  /** A store reached by a run of calls, and the reply to each call in order. */
  datatype Session = Session(store: Store, replies: seq<Reply>)

  function Step(s: Store, cmd: Command): StepResult {
    match cmd
    case Create(patientId, physicianId, consultType, complaint, now) =>
      var r := CreateConsultation(s, patientId, physicianId, consultType, complaint, now);
      StepResult(r.store, NewId(r.id))
    case Update(consultId, assessment, plan) =>
      var r := UpdateConsultation(s, consultId, assessment, plan);
      StepResult(r.store, Found(r.found))
  }

  /** Runs the calls in order on a freshly constructed (empty) service. */
  function Run(cmds: seq<Command>): (r: Session)
    ensures |r.replies| == |cmds|
  {
    if |cmds| == 0 then Session([], [])
    else
      var prev := Run(cmds[..|cmds| - 1]);
      var next := Step(prev.store, cmds[|cmds| - 1]);
      Session(next.store, prev.replies + [next.reply])
  }

  function CountCreates(cmds: seq<Command>): nat {
    if |cmds| == 0 then 0
    else CountCreates(cmds[..|cmds| - 1]) + (if cmds[|cmds| - 1].Create? then 1 else 0)
  }

  /** Some call of the run updated id `k` and was answered true. */
  ghost predicate Hit(cmds: seq<Command>, replies: seq<Reply>, k: int) {
    exists j :: 0 <= j < |cmds| && j < |replies| && cmds[j].Update? && cmds[j].consultId == k
                && replies[j] == Found(true)
  }

  /** Every store the service can reach satisfies the store invariant and holds one record per create. */
  lemma {:induction false} RunValid(cmds: seq<Command>)
    ensures Valid(Run(cmds).store)
    ensures |Run(cmds).store| == CountCreates(cmds)
  {
    if |cmds| > 0 {
      var init := cmds[..|cmds| - 1];
      RunValid(init);
      var s := Run(init).store;
      match cmds[|cmds| - 1]
      case Create(patientId, physicianId, consultType, complaint, now) =>
        CreatePreservesValid(s, patientId, physicianId, consultType, complaint, now);
      case Update(consultId, assessment, plan) =>
        UpdatePreservesValid(s, consultId, assessment, plan);
    }
  }

  /** The replies of a run start with the replies of any shorter run. */
  lemma {:induction false} RunPrefix(cmds: seq<Command>, n: nat)
    requires n <= |cmds|
    ensures Run(cmds[..n]).replies == Run(cmds).replies[..n]
    decreases |cmds|
  {
    if n < |cmds| {
      var init := cmds[..|cmds| - 1];
      assert cmds[..n] == init[..n];
      RunPrefix(init, n);
    } else {
      assert cmds[..n] == cmds;
    }
  }

  /**
   Starting from an empty service, the k-th create of a run (counting from 1)
   returns id k, whatever the updates in between.
   */
  lemma {:induction false} CreatesNumberedInCallOrder(cmds: seq<Command>)
    ensures forall j :: 0 <= j < |cmds| && cmds[j].Create? ==>
              Run(cmds).replies[j] == NewId(CountCreates(cmds[..j]) + 1)
  {
    forall j | 0 <= j < |cmds| && cmds[j].Create?
      ensures Run(cmds).replies[j] == NewId(CountCreates(cmds[..j]) + 1)
    {
      RunPrefix(cmds, j + 1);
      CreateReply(cmds[..j + 1]);
      assert cmds[..j + 1][..j] == cmds[..j];
    }
  }

  /** The reply to a create that ends a run. */
  lemma CreateReply(cmds: seq<Command>)
    requires |cmds| > 0 && cmds[|cmds| - 1].Create?
    ensures Run(cmds).replies[|cmds| - 1] == NewId(CountCreates(cmds[..|cmds| - 1]) + 1)
  {
    var init, c := cmds[..|cmds| - 1], cmds[|cmds| - 1];
    RunValid(init);
    CreatePreservesValid(Run(init).store, c.patientId, c.physicianId, c.consultType, c.complaint, c.now);
  }

  /** Hit on a run extended by one call. */
  lemma HitSnoc(cmds: seq<Command>, replies: seq<Reply>, cmd: Command, reply: Reply, k: int)
    requires |replies| == |cmds|
    ensures Hit(cmds + [cmd], replies + [reply], k)
        <==> Hit(cmds, replies, k) || (cmd.Update? && cmd.consultId == k && reply == Found(true))
  {
    var cs, rs := cmds + [cmd], replies + [reply];
    if Hit(cs, rs, k) {
      var j :| 0 <= j < |cs| && j < |rs| && cs[j].Update? && cs[j].consultId == k && rs[j] == Found(true);
      if j < |cmds| {
        assert cmds[j] == cs[j] && replies[j] == rs[j];
      }
    }
    if Hit(cmds, replies, k) {
      var j :| 0 <= j < |cmds| && j < |replies| && cmds[j].Update? && cmds[j].consultId == k
               && replies[j] == Found(true);
      assert cs[j] == cmds[j] && rs[j] == replies[j];
    }
    if cmd.Update? && cmd.consultId == k && reply == Found(true) {
      assert cs[|cmds|] == cmd && rs[|cmds|] == reply;
    }
  }

  /** The completed records of a run are exactly those a successful update hit. */
  ghost predicate StatusTracksHits(cmds: seq<Command>) {
    var r := Run(cmds);
    && (forall i :: 0 <= i < |r.store| ==> (r.store[i].status == Completed <==> Hit(cmds, r.replies, i + 1)))
    && (forall k :: Hit(cmds, r.replies, k) ==> 1 <= k <= |r.store|)
  }

  /**
   A record is Completed exactly when some update of its id succeeded, and an
   update succeeds only on an id the store holds.
   */
  lemma {:induction false} CompletedIffUpdated(cmds: seq<Command>)
    ensures var r := Run(cmds);
            forall i :: 0 <= i < |r.store| ==> (r.store[i].status == Completed <==> Hit(cmds, r.replies, i + 1))
    ensures var r := Run(cmds);
            forall k :: Hit(cmds, r.replies, k) ==> 1 <= k <= |r.store|
  {
    if |cmds| == 0 {
      forall k
        ensures !Hit(cmds, Run(cmds).replies, k)
      {
      }
    } else {
      var init, cmd := cmds[..|cmds| - 1], cmds[|cmds| - 1];
      assert cmds == init + [cmd];
      CompletedIffUpdated(init);
      RunValid(init);
      if cmd.Create? {
        CompletedAfterCreate(init, cmd);
      } else {
        CompletedAfterUpdate(init, cmd);
      }
    }
  }

  /** Hits of a run extended by one call, in terms of the shorter run. */
  lemma HitsAfterStep(init: seq<Command>, cmd: Command)
    ensures var p := Run(init);
            var next := Step(p.store, cmd);
            forall k :: Hit(init + [cmd], Run(init + [cmd]).replies, k)
              <==> Hit(init, p.replies, k) || (cmd.Update? && cmd.consultId == k && next.reply == Found(true))
  {
    var cmds := init + [cmd];
    assert cmds[..|cmds| - 1] == init;
    var p := Run(init);
    var next := Step(p.store, cmd);
    forall k
      ensures Hit(cmds, Run(cmds).replies, k)
          <==> Hit(init, p.replies, k) || (cmd.Update? && cmd.consultId == k && next.reply == Found(true))
    {
      HitSnoc(init, p.replies, cmd, next.reply, k);
    }
  }

  lemma CompletedAfterCreate(init: seq<Command>, cmd: Command)
    requires cmd.Create?
    requires Valid(Run(init).store) && StatusTracksHits(init)
    ensures StatusTracksHits(init + [cmd])
  {
    var cmds := init + [cmd];
    assert cmds[..|cmds| - 1] == init;
    var p := Run(init);
    HitsAfterStep(init, cmd);
    CreatePreservesValid(p.store, cmd.patientId, cmd.physicianId, cmd.consultType, cmd.complaint, cmd.now);
  }

  lemma CompletedAfterUpdate(init: seq<Command>, cmd: Command)
    requires cmd.Update?
    requires Valid(Run(init).store) && StatusTracksHits(init)
    ensures StatusTracksHits(init + [cmd])
  {
    var cmds := init + [cmd];
    assert cmds[..|cmds| - 1] == init;
    var p := Run(init);
    HitsAfterStep(init, cmd);
    UpdatePreservesValid(p.store, cmd.consultId, cmd.assessment, cmd.plan);
    ValidIdsUnique(p.store);
    UpdateHitsOnlyThatRecord(p.store, cmd.consultId, cmd.assessment, cmd.plan);
  }

  /**
   The demonstration run: two creates for patient P1 with physician DR1 at
   clock readings t1 and t2, then an update of the first. The creates get ids
   1 and 2, the update succeeds and completes the first record only.
   */
  lemma DemoRun(t1: int, t2: int)
    ensures Run([Create("P1", "DR1", Initial, "headache for 3 days", t1),
                 Create("P1", "DR1", FollowUp, "follow up for headache", t2),
                 Update(1, "Probably dehydrated", "Drink a lot of water.")])
         == Session([Consultation(1, "P1", "DR1", t1, "headache for 3 days",
                                  Some("Probably dehydrated"), Some("Drink a lot of water."),
                                  Initial, Completed),
                     Consultation(2, "P1", "DR1", t2, "follow up for headache",
                                  None, None, FollowUp, Scheduled)],
                    [NewId(1), NewId(2), Found(true)])
  {
    var c1 := Create("P1", "DR1", Initial, "headache for 3 days", t1);
    var c2 := Create("P1", "DR1", FollowUp, "follow up for headache", t2);
    var c3 := Update(1, "Probably dehydrated", "Drink a lot of water.");
    var cmds := [c1, c2, c3];
    assert cmds[..2] == [c1, c2];
    assert cmds[..2][..1] == [c1];
    assert [c1][..0] == [];
    assert Run([]) == Session([], []);
    var r1 := Run([c1]);
    assert r1.replies == [NewId(1)];
    var r2 := Run([c1, c2]);
    assert r2.replies == [NewId(1), NewId(2)];
    assert |r2.store| == 2 && r2.store[0].id == 1;
  }

  /**
   The demonstration's closing query on a physician with two records: the
   later one comes first, and equal dates keep creation order.
   */
  lemma DemoQuery(first: Consultation, second: Consultation)
    requires first.physicianId == second.physicianId
    ensures GetPhysicianConsultations([first, second], first.physicianId)
         == if first.consultDate < second.consultDate then [second, first] else [first, second]
  {
    var k := Queries.PhysicianIs(first.physicianId);
    Queries.WhereCons(second, [], k);
    Queries.WhereCons(first, [second], k);
    assert [first] + [second] == [first, second];
    SortTwo(first, second);
  }

  /**
   The demonstration's closing query on DR1, asked of the store its calls
   reach: the follow-up comes first when it is later, and on equal clock
   readings creation order is kept.
   */
  lemma DemoClosingQuery(t1: int, t2: int)
    ensures var first := Consultation(1, "P1", "DR1", t1, "headache for 3 days",
                                      Some("Probably dehydrated"), Some("Drink a lot of water."),
                                      Initial, Completed);
            var second := Consultation(2, "P1", "DR1", t2, "follow up for headache",
                                       None, None, FollowUp, Scheduled);
            GetPhysicianConsultations(
              Run([Create("P1", "DR1", Initial, "headache for 3 days", t1),
                   Create("P1", "DR1", FollowUp, "follow up for headache", t2),
                   Update(1, "Probably dehydrated", "Drink a lot of water.")]).store, "DR1")
            == if t1 < t2 then [second, first] else [first, second]
  {
    DemoRun(t1, t2);
    var first := Consultation(1, "P1", "DR1", t1, "headache for 3 days",
                              Some("Probably dehydrated"), Some("Drink a lot of water."),
                              Initial, Completed);
    var second := Consultation(2, "P1", "DR1", t2, "follow up for headache",
                               None, None, FollowUp, Scheduled);
    DemoQuery(first, second);
  }

  /** Sorting two records puts the later first and keeps their order on a tie. */
  lemma SortTwo(x: Consultation, y: Consultation)
    ensures Queries.SortByDateDesc([x, y]) == if x.consultDate < y.consultDate then [y, x] else [x, y]
  {
    assert [x, y][..1] == [x];
    assert [x][..0] == [];
    assert Queries.SortByDateDesc([x]) == [x];
    if x.consultDate >= y.consultDate {
      assert Queries.InsertDesc(y, [x]) == [x] + Queries.InsertDesc(y, []);
    }
  }
}
