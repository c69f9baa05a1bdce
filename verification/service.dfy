/**
 The in-memory consultation store: id generation, create, update by id and
 the two list queries, as pure functions from the current list of records
 to the next one.
 */
module ConsultationService {
  import opened Wrappers
  import opened Consultations
  import opened Queries

  /** The service's list of consultations, in insertion order. */
  type Store = seq<Consultation>

  /** Result of a create: the new store and the id given to the new record. */
  datatype Created = Created(store: Store, id: int)

  /** Result of an update: the new store and whether a record had the id. */
  datatype Updated = Updated(store: Store, found: bool)

  /** The largest id in a non-empty store. */
  function MaxId(s: Store): (m: int)
    requires |s| > 0
    ensures exists i :: 0 <= i < |s| && s[i].id == m
    ensures forall i :: 0 <= i < |s| ==> s[i].id <= m
  {
    if |s| == 1 then s[0].id
    else
      var rest := MaxId(s[1..]);
      if s[0].id >= rest then s[0].id else rest
  }

  /**
   The next id: 1 for an empty store, otherwise one more than the largest id,
   so it exceeds every id in the store.
   */
  function GenerateConsultId(s: Store): (id: int)
    ensures |s| == 0 ==> id == 1
    ensures forall i :: 0 <= i < |s| ==> s[i].id < id
    ensures |s| > 0 ==> exists i :: 0 <= i < |s| && s[i].id == id - 1
  {
    if |s| > 0 then MaxId(s) + 1 else 1
  }

  /**
   Appends a new scheduled consultation, stamped `now`, and returns its id.
   Earlier records are untouched.
   */
  function CreateConsultation(s: Store, patientId: string, physicianId: string,
                              consultType: ConsultationType, complaint: string, now: int): (r: Created)
    ensures |r.store| == |s| + 1
    ensures r.store[..|s|] == s
    ensures r.store[|s|] == Consultation(r.id, patientId, physicianId, now, complaint,
                                         None, None, consultType, Scheduled)
    ensures r.id == GenerateConsultId(s)
    ensures |s| == 0 ==> r.id == 1
    ensures forall i :: 0 <= i < |s| ==> s[i].id != r.id
  {
    var id := GenerateConsultId(s);
    var c := Consultation(id, patientId, physicianId, now, complaint, None, None, consultType, Scheduled);
    Created(s + [c], id)
  }

  /** Linear scan: the position of the first record with the given id. */
  function FindIndex(s: Store, id: int): (r: Option<nat>)
    ensures r.Some? ==> r.value < |s| && s[r.value].id == id
    ensures r.Some? ==> forall j :: 0 <= j < r.value ==> s[j].id != id
    ensures r.None? <==> forall j :: 0 <= j < |s| ==> s[j].id != id
  {
    if |s| == 0 then None
    else if s[0].id == id then Some(0)
    else match FindIndex(s[1..], id)
      case None => None
      case Some(i) => Some(i + 1)
  }

  /** The record as left by a successful update. */
  function Complete(c: Consultation, assessment: string, plan: string): Consultation {
    c.(assessment := Some(assessment), plan := Some(plan), status := Completed)
  }

  /**
   Overwrites assessment and plan of the first record with the given id and
   marks it Completed, whatever its status was. Reports whether such a record
   exists; if none does, the store is unchanged.
   */
  function UpdateConsultation(s: Store, consultId: int, assessment: string, plan: string): (r: Updated)
    ensures r.found <==> exists i :: 0 <= i < |s| && s[i].id == consultId
    ensures !r.found ==> r.store == s
    ensures |r.store| == |s|
    ensures forall j :: 0 <= j < |s| && s[j].id != consultId ==> r.store[j] == s[j]
    ensures r.found ==>
      exists i :: 0 <= i < |s| && s[i].id == consultId
        && (forall j :: 0 <= j < i ==> s[j].id != consultId)
        && (forall j :: 0 <= j < |s| && j != i ==> r.store[j] == s[j])
        && r.store[i] == s[i].(assessment := Some(assessment), plan := Some(plan), status := Completed)
  {
    match FindIndex(s, consultId)
    case None => Updated(s, false)
    case Some(i) => Updated(s[i := Complete(s[i], assessment, plan)], true)
  }

  /**
   The consultations of one physician, most recent first; records of equal
   date keep store order.
   */
  function GetPhysicianConsultations(s: Store, physicianId: string): (r: seq<Consultation>)
    ensures SortedDesc(r)
    ensures SameTies(r, Where(s, PhysicianIs(physicianId)))
    ensures forall i :: 0 <= i < |r| ==> r[i].physicianId == physicianId
    ensures |r| == 0 <==> forall i :: 0 <= i < |s| ==> s[i].physicianId != physicianId
  {
    OrderedWhere(s, PhysicianIs(physicianId))
  }

  /**
   The consultations of one patient, most recent first; records of equal date
   keep store order.
   */
  function GetPatientConsultations(s: Store, patientId: string): (r: seq<Consultation>)
    ensures SortedDesc(r)
    ensures SameTies(r, Where(s, PatientIs(patientId)))
    ensures forall i :: 0 <= i < |r| ==> r[i].patientId == patientId
    ensures |r| == 0 <==> forall i :: 0 <= i < |s| ==> s[i].patientId != patientId
  {
    OrderedWhere(s, PatientIs(patientId))
  }

  /**
   The physician's list is a permutation of the physician's records in the
   store: each appears as often as in the store, and no other record appears.
   */
  lemma PhysicianConsultationsPermutation(s: Store, physicianId: string)
    ensures var r := GetPhysicianConsultations(s, physicianId);
            forall c :: multiset(r)[c] == if c.physicianId == physicianId then multiset(s)[c] else 0
  {
    OrderedWherePermutation(s, PhysicianIs(physicianId));
  }

  /** The patient's list is a permutation of the patient's records in the store. */
  lemma PatientConsultationsPermutation(s: Store, patientId: string)
    ensures var r := GetPatientConsultations(s, patientId);
            forall c :: multiset(r)[c] == if c.patientId == patientId then multiset(s)[c] else 0
  {
    OrderedWherePermutation(s, PatientIs(patientId));
  }

  /**
   The physician's list is the only most-recent-first arrangement of the
   physician's records that keeps store order among equal dates.
   */
  lemma PhysicianConsultationsUnique(s: Store, physicianId: string, r: seq<Consultation>)
    requires SortedDesc(r)
    requires SameTies(r, Where(s, PhysicianIs(physicianId)))
    ensures r == GetPhysicianConsultations(s, physicianId)
  {
    OrderedWhereUnique(s, PhysicianIs(physicianId), r);
  }

  /** The same uniqueness for the patient's list. */
  lemma PatientConsultationsUnique(s: Store, patientId: string, r: seq<Consultation>)
    requires SortedDesc(r)
    requires SameTies(r, Where(s, PatientIs(patientId)))
    ensures r == GetPatientConsultations(s, patientId)
  {
    OrderedWhereUnique(s, PatientIs(patientId), r);
  }

  // ---------------------------------------------------------------------
  // Store invariants

  /** Ids are pairwise distinct and positive. */
  predicate UniqueIds(s: Store) {
    && (forall i :: 0 <= i < |s| ==> s[i].id > 0)
    && (forall i, j :: 0 <= i < j < |s| ==> s[i].id != s[j].id)
  }

  /**
   The only states the service produces: scheduled with nothing written, or
   completed with assessment and plan written.
   */
  predicate Reachable(c: Consultation) {
    || (c.status == Scheduled && c.assessment == None && c.plan == None)
    || (c.status == Completed && c.assessment.Some? && c.plan.Some?)
  }

  /** Every store built from an empty one: ids 1, 2, ..., n in order, every record reachable. */
  predicate Valid(s: Store) {
    && (forall i :: 0 <= i < |s| ==> s[i].id == i + 1)
    && (forall i :: 0 <= i < |s| ==> Reachable(s[i]))
  }

  /** The generated id is positive and fresh, so create keeps ids unique. */
  lemma CreateKeepsIdsUnique(s: Store, patientId: string, physicianId: string,
                             consultType: ConsultationType, complaint: string, now: int)
    requires UniqueIds(s)
    ensures UniqueIds(CreateConsultation(s, patientId, physicianId, consultType, complaint, now).store)
  {
    var r := CreateConsultation(s, patientId, physicianId, consultType, complaint, now);
    if |s| > 0 {
      assert r.id - 1 >= s[0].id > 0 by {
        var i :| 0 <= i < |s| && s[i].id == r.id - 1;
      }
    }
    assert r.store == s + [r.store[|s|]];
  }

  /** Update changes no id, so it keeps ids unique. */
  lemma UpdateKeepsIdsUnique(s: Store, consultId: int, assessment: string, plan: string)
    requires UniqueIds(s)
    ensures UniqueIds(UpdateConsultation(s, consultId, assessment, plan).store)
  {
  }

  /** Records of the store are never in progress or cancelled. */
  lemma ValidStatuses(s: Store)
    requires Valid(s)
    ensures forall i :: 0 <= i < |s| ==> s[i].status == Scheduled || s[i].status == Completed
    ensures forall i :: 0 <= i < |s| ==> (s[i].status == Completed <==> s[i].assessment.Some?)
  {
  }

  /** A valid store has unique positive ids. */
  lemma ValidIdsUnique(s: Store)
    requires Valid(s)
    ensures UniqueIds(s)
  {
  }

  /** On a valid store of n records the generator hands out n + 1. */
  lemma GenerateConsultIdCounts(s: Store)
    requires Valid(s)
    ensures GenerateConsultId(s) == |s| + 1
  {
    if |s| > 0 {
      var i :| 0 <= i < |s| && s[i].id == GenerateConsultId(s) - 1;
      assert s[|s| - 1].id == |s|;
    }
  }

  lemma CreatePreservesValid(s: Store, patientId: string, physicianId: string,
                             consultType: ConsultationType, complaint: string, now: int)
    requires Valid(s)
    ensures var r := CreateConsultation(s, patientId, physicianId, consultType, complaint, now);
            Valid(r.store) && r.id == |s| + 1
  {
    GenerateConsultIdCounts(s);
    var r := CreateConsultation(s, patientId, physicianId, consultType, complaint, now);
    assert r.store == s + [r.store[|s|]];
  }

  /** Update finds exactly the ids 1..n of a valid store, and keeps it valid. */
  lemma UpdatePreservesValid(s: Store, consultId: int, assessment: string, plan: string)
    requires Valid(s)
    ensures var r := UpdateConsultation(s, consultId, assessment, plan);
            Valid(r.store) && (r.found <==> 1 <= consultId <= |s|)
  {
    if 1 <= consultId <= |s| {
      assert s[consultId - 1].id == consultId;
    }
  }

  /**
   With unique ids the update hits exactly the record with that id: it is
   completed with the new assessment and plan and keeps id, patient,
   physician, date, type and complaint; every other record is unchanged.
   */
  lemma UpdateHitsOnlyThatRecord(s: Store, consultId: int, assessment: string, plan: string)
    requires UniqueIds(s)
    ensures var r := UpdateConsultation(s, consultId, assessment, plan);
            forall j :: 0 <= j < |s| ==>
              r.store[j] == if s[j].id == consultId then Complete(s[j], assessment, plan) else s[j]
  {
  }

  /** Updating twice with the same arguments gives the same store and answer as once. */
  lemma UpdateIdempotent(s: Store, consultId: int, assessment: string, plan: string)
    ensures var once := UpdateConsultation(s, consultId, assessment, plan);
            UpdateConsultation(once.store, consultId, assessment, plan) == once
  {
    var once := UpdateConsultation(s, consultId, assessment, plan);
    if once.found {
      var i := FindIndex(s, consultId).value;
      FindIndexSameIds(s, once.store, consultId);
      assert once.store[i := Complete(once.store[i], assessment, plan)] == once.store;
    }
  }

  /** The scan depends on ids only. */
  lemma FindIndexSameIds(s: Store, t: Store, id: int)
    requires |s| == |t|
    requires forall j :: 0 <= j < |s| ==> s[j].id == t[j].id
    ensures FindIndex(s, id) == FindIndex(t, id)
  {
  }
}
