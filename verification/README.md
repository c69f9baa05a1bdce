# Consultation documentation store, modelled in Dafny

The system keeps clinical consultation notes in memory. `ConsultationService`
holds a list of `Consultation` records. It supports four things:

- creating a record: the id is the largest existing id plus one, or 1 for an empty list;
- updating a record by id: assessment and plan are overwritten and the status is forced to `Completed`;
- listing one physician's records, most recent first;
- listing one patient's records, most recent first.

This project models that service as pure functions over an immutable
`seq<Consultation>`:

- `wrappers.dfy`: `Option`, which stands in for the C# `null` of unset fields.
- `consultations.dfy`: the `Consultation` record and the `ConsultationType` and `ConsultationStatus` enumerations.
- `queries.dfy`: LINQ `Where` and the stable `OrderByDescending` on the consult date. It also proves that the result is the only sorted arrangement that keeps store order among equal dates.
- `service.dfy`: id generation, create, update, the two list queries, and the store invariants (unique positive ids, ids `1..n` in order, reachable statuses).
- `history.dfy`: runs of calls starting from an empty service. It proves that creates return 1, 2, ..., N in call order, and that a record is `Completed` exactly when some update of its id succeeded. It also replays the demonstration program's calls.

The queries sort with LINQ `OrderByDescending` (ConsultDocumentationSystem.cs:86 and :94), which is a stable sort. So the model keeps store order among equal dates (`Queries.SortByDateDescTies`).

## Model

| member | source | states |
|---|---|---|
| ConsultationService.MaxId | ConsultDocumentationSystem.cs:103 | the result is one of the store's ids and no id exceeds it |
| ConsultationService.GenerateConsultId | ConsultDocumentationSystem.cs:98-104 | 1 on an empty store; otherwise greater than every id, and one more than some id (the maximum plus one) |
| ConsultationService.GenerateConsultIdCounts | ConsultDocumentationSystem.cs:98-104 | on a store built from empty (ids 1..n) the next id is n + 1 |
| ConsultationService.CreateConsultation | ConsultDocumentationSystem.cs:47-63 | exactly one record is appended and earlier records are unchanged; the new record carries the given patient, physician, type, complaint and clock reading, status Scheduled and no assessment or plan; its id is the generated id, the largest existing id plus one or 1 on an empty store, so it differs from every existing id |
| ConsultationService.CreateKeepsIdsUnique | ConsultDocumentationSystem.cs:47-63 | if ids are pairwise distinct and positive before a create, they still are after it |
| ConsultationService.CreatePreservesValid | ConsultDocumentationSystem.cs:50-61 | create keeps ids equal to 1..n in store order and every record in a reachable state, and returns n + 1 |
| ConsultationService.FindIndex | ConsultDocumentationSystem.cs:67 | the first position holding the id, or None exactly when no record has it |
| ConsultationService.UpdateConsultation | ConsultDocumentationSystem.cs:65-80 | returns true iff some record has the id; if none does, the store is unchanged; otherwise the first record with that id gets the new assessment and plan and status Completed, its other fields unchanged, and every other record is unchanged |
| ConsultationService.UpdateKeepsIdsUnique | ConsultDocumentationSystem.cs:75-77 | update touches no id, so distinct positive ids stay distinct and positive |
| ConsultationService.UpdatePreservesValid | ConsultDocumentationSystem.cs:65-80 | on a store built from empty, update finds exactly the ids 1..n and keeps the store valid |
| ConsultationService.UpdateHitsOnlyThatRecord | ConsultDocumentationSystem.cs:67-79 | with unique ids, the record with that id is completed with the new assessment and plan and keeps id, patient, physician, date, type and complaint; every other record is unchanged |
| ConsultationService.UpdateIdempotent | ConsultDocumentationSystem.cs:75-77 | a second update with the same id, assessment and plan gives the same store and the same answer as the first |
| ConsultationService.ValidStatuses | ConsultDocumentationSystem.cs:58 | records of a valid store are never InProgress or Cancelled, and are Completed exactly when an assessment is set |
| ConsultationService.ValidIdsUnique | ConsultDocumentationSystem.cs:98-104 | ids 1..n in order are pairwise distinct and positive |
| ConsultationService.GetPhysicianConsultations | ConsultDocumentationSystem.cs:82-88 | the result is most recent first; for every date it holds exactly the physician's records of that date in store order; it holds only the physician's records; it is empty exactly when the physician has no record |
| ConsultationService.GetPatientConsultations | ConsultDocumentationSystem.cs:90-96 | the same for one patient's records |
| ConsultationService.PhysicianConsultationsPermutation | ConsultDocumentationSystem.cs:84-85 | the physician's list is a permutation of the physician's records in the store: each appears as often as in the store, and no other record appears |
| ConsultationService.PatientConsultationsPermutation | ConsultDocumentationSystem.cs:92-93 | the same for one patient's records |
| ConsultationService.PhysicianConsultationsUnique | ConsultDocumentationSystem.cs:84-87 | any most-recent-first arrangement of the physician's records that keeps store order among equal dates is the physician's list |
| ConsultationService.PatientConsultationsUnique | ConsultDocumentationSystem.cs:92-95 | the same for one patient's list |
| Queries.Where | ConsultDocumentationSystem.cs:85 | every record of the result matches, and the result is no longer than the input |
| Queries.WhereMembers | ConsultDocumentationSystem.cs:85 | a record is in the filter's result exactly when it is in the store and matches |
| Queries.WhereMultiset | ConsultDocumentationSystem.cs:93 | filtering keeps each matching record with its multiplicity and drops every other record |
| Queries.WhereConcat | ConsultDocumentationSystem.cs:84-85 | filtering distributes over concatenation |
| Queries.InsertDesc | ConsultDocumentationSystem.cs:86 | one insertion step of the sort adds exactly the inserted record |
| Queries.InsertDescSorted | ConsultDocumentationSystem.cs:86 | inserting into a most-recent-first list keeps it most recent first |
| Queries.InsertDescTies | ConsultDocumentationSystem.cs:86 | the inserted record goes after every earlier record of the same date |
| Queries.SortByDateDesc | ConsultDocumentationSystem.cs:94 | the sort is a permutation of its input |
| Queries.SortByDateDescSorted | ConsultDocumentationSystem.cs:94 | the sort's result is most recent first |
| Queries.SortByDateDescTies | ConsultDocumentationSystem.cs:86 | the sort is stable: the records of each date keep their input order |
| Queries.SortedTiesUnique | ConsultDocumentationSystem.cs:86 | two most-recent-first lists with the same records in the same order per date are equal |
| Queries.OrderedWhere | ConsultDocumentationSystem.cs:84-87 | the result is most recent first, holds for every date exactly the matching records of that date in input order, holds only matching records, and is empty iff nothing matches |
| Queries.WhereEmpty | ConsultDocumentationSystem.cs:85 | the filter's result is empty exactly when no record matches |
| Queries.SortByDateDescMembers | ConsultDocumentationSystem.cs:86 | the sort keeps the length and every record of the result comes from the input |
| Queries.SameTiesPermutation | ConsultDocumentationSystem.cs:86 | lists that agree on every date's records in order are permutations of each other |
| Queries.OrderedWherePermutation | ConsultDocumentationSystem.cs:84-87 | the ordered query holds each matching record as often as the input does, and nothing else |
| Queries.OrderedWhereUnique | ConsultDocumentationSystem.cs:92-95 | any most-recent-first arrangement of the matching records that keeps store order among equal dates is the query result |
| History.RunValid | ConsultDocumentationSystem.cs:42-104 | every store reached from a new service has ids 1..n in order, only reachable statuses, and one record per create |
| History.RunPrefix | ConsultDocumentationSystem.cs:40 | calls act on one list in order, so a shorter run's replies are a prefix of a longer run's |
| History.CreateReply | ConsultDocumentationSystem.cs:62 | a create at the end of a run returns one more than the number of earlier creates |
| History.CreatesNumberedInCallOrder | ConsultDocumentationSystem.cs:47-104 | from a new service, the k-th create returns id k, whatever updates come in between |
| History.HitSnoc | ConsultDocumentationSystem.cs:79 | a run extended by one call has a successful update of an id iff the shorter run did or the new call is one |
| History.CompletedIffUpdated | ConsultDocumentationSystem.cs:58-77 | a record is Completed exactly when some update of its id returned true, and updates return true only for ids 1..n |
| History.CompletedAfterCreate | ConsultDocumentationSystem.cs:58 | a create adds a Scheduled record that no successful update has hit, and keeps completed records exactly the hit ones |
| History.CompletedAfterUpdate | ConsultDocumentationSystem.cs:65-80 | an update keeps completed records exactly the hit ones, counting itself when it returns true |
| History.DemoRun | ConsultDocumentationSystem.cs:110-135 | the demonstration's calls return ids 1 and 2 and true, and complete only the first record |
| History.DemoQuery | ConsultDocumentationSystem.cs:139 | for a physician with two records, the later comes first and equal dates keep creation order |
| History.DemoClosingQuery | ConsultDocumentationSystem.cs:113-139 | on the store the demonstration's calls reach, DR1's list holds both records, the later first, and keeps creation order on equal clock readings |

## Left out

- `Program.Main` console output (ConsultDocumentationSystem.cs:106-154) is left out. The output text is not a contract. `History.DemoRun`, `History.DemoQuery` and `History.DemoClosingQuery` model its calls.
- `DateTime.Now` (line 55) becomes the caller-supplied integer `now`. Consult dates are compared as integer tick counts. Clock behaviour is not modelled.
- ConsultationService.GenerateConsultId: ids are unbounded integers, so the C# `int` overflow of `Max(id) + 1` at 2^31 - 1 is not modelled. From an empty service that id would need 2^31 - 1 records, more than a `List` can hold.
- Records are immutable values. C# `Consultation` is a mutable class, and the returned lists share records with the store. Object identity and aliasing are not modelled.
- An unset assessment or plan is `None`, where C# has `null`. An empty string given to an update is `Some("")`.
- String arguments are never null: the model's `string` has no null value. In C#, `UpdateConsultation(id, null, plan)` (ConsultDocumentationSystem.cs:75-77) leaves a `Completed` record with a null `Assessment`. `ConsultationService.Reachable` and `ConsultationService.ValidStatuses` (Completed exactly when an assessment is set) hold only because update's arguments are non-null. Likewise a null patient or physician id given to create or to a query (ConsultDocumentationSystem.cs:85, :93) is not modelled; in C# such a query matches the records whose id is null.
- Thread safety is not modelled. The service has none.
- C# property setters that the service never calls are left out. Outside code could use them to set any field, including `InProgress` or `Cancelled`. The model only admits changes made through the service's operations.
