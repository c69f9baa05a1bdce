/**
 The record type of the consultation store and its two enumerations.
 */
module Consultations {
  import opened Wrappers

  /** Category of a consultation, fixed when it is created. */
  datatype ConsultationType = Initial | FollowUp | Urgent | Routine

  /** Lifecycle stage. InProgress and Cancelled are declared but no operation produces them. */
  datatype ConsultationStatus = Scheduled | InProgress | Completed | Cancelled

  /**
   One consultation. The consult date is an integer timestamp supplied by the
   caller; assessment and plan are None until the first successful update.
   */
  datatype Consultation = Consultation(
    id: int,
    patientId: string,
    physicianId: string,
    consultDate: int,
    complaint: string,
    assessment: Option<string>,
    plan: Option<string>,
    consultType: ConsultationType,
    status: ConsultationStatus)
}
