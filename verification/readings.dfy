/** The rows the dashboard works on, after loading: one sensor sample per row,
    reduced to the categorical fields that the filters and the counts read. */
module Readings {

  /** One sample. `date` is the calendar day as a day number; the numeric
      sensor metrics are not part of this model. */
  datatype Reading = Reading(
    machine: string,
    date: int,
    status: string,
    failureType: string,
    maintenance: string)

  /** Values of the `machine_status` column that the dashboard distinguishes. */
  const RUNNING := "Running"
  const FAILURE := "Failure"
  const IDLE := "Idle"

  /** The `failure_type` value that means "no failure recorded". */
  const NO_FAILURE := "No Failure"

  /** The `maintenance_required` value that counts as a maintenance request. */
  const MAINTENANCE_YES := "Yes"

  predicate IsIdle(r: Reading) { r.status == IDLE }

  predicate NeedsMaintenance(r: Reading) { r.maintenance == MAINTENANCE_YES }

  /** A stop or a failure: the rows behind the cause breakdown. */
  predicate IsStopOrFailure(r: Reading) { r.status == IDLE || r.status == FAILURE }

  /** A failure whose type is known. */
  predicate IsRealFailure(r: Reading) { r.status == FAILURE && r.failureType != NO_FAILURE }
}
