/** The IRIs the change handlers look for. */
module Constants {
  /** `RDF_PREDICATE`: rdf:type */
  const RDF_TYPE: string := "http://www.w3.org/1999/02/22-rdf-syntax-ns#type"
  /** `SCHEDULED_JOB_TYPE`: cogs:ScheduledJob */
  const SCHEDULED_JOB_TYPE: string := "http://vocab.deri.ie/cogs#ScheduledJob"
  /** `REPEAT_FREQUENCY_PREDICATE`: schema:repeatFrequency */
  const REPEAT_FREQUENCY: string := "http://schema.org/repeatFrequency"
}
