/** The collaborators the change handlers call but that are not part of
    this model: five helpers they import from lib/scheduled-job.js and
    lib/credential-helpers.js, neither of which defines them, and the cron
    library. Each is an arbitrary function of its argument; a call that
    throws (or resolves to something whose fields cannot be read) is `None`
    or `false`, so an import that resolves to nothing is the store whose
    lookups always fail. */
module Lookups {
  import opened Results
  import opened ScheduledJobs

  datatype Store = Store(
    /** `getScheduledJob(subject)` */
    scheduledJob: string -> Option<Schedule>,
    /** `getScheduledJobForCronSchedule(scheduleUri)` */
    jobForSchedule: string -> Option<Schedule>,
    /** `alreadyEncryptedAuthenticationConfiguration(uri)` */
    alreadyEncrypted: string -> Option<bool>,
    /** `getCollectionFromJob(uri).collectionUri` */
    collectionOf: string -> Option<string>,
    /** whether `updateSourceCollection(collectionUri)` resolves */
    encryptCollection: string -> bool,
    /** whether `start()` accepts a frequency */
    cronValid: CronCheck)

  /** The calls the new-job handler makes, in the order it makes them. */
  datatype Call =
    | LookUpJob(subject: string)
    | CheckEncrypted(uri: string)
    | FindCollection(uri: string)
    | Encrypt(collection: string)
    | AddJob(uri: string, frequency: string)
}
