/** The scheduled-job records the registries hold, and the errors the
    registry operations throw. The `ScheduledJob` timer class itself (cron
    parsing, firing) is external: a job is its URI, its cron frequency and
    whether its timer runs, and `start()` succeeds exactly when a cron
    checker, given as a parameter, accepts the frequency. */
module ScheduledJobs {
  import opened Results

  /** One `{uri, frequency}` row of the store's list of scheduled jobs. */
  datatype Schedule = Schedule(uri: string, frequency: string)

  /** A `ScheduledJob`. */
  datatype Job = Job(uri: string, frequency: string, running: bool)

  /** What the registry operations throw. */
  datatype Error =
    | EmptyJob                      // 'job can not be empty'
    | NotAJob                       // 'job needs to be either a scheduled-job URI or ...'
    | NothingToUpdate(uri: string)  // `_updateFrequency` on an unknown URI
    | NothingToRemove(uri: string)  // `_remove` on an unknown URI
    | AddLocked                     // 'adding locked, sync. in progress'
    | UpdateLocked                  // 'updating locked, sync. in progress'
    | RemoveLocked                  // 'removing locked, sync. in progress'
    | SyncLocked                    // 'Sync locked, previous sync. is still running'
    | HasRunningJobs                // `init` on a non-empty manager
    | StoreUnavailable              // the store query failed
    | InvalidFrequency(frequency: string)  // `start()` could not schedule the cron

  /** The frequency `add` and `_add` use when none is given. */
  const DEFAULT_FREQUENCY: string := "*/5 * * * *"

  /** Accepts exactly the frequencies the cron library can schedule. */
  type CronCheck = string -> bool

  /** `new ScheduledJob(uri, frequency)`: created stopped. */
  function Created(uri: string, frequency: string): Job {
    Job(uri, frequency, false)
  }

  /** `start()`: (re)starts the timer on the job's own frequency, or throws. */
  function Start(job: Job, cronValid: CronCheck): (r: Result<Job, Error>)
    ensures r.Ok? <==> cronValid(job.frequency)
    ensures r.Ok? ==> r.value == job.(running := true)
    ensures r.Err? ==> r.error == InvalidFrequency(job.frequency)
  {
    if cronValid(job.frequency) then Ok(job.(running := true))
    else Err(InvalidFrequency(job.frequency))
  }
}
