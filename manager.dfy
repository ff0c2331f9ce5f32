/** `ScheduledJobsManager` (lib/scheduled-jobs-manager.js): the registry of
    running scheduled jobs, keyed by URI, with a `syncing` flag that locks
    the public mutators while a healing pass runs. The store's list of
    scheduled jobs (`getScheduledJobs`) is passed in: `None` when the query
    failed. */
module Manager {
  import opened Results
  import opened Seqs
  import opened JsMap
  import opened ScheduledJobs

  /** `inMemoryJobsByURI` */
  type Registry = OrderedMap<Job>

  /** Every job is held under its own URI, as `_add` stores it. */
  ghost predicate WellKeyed(reg: Registry) {
    reg.Valid() && forall k :: k in reg.entries ==> reg.entries[k].uri == k
  }

  /** The `job` argument of `add`/`_add`: a falsy non-string value, a URI
      string, a `ScheduledJob`, or any other value. */
  datatype JobArg = Missing | UriArg(uri: string) | JobObject(job: Job) | OtherArg

  datatype Failed = Failed(uri: string, frequency: string, reason: Error)

  datatype InitReport = InitReport(started: seq<Schedule>, failed: seq<Failed>)

  datatype SyncReport = SyncReport(started: seq<Schedule>, updated: seq<Schedule>,
                                   failed: seq<Failed>, removed: seq<Schedule>)

  /** `scheduled.map(job => job.uri)` */
  function Uris(scheduled: seq<Schedule>): (us: seq<string>)
    ensures |us| == |scheduled|
    ensures forall i :: 0 <= i < |scheduled| ==> us[i] == scheduled[i].uri
    decreases |scheduled|
  {
    if scheduled == [] then [] else Uris(scheduled[..|scheduled| - 1]) + [scheduled[|scheduled| - 1].uri]
  }

  /** `jobs.map(job => job.uri)` */
  function JobUris(jobs: seq<Job>): (us: seq<string>)
    ensures |us| == |jobs|
    ensures forall i :: 0 <= i < |jobs| ==> us[i] == jobs[i].uri
    decreases |jobs|
  {
    if jobs == [] then [] else JobUris(jobs[..|jobs| - 1]) + [jobs[|jobs| - 1].uri]
  }

  /** The URIs of the held jobs are the registry's keys. */
  lemma HeldUrisAreKeys(reg: Registry)
    requires WellKeyed(reg)
    ensures forall u :: u in JobUris(reg.Values()) <==> u in reg.entries
  {
    var us := JobUris(reg.Values());
    forall u | u in reg.entries ensures u in us {
      var i :| 0 <= i < |reg.keys| && reg.keys[i] == u;
      assert us[i] == u;
    }
  }

  /* ---------- The passes, as functions of the registry they start from ---------- */

  /** State after `this._add(uri, frequency).start()` for a row of the store,
      and whether it threw. A failing `start()` leaves the stopped job in the
      registry. */
  datatype Admission = Admission(reg: Registry, outcome: Outcome<Error>)

  function AddAndStart(reg: Registry, s: Schedule, cronValid: CronCheck): (a: Admission)
    requires reg.Valid()
    ensures a.reg.Valid()
    ensures WellKeyed(reg) ==> WellKeyed(a.reg)
  {
    if s.uri == "" then Admission(reg, Fail(EmptyJob))
    else
      var added := reg.Set(s.uri, Created(s.uri, s.frequency));
      match Start(Created(s.uri, s.frequency), cronValid)
      case Ok(started) => Admission(added.Set(s.uri, started), Pass)
      case Err(e) => Admission(added, Fail(e))
  }

  datatype InitRun = InitRun(reg: Registry, report: InitReport)

  /** One row of `init`'s `forEach`: add and start it, then record it as
      started or failed. */
  function InitStep(run: InitRun, s: Schedule, cronValid: CronCheck): (r: InitRun)
    requires run.reg.Valid()
    ensures r.reg.Valid()
    ensures WellKeyed(run.reg) ==> WellKeyed(r.reg)
  {
    var a := AddAndStart(run.reg, s, cronValid);
    if a.outcome.Pass? then
      InitRun(a.reg, run.report.(started := run.report.started + [s]))
    else
      InitRun(a.reg, run.report.(failed := run.report.failed + [Failed(s.uri, s.frequency, a.outcome.error)]))
  }

  /** The `forEach` of `init` over the first rows of the store's list. */
  function InitAll(reg: Registry, scheduled: seq<Schedule>, cronValid: CronCheck): (r: InitRun)
    requires reg.Valid()
    ensures r.reg.Valid()
    ensures WellKeyed(reg) ==> WellKeyed(r.reg)
    decreases |scheduled|
  {
    if scheduled == [] then InitRun(reg, InitReport([], []))
    else InitStep(InitAll(reg, scheduled[..|scheduled| - 1], cronValid), scheduled[|scheduled| - 1], cronValid)
  }

  /** State of `sync`'s first `forEach`. */
  datatype Healing = Healing(reg: Registry, started: seq<Schedule>, updated: seq<Schedule>, failed: seq<Failed>)

  /** One row of `sync`'s first `forEach`: a held job whose frequency differs
      is retimed and restarted, or evicted when that fails; an unknown URI is
      added and started. */
  function HealStep(h: Healing, s: Schedule, cronValid: CronCheck): (r: Healing)
    requires h.reg.Valid()
    ensures r.reg.Valid()
    ensures WellKeyed(h.reg) ==> WellKeyed(r.reg)
  {
    if s.uri in h.reg.entries then
      var held := h.reg.entries[s.uri];
      if held.frequency == s.frequency then h
      else
        match Start(held.(frequency := s.frequency), cronValid)
        case Ok(restarted) =>
          h.(reg := h.reg.Set(s.uri, restarted), updated := h.updated + [s])
        case Err(e) =>
          h.(reg := h.reg.Delete(s.uri), failed := h.failed + [Failed(s.uri, s.frequency, e)])
    else
      var a := AddAndStart(h.reg, s, cronValid);
      if a.outcome.Pass? then h.(reg := a.reg, started := h.started + [s])
      else h.(reg := a.reg, failed := h.failed + [Failed(s.uri, s.frequency, a.outcome.error)])
  }

  function HealAll(h: Healing, scheduled: seq<Schedule>, cronValid: CronCheck): (r: Healing)
    requires h.reg.Valid()
    ensures r.reg.Valid()
    ensures WellKeyed(h.reg) ==> WellKeyed(r.reg)
    decreases |scheduled|
  {
    if scheduled == [] then h
    else HealStep(HealAll(h, scheduled[..|scheduled| - 1], cronValid), scheduled[|scheduled| - 1], cronValid)
  }

  datatype Eviction = Eviction(reg: Registry, removed: seq<Schedule>)

  /** One job of `sync`'s second `forEach`: a job whose URI is not desired
      is removed (if still held) and reported. */
  function EvictStep(e: Eviction, j: Job, desired: seq<string>): (r: Eviction)
    requires e.reg.Valid()
    ensures r.reg.Valid()
    ensures WellKeyed(e.reg) ==> WellKeyed(r.reg)
  {
    if j.uri in desired then e
    else
      Eviction(if j.uri in e.reg.entries then e.reg.Delete(j.uri) else e.reg,
               e.removed + [Schedule(j.uri, j.frequency)])
  }

  /** `sync`'s second `forEach`, over a snapshot of the held jobs. */
  function EvictAll(reg: Registry, snapshot: seq<Job>, desired: seq<string>): (r: Eviction)
    requires reg.Valid()
    ensures r.reg.Valid()
    ensures WellKeyed(reg) ==> WellKeyed(r.reg)
    decreases |snapshot|
  {
    if snapshot == [] then Eviction(reg, [])
    else EvictStep(EvictAll(reg, snapshot[..|snapshot| - 1], desired), snapshot[|snapshot| - 1], desired)
  }

  datatype SyncRun = SyncRun(reg: Registry, report: SyncReport)

  /** The whole body of `sync` once the store's list has been fetched. */
  function SyncAll(reg: Registry, scheduled: seq<Schedule>, cronValid: CronCheck): (r: SyncRun)
    requires reg.Valid()
    ensures r.reg.Valid()
    ensures WellKeyed(reg) ==> WellKeyed(r.reg)
  {
    var h := HealAll(Healing(reg, [], [], []), scheduled, cronValid);
    var e := EvictAll(h.reg, h.reg.Values(), Uris(scheduled));
    SyncRun(e.reg, SyncReport(h.started, h.updated, h.failed, e.removed))
  }

  /* ---------- The class ---------- */

  class ScheduledJobsManager {
    var inMemoryJobsByURI: Registry
    var syncing: bool

    ghost predicate Valid()
      reads this
    {
      WellKeyed(inMemoryJobsByURI)
    }

    constructor ()
      ensures Valid() && inMemoryJobsByURI == Empty() && !syncing
    {
      inMemoryJobsByURI := Empty();
      syncing := false;
    }

    /** The `inMemoryJobs` getter: every held job once, in insertion order;
        their URIs are exactly the keys. */
    function InMemoryJobs(): (jobs: seq<Job>)
      reads this
      requires Valid()
      ensures |jobs| == |inMemoryJobsByURI.keys|
      ensures jobs == [] <==> inMemoryJobsByURI.entries == map[]
      ensures forall j :: j in jobs <==> j in inMemoryJobsByURI.entries.Values
      ensures forall u :: u in JobUris(jobs) <==> u in inMemoryJobsByURI.entries
    {
      ValuesAreStored(inMemoryJobsByURI);
      HeldUrisAreKeys(inMemoryJobsByURI);
      inMemoryJobsByURI.Values()
    }

    /** `_add`: stores a job under its URI, replacing any job held there, and
        returns it; a URI is first turned into a new stopped job. */
    method AddUnguarded(job: JobArg, frequency: Option<string>) returns (r: Result<Job, Error>)
      requires Valid()
      modifies this`inMemoryJobsByURI
      ensures Valid()
      ensures (job.Missing? || job == UriArg("")) ==> r == Err(EmptyJob) && inMemoryJobsByURI == old(inMemoryJobsByURI)
      ensures job.OtherArg? ==> r == Err(NotAJob) && inMemoryJobsByURI == old(inMemoryJobsByURI)
      ensures job.UriArg? && job.uri != "" ==>
                r == Ok(Created(job.uri, frequency.GetOr(DEFAULT_FREQUENCY))) &&
                inMemoryJobsByURI.entries == old(inMemoryJobsByURI.entries)[job.uri := r.value]
      ensures job.JobObject? ==>
                r == Ok(job.job) &&
                inMemoryJobsByURI.entries == old(inMemoryJobsByURI.entries)[job.job.uri := job.job]
      ensures r.Ok? ==> inMemoryJobsByURI == old(inMemoryJobsByURI).Set(r.value.uri, r.value)
      decreases if job.UriArg? then 1 else 0
    {
      if job.Missing? || job == UriArg("") {
        return Err(EmptyJob);
      }
      if job.UriArg? {
        r := AddUnguarded(JobObject(Created(job.uri, frequency.GetOr(DEFAULT_FREQUENCY))), None);
        return;
      }
      if job.JobObject? {
        inMemoryJobsByURI := inMemoryJobsByURI.Set(job.job.uri, job.job);
        return Ok(inMemoryJobsByURI.entries[job.job.uri]);
      }
      return Err(NotAJob);
    }

    /** `start()` on the job held under `uri`, through the reference the map holds. */
    method StartHeld(uri: string, cronValid: CronCheck) returns (r: Outcome<Error>)
      requires Valid() && uri in inMemoryJobsByURI.entries
      modifies this`inMemoryJobsByURI
      ensures Valid()
      ensures r.Pass? <==> cronValid(old(inMemoryJobsByURI.entries[uri].frequency))
      ensures r.Fail? ==> r.error == InvalidFrequency(old(inMemoryJobsByURI.entries[uri].frequency)) &&
                          inMemoryJobsByURI == old(inMemoryJobsByURI)
      ensures r.Pass? ==> inMemoryJobsByURI == old(inMemoryJobsByURI).Set(uri, old(inMemoryJobsByURI.entries[uri]).(running := true))
    {
      match Start(inMemoryJobsByURI.entries[uri], cronValid)
      case Ok(started) =>
        inMemoryJobsByURI := inMemoryJobsByURI.Set(uri, started);
        r := Pass;
      case Err(e) =>
        r := Fail(e);
    }

    /** `_updateFrequency`: sets the held job's frequency, then restarts it.
        The new frequency stays even when the restart throws. */
    method UpdateFrequencyUnguarded(uri: string, frequency: string, cronValid: CronCheck) returns (r: Outcome<Error>)
      requires Valid()
      modifies this`inMemoryJobsByURI
      ensures Valid()
      ensures uri !in old(inMemoryJobsByURI.entries) ==>
                r == Fail(NothingToUpdate(uri)) && inMemoryJobsByURI == old(inMemoryJobsByURI)
      ensures uri in old(inMemoryJobsByURI.entries) ==>
                var held := old(inMemoryJobsByURI.entries[uri]);
                && inMemoryJobsByURI.keys == old(inMemoryJobsByURI.keys)
                && (r.Pass? <==> cronValid(frequency))
                && (r.Pass? ==> inMemoryJobsByURI.entries == old(inMemoryJobsByURI.entries)[uri := held.(frequency := frequency, running := true)])
                && (r.Fail? ==> r.error == InvalidFrequency(frequency) &&
                                inMemoryJobsByURI.entries == old(inMemoryJobsByURI.entries)[uri := held.(frequency := frequency)])
      ensures uri in old(inMemoryJobsByURI.entries) ==>
                inMemoryJobsByURI == old(inMemoryJobsByURI).Set(uri, inMemoryJobsByURI.entries[uri])
    {
      if uri !in inMemoryJobsByURI.entries {
        return Fail(NothingToUpdate(uri));
      }
      var job := inMemoryJobsByURI.entries[uri];
      inMemoryJobsByURI := inMemoryJobsByURI.Set(uri, job.(frequency := frequency));
      r := StartHeld(uri, cronValid);
    }

    /** `_remove`: takes the job held under `uri` out and returns it. */
    method RemoveUnguarded(uri: string) returns (r: Result<Job, Error>)
      requires Valid()
      modifies this`inMemoryJobsByURI
      ensures Valid()
      ensures uri !in old(inMemoryJobsByURI.entries) ==>
                r == Err(NothingToRemove(uri)) && inMemoryJobsByURI == old(inMemoryJobsByURI)
      ensures uri in old(inMemoryJobsByURI.entries) ==>
                r == Ok(old(inMemoryJobsByURI.entries[uri])) && inMemoryJobsByURI == old(inMemoryJobsByURI).Delete(uri)
      ensures inMemoryJobsByURI.entries == old(inMemoryJobsByURI.entries) - {uri}
    {
      if uri !in inMemoryJobsByURI.entries {
        return Err(NothingToRemove(uri));
      }
      var job := inMemoryJobsByURI.entries[uri];
      inMemoryJobsByURI := inMemoryJobsByURI.Delete(uri);
      return Ok(job);
    }

    /** `add`: refused while a sync runs; otherwise `_add`. It returns nothing. */
    method Add(job: JobArg, frequency: Option<string>) returns (r: Outcome<Error>)
      requires Valid()
      modifies this`inMemoryJobsByURI
      ensures Valid()
      ensures old(syncing) ==> r == Fail(AddLocked) && inMemoryJobsByURI == old(inMemoryJobsByURI)
      ensures !old(syncing) && job.UriArg? && job.uri != "" ==>
                r == Pass && inMemoryJobsByURI == old(inMemoryJobsByURI).Set(job.uri, Created(job.uri, frequency.GetOr(DEFAULT_FREQUENCY)))
      ensures !old(syncing) && job.JobObject? ==>
                r == Pass && inMemoryJobsByURI == old(inMemoryJobsByURI).Set(job.job.uri, job.job)
      ensures !old(syncing) && (job.Missing? || job == UriArg("")) ==>
                r == Fail(EmptyJob) && inMemoryJobsByURI == old(inMemoryJobsByURI)
      ensures !old(syncing) && job.OtherArg? ==>
                r == Fail(NotAJob) && inMemoryJobsByURI == old(inMemoryJobsByURI)
    {
      if syncing {
        return Fail(AddLocked);
      }
      var added := AddUnguarded(job, frequency);
      r := if added.Ok? then Pass else Fail(added.error);
    }

    /** `updateFrequency`: refused while a sync runs; otherwise `_updateFrequency`. */
    method UpdateFrequency(uri: string, frequency: string, cronValid: CronCheck) returns (r: Outcome<Error>)
      requires Valid()
      modifies this`inMemoryJobsByURI
      ensures Valid()
      ensures old(syncing) ==> r == Fail(UpdateLocked) && inMemoryJobsByURI == old(inMemoryJobsByURI)
      ensures !old(syncing) && uri !in old(inMemoryJobsByURI.entries) ==>
                r == Fail(NothingToUpdate(uri)) && inMemoryJobsByURI == old(inMemoryJobsByURI)
      ensures !old(syncing) && uri in old(inMemoryJobsByURI.entries) ==>
                && inMemoryJobsByURI.keys == old(inMemoryJobsByURI.keys)
                && (r.Pass? <==> cronValid(frequency))
                && inMemoryJobsByURI.entries ==
                   old(inMemoryJobsByURI.entries)[uri := old(inMemoryJobsByURI.entries[uri]).(frequency := frequency, running := r.Pass? || old(inMemoryJobsByURI.entries[uri].running))]
    {
      if syncing {
        return Fail(UpdateLocked);
      }
      r := UpdateFrequencyUnguarded(uri, frequency, cronValid);
    }

    /** `remove`: refused while a sync runs; otherwise `_remove`. */
    method Remove(uri: string) returns (r: Result<Job, Error>)
      requires Valid()
      modifies this`inMemoryJobsByURI
      ensures Valid()
      ensures old(syncing) ==> r == Err(RemoveLocked) && inMemoryJobsByURI == old(inMemoryJobsByURI)
      ensures !old(syncing) && uri !in old(inMemoryJobsByURI.entries) ==>
                r == Err(NothingToRemove(uri)) && inMemoryJobsByURI == old(inMemoryJobsByURI)
      ensures !old(syncing) && uri in old(inMemoryJobsByURI.entries) ==>
                r == Ok(old(inMemoryJobsByURI.entries[uri])) && inMemoryJobsByURI == old(inMemoryJobsByURI).Delete(uri)
    {
      if syncing {
        return Err(RemoveLocked);
      }
      r := RemoveUnguarded(uri);
    }

    /** `this._add(uri, frequency).start()` for a row of the store's list. */
    method AddAndStartRow(s: Schedule, cronValid: CronCheck) returns (outcome: Outcome<Error>)
      requires Valid()
      modifies this`inMemoryJobsByURI
      ensures Valid()
      ensures Admission(inMemoryJobsByURI, outcome) == AddAndStart(old(inMemoryJobsByURI), s, cronValid)
    {
      var added := AddUnguarded(UriArg(s.uri), Some(s.frequency));
      if added.Ok? {
        outcome := StartHeld(added.value.uri, cronValid);
      } else {
        outcome := Fail(added.error);
      }
    }

    /** The callback of `sync`'s first `forEach`, for one row of the list. */
    method HealRow(s: Schedule, cronValid: CronCheck, started: seq<Schedule>, updated: seq<Schedule>, failed: seq<Failed>)
      returns (started': seq<Schedule>, updated': seq<Schedule>, failed': seq<Failed>)
      requires Valid()
      modifies this`inMemoryJobsByURI
      ensures Valid()
      ensures Healing(inMemoryJobsByURI, started', updated', failed') ==
              HealStep(Healing(old(inMemoryJobsByURI), started, updated, failed), s, cronValid)
    {
      started', updated', failed' := started, updated, failed;
      if s.uri in JobUris(InMemoryJobs()) {
        var inMemory := inMemoryJobsByURI.entries[s.uri];
        if inMemory.frequency != s.frequency {
          ghost var before := inMemoryJobsByURI;
          var u := UpdateFrequencyUnguarded(s.uri, s.frequency, cronValid);
          if u.Pass? {
            updated' := updated + [s];
          } else {
            var gone := RemoveUnguarded(s.uri);
            DeleteAfterSet(before, s.uri, inMemory.(frequency := s.frequency));
            if gone.Ok? {
              failed' := failed + [Failed(s.uri, s.frequency, u.error)];
            }
          }
        }
      } else {
        var outcome := AddAndStartRow(s, cronValid);
        if outcome.Pass? {
          started' := started + [s];
        } else {
          failed' := failed + [Failed(s.uri, s.frequency, outcome.error)];
        }
      }
    }

    /** `init`: fetch, then, on an empty manager only, add and start every
        row, recording each as started or failed. */
    method Init(fetched: Option<seq<Schedule>>, cronValid: CronCheck) returns (r: Result<InitReport, Error>)
      requires Valid()
      modifies this`inMemoryJobsByURI
      ensures Valid()
      ensures fetched.None? ==> r == Err(StoreUnavailable) && inMemoryJobsByURI == old(inMemoryJobsByURI)
      ensures fetched.Some? && old(inMemoryJobsByURI.entries) != map[] ==>
                r == Err(HasRunningJobs) && inMemoryJobsByURI == old(inMemoryJobsByURI)
      ensures fetched.Some? && old(inMemoryJobsByURI.entries) == map[] ==>
                var run := InitAll(Empty(), fetched.value, cronValid);
                r == Ok(run.report) && inMemoryJobsByURI == run.reg
    {
      if fetched.None? {
        return Err(StoreUnavailable);
      }
      var scheduled := fetched.value;
      if |InMemoryJobs()| != 0 {
        return Err(HasRunningJobs);
      }
      assert inMemoryJobsByURI == Empty();
      var report := AdmitAll(scheduled, cronValid);
      return Ok(report);
    }

    /** The `forEach` of `init`. */
    method AdmitAll(scheduled: seq<Schedule>, cronValid: CronCheck) returns (report: InitReport)
      requires Valid()
      modifies this`inMemoryJobsByURI
      ensures Valid()
      ensures InitRun(inMemoryJobsByURI, report) == InitAll(old(inMemoryJobsByURI), scheduled, cronValid)
    {
      report := InitReport([], []);
      var i := 0;
      while i < |scheduled|
        invariant 0 <= i <= |scheduled|
        invariant Valid()
        invariant InitRun(inMemoryJobsByURI, report) == InitAll(old(inMemoryJobsByURI), scheduled[..i], cronValid)
      {
        assert scheduled[..i + 1][..i] == scheduled[..i];
        report := AdmitRow(scheduled[i], cronValid, report);
        i := i + 1;
      }
      assert scheduled[..|scheduled|] == scheduled;
    }

    /** The callback of `init`'s `forEach`, for one row of the list. */
    method AdmitRow(s: Schedule, cronValid: CronCheck, report: InitReport) returns (report': InitReport)
      requires Valid()
      modifies this`inMemoryJobsByURI
      ensures Valid()
      ensures InitRun(inMemoryJobsByURI, report') == InitStep(InitRun(old(inMemoryJobsByURI), report), s, cronValid)
    {
      var outcome := AddAndStartRow(s, cronValid);
      if outcome.Pass? {
        report' := report.(started := report.started + [s]);
      } else {
        report' := report.(failed := report.failed + [Failed(s.uri, s.frequency, outcome.error)]);
      }
    }

    /** `sync`: refused while another sync runs; otherwise locks, fetches,
        heals the registry against the fetched list and unlocks, whether the
        fetch failed or not. */
    method Sync(fetched: Option<seq<Schedule>>, cronValid: CronCheck) returns (r: Result<SyncReport, Error>)
      requires Valid()
      modifies this
      ensures Valid()
      ensures old(syncing) ==> r == Err(SyncLocked) && syncing && inMemoryJobsByURI == old(inMemoryJobsByURI)
      ensures !old(syncing) ==> !syncing
      ensures !old(syncing) && fetched.None? ==> r == Err(StoreUnavailable) && inMemoryJobsByURI == old(inMemoryJobsByURI)
      ensures !old(syncing) && fetched.Some? ==>
                var run := SyncAll(old(inMemoryJobsByURI), fetched.value, cronValid);
                r == Ok(run.report) && inMemoryJobsByURI == run.reg
    {
      if syncing {
        return Err(SyncLocked);
      }
      syncing := true;
      if fetched.None? {
        syncing := false;
        return Err(StoreUnavailable);
      }
      var scheduled := fetched.value;
      var started, updated, failed := HealPass(scheduled, cronValid);
      var removed := EvictPass(Uris(scheduled));
      syncing := false;
      return Ok(SyncReport(started, updated, failed, removed));
    }

    /** `sync`'s first `forEach`, over the fetched rows. */
    method HealPass(scheduled: seq<Schedule>, cronValid: CronCheck)
      returns (started: seq<Schedule>, updated: seq<Schedule>, failed: seq<Failed>)
      requires Valid()
      modifies this`inMemoryJobsByURI
      ensures Valid()
      ensures Healing(inMemoryJobsByURI, started, updated, failed) ==
              HealAll(Healing(old(inMemoryJobsByURI), [], [], []), scheduled, cronValid)
    {
      started, updated, failed := [], [], [];
      var i := 0;
      while i < |scheduled|
        invariant 0 <= i <= |scheduled|
        invariant Valid()
        invariant Healing(inMemoryJobsByURI, started, updated, failed) ==
                  HealAll(Healing(old(inMemoryJobsByURI), [], [], []), scheduled[..i], cronValid)
      {
        var s := scheduled[i];
        assert scheduled[..i + 1][..i] == scheduled[..i];
        started, updated, failed := HealRow(s, cronValid, started, updated, failed);
        i := i + 1;
      }
      assert scheduled[..|scheduled|] == scheduled;
    }

    /** `sync`'s second `forEach`, over a snapshot of the held jobs. */
    method EvictPass(desired: seq<string>) returns (removed: seq<Schedule>)
      requires Valid()
      modifies this`inMemoryJobsByURI
      ensures Valid()
      ensures Eviction(inMemoryJobsByURI, removed) ==
              EvictAll(old(inMemoryJobsByURI), old(inMemoryJobsByURI).Values(), desired)
    {
      var snapshot := InMemoryJobs();
      removed := EvictEach(snapshot, desired);
    }

    /** The second `forEach` itself, over a given snapshot. */
    method EvictEach(snapshot: seq<Job>, desired: seq<string>) returns (removed: seq<Schedule>)
      requires Valid()
      modifies this`inMemoryJobsByURI
      ensures Valid()
      ensures Eviction(inMemoryJobsByURI, removed) == EvictAll(old(inMemoryJobsByURI), snapshot, desired)
    {
      removed := [];
      var j := 0;
      while j < |snapshot|
        invariant 0 <= j <= |snapshot|
        invariant Valid()
        invariant Eviction(inMemoryJobsByURI, removed) == EvictAll(old(inMemoryJobsByURI), snapshot[..j], desired)
      {
        assert snapshot[..j + 1][..j] == snapshot[..j];
        removed := EvictRow(snapshot[j], desired, removed);
        j := j + 1;
      }
      assert snapshot[..|snapshot|] == snapshot;
    }

    /** The callback of `sync`'s second `forEach`, for one held job. */
    method EvictRow(job: Job, desired: seq<string>, removed: seq<Schedule>) returns (removed': seq<Schedule>)
      requires Valid()
      modifies this`inMemoryJobsByURI
      ensures Valid()
      ensures Eviction(inMemoryJobsByURI, removed') == EvictStep(Eviction(old(inMemoryJobsByURI), removed), job, desired)
    {
      removed' := removed;
      if job.uri !in desired {
        var _ := RemoveUnguarded(job.uri);
        removed' := removed + [Schedule(job.uri, job.frequency)];
      }
    }
  }
}
