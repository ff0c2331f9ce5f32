/** `UpdatedScheduledJobsEvent`: a batch that replaces the
    `schema:repeatFrequency` of a cron schedule retimes the job it belongs
    to, and drops the job when the new frequency cannot be started. */
module UpdatedJobs {
  import opened Results
  import opened Rdf
  import opened Constants
  import opened DeltaFilter
  import opened JsMap
  import opened ScheduledJobs
  import opened Lookups
  import opened JobMaps

  /** The `schema:repeatFrequency` inserts, whatever their object. */
  function FrequencyInserts(d: Delta): seq<Triple> {
    GetInsertsFor(d, Undefined, Text(REPEAT_FREQUENCY), Undefined)
  }

  /** The test `isMatch` hands to `find`: some delete has the same subject
      and predicate (the subject and predicate objects stand for their
      `.value`). */
  predicate Paired(d: Delta, t: Triple) {
    HasDeletesFor(d, TermOf(t.subj), TermOf(t.pred), Undefined)
  }

  /** `Array.prototype.find` with `Paired`: the first such insert. */
  function FindPaired(d: Delta, ts: seq<Triple>): (r: Option<Triple>)
    ensures r.Some? <==> exists i :: 0 <= i < |ts| && Paired(d, ts[i])
    ensures r.Some? ==> exists i :: 0 <= i < |ts| && ts[i] == r.value && Paired(d, ts[i]) &&
                                    forall j :: 0 <= j < i ==> !Paired(d, ts[j])
    decreases |ts|
  {
    if ts == [] then None
    else if Paired(d, ts[0]) then Some(ts[0])
    else
      var r := FindPaired(d, ts[1..]);
      SomePairedAfter(d, ts);
      if r.Some? then FirstPairedAfter(d, ts, r.value); r else r
  }

  /** Past an unpaired head, a paired insert exists iff one exists in the tail. */
  lemma SomePairedAfter(d: Delta, ts: seq<Triple>)
    requires ts != [] && !Paired(d, ts[0])
    ensures (exists i :: 0 <= i < |ts| && Paired(d, ts[i])) <==> (exists i :: 0 <= i < |ts[1..]| && Paired(d, ts[1..][i]))
  {
    var tail := ts[1..];
    if exists i :: 0 <= i < |ts| && Paired(d, ts[i]) {
      var i :| 0 <= i < |ts| && Paired(d, ts[i]);
      assert tail[i - 1] == ts[i];
    }
    if exists i :: 0 <= i < |tail| && Paired(d, tail[i]) {
      var i :| 0 <= i < |tail| && Paired(d, tail[i]);
      assert ts[i + 1] == tail[i];
    }
  }

  /** A first paired insert of the tail, after an unpaired head, is the first
      overall. */
  lemma FirstPairedAfter(d: Delta, ts: seq<Triple>, t: Triple)
    requires ts != [] && !Paired(d, ts[0])
    requires exists i :: 0 <= i < |ts[1..]| && ts[1..][i] == t && Paired(d, ts[1..][i]) &&
                         forall j :: 0 <= j < i ==> !Paired(d, ts[1..][j])
    ensures exists i :: 0 <= i < |ts| && ts[i] == t && Paired(d, ts[i]) &&
                        forall j :: 0 <= j < i ==> !Paired(d, ts[j])
  {
    var tail := ts[1..];
    var i :| 0 <= i < |tail| && tail[i] == t && Paired(d, tail[i]) &&
             forall j :: 0 <= j < i ==> !Paired(d, tail[j]);
    assert ts[i + 1] == tail[i];
    forall j | 0 <= j < i + 1 ensures !Paired(d, ts[j]) {
      if j > 0 { assert ts[j] == tail[j - 1]; }
    }
    assert 0 <= i + 1 < |ts| && ts[i + 1] == t && Paired(d, ts[i + 1]) &&
           forall j :: 0 <= j < i + 1 ==> !Paired(d, ts[j]);
  }

  /** The loop body of `process` for one schedule URI, both `catch`es
      included: a held job whose frequency differs gets the new frequency
      and is restarted; if the restart throws, the job is deleted. */
  function Retime(jobs: OrderedMap<Job>, scheduleUri: string, store: Store): (r: OrderedMap<Job>)
    requires jobs.Valid()
    ensures r.Valid()
    ensures store.jobForSchedule(scheduleUri).None? ==> r == jobs
    ensures store.jobForSchedule(scheduleUri).Some? ==>
              var sch := store.jobForSchedule(scheduleUri).value;
              && (sch.uri !in jobs.entries || jobs.entries[sch.uri].frequency == sch.frequency ==> r == jobs)
              && (sch.uri in jobs.entries && jobs.entries[sch.uri].frequency != sch.frequency && store.cronValid(sch.frequency) ==>
                    r.keys == jobs.keys &&
                    r.entries == jobs.entries[sch.uri := jobs.entries[sch.uri].(frequency := sch.frequency, running := true)])
              && (sch.uri in jobs.entries && jobs.entries[sch.uri].frequency != sch.frequency && !store.cronValid(sch.frequency) ==>
                    r == jobs.Delete(sch.uri))
  {
    match store.jobForSchedule(scheduleUri)
    case None => jobs
    case Some(sch) =>
      if sch.uri in jobs.entries && jobs.entries[sch.uri].frequency != sch.frequency then
        match Start(jobs.entries[sch.uri].(frequency := sch.frequency), store.cronValid)
        case Ok(restarted) => jobs.Set(sch.uri, restarted)
        case Err(_) => jobs.Delete(sch.uri)
      else jobs
  }

  /** The whole `for` loop of `process`. */
  function UpdateAll(jobs: OrderedMap<Job>, scheduleUris: seq<string>, store: Store): (r: OrderedMap<Job>)
    requires jobs.Valid()
    ensures r.Valid()
    decreases |scheduleUris|
  {
    if scheduleUris == [] then jobs
    else Retime(UpdateAll(jobs, scheduleUris[..|scheduleUris| - 1], store), scheduleUris[|scheduleUris| - 1], store)
  }

  /** The lookup for `scheduleUri` names the job `uri`. */
  predicate Targets(store: Store, scheduleUri: string, uri: string) {
    store.jobForSchedule(scheduleUri).Some? && store.jobForSchedule(scheduleUri).value.uri == uri
  }

  /** Only a job some lookup named can change; the handler never adds one;
      and a job that did change carries the frequency of a lookup that
      named it and is running. */
  lemma {:induction false} UpdateAllEffect(jobs: OrderedMap<Job>, scheduleUris: seq<string>, store: Store)
    requires jobs.Valid()
    ensures forall k :: k in UpdateAll(jobs, scheduleUris, store).entries ==> k in jobs.entries
    ensures forall k :: (forall i :: 0 <= i < |scheduleUris| ==> !Targets(store, scheduleUris[i], k)) ==>
              (k in UpdateAll(jobs, scheduleUris, store).entries <==> k in jobs.entries)
    ensures forall k :: k in UpdateAll(jobs, scheduleUris, store).entries &&
                        UpdateAll(jobs, scheduleUris, store).entries[k] != jobs.entries[k] ==>
              exists i :: 0 <= i < |scheduleUris| && Targets(store, scheduleUris[i], k) &&
                UpdateAll(jobs, scheduleUris, store).entries[k] ==
                jobs.entries[k].(frequency := store.jobForSchedule(scheduleUris[i]).value.frequency, running := true)
    decreases |scheduleUris|
  {
    if scheduleUris != [] {
      var prefix := scheduleUris[..|scheduleUris| - 1];
      var last := scheduleUris[|scheduleUris| - 1];
      UpdateAllEffect(jobs, prefix, store);
      var mid := UpdateAll(jobs, prefix, store);
      var r := UpdateAll(jobs, scheduleUris, store);
      assert r == Retime(mid, last, store);
      forall k | (forall i :: 0 <= i < |scheduleUris| ==> !Targets(store, scheduleUris[i], k))
        ensures k in r.entries <==> k in jobs.entries
      {
        assert forall i :: 0 <= i < |prefix| ==> prefix[i] == scheduleUris[i];
        assert !Targets(store, scheduleUris[|scheduleUris| - 1], k);
      }
      forall k | k in r.entries && r.entries[k] != jobs.entries[k]
        ensures exists i :: 0 <= i < |scheduleUris| && Targets(store, scheduleUris[i], k) &&
                  r.entries[k] == jobs.entries[k].(frequency := store.jobForSchedule(scheduleUris[i]).value.frequency, running := true)
      {
        if r.entries[k] == mid.entries[k] {
          var i :| 0 <= i < |prefix| && Targets(store, prefix[i], k) &&
                   mid.entries[k] == jobs.entries[k].(frequency := store.jobForSchedule(prefix[i]).value.frequency, running := true);
          assert prefix[i] == scheduleUris[i];
        } else {
          var n := |scheduleUris| - 1;
          assert scheduleUris[n] == last && Targets(store, last, k);
        }
      }
    }
  }

  /** A `repeatFrequency` insert whose subject has a `repeatFrequency`
      delete (any subject, for an empty one). */
  ghost predicate HasPairedDelete(d: Delta, t: Triple) {
    exists u :: u in Deletes(d.changeSets) && u.pred == REPEAT_FREQUENCY && (t.subj == "" || u.subj == t.subj)
  }

  lemma PairedMeansDeleted(d: Delta, t: Triple)
    requires t.pred == REPEAT_FREQUENCY
    ensures Paired(d, t) <==> HasPairedDelete(d, t)
  {
    if Paired(d, t) {
      var u :| u in Deletes(d.changeSets) && Matches(u, TermOf(t.subj), TermOf(t.pred), Undefined);
      assert u.pred == REPEAT_FREQUENCY && (t.subj == "" || u.subj == t.subj);
    }
    if HasPairedDelete(d, t) {
      var u :| u in Deletes(d.changeSets) && u.pred == REPEAT_FREQUENCY && (t.subj == "" || u.subj == t.subj);
      assert Matches(u, TermOf(t.subj), TermOf(t.pred), Undefined);
    }
  }

  lemma FrequencyInsertsAre(d: Delta, t: Triple)
    ensures t in FrequencyInserts(d) <==> t in Inserts(d.changeSets) && t.pred == REPEAT_FREQUENCY
  {
    var all := Inserts(d.changeSets);
    var ins := FrequencyInserts(d);
    if t in all && t.pred == REPEAT_FREQUENCY {
      var k :| 0 <= k < |all| && all[k] == t;
      assert Matches(all[k], Undefined, Text(REPEAT_FREQUENCY), Undefined);
    }
    if t in ins {
      var k :| 0 <= k < |ins| && ins[k] == t;
    }
  }

  /** Some `repeatFrequency` insert passes `Paired` exactly when some such
      insert has a `repeatFrequency` delete for the same subject. */
  lemma PairedInsertExists(d: Delta)
    ensures (exists i :: 0 <= i < |FrequencyInserts(d)| && Paired(d, FrequencyInserts(d)[i])) <==>
            exists t :: t in Inserts(d.changeSets) && t.pred == REPEAT_FREQUENCY && HasPairedDelete(d, t)
  {
    var ins := FrequencyInserts(d);
    if i :| 0 <= i < |ins| && Paired(d, ins[i]) {
      var t := ins[i];
      FrequencyInsertsAre(d, t);
      PairedMeansDeleted(d, t);
    }
    if t :| t in Inserts(d.changeSets) && t.pred == REPEAT_FREQUENCY && HasPairedDelete(d, t) {
      FrequencyInsertsAre(d, t);
      PairedMeansDeleted(d, t);
      var i :| 0 <= i < |ins| && ins[i] == t;
    }
  }

  /** When `getScheduledJobForCronSchedule` never yields a job (an import
      that resolves to nothing throws inside the outer `try`), the batch
      leaves the registry as it was. */
  lemma {:induction false} UpdateWhenLookupsFail(jobs: OrderedMap<Job>, scheduleUris: seq<string>, store: Store)
    requires jobs.Valid()
    requires forall s :: store.jobForSchedule(s).None?
    ensures UpdateAll(jobs, scheduleUris, store) == jobs
    decreases |scheduleUris|
  {
    if scheduleUris != [] {
      UpdateWhenLookupsFail(jobs, scheduleUris[..|scheduleUris| - 1], store);
    }
  }

  class UpdatedScheduledJobsEvent {
    const manager: JobMap

    constructor (manager: JobMap)
      ensures this.manager == manager
    {
      this.manager := manager;
    }

    /** `isMatch`: the first `repeatFrequency` insert that some delete with
        the same subject and predicate accompanies; `false` (`None`) when
        there is none. An empty subject value matches any subject, as the
        falsy pattern does in `getChangesFor`. */
    function IsMatch(d: Delta): (r: Option<Triple>)
      ensures r.Some? <==> exists t :: t in Inserts(d.changeSets) && t.pred == REPEAT_FREQUENCY && HasPairedDelete(d, t)
      ensures r.Some? ==> exists i :: 0 <= i < |FrequencyInserts(d)| && FrequencyInserts(d)[i] == r.value &&
                                      Paired(d, r.value) &&
                                      forall j :: 0 <= j < i ==> !Paired(d, FrequencyInserts(d)[j])
    {
      var inserts := FrequencyInserts(d);
      PairedInsertExists(d);
      if |inserts| > 0 then FindPaired(d, inserts) else None
    }

    /** The loop body of `process` for one schedule URI. */
    method Reconcile(scheduleUri: string, store: Store)
      requires manager.Valid()
      modifies manager
      ensures manager.Valid()
      ensures manager.jobs == Retime(old(manager.jobs), scheduleUri, store)
    {
      var found := store.jobForSchedule(scheduleUri);
      if found.Some? {
        var uri, frequency := found.value.uri, found.value.frequency;
        var inMemory := manager.Get(uri);
        if inMemory.Some? && inMemory.value.frequency != frequency {
          ghost var before := manager.jobs;
          var retimed := inMemory.value.(frequency := frequency);
          manager.Replace(uri, retimed);
          var started := Start(retimed, store.cronValid);
          if started.Ok? {
            manager.Replace(uri, started.value);
          } else {
            DeleteAfterSet(before, uri, retimed);
            manager.Delete(uri);
          }
        }
      }
    }

    /** `process`: looks up every `repeatFrequency` insert's subject, in
        order, whether or not a delete accompanies it, and returns the
        schedule URIs it looked up. */
    method Process(d: Delta, store: Store) returns (looked: seq<string>)
      requires manager.Valid()
      modifies manager
      ensures manager.Valid()
      ensures looked == Subjects(FrequencyInserts(d))
      ensures manager.jobs == UpdateAll(old(manager.jobs), looked, store)
    {
      var subjects := Subjects(FrequencyInserts(d));
      var i := 0;
      while i < |subjects|
        invariant 0 <= i <= |subjects|
        invariant manager.Valid()
        invariant manager.jobs == UpdateAll(old(manager.jobs), subjects[..i], store)
      {
        Reconcile(subjects[i], store);
        assert subjects[..i + 1][..i] == subjects[..i];
        i := i + 1;
      }
      assert subjects[..i] == subjects;
      looked := subjects;
    }
  }
}
