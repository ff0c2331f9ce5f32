/** `DeletedScheduledJobsEvent`: a batch that deletes the
    `rdf:type cogs:ScheduledJob` triple of a job removes that job. */
module DeletedJobs {
  import opened Seqs
  import opened Rdf
  import opened Constants
  import opened DeltaFilter
  import opened JsMap
  import opened ScheduledJobs
  import opened JobMaps

  /** The deletes `process` walks and `isMatch` tests for. */
  function Selected(d: Delta): seq<Triple> {
    GetDeletesFor(d, Undefined, Text(RDF_TYPE), Text(SCHEDULED_JOB_TYPE))
  }

  /** The registry after `manager.delete(s)` for each subject in turn. */
  function DeleteAll(jobs: OrderedMap<Job>, subjects: seq<string>): (r: OrderedMap<Job>)
    requires jobs.Valid()
    ensures r.Valid()
    decreases |subjects|
  {
    if subjects == [] then jobs
    else DeleteAll(jobs, subjects[..|subjects| - 1]).Delete(subjects[|subjects| - 1])
  }

  /** After the deletions no listed subject is held, every other entry is as
      it was, and the remaining keys keep their order. */
  lemma {:induction false} DeleteAllEffect(jobs: OrderedMap<Job>, subjects: seq<string>)
    requires jobs.Valid()
    ensures forall k :: k in DeleteAll(jobs, subjects).entries <==> k in jobs.entries && k !in subjects
    ensures forall k :: k in DeleteAll(jobs, subjects).entries ==> DeleteAll(jobs, subjects).entries[k] == jobs.entries[k]
    ensures IsSubsequence(DeleteAll(jobs, subjects).keys, jobs.keys)
    decreases |subjects|
  {
    if subjects == [] {
      SubsequenceReflexive(jobs.keys);
    } else {
      var prefix, last := subjects[..|subjects| - 1], subjects[|subjects| - 1];
      DeleteAllEffect(jobs, prefix);
      assert subjects == prefix + [last];
      assert forall k :: k in subjects <==> k in prefix || k == last;
      var mid := DeleteAll(jobs, prefix);
      FilterIsSubsequence(mid.keys, Other(last));
      SubsequenceTransitive(Filter(mid.keys, Other(last)), mid.keys, jobs.keys);
    }
  }

  class DeletedScheduledJobsEvent {
    const manager: JobMap

    constructor (manager: JobMap)
      ensures this.manager == manager
    {
      this.manager := manager;
    }

    /** `isMatch`: some deleted triple says a resource is a scheduled job. */
    function IsMatch(d: Delta): (b: bool)
      ensures b <==> exists t :: t in Deletes(d.changeSets) && t.pred == RDF_TYPE && t.obj == SCHEDULED_JOB_TYPE
    {
      HasDeletesFor(d, Undefined, Text(RDF_TYPE), Text(SCHEDULED_JOB_TYPE))
    }

    /** `process`: calls `delete` once per selected delete, on its subject,
        in order. The batch's inserts play no part. */
    method Process(d: Delta) returns (deleted: seq<string>)
      requires manager.Valid()
      modifies manager
      ensures manager.Valid()
      ensures deleted == Subjects(Selected(d))
      ensures manager.jobs == DeleteAll(old(manager.jobs), deleted)
    {
      deleted := Subjects(Selected(d));
      DeleteEach(deleted);
    }

    /** The loop of `process`: `manager.delete` on each subject in turn. */
    method DeleteEach(subjects: seq<string>)
      requires manager.Valid()
      modifies manager
      ensures manager.Valid()
      ensures manager.jobs == DeleteAll(old(manager.jobs), subjects)
    {
      var i := 0;
      while i < |subjects|
        invariant 0 <= i <= |subjects|
        invariant manager.Valid()
        invariant manager.jobs == DeleteAll(old(manager.jobs), subjects[..i])
      {
        manager.Delete(subjects[i]);
        assert subjects[..i + 1][..i] == subjects[..i];
        i := i + 1;
      }
      assert subjects[..i] == subjects;
    }
  }
}
