/** The registry the change handlers are given: a `Map`-like object from job
    URI to scheduled job, offering `has`, `get`, `delete` and `add`. */
module JobMaps {
  import opened Results
  import opened JsMap
  import opened ScheduledJobs

  class JobMap {
    var jobs: OrderedMap<Job>

    ghost predicate Valid()
      reads this
    {
      jobs.Valid()
    }

    constructor (initial: OrderedMap<Job>)
      requires initial.Valid()
      ensures Valid() && jobs == initial
    {
      jobs := initial;
    }

    /** `has` */
    function Has(uri: string): (b: bool)
      reads this
      ensures b <==> uri in jobs.entries
    {
      uri in jobs.entries
    }

    /** `get`: `undefined` for a URI that is not held. */
    function Get(uri: string): (r: Option<Job>)
      reads this
      ensures r.Some? <==> uri in jobs.entries
      ensures r.Some? ==> r.value == jobs.entries[uri]
    {
      if uri in jobs.entries then Some(jobs.entries[uri]) else None
    }

    /** `delete`: removes the entry if there is one. */
    method Delete(uri: string)
      requires Valid()
      modifies this
      ensures Valid()
      ensures jobs == old(jobs).Delete(uri)
    {
      jobs := jobs.Delete(uri);
    }

    /** `add(uri, frequency)`: stores a new, stopped job and returns it. */
    method Add(uri: string, frequency: string) returns (job: Job)
      requires Valid()
      modifies this
      ensures Valid()
      ensures job == Created(uri, frequency)
      ensures jobs == old(jobs).Set(uri, job)
    {
      job := Created(uri, frequency);
      jobs := jobs.Set(uri, job);
    }

    /** Writes back a held job that a handler changed in place (its
        frequency, or its running state after `start()`); the entry keeps
        its position in the map. */
    method Replace(uri: string, job: Job)
      requires Valid() && uri in jobs.entries
      modifies this
      ensures Valid()
      ensures jobs == old(jobs).Set(uri, job) && jobs.keys == old(jobs).keys
    {
      jobs := jobs.Set(uri, job);
    }
  }
}
