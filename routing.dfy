/** `DeltaEvents`: hands a change batch to every registered handler whose
    `isMatch` is truthy, in list order. */
module Routing {
  import opened Rdf
  import opened JsMap
  import opened ScheduledJobs
  import opened Lookups
  import opened JobMaps
  import DeletedJobs
  import NewJobs
  import UpdatedJobs

  /** An entry `[title, event]` of the router's list, tagged by kind. */
  datatype Event =
    | NewJobsEvent(title: string, onNew: NewJobs.NewScheduledJobsEvent)
    | DeletedJobsEvent(title: string, onDeleted: DeletedJobs.DeletedScheduledJobsEvent)
    | UpdatedJobsEvent(title: string, onUpdated: UpdatedJobs.UpdatedScheduledJobsEvent)

  function ManagerOf(e: Event): JobMap {
    match e
    case NewJobsEvent(_, h) => h.manager
    case DeletedJobsEvent(_, h) => h.manager
    case UpdatedJobsEvent(_, h) => h.manager
  }

  /** Whether the event's `isMatch` is truthy for the batch. */
  predicate Triggers(e: Event, d: Delta) {
    match e
    case NewJobsEvent(_, h) => h.IsMatch(d)
    case DeletedJobsEvent(_, h) => h.IsMatch(d)
    case UpdatedJobsEvent(_, h) => h.IsMatch(d).Some?
  }

  /** The registry after the event's `process`. */
  function Handle(e: Event, jobs: OrderedMap<Job>, d: Delta, store: Store): (r: OrderedMap<Job>)
    requires jobs.Valid()
    ensures r.Valid()
  {
    match e
    case NewJobsEvent(_, _) => NewJobs.NewAll(jobs, Subjects(NewJobs.Selected(d)), store).jobs
    case DeletedJobsEvent(_, _) => DeletedJobs.DeleteAll(jobs, Subjects(DeletedJobs.Selected(d)))
    case UpdatedJobsEvent(_, _) => UpdatedJobs.UpdateAll(jobs, Subjects(UpdatedJobs.FrequencyInserts(d)), store)
  }

  datatype Routed = Routed(jobs: OrderedMap<Job>, processed: seq<nat>)

  /** The `for` loop of `process` over the first events of the list. */
  function RouteAll(jobs: OrderedMap<Job>, events: seq<Event>, d: Delta, store: Store): (r: Routed)
    requires jobs.Valid()
    ensures r.jobs.Valid()
    decreases |events|
  {
    if events == [] then Routed(jobs, [])
    else
      var n := |events| - 1;
      var prev := RouteAll(jobs, events[..n], d, store);
      if Triggers(events[n], d) then Routed(Handle(events[n], prev.jobs, d, store), prev.processed + [n])
      else prev
  }

  lemma RouteAllStep(jobs: OrderedMap<Job>, events: seq<Event>, i: nat, d: Delta, store: Store)
    requires jobs.Valid()
    requires i < |events|
    ensures var prev := RouteAll(jobs, events[..i], d, store);
            RouteAll(jobs, events[..i + 1], d, store) ==
            if Triggers(events[i], d) then Routed(Handle(events[i], prev.jobs, d, store), prev.processed + [i])
            else prev
  {
    assert events[..i + 1][..i] == events[..i];
    assert events[..i + 1][i] == events[i];
  }

  /** Whether each event's `isMatch` is truthy for the batch, in list order. */
  function Fires(events: seq<Event>, d: Delta): (f: seq<bool>)
    ensures |f| == |events|
    decreases |events|
  {
    if events == [] then [] else Fires(events[..|events| - 1], d) + [Triggers(events[|events| - 1], d)]
  }

  lemma {:induction false} FiresAt(events: seq<Event>, d: Delta, i: nat)
    requires i < |events|
    ensures Fires(events, d)[i] == Triggers(events[i], d)
    decreases |events|
  {
    var n := |events| - 1;
    var prefix := events[..n];
    assert Fires(events, d) == Fires(prefix, d) + [Triggers(events[n], d)];
    if i < n {
      FiresAt(prefix, d, i);
      assert prefix[i] == events[i];
    }
  }

  /** `p` lists, in increasing order, exactly the indices at which `fires`
      holds. */
  ghost predicate ListsFiring(p: seq<nat>, fires: seq<bool>) {
    (forall i :: 0 <= i < |fires| ==> (i in p <==> fires[i])) &&
    (forall a :: 0 <= a < |p| ==> p[a] < |fires|) &&
    (forall a, b :: 0 <= a < b < |p| ==> p[a] < p[b])
  }

  lemma ListsFiringStep(p: seq<nat>, fires: seq<bool>, b: bool)
    requires ListsFiring(p, fires)
    ensures b ==> ListsFiring(p + [|fires|], fires + [b])
    ensures !b ==> ListsFiring(p, fires + [b])
  {
    var n := |fires|;
    var f := fires + [b];
    forall i | 0 <= i < n ensures f[i] == fires[i] { }
    if b {
      var q := p + [n];
      assert forall x :: x in q <==> x in p || x == n;
      forall a, c | 0 <= a < c < |q| ensures q[a] < q[c] {
        assert q[a] == p[a];
        if c < |p| {
          assert q[c] == p[c];
        }
      }
    }
  }

  lemma {:induction false} RouteListsFiring(jobs: OrderedMap<Job>, events: seq<Event>, d: Delta, store: Store)
    requires jobs.Valid()
    ensures ListsFiring(RouteAll(jobs, events, d, store).processed, Fires(events, d))
    decreases |events|
  {
    if events != [] {
      var n := |events| - 1;
      RouteListsFiring(jobs, events[..n], d, store);
      ProcessedStep(jobs, events, d, store);
      ListsFiringStep(RouteAll(jobs, events[..n], d, store).processed, Fires(events[..n], d), Triggers(events[n], d));
    }
  }

  /** The last event adds its own index, exactly when it triggers. */
  lemma ProcessedStep(jobs: OrderedMap<Job>, events: seq<Event>, d: Delta, store: Store)
    requires jobs.Valid() && events != []
    ensures var n := |events| - 1;
            var prev := RouteAll(jobs, events[..n], d, store).processed;
            && (Triggers(events[n], d) ==> RouteAll(jobs, events, d, store).processed == prev + [n])
            && (!Triggers(events[n], d) ==> RouteAll(jobs, events, d, store).processed == prev)
  {
  }

  /** The events processed, each once and in list order, are exactly those
      whose `isMatch` is truthy. */
  lemma RouteProcessesMatches(jobs: OrderedMap<Job>, events: seq<Event>, d: Delta, store: Store)
    requires jobs.Valid()
    ensures var p := RouteAll(jobs, events, d, store).processed;
            (forall i :: 0 <= i < |events| ==> (i in p <==> Triggers(events[i], d))) &&
            (forall a :: 0 <= a < |p| ==> p[a] < |events|) &&
            (forall a, b :: 0 <= a < b < |p| ==> p[a] < p[b])
  {
    RouteListsFiring(jobs, events, d, store);
    forall i | 0 <= i < |events| {
      FiresAt(events, d, i);
    }
  }

  /** What `process` is given: a `Delta`, or the raw list of change sets
      it wraps in one. */
  datatype Input = AsDelta(delta: Delta) | Raw(changeSets: seq<ChangeSet>)

  function Wrapped(input: Input): Delta {
    match input
    case AsDelta(d) => d
    case Raw(cs) => Delta(cs)
  }

  class DeltaEvents {
    /** The registry every handler in `events` was constructed with. */
    const registry: JobMap
    const events: seq<Event>

    ghost predicate Valid()
      reads registry
    {
      registry.Valid() && forall i :: 0 <= i < |events| ==> ManagerOf(events[i]) == registry
    }

    constructor (registry: JobMap, events: seq<Event>)
      requires forall i :: 0 <= i < |events| ==> ManagerOf(events[i]) == registry
      ensures this.registry == registry && this.events == events
    {
      this.registry := registry;
      this.events := events;
    }

    /** One turn of the loop: `process` the event if `isMatch` is truthy. */
    method Dispatch(e: Event, d: Delta, store: Store) returns (fired: bool)
      requires Valid() && ManagerOf(e) == registry
      modifies registry
      ensures Valid()
      ensures fired == Triggers(e, d)
      ensures registry.jobs == if fired then Handle(e, old(registry.jobs), d, store) else old(registry.jobs)
    {
      match e
      case NewJobsEvent(_, h) =>
        fired := h.IsMatch(d);
        if fired {
          var calls := h.Process(d, store);
        }
      case DeletedJobsEvent(_, h) =>
        fired := h.IsMatch(d);
        if fired {
          var deleted := h.Process(d);
        }
      case UpdatedJobsEvent(_, h) =>
        fired := h.IsMatch(d).Some?;
        if fired {
          var looked := h.Process(d, store);
        }
    }

    /** `process`: wraps a raw input once, then runs the matching handlers
        on the wrapped batch; returns the indices of the events processed. */
    method Process(input: Input, store: Store) returns (processed: seq<nat>)
      requires Valid()
      modifies registry
      ensures Valid()
      ensures Routed(registry.jobs, processed) == RouteAll(old(registry.jobs), events, Wrapped(input), store)
      decreases if input.Raw? then 1 else 0
    {
      if input.Raw? {
        processed := Process(AsDelta(Delta(input.changeSets)), store);
        return;
      }
      var d := input.delta;
      processed := [];
      var i := 0;
      while i < |events|
        invariant 0 <= i <= |events|
        invariant Valid()
        invariant Routed(registry.jobs, processed) == RouteAll(old(registry.jobs), events[..i], d, store)
      {
        RouteAllStep(old(registry.jobs), events, i, d, store);
        var fired := Dispatch(events[i], d, store);
        if fired {
          processed := processed + [i];
        }
        i := i + 1;
      }
      assert events[..i] == events;
    }
  }
}
