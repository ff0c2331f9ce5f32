/** `NewScheduledJobsEvent`: a batch that inserts the
    `rdf:type cogs:ScheduledJob` triple of a resource registers and starts
    the job the store describes for it, encrypting its source collection's
    credentials first when that has not been done yet. */
module NewJobs {
  import opened Results
  import opened Rdf
  import opened Constants
  import opened DeltaFilter
  import opened JsMap
  import opened ScheduledJobs
  import opened Lookups
  import opened JobMaps

  /** The inserts `process` walks and `isMatch` tests for. */
  function Selected(d: Delta): seq<Triple> {
    GetInsertsFor(d, Undefined, Text(RDF_TYPE), Text(SCHEDULED_JOB_TYPE))
  }

  /** `manager.add(uri, frequency).start()`: the new job is stored stopped,
      then started in place; a rejected frequency leaves it stopped. */
  function AddAndStart(jobs: OrderedMap<Job>, sch: Schedule, cronValid: CronCheck): (r: OrderedMap<Job>)
    requires jobs.Valid()
    ensures r.Valid()
    ensures r.entries == jobs.entries[sch.uri := Job(sch.uri, sch.frequency, cronValid(sch.frequency))]
    ensures r.keys == if sch.uri in jobs.entries then jobs.keys else jobs.keys + [sch.uri]
  {
    var added := jobs.Set(sch.uri, Created(sch.uri, sch.frequency));
    match Start(Created(sch.uri, sch.frequency), cronValid)
    case Ok(started) => added.Set(sch.uri, started)
    case Err(_) => added
  }

  datatype Visit = Visit(jobs: OrderedMap<Job>, calls: seq<Call>)

  predicate EndsInAdd(calls: seq<Call>) {
    calls != [] && calls[|calls| - 1].AddJob?
  }

  /** The store describes a job for `subject`, and its credentials were
      already encrypted or their encryption succeeds. */
  predicate Ready(store: Store, subject: string) {
    store.scheduledJob(subject).Some? &&
    var u := store.scheduledJob(subject).value.uri;
    store.alreadyEncrypted(u) == Some(true) ||
    (store.alreadyEncrypted(u) == Some(false) && store.collectionOf(u).Some? &&
     store.encryptCollection(store.collectionOf(u).value))
  }

  /** The loop body of `process` for one subject, its `catch` included. */
  function TryAdd(jobs: OrderedMap<Job>, subject: string, store: Store): (r: Visit)
    requires jobs.Valid()
    ensures r.jobs.Valid()
    ensures r.calls == [] <==> subject in jobs.entries
    ensures EndsInAdd(r.calls) <==> subject !in jobs.entries && Ready(store, subject)
    ensures r.calls != [] ==> r.calls[0] == LookUpJob(subject)
    ensures forall c :: c in r.calls && c.LookUpJob? ==> c == LookUpJob(subject)
    ensures EndsInAdd(r.calls) ==>
              var a := r.calls[|r.calls| - 1];
              store.scheduledJob(subject) == Some(Schedule(a.uri, a.frequency)) &&
              r.jobs.entries == jobs.entries[a.uri := Job(a.uri, a.frequency, store.cronValid(a.frequency))]
    ensures !EndsInAdd(r.calls) ==> r.jobs == jobs
    ensures forall c :: c in r.calls && c.AddJob? ==> c == r.calls[|r.calls| - 1]
  {
    if subject in jobs.entries then Visit(jobs, [])
    else
      match store.scheduledJob(subject)
      case None => Visit(jobs, [LookUpJob(subject)])
      case Some(sch) =>
        var checked := [LookUpJob(subject), CheckEncrypted(sch.uri)];
        match store.alreadyEncrypted(sch.uri)
        case None => Visit(jobs, checked)
        case Some(done) =>
          if done then
            Visit(AddAndStart(jobs, sch, store.cronValid), checked + [AddJob(sch.uri, sch.frequency)])
          else
            match store.collectionOf(sch.uri)
            case None => Visit(jobs, checked + [FindCollection(sch.uri)])
            case Some(collection) =>
              var encrypted := checked + [FindCollection(sch.uri), Encrypt(collection)];
              if store.encryptCollection(collection) then
                Visit(AddAndStart(jobs, sch, store.cronValid), encrypted + [AddJob(sch.uri, sch.frequency)])
              else Visit(jobs, encrypted)
  }

  /** The whole `for` loop of `process` over the selected subjects. */
  function NewAll(jobs: OrderedMap<Job>, subjects: seq<string>, store: Store): (r: Visit)
    requires jobs.Valid()
    ensures r.jobs.Valid()
    decreases |subjects|
  {
    if subjects == [] then Visit(jobs, [])
    else
      var prev := NewAll(jobs, subjects[..|subjects| - 1], store);
      var step := TryAdd(prev.jobs, subjects[|subjects| - 1], store);
      Visit(step.jobs, prev.calls + step.calls)
  }

  /** Encryption is asked for only right after the encryption check said
      "not yet" and the collection was found; a job is added only right
      after the check said "already done", or right after the encryption
      of its collection succeeded. */
  ghost predicate EncryptsBeforeAdding(calls: seq<Call>, store: Store) {
    EncryptsAfterCheck(calls, store) && AddsAfterEncryption(calls, store)
  }

  ghost predicate EncryptsAfterCheck(calls: seq<Call>, store: Store) {
    forall i {:trigger calls[i]} :: 0 <= i < |calls| && calls[i].Encrypt? ==>
      2 <= i && calls[i - 2].CheckEncrypted? && calls[i - 1] == FindCollection(calls[i - 2].uri) &&
      store.alreadyEncrypted(calls[i - 2].uri) == Some(false) &&
      store.collectionOf(calls[i - 2].uri) == Some(calls[i].collection)
  }

  ghost predicate AddsAfterEncryption(calls: seq<Call>, store: Store) {
    forall i {:trigger calls[i]} :: 0 <= i < |calls| && calls[i].AddJob? ==> AddStepValid(calls, i, store)
  }

  /** The add at `i` follows a check that said "already done", or the
      successful encryption that followed a check of the same URI. */
  ghost predicate AddStepValid(calls: seq<Call>, i: int, store: Store)
    requires 0 <= i < |calls| && calls[i].AddJob?
  {
    1 <= i &&
    ((calls[i - 1] == CheckEncrypted(calls[i].uri) && store.alreadyEncrypted(calls[i].uri) == Some(true)) ||
     (3 <= i && calls[i - 1].Encrypt? && calls[i - 3] == CheckEncrypted(calls[i].uri) &&
      store.encryptCollection(calls[i - 1].collection)))
  }

  lemma EncryptsBeforeAddingAppend(a: seq<Call>, b: seq<Call>, store: Store)
    requires EncryptsBeforeAdding(a, store) && EncryptsBeforeAdding(b, store)
    ensures EncryptsBeforeAdding(a + b, store)
  {
    EncryptsAfterCheckAppend(a, b, store);
    AddsAfterEncryptionAppend(a, b, store);
  }

  lemma EncryptsAfterCheckAppend(a: seq<Call>, b: seq<Call>, store: Store)
    requires EncryptsAfterCheck(a, store) && EncryptsAfterCheck(b, store)
    ensures EncryptsAfterCheck(a + b, store)
  {
    var c := a + b;
    forall i | 0 <= i < |c| && c[i].Encrypt?
      ensures 2 <= i && c[i - 2].CheckEncrypted? && c[i - 1] == FindCollection(c[i - 2].uri) &&
              store.alreadyEncrypted(c[i - 2].uri) == Some(false) &&
              store.collectionOf(c[i - 2].uri) == Some(c[i].collection)
    {
      if i >= |a| {
        var j := i - |a|;
        assert c[i] == b[j];
        assert c[i - 1] == b[j - 1] && c[i - 2] == b[j - 2];
      } else {
        assert c[i] == a[i] && c[i - 1] == a[i - 1] && c[i - 2] == a[i - 2];
      }
    }
  }

  lemma AddsAfterEncryptionAppend(a: seq<Call>, b: seq<Call>, store: Store)
    requires AddsAfterEncryption(a, store) && AddsAfterEncryption(b, store)
    ensures AddsAfterEncryption(a + b, store)
  {
    var c := a + b;
    forall i | 0 <= i < |c| && c[i].AddJob? ensures AddStepValid(c, i, store) {
      if i >= |a| {
        AddStepShifted(a, b, i - |a|, store);
      } else {
        assert AddStepValid(a, i, store);
        assert c[i] == a[i] && c[i - 1] == a[i - 1];
        if 3 <= i { assert c[i - 3] == a[i - 3]; }
      }
    }
  }

  lemma AddStepShifted(a: seq<Call>, b: seq<Call>, j: int, store: Store)
    requires 0 <= j < |b| && b[j].AddJob? && AddStepValid(b, j, store)
    ensures AddStepValid(a + b, |a| + j, store)
  {
    var c, i := a + b, |a| + j;
    assert c[i] == b[j] && c[i - 1] == b[j - 1];
    if 3 <= j { assert c[i - 3] == b[j - 3]; }
  }

  /** Calls with neither an encryption nor an add satisfy the order. */
  lemma QuietCalls(calls: seq<Call>, store: Store)
    requires forall i :: 0 <= i < |calls| ==> !calls[i].Encrypt? && !calls[i].AddJob?
    ensures EncryptsBeforeAdding(calls, store)
  {
  }

  lemma TryAddEncryptsFirst(jobs: OrderedMap<Job>, subject: string, store: Store)
    requires jobs.Valid()
    ensures EncryptsBeforeAdding(TryAdd(jobs, subject, store).calls, store)
  {
    var calls := TryAdd(jobs, subject, store).calls;
    if subject !in jobs.entries && store.scheduledJob(subject).Some? {
      var sch := store.scheduledJob(subject).value;
      var u := sch.uri;
      var checked := [LookUpJob(subject), CheckEncrypted(u)];
      match store.alreadyEncrypted(u)
      case None =>
        assert calls == checked;
        QuietCalls(calls, store);
      case Some(done) =>
        if done {
          assert calls == checked + [AddJob(u, sch.frequency)];
          AddsWhenDone(subject, u, sch.frequency, store);
        } else {
          match store.collectionOf(u)
          case None =>
            assert calls == checked + [FindCollection(u)];
            QuietCalls(calls, store);
          case Some(collection) =>
            if store.encryptCollection(collection) {
              assert calls == checked + [FindCollection(u), Encrypt(collection), AddJob(u, sch.frequency)];
            } else {
              assert calls == checked + [FindCollection(u), Encrypt(collection)];
            }
            EncryptsThenAdds(subject, u, sch.frequency, collection, store);
        }
    } else {
      QuietCalls(calls, store);
    }
  }

  lemma AddsWhenDone(subject: string, u: string, frequency: string, store: Store)
    requires store.alreadyEncrypted(u) == Some(true)
    ensures EncryptsBeforeAdding([LookUpJob(subject), CheckEncrypted(u), AddJob(u, frequency)], store)
  {
    var calls := [LookUpJob(subject), CheckEncrypted(u), AddJob(u, frequency)];
    assert forall i :: 0 <= i < |calls| ==> !calls[i].Encrypt?;
    assert forall i :: 0 <= i < |calls| && calls[i].AddJob? ==> i == 2;
    assert AddStepValid(calls, 2, store);
  }

  lemma EncryptsThenAdds(subject: string, u: string, frequency: string, collection: string, store: Store)
    requires store.alreadyEncrypted(u) == Some(false) && store.collectionOf(u) == Some(collection)
    ensures EncryptsBeforeAdding([LookUpJob(subject), CheckEncrypted(u), FindCollection(u), Encrypt(collection)], store)
    ensures store.encryptCollection(collection) ==>
              EncryptsBeforeAdding([LookUpJob(subject), CheckEncrypted(u), FindCollection(u), Encrypt(collection),
                                    AddJob(u, frequency)], store)
  {
    var encrypted := [LookUpJob(subject), CheckEncrypted(u), FindCollection(u), Encrypt(collection)];
    assert forall i :: 0 <= i < |encrypted| && encrypted[i].Encrypt? ==> i == 3;
    assert forall i :: 0 <= i < |encrypted| ==> !encrypted[i].AddJob?;
    if store.encryptCollection(collection) {
      var calls := encrypted + [AddJob(u, frequency)];
      assert forall i :: 0 <= i < |calls| && calls[i].AddJob? ==> i == 4;
      assert forall i :: 0 <= i < |calls| && calls[i].Encrypt? ==> i == 3;
      assert AddStepValid(calls, 4, store);
    }
  }

  /** Over the whole loop: encryption strictly precedes the add it enables,
      and happens only when the check reported it had not been done. */
  lemma {:induction false} NewEncryptsFirst(jobs: OrderedMap<Job>, subjects: seq<string>, store: Store)
    requires jobs.Valid()
    ensures EncryptsBeforeAdding(NewAll(jobs, subjects, store).calls, store)
    decreases |subjects|
  {
    if subjects != [] {
      var prev := NewAll(jobs, subjects[..|subjects| - 1], store);
      NewEncryptsFirst(jobs, subjects[..|subjects| - 1], store);
      TryAddEncryptsFirst(prev.jobs, subjects[|subjects| - 1], store);
      EncryptsBeforeAddingAppend(prev.calls, TryAdd(prev.jobs, subjects[|subjects| - 1], store).calls, store);
    }
  }

  /** The handler never removes a job, and the URIs it ends up holding are
      the ones held before plus the ones it added. */
  lemma {:induction false} NewKeys(jobs: OrderedMap<Job>, subjects: seq<string>, store: Store)
    requires jobs.Valid()
    ensures forall k :: k in NewAll(jobs, subjects, store).jobs.entries <==>
              k in jobs.entries || exists f :: AddJob(k, f) in NewAll(jobs, subjects, store).calls
    decreases |subjects|
  {
    if subjects != [] {
      var prefix := subjects[..|subjects| - 1];
      NewKeys(jobs, prefix, store);
      var prev := NewAll(jobs, prefix, store);
      var step := TryAdd(prev.jobs, subjects[|subjects| - 1], store);
      var r := NewAll(jobs, subjects, store);
      assert r.calls == prev.calls + step.calls;
      forall k ensures k in r.jobs.entries <==> k in jobs.entries || exists f :: AddJob(k, f) in r.calls {
        if EndsInAdd(step.calls) {
          var a := step.calls[|step.calls| - 1];
          if k == a.uri {
            assert AddJob(k, a.frequency) in r.calls;
          }
          forall f | AddJob(k, f) in step.calls ensures k == a.uri { }
        } else {
          assert forall f :: AddJob(k, f) !in step.calls;
        }
        forall f | AddJob(k, f) in prev.calls ensures AddJob(k, f) in r.calls { }
      }
    }
  }

  /** Subjects already held are skipped: the store is never asked about them. */
  lemma {:induction false} NewSkipsHeld(jobs: OrderedMap<Job>, subjects: seq<string>, store: Store)
    requires jobs.Valid()
    ensures forall s :: s in jobs.entries ==> LookUpJob(s) !in NewAll(jobs, subjects, store).calls
    decreases |subjects|
  {
    if subjects != [] {
      var prefix := subjects[..|subjects| - 1];
      NewSkipsHeld(jobs, prefix, store);
      NewKeys(jobs, prefix, store);
    }
  }

  lemma {:induction false} NewCallsGrow(jobs: OrderedMap<Job>, subjects: seq<string>, n: nat, store: Store)
    requires jobs.Valid()
    requires n <= |subjects|
    ensures forall c :: c in NewAll(jobs, subjects[..n], store).calls ==> c in NewAll(jobs, subjects, store).calls
    decreases |subjects|
  {
    if n < |subjects| {
      var prefix := subjects[..|subjects| - 1];
      assert prefix[..n] == subjects[..n];
      NewCallsGrow(jobs, prefix, n, store);
    } else {
      assert subjects[..n] == subjects;
    }
  }

  /** A failure for one subject does not stop the loop: every subject not
      held when its turn comes is looked up. */
  lemma NewIsolatesFailures(jobs: OrderedMap<Job>, subjects: seq<string>, store: Store)
    requires jobs.Valid()
    ensures forall i :: 0 <= i < |subjects| && subjects[i] !in NewAll(jobs, subjects[..i], store).jobs.entries ==>
              LookUpJob(subjects[i]) in NewAll(jobs, subjects, store).calls
  {
    forall i | 0 <= i < |subjects| && subjects[i] !in NewAll(jobs, subjects[..i], store).jobs.entries
      ensures LookUpJob(subjects[i]) in NewAll(jobs, subjects, store).calls
    {
      var upto := subjects[..i + 1];
      assert upto[..i] == subjects[..i];
      var step := TryAdd(NewAll(jobs, subjects[..i], store).jobs, subjects[i], store);
      assert step.calls[0] == LookUpJob(subjects[i]);
      assert LookUpJob(subjects[i]) in NewAll(jobs, upto, store).calls;
      NewCallsGrow(jobs, subjects, i + 1, store);
    }
  }

  /** Every subject that is not held when its turn comes and whose job is
      ready gets that job registered: its URI is held once the loop ends. */
  lemma NewRegisters(jobs: OrderedMap<Job>, subjects: seq<string>, store: Store)
    requires jobs.Valid()
    ensures forall i :: 0 <= i < |subjects| && subjects[i] !in NewAll(jobs, subjects[..i], store).jobs.entries &&
                        Ready(store, subjects[i]) ==>
              store.scheduledJob(subjects[i]).value.uri in NewAll(jobs, subjects, store).jobs.entries
  {
    forall i | 0 <= i < |subjects| && subjects[i] !in NewAll(jobs, subjects[..i], store).jobs.entries &&
               Ready(store, subjects[i])
      ensures store.scheduledJob(subjects[i]).value.uri in NewAll(jobs, subjects, store).jobs.entries
    {
      NewRegistersAt(jobs, subjects, i, store);
    }
  }

  lemma NewRegistersAt(jobs: OrderedMap<Job>, subjects: seq<string>, i: nat, store: Store)
    requires jobs.Valid()
    requires i < |subjects| && subjects[i] !in NewAll(jobs, subjects[..i], store).jobs.entries
    requires Ready(store, subjects[i])
    ensures store.scheduledJob(subjects[i]).value.uri in NewAll(jobs, subjects, store).jobs.entries
  {
    var u := store.scheduledJob(subjects[i]).value.uri;
    var f := TryAddRegisters(NewAll(jobs, subjects[..i], store).jobs, subjects[i], store);
    NewAddsAt(jobs, subjects, i, store, AddJob(u, f));
    NewCallsGrow(jobs, subjects, i + 1, store);
    NewKeys(jobs, subjects, store);
  }

  /** A ready subject that is not held ends its visit by adding its job. */
  lemma TryAddRegisters(jobs: OrderedMap<Job>, subject: string, store: Store) returns (f: string)
    requires jobs.Valid() && subject !in jobs.entries && Ready(store, subject)
    ensures AddJob(store.scheduledJob(subject).value.uri, f) in TryAdd(jobs, subject, store).calls
  {
    var step := TryAdd(jobs, subject, store);
    var a := step.calls[|step.calls| - 1];
    f := a.frequency;
  }

  lemma NewAddsAt(jobs: OrderedMap<Job>, subjects: seq<string>, i: nat, store: Store, c: Call)
    requires jobs.Valid() && i < |subjects|
    requires c in TryAdd(NewAll(jobs, subjects[..i], store).jobs, subjects[i], store).calls
    ensures c in NewAll(jobs, subjects[..i + 1], store).calls
  {
    var upto := subjects[..i + 1];
    assert upto[..i] == subjects[..i];
  }

  /** When `getScheduledJob` never yields a job (an import that resolves to
      nothing throws inside the `try`), the batch only looks subjects up
      and leaves the registry as it was. */
  lemma {:induction false} NewWhenLookupsFail(jobs: OrderedMap<Job>, subjects: seq<string>, store: Store)
    requires jobs.Valid()
    requires forall s :: store.scheduledJob(s).None?
    ensures NewAll(jobs, subjects, store).jobs == jobs
    ensures forall c :: c in NewAll(jobs, subjects, store).calls ==> c.LookUpJob?
    decreases |subjects|
  {
    if subjects != [] {
      var prefix := subjects[..|subjects| - 1];
      NewWhenLookupsFail(jobs, prefix, store);
      var prev := NewAll(jobs, prefix, store);
      var step := TryAdd(prev.jobs, subjects[|subjects| - 1], store);
      assert NewAll(jobs, subjects, store).calls == prev.calls + step.calls;
    }
  }

  class NewScheduledJobsEvent {
    const manager: JobMap

    constructor (manager: JobMap)
      ensures this.manager == manager
    {
      this.manager := manager;
    }

    /** `isMatch`: some inserted triple says a resource is a scheduled job. */
    function IsMatch(d: Delta): (b: bool)
      ensures b <==> exists t :: t in Inserts(d.changeSets) && t.pred == RDF_TYPE && t.obj == SCHEDULED_JOB_TYPE
    {
      HasInsertsFor(d, Undefined, Text(RDF_TYPE), Text(SCHEDULED_JOB_TYPE))
    }

    /** One pass of the loop body of `process`, with its `try`/`catch`. */
    method Attempt(subject: string, store: Store) returns (made: seq<Call>)
      requires manager.Valid()
      modifies manager
      ensures manager.Valid()
      ensures Visit(manager.jobs, made) == TryAdd(old(manager.jobs), subject, store)
    {
      made := [];
      if !manager.Has(subject) {
        made := [LookUpJob(subject)];
        var found := store.scheduledJob(subject);
        if found.Some? {
          var uri, frequency := found.value.uri, found.value.frequency;
          made := made + [CheckEncrypted(uri)];
          var encrypted := store.alreadyEncrypted(uri);
          var ready := false;
          if encrypted == Some(true) {
            ready := true;
          } else if encrypted == Some(false) {
            made := made + [FindCollection(uri)];
            var collection := store.collectionOf(uri);
            if collection.Some? {
              made := made + [Encrypt(collection.value)];
              ready := store.encryptCollection(collection.value);
            }
          }
          if ready {
            made := made + [AddJob(uri, frequency)];
            var job := manager.Add(uri, frequency);
            var started := Start(job, store.cronValid);
            if started.Ok? {
              manager.Replace(uri, started.value);
            }
          }
        }
      }
    }

    /** `process`: returns the calls it made to the store, the encryption
        helpers and the registry, in order. */
    method Process(d: Delta, store: Store) returns (calls: seq<Call>)
      requires manager.Valid()
      modifies manager
      ensures manager.Valid()
      ensures Visit(manager.jobs, calls) == NewAll(old(manager.jobs), Subjects(Selected(d)), store)
    {
      var inserts := Selected(d);
      ghost var subjects := Subjects(inserts);
      calls := [];
      var i := 0;
      while i < |inserts|
        invariant 0 <= i <= |inserts|
        invariant manager.Valid()
        invariant Visit(manager.jobs, calls) == NewAll(old(manager.jobs), subjects[..i], store)
      {
        var subject := inserts[i].subj;
        var made := Attempt(subject, store);
        calls := calls + made;
        assert subjects[..i + 1][..i] == subjects[..i];
        i := i + 1;
      }
      assert subjects[..i] == subjects;
    }
  }
}
