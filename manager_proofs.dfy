/** What `init` and `sync` guarantee, proved about the functions the
    manager's methods are verified against. */
module ManagerProofs {
  import opened Results
  import opened Seqs
  import opened JsMap
  import opened ScheduledJobs
  import opened Manager

  /* ---------- init ---------- */

  /** A row `init` manages to add and start. */
  function Admitted(cronValid: CronCheck): Schedule -> bool {
    (s: Schedule) => s.uri != "" && cronValid(s.frequency)
  }

  function Rejected(cronValid: CronCheck): Schedule -> bool {
    (s: Schedule) => !(s.uri != "" && cronValid(s.frequency))
  }

  /** The rows of a failure list. */
  function FailedRows(fs: seq<Failed>): (rows: seq<Schedule>)
    ensures |rows| == |fs|
    ensures forall i :: 0 <= i < |fs| ==> rows[i] == Schedule(fs[i].uri, fs[i].frequency)
    decreases |fs|
  {
    if fs == [] then [] else FailedRows(fs[..|fs| - 1]) + [Schedule(fs[|fs| - 1].uri, fs[|fs| - 1].frequency)]
  }

  /** The reason a row fails to be added and started. */
  function AddFailure(s: Schedule): Error {
    if s.uri == "" then EmptyJob else InvalidFrequency(s.frequency)
  }

  /** `init` splits the fetched rows, in their order, into the started ones
      (non-empty URI and a frequency the cron library accepts) and the failed
      ones, each failure carrying the error that was thrown. */
  lemma {:induction false} InitPartition(reg: Registry, scheduled: seq<Schedule>, cronValid: CronCheck)
    requires reg.Valid()
    ensures InitAll(reg, scheduled, cronValid).report.started == Filter(scheduled, Admitted(cronValid))
    ensures FailedRows(InitAll(reg, scheduled, cronValid).report.failed) == Filter(scheduled, Rejected(cronValid))
    ensures forall f :: f in InitAll(reg, scheduled, cronValid).report.failed ==>
              f.reason == AddFailure(Schedule(f.uri, f.frequency))
    decreases |scheduled|
  {
    if scheduled != [] {
      var prefix := scheduled[..|scheduled| - 1];
      InitPartition(reg, prefix, cronValid);
      var prev := InitAll(reg, prefix, cronValid);
      var r := InitAll(reg, scheduled, cronValid);
      if r.report.failed != prev.report.failed {
        assert r.report.failed[..|r.report.failed| - 1] == prev.report.failed;
        assert FailedRows(r.report.failed)[..|r.report.failed| - 1] == FailedRows(prev.report.failed);
      }
    }
  }

  /** After `init` on an empty manager with distinct URIs, the manager holds
      exactly the fetched non-empty URIs, each with its fetched frequency,
      running iff its frequency was accepted. */
  lemma {:induction false} InitRegistry(scheduled: seq<Schedule>, cronValid: CronCheck)
    requires Distinct(Uris(scheduled))
    ensures HoldsRows(InitAll(Empty(), scheduled, cronValid).reg, scheduled, cronValid)
    decreases |scheduled|
  {
    if scheduled != [] {
      var prefix := scheduled[..|scheduled| - 1];
      assert Uris(prefix) == Uris(scheduled)[..|scheduled| - 1];
      InitRegistry(prefix, cronValid);
      InitRegistryStep(prefix, scheduled[|scheduled| - 1], cronValid);
      assert prefix + [scheduled[|scheduled| - 1]] == scheduled;
    }
  }

  lemma InitRegistryStep(prefix: seq<Schedule>, last: Schedule, cronValid: CronCheck)
    requires Distinct(Uris(prefix + [last]))
    requires HoldsRows(InitAll(Empty(), prefix, cronValid).reg, prefix, cronValid)
    ensures HoldsRows(InitAll(Empty(), prefix + [last], cronValid).reg, prefix + [last], cronValid)
  {
    var mid := InitAll(Empty(), prefix, cronValid);
    assert (prefix + [last])[..|prefix|] == prefix;
    assert InitAll(Empty(), prefix + [last], cronValid) == InitStep(mid, last, cronValid);
    AddAndStartEntries(mid.reg, last, cronValid);
    HoldsRowsStep(mid.reg, AddAndStart(mid.reg, last, cronValid).reg, prefix, last, cronValid);
  }

  /** The registry holds exactly the non-empty URIs of `scheduled`, each with
      its frequency, running iff that frequency is accepted. */
  ghost predicate HoldsRows(reg: Registry, scheduled: seq<Schedule>, cronValid: CronCheck) {
    && (forall k :: k in reg.entries <==> k in Uris(scheduled) && k != "")
    && (forall i :: 0 <= i < |scheduled| && scheduled[i].uri != "" ==>
          scheduled[i].uri in reg.entries &&
          reg.entries[scheduled[i].uri] == Job(scheduled[i].uri, scheduled[i].frequency, cronValid(scheduled[i].frequency)))
  }

  lemma HoldsRowsStep(mid: Registry, reg: Registry, prefix: seq<Schedule>, last: Schedule, cronValid: CronCheck)
    requires HoldsRows(mid, prefix, cronValid)
    requires Distinct(Uris(prefix + [last]))
    requires last.uri == "" ==> reg == mid
    requires last.uri != "" ==> reg.entries == mid.entries[last.uri := Job(last.uri, last.frequency, cronValid(last.frequency))]
    ensures HoldsRows(reg, prefix + [last], cronValid)
  {
    var scheduled := prefix + [last];
    assert Uris(scheduled)[..|prefix|] == Uris(prefix);
    assert Uris(scheduled) == Uris(prefix) + [last.uri];
    forall i | 0 <= i < |prefix| ensures prefix[i].uri != last.uri {
      assert Uris(scheduled)[i] != Uris(scheduled)[|prefix|];
    }
    forall i | 0 <= i < |scheduled| && scheduled[i].uri != ""
      ensures scheduled[i].uri in reg.entries &&
              reg.entries[scheduled[i].uri] == Job(scheduled[i].uri, scheduled[i].frequency, cronValid(scheduled[i].frequency))
    {
      if i < |prefix| {
        assert scheduled[i] == prefix[i];
      }
    }
  }

  /** What adding and starting one row leaves in the registry. */
  lemma AddAndStartEntries(reg: Registry, s: Schedule, cronValid: CronCheck)
    requires reg.Valid()
    ensures s.uri == "" ==> AddAndStart(reg, s, cronValid).reg == reg
    ensures s.uri != "" ==>
              AddAndStart(reg, s, cronValid).reg.entries == reg.entries[s.uri := Job(s.uri, s.frequency, cronValid(s.frequency))]
  {
  }

  /* ---------- sync: structure of the first pass ---------- */

  lemma {:induction false} HealAllSplit(h: Healing, a: seq<Schedule>, b: seq<Schedule>, cronValid: CronCheck)
    requires h.reg.Valid()
    ensures HealAll(h, a + b, cronValid) == HealAll(HealAll(h, a, cronValid), b, cronValid)
    decreases |b|
  {
    if b == [] {
      assert a + b == a;
    } else {
      var b' := b[..|b| - 1];
      assert (a + b)[..|a + b| - 1] == a + b';
      assert (a + b)[|a + b| - 1] == b[|b| - 1];
      HealAllSplit(h, a, b', cronValid);
    }
  }

  /** `after` extends `before` with rows for URIs other than `k`. */
  ghost predicate GrowsWithout(before: seq<Schedule>, after: seq<Schedule>, k: string) {
    |before| <= |after| && after[..|before|] == before &&
    forall j :: |before| <= j < |after| ==> after[j].uri != k
  }

  ghost predicate FailuresGrowWithout(before: seq<Failed>, after: seq<Failed>, k: string) {
    |before| <= |after| && after[..|before|] == before &&
    forall j :: |before| <= j < |after| ==> after[j].uri != k
  }

  /** The entry for `k` is the same in both registries (or absent from both). */
  ghost predicate Untouched(r1: Registry, r2: Registry, k: string) {
    (k in r1.entries <==> k in r2.entries) && (k in r1.entries ==> r1.entries[k] == r2.entries[k])
  }

  ghost predicate HealFramed(h: Healing, r: Healing, k: string) {
    Untouched(h.reg, r.reg, k) &&
    GrowsWithout(h.started, r.started, k) && GrowsWithout(h.updated, r.updated, k) &&
    FailuresGrowWithout(h.failed, r.failed, k)
  }

  lemma FramedTransitive(h1: Healing, h2: Healing, h3: Healing, k: string)
    requires HealFramed(h1, h2, k) && HealFramed(h2, h3, k)
    ensures HealFramed(h1, h3, k)
  {
    assert h3.started[..|h1.started|] == h3.started[..|h2.started|][..|h1.started|];
    assert h3.updated[..|h1.updated|] == h3.updated[..|h2.updated|][..|h1.updated|];
    assert h3.failed[..|h1.failed|] == h3.failed[..|h2.failed|][..|h1.failed|];
  }

  lemma HealStepFrame(h: Healing, s: Schedule, cronValid: CronCheck, k: string)
    requires h.reg.Valid()
    requires s.uri != k
    ensures HealFramed(h, HealStep(h, s, cronValid), k)
  {
    assert h.started[..|h.started|] == h.started;
    assert h.updated[..|h.updated|] == h.updated;
    assert h.failed[..|h.failed|] == h.failed;
    var r := HealStep(h, s, cronValid);
    if s.uri in h.reg.entries {
      assert Untouched(h.reg, r.reg, k);
    } else {
      var a := AddAndStart(h.reg, s, cronValid);
      assert Untouched(h.reg, a.reg, k);
    }
  }

  /** Rows for other URIs neither touch the entry for `k` nor report `k`. */
  lemma {:induction false} HealFrame(h: Healing, scheduled: seq<Schedule>, cronValid: CronCheck, k: string)
    requires h.reg.Valid()
    requires k !in Uris(scheduled)
    ensures HealFramed(h, HealAll(h, scheduled, cronValid), k)
    decreases |scheduled|
  {
    if scheduled == [] {
      assert h.started[..|h.started|] == h.started;
      assert h.updated[..|h.updated|] == h.updated;
      assert h.failed[..|h.failed|] == h.failed;
    } else {
      var prefix := scheduled[..|scheduled| - 1];
      assert Uris(prefix) == Uris(scheduled)[..|scheduled| - 1];
      HealFrame(h, prefix, cronValid, k);
      var mid := HealAll(h, prefix, cronValid);
      var last := scheduled[|scheduled| - 1];
      assert Uris(scheduled)[|scheduled| - 1] == last.uri;
      var r := HealStep(mid, last, cronValid);
      HealStepFrame(mid, last, cronValid, k);
      FramedTransitive(h, mid, r, k);
    }
  }

  ghost predicate NoRow(rows: seq<Schedule>, k: string) {
    forall x :: x in rows ==> x.uri != k
  }

  ghost predicate NoFailure(fs: seq<Failed>, k: string) {
    forall x :: x in fs ==> x.uri != k
  }

  /** What the first pass of `sync` does with row `i` of a list of distinct
      URIs, depending only on whether the URI was held before the pass and
      how its frequency compares. */
  ghost predicate RowOutcome(before: Registry, s: Schedule, cronValid: CronCheck,
                             after: Registry, started: seq<Schedule>, updated: seq<Schedule>, failed: seq<Failed>)
  {
    var k, f := s.uri, s.frequency;
    && (k !in before.entries && k == "" ==>
          k !in after.entries && Failed(k, f, EmptyJob) in failed && NoRow(started, k) && NoRow(updated, k))
    && (k !in before.entries && k != "" && cronValid(f) ==>
          k in after.entries && after.entries[k] == Job(k, f, true) &&
          s in started && NoRow(updated, k) && NoFailure(failed, k))
    && (k !in before.entries && k != "" && !cronValid(f) ==>
          k in after.entries && after.entries[k] == Job(k, f, false) &&
          Failed(k, f, InvalidFrequency(f)) in failed && NoRow(started, k) && NoRow(updated, k))
    && (k in before.entries && before.entries[k].frequency == f ==>
          k in after.entries && after.entries[k] == before.entries[k] &&
          NoRow(started, k) && NoRow(updated, k) && NoFailure(failed, k))
    && (k in before.entries && before.entries[k].frequency != f && cronValid(f) ==>
          k in after.entries && after.entries[k] == before.entries[k].(frequency := f, running := true) &&
          s in updated && NoRow(started, k) && NoFailure(failed, k))
    && (k in before.entries && before.entries[k].frequency != f && !cronValid(f) ==>
          k !in after.entries &&
          Failed(k, f, InvalidFrequency(f)) in failed && NoRow(started, k) && NoRow(updated, k))
  }

  lemma GrowthKeepsAbsence(before: seq<Schedule>, after: seq<Schedule>, k: string)
    requires GrowsWithout(before, after, k) && NoRow(before, k)
    ensures NoRow(after, k)
  {
    forall x | x in after ensures x.uri != k {
      var j :| 0 <= j < |after| && after[j] == x;
      if j < |before| {
        assert after[j] == after[..|before|][j];
      }
    }
  }

  lemma FailureGrowthKeepsAbsence(before: seq<Failed>, after: seq<Failed>, k: string)
    requires FailuresGrowWithout(before, after, k) && NoFailure(before, k)
    ensures NoFailure(after, k)
  {
    forall x | x in after ensures x.uri != k {
      var j :| 0 <= j < |after| && after[j] == x;
      if j < |before| {
        assert after[j] == after[..|before|][j];
      }
    }
  }

  lemma GrowthKeepsMembers(before: seq<Schedule>, after: seq<Schedule>, k: string, x: Schedule)
    requires GrowsWithout(before, after, k) && x in before
    ensures x in after
  {
    var j :| 0 <= j < |before| && before[j] == x;
    assert after[..|before|][j] == x;
  }

  lemma FailureGrowthKeepsMembers(before: seq<Failed>, after: seq<Failed>, k: string, x: Failed)
    requires FailuresGrowWithout(before, after, k) && x in before
    ensures x in after
  {
    var j :| 0 <= j < |before| && before[j] == x;
    assert after[..|before|][j] == x;
  }

  /** The first pass of `sync` treats every row of a list with distinct URIs
      as `RowOutcome` says. */
  lemma HealRowOutcome(reg: Registry, scheduled: seq<Schedule>, cronValid: CronCheck, i: nat)
    requires reg.Valid()
    requires Distinct(Uris(scheduled))
    requires i < |scheduled|
    ensures var h := HealAll(Healing(reg, [], [], []), scheduled, cronValid);
            RowOutcome(reg, scheduled[i], cronValid, h.reg, h.started, h.updated, h.failed)
  {
    var s := scheduled[i];
    var k := s.uri;
    var a, b := scheduled[..i], scheduled[i + 1..];
    var us := Uris(scheduled);
    assert k !in Uris(a) by {
      forall j | 0 <= j < |a| ensures Uris(a)[j] != k {
        assert us[j] != us[i];
      }
    }
    assert k !in Uris(b) by {
      forall j | 0 <= j < |b| ensures Uris(b)[j] != k {
        assert us[i + 1 + j] != us[i];
      }
    }
    assert a + [s] + b == scheduled;
    HealRowAmong(reg, a, s, b, cronValid);
  }

  /** A row whose URI no other row shares, wherever it sits in the list. */
  lemma HealRowAmong(reg: Registry, a: seq<Schedule>, s: Schedule, b: seq<Schedule>, cronValid: CronCheck)
    requires reg.Valid()
    requires s.uri !in Uris(a) && s.uri !in Uris(b)
    ensures var h := HealAll(Healing(reg, [], [], []), a + [s] + b, cronValid);
            RowOutcome(reg, s, cronValid, h.reg, h.started, h.updated, h.failed)
  {
    var k := s.uri;
    var h0 := Healing(reg, [], [], []);
    HealAllSplit(h0, a + [s], b, cronValid);
    HealAllSplit(h0, a, [s], cronValid);
    var h1 := HealAll(h0, a, cronValid);
    assert HealAll(h1, [s], cronValid) == HealStep(h1, s, cronValid);
    HealFrame(h0, a, cronValid, k);
    GrowthKeepsAbsence([], h1.started, k);
    GrowthKeepsAbsence([], h1.updated, k);
    FailureGrowthKeepsAbsence([], h1.failed, k);
    HealStepOutcome(reg, h1, s, cronValid);
    var h2 := HealStep(h1, s, cronValid);
    HealFrame(h2, b, cronValid, k);
    OutcomeFramed(reg, s, cronValid, h2, HealAll(h2, b, cronValid));
  }

  /** The row's own step, from a state that neither holds anything new for
      its URI nor reports it. */
  lemma HealStepOutcome(before: Registry, h: Healing, s: Schedule, cronValid: CronCheck)
    requires h.reg.Valid()
    requires Untouched(before, h.reg, s.uri)
    requires NoRow(h.started, s.uri) && NoRow(h.updated, s.uri) && NoFailure(h.failed, s.uri)
    ensures var r := HealStep(h, s, cronValid);
            RowOutcome(before, s, cronValid, r.reg, r.started, r.updated, r.failed)
  {
  }

  /** Later rows for other URIs keep the row's outcome. */
  lemma OutcomeFramed(before: Registry, s: Schedule, cronValid: CronCheck, h: Healing, r: Healing)
    requires RowOutcome(before, s, cronValid, h.reg, h.started, h.updated, h.failed)
    requires HealFramed(h, r, s.uri)
    ensures RowOutcome(before, s, cronValid, r.reg, r.started, r.updated, r.failed)
  {
    var k := s.uri;
    if NoRow(h.started, k) { GrowthKeepsAbsence(h.started, r.started, k); }
    if NoRow(h.updated, k) { GrowthKeepsAbsence(h.updated, r.updated, k); }
    if NoFailure(h.failed, k) { FailureGrowthKeepsAbsence(h.failed, r.failed, k); }
    if s in h.started { GrowthKeepsMembers(h.started, r.started, k, s); }
    if s in h.updated { GrowthKeepsMembers(h.updated, r.updated, k, s); }
    forall e | e in h.failed ensures e in r.failed {
      FailureGrowthKeepsMembers(h.failed, r.failed, k, e);
    }
  }

  /* ---------- sync: the second pass ---------- */

  /** The second pass only deletes: what remains is as before, desired URIs
      all remain, and no undesired URI of the snapshot remains. */
  lemma {:induction false} EvictEffect(reg: Registry, snapshot: seq<Job>, desired: seq<string>)
    requires reg.Valid()
    ensures var e := EvictAll(reg, snapshot, desired);
            (forall k :: k in e.reg.entries ==> k in reg.entries && e.reg.entries[k] == reg.entries[k]) &&
            (forall k :: k in reg.entries && k in desired ==> k in e.reg.entries) &&
            (forall k :: k in JobUris(snapshot) && k !in desired ==> k !in e.reg.entries)
    decreases |snapshot|
  {
    if snapshot != [] {
      var prefix := snapshot[..|snapshot| - 1];
      assert JobUris(snapshot) == JobUris(prefix) + [snapshot[|snapshot| - 1].uri];
      EvictEffect(reg, prefix, desired);
    }
  }

  /** The rows `sync` reports as removed: the held entries, in key order,
      whose URI is not desired. */
  function StaleRows(ks: seq<string>, m: map<string, Job>, desired: seq<string>): seq<Schedule>
    requires forall i :: 0 <= i < |ks| ==> ks[i] in m
    decreases |ks|
  {
    if ks == [] then []
    else
      var k := ks[|ks| - 1];
      var prev := StaleRows(ks[..|ks| - 1], m, desired);
      if k in desired then prev else prev + [Schedule(k, m[k].frequency)]
  }

  lemma {:induction false} StaleRowsMembers(ks: seq<string>, m: map<string, Job>, desired: seq<string>)
    requires forall i :: 0 <= i < |ks| ==> ks[i] in m
    ensures forall x :: x in StaleRows(ks, m, desired) <==>
              x.uri in ks && x.uri !in desired && x.frequency == m[x.uri].frequency
    decreases |ks|
  {
    if ks != [] {
      var prefix, k := ks[..|ks| - 1], ks[|ks| - 1];
      StaleRowsMembers(prefix, m, desired);
      assert ks == prefix + [k];
      assert forall u :: u in ks <==> u in prefix || u == k;
    }
  }

  function Stale(reg: Registry, desired: seq<string>): seq<Schedule>
    requires reg.Valid()
  {
    StaleRows(reg.keys, reg.entries, desired)
  }

  lemma {:induction false} EvictRemovedIsStale(reg: Registry, ks: seq<string>, m: map<string, Job>, desired: seq<string>)
    requires reg.Valid()
    requires forall i :: 0 <= i < |ks| ==> ks[i] in m && m[ks[i]].uri == ks[i]
    ensures EvictAll(reg, ValuesOf(ks, m), desired).removed == StaleRows(ks, m, desired)
    decreases |ks|
  {
    if ks != [] {
      var prefix := ks[..|ks| - 1];
      assert ValuesOf(ks, m)[..|ks| - 1] == ValuesOf(prefix, m);
      EvictRemovedIsStale(reg, prefix, m, desired);
    }
  }

  lemma {:induction false} StaleRowsAgree(ks: seq<string>, m1: map<string, Job>, m2: map<string, Job>, desired: seq<string>)
    requires forall i :: 0 <= i < |ks| ==> ks[i] in m1 && ks[i] in m2
    requires forall i :: 0 <= i < |ks| && ks[i] !in desired ==> m1[ks[i]] == m2[ks[i]]
    ensures StaleRows(ks, m1, desired) == StaleRows(ks, m2, desired)
    decreases |ks|
  {
    if ks != [] {
      StaleRowsAgree(ks[..|ks| - 1], m1, m2, desired);
    }
  }

  lemma KeptKeysStored(ks: seq<string>, m: map<string, Job>, k: string)
    requires forall i :: 0 <= i < |ks| ==> ks[i] in m
    ensures forall i :: 0 <= i < |Filter(ks, Other(k))| ==> Filter(ks, Other(k))[i] in m
  {
    var f := Filter(ks, Other(k));
    forall i | 0 <= i < |f| ensures f[i] in m {
      var j :| 0 <= j < |ks| && ks[j] == f[i];
    }
  }

  lemma StaleRowsSnoc(ks: seq<string>, x: string, m: map<string, Job>, desired: seq<string>)
    requires forall i :: 0 <= i < |ks| ==> ks[i] in m
    requires x in m
    ensures forall i :: 0 <= i < |ks + [x]| ==> (ks + [x])[i] in m
    ensures StaleRows(ks + [x], m, desired) ==
            StaleRows(ks, m, desired) + (if x in desired then [] else [Schedule(x, m[x].frequency)])
  {
    var g := ks + [x];
    assert g[..|g| - 1] == ks;
  }

  lemma {:induction false} StaleRowsDropDesired(ks: seq<string>, m: map<string, Job>, k: string, desired: seq<string>)
    requires forall i :: 0 <= i < |ks| ==> ks[i] in m
    requires k in desired
    ensures forall i :: 0 <= i < |Filter(ks, Other(k))| ==> Filter(ks, Other(k))[i] in m
    ensures StaleRows(Filter(ks, Other(k)), m, desired) == StaleRows(ks, m, desired)
    decreases |ks|
  {
    KeptKeysStored(ks, m, k);
    if ks != [] {
      var prefix, last := ks[..|ks| - 1], ks[|ks| - 1];
      StaleRowsDropDesired(prefix, m, k, desired);
      var f := Filter(prefix, Other(k));
      KeptKeysStored(prefix, m, k);
      if last != k {
        assert Filter(ks, Other(k)) == f + [last];
        StaleRowsSnoc(f, last, m, desired);
      } else {
        assert Filter(ks, Other(k)) == f;
      }
    }
  }

  lemma SetKeepsStale(reg: Registry, k: string, v: Job, desired: seq<string>)
    requires reg.Valid()
    requires k in desired
    ensures Stale(reg.Set(k, v), desired) == Stale(reg, desired)
  {
    var r := reg.Set(k, v);
    if k in reg.entries {
      StaleRowsAgree(reg.keys, r.entries, reg.entries, desired);
    } else {
      assert r.keys[..|r.keys| - 1] == reg.keys;
      StaleRowsAgree(reg.keys, r.entries, reg.entries, desired);
    }
  }

  lemma DeleteKeepsStale(reg: Registry, k: string, desired: seq<string>)
    requires reg.Valid()
    requires k in desired
    ensures Stale(reg.Delete(k), desired) == Stale(reg, desired)
  {
    var r := reg.Delete(k);
    StaleRowsAgree(r.keys, r.entries, reg.entries, desired);
    StaleRowsDropDesired(reg.keys, reg.entries, k, desired);
  }

  lemma HealStepKeepsStale(h: Healing, s: Schedule, cronValid: CronCheck, desired: seq<string>)
    requires h.reg.Valid()
    requires s.uri in desired
    ensures Stale(HealStep(h, s, cronValid).reg, desired) == Stale(h.reg, desired)
  {
    if s.uri in h.reg.entries {
      var held := h.reg.entries[s.uri];
      if held.frequency != s.frequency {
        match Start(held.(frequency := s.frequency), cronValid)
        case Ok(restarted) => SetKeepsStale(h.reg, s.uri, restarted, desired);
        case Err(_) => DeleteKeepsStale(h.reg, s.uri, desired);
      }
    } else if s.uri != "" {
      var added := h.reg.Set(s.uri, Created(s.uri, s.frequency));
      SetKeepsStale(h.reg, s.uri, Created(s.uri, s.frequency), desired);
      match Start(Created(s.uri, s.frequency), cronValid)
      case Ok(started) => SetKeepsStale(added, s.uri, started, desired);
      case Err(_) =>
    }
  }

  lemma {:induction false} HealAllKeepsStale(h: Healing, scheduled: seq<Schedule>, cronValid: CronCheck, desired: seq<string>)
    requires h.reg.Valid()
    requires forall i :: 0 <= i < |scheduled| ==> scheduled[i].uri in desired
    ensures Stale(HealAll(h, scheduled, cronValid).reg, desired) == Stale(h.reg, desired)
    decreases |scheduled|
  {
    if scheduled != [] {
      var prefix := scheduled[..|scheduled| - 1];
      HealAllKeepsStale(h, prefix, cronValid, desired);
      HealStepKeepsStale(HealAll(h, prefix, cronValid), scheduled[|scheduled| - 1], cronValid, desired);
    }
  }

  /** `removed` lists exactly the jobs held before `sync` whose URI is not in
      the fetched list, in the map's insertion order, with their frequency. */
  lemma SyncRemovedIsStale(reg: Registry, scheduled: seq<Schedule>, cronValid: CronCheck)
    requires WellKeyed(reg)
    ensures SyncAll(reg, scheduled, cronValid).report.removed == Stale(reg, Uris(scheduled))
    ensures forall x :: x in SyncAll(reg, scheduled, cronValid).report.removed <==>
              x.uri in reg.entries && x.uri !in Uris(scheduled) && x.frequency == reg.entries[x.uri].frequency
  {
    var d := Uris(scheduled);
    var h := HealAll(Healing(reg, [], [], []), scheduled, cronValid);
    EvictRemovedIsStale(h.reg, h.reg.keys, h.reg.entries, d);
    HealAllKeepsStale(Healing(reg, [], [], []), scheduled, cronValid, d);
    StaleRowsMembers(reg.keys, reg.entries, d);
  }

  /** After `sync` every held URI is one of the fetched ones. */
  lemma SyncEvicts(reg: Registry, scheduled: seq<Schedule>, cronValid: CronCheck)
    requires WellKeyed(reg)
    ensures forall k :: k in SyncAll(reg, scheduled, cronValid).reg.entries ==> k in Uris(scheduled)
  {
    var h := HealAll(Healing(reg, [], [], []), scheduled, cronValid);
    HeldUrisAreKeys(h.reg);
    EvictEffect(h.reg, h.reg.Values(), Uris(scheduled));
  }

  /** What `sync` as a whole does with row `i` of a list of distinct URIs:
      the outcome of the first pass survives the second. */
  lemma SyncRowOutcome(reg: Registry, scheduled: seq<Schedule>, cronValid: CronCheck, i: nat)
    requires WellKeyed(reg)
    requires Distinct(Uris(scheduled))
    requires i < |scheduled|
    ensures var run := SyncAll(reg, scheduled, cronValid);
            RowOutcome(reg, scheduled[i], cronValid, run.reg, run.report.started, run.report.updated, run.report.failed)
  {
    var d := Uris(scheduled);
    var k := scheduled[i].uri;
    assert k in d by { assert d[i] == k; }
    var h := HealAll(Healing(reg, [], [], []), scheduled, cronValid);
    HealRowOutcome(reg, scheduled, cronValid, i);
    EvictKeepsDesired(h.reg, h.reg.Values(), d, k);
    var e := EvictAll(h.reg, h.reg.Values(), d);
    OutcomeSurvives(reg, scheduled[i], cronValid, h.reg, e.reg, h.started, h.updated, h.failed);
  }

  /** A listed URI is never reported as removed. */
  lemma SyncKeepsListed(reg: Registry, scheduled: seq<Schedule>, cronValid: CronCheck, i: nat)
    requires reg.Valid()
    requires i < |scheduled|
    ensures NoRow(SyncAll(reg, scheduled, cronValid).report.removed, scheduled[i].uri)
  {
    var d := Uris(scheduled);
    assert d[i] == scheduled[i].uri;
    var h := HealAll(Healing(reg, [], [], []), scheduled, cronValid);
    RemovedNotDesired(h.reg, h.reg.Values(), d);
  }

  lemma {:induction false} EvictKeepsDesired(reg: Registry, snapshot: seq<Job>, desired: seq<string>, k: string)
    requires reg.Valid()
    requires k in desired
    ensures Untouched(reg, EvictAll(reg, snapshot, desired).reg, k)
    decreases |snapshot|
  {
    if snapshot != [] {
      EvictKeepsDesired(reg, snapshot[..|snapshot| - 1], desired, k);
    }
  }

  lemma {:induction false} RemovedNotDesired(reg: Registry, snapshot: seq<Job>, desired: seq<string>)
    requires reg.Valid()
    ensures forall x :: x in EvictAll(reg, snapshot, desired).removed ==> x.uri !in desired
    decreases |snapshot|
  {
    if snapshot != [] {
      RemovedNotDesired(reg, snapshot[..|snapshot| - 1], desired);
    }
  }

  lemma OutcomeSurvives(before: Registry, s: Schedule, cronValid: CronCheck, a1: Registry, a2: Registry,
                        started: seq<Schedule>, updated: seq<Schedule>, failed: seq<Failed>)
    requires RowOutcome(before, s, cronValid, a1, started, updated, failed)
    requires Untouched(a1, a2, s.uri)
    ensures RowOutcome(before, s, cronValid, a2, started, updated, failed)
  {
  }

  /* ---------- sync twice ---------- */

  lemma {:induction false} HealIdle(h: Healing, scheduled: seq<Schedule>, cronValid: CronCheck)
    requires h.reg.Valid()
    requires forall i :: 0 <= i < |scheduled| ==>
               scheduled[i].uri in h.reg.entries && h.reg.entries[scheduled[i].uri].frequency == scheduled[i].frequency
    ensures HealAll(h, scheduled, cronValid) == h
    decreases |scheduled|
  {
    if scheduled != [] {
      HealIdle(h, scheduled[..|scheduled| - 1], cronValid);
    }
  }

  lemma {:induction false} EvictIdle(reg: Registry, snapshot: seq<Job>, desired: seq<string>)
    requires reg.Valid()
    requires forall i :: 0 <= i < |snapshot| ==> snapshot[i].uri in desired
    ensures EvictAll(reg, snapshot, desired) == Eviction(reg, [])
    decreases |snapshot|
  {
    if snapshot != [] {
      EvictIdle(reg, snapshot[..|snapshot| - 1], desired);
    }
  }

  /** When a `sync` over distinct URIs fails only at starting new jobs
      with non-empty URIs (those stay held, stopped, with the fetched
      frequency), a second `sync` with the same list changes nothing and
      reports nothing. An empty URI fails again, and a job whose restart
      failed was evicted and is added afresh, so those are excluded. */
  lemma SyncIdempotent(reg: Registry, scheduled: seq<Schedule>, cronValid: CronCheck)
    requires WellKeyed(reg)
    requires Distinct(Uris(scheduled))
    requires forall x :: x in SyncAll(reg, scheduled, cronValid).report.failed ==> x.uri != "" && x.uri !in reg.entries
    ensures var once := SyncAll(reg, scheduled, cronValid).reg;
            SyncAll(once, scheduled, cronValid) == SyncRun(once, SyncReport([], [], [], []))
  {
    var run := SyncAll(reg, scheduled, cronValid);
    var once := run.reg;
    forall i | 0 <= i < |scheduled|
      ensures scheduled[i].uri in once.entries && once.entries[scheduled[i].uri].frequency == scheduled[i].frequency
    {
      SyncRowOutcome(reg, scheduled, cronValid, i);
      RowStaysHeld(reg, scheduled[i], cronValid, once, run.report.started, run.report.updated, run.report.failed);
    }
    var h0 := Healing(once, [], [], []);
    HealIdle(h0, scheduled, cronValid);
    SyncEvicts(reg, scheduled, cronValid);
    HeldUrisAreKeys(once);
    var snapshot := once.Values();
    forall i | 0 <= i < |snapshot| ensures snapshot[i].uri in Uris(scheduled) {
      assert JobUris(snapshot)[i] == snapshot[i].uri;
    }
    EvictIdle(once, snapshot, Uris(scheduled));
  }

  /** A row whose outcome is not an empty-URI failure or a failed restart
      leaves its URI held with the fetched frequency. */
  lemma RowStaysHeld(before: Registry, s: Schedule, cronValid: CronCheck,
                     after: Registry, started: seq<Schedule>, updated: seq<Schedule>, failed: seq<Failed>)
    requires RowOutcome(before, s, cronValid, after, started, updated, failed)
    requires forall x :: x in failed ==> x.uri != "" && x.uri !in before.entries
    ensures s.uri in after.entries && after.entries[s.uri].frequency == s.frequency
  {
  }
}
