/** The older `Delta` class of lib/delta.js: exact selection on predicate
    (and object), returning the subjects of the selected triples. */
module LegacyDelta {
  import opened Seqs
  import opened Rdf
  import DeltaFilter

  /** `t => t.predicate.value === predicate` */
  function PredicateIs(p: string): Triple -> bool {
    (t: Triple) => t.pred == p
  }

  /** `t => t.predicate.value === predicate && t.object.value === object` */
  function PredicateObjectAre(p: string, o: string): Triple -> bool {
    (t: Triple) => t.pred == p && t.obj == o
  }

  /** `getInsertsFor`: subjects of the inserts with predicate `p` and object `o`. */
  function GetInsertsFor(d: Delta, p: string, o: string): (r: seq<string>)
    ensures |r| <= |Inserts(d.changeSets)|
    ensures forall x :: x in r <==> exists t :: t in Inserts(d.changeSets) && t.pred == p && t.obj == o && t.subj == x
  {
    SubjectsSelected(Inserts(d.changeSets), PredicateObjectAre(p, o));
    Subjects(Filter(Inserts(d.changeSets), PredicateObjectAre(p, o)))
  }

  /** `getDeletesFor`: subjects of the deletes with predicate `p` and object `o`. */
  function GetDeletesFor(d: Delta, p: string, o: string): (r: seq<string>)
    ensures |r| <= |Deletes(d.changeSets)|
    ensures forall x :: x in r <==> exists t :: t in Deletes(d.changeSets) && t.pred == p && t.obj == o && t.subj == x
  {
    SubjectsSelected(Deletes(d.changeSets), PredicateObjectAre(p, o));
    Subjects(Filter(Deletes(d.changeSets), PredicateObjectAre(p, o)))
  }

  /** `getInsertsForPredicates`: subjects of the inserts with predicate `p`. */
  function GetInsertsForPredicates(d: Delta, p: string): (r: seq<string>)
    ensures |r| <= |Inserts(d.changeSets)|
    ensures forall x :: x in r <==> exists t :: t in Inserts(d.changeSets) && t.pred == p && t.subj == x
  {
    SubjectsSelected(Inserts(d.changeSets), PredicateIs(p));
    Subjects(Filter(Inserts(d.changeSets), PredicateIs(p)))
  }

  /** `getDeletesForPredicates`: subjects of the deletes with predicate `p`. */
  function GetDeletesForPredicates(d: Delta, p: string): (r: seq<string>)
    ensures |r| <= |Deletes(d.changeSets)|
    ensures forall x :: x in r <==> exists t :: t in Deletes(d.changeSets) && t.pred == p && t.subj == x
  {
    SubjectsSelected(Deletes(d.changeSets), PredicateIs(p));
    Subjects(Filter(Deletes(d.changeSets), PredicateIs(p)))
  }

  /** The subjects of a selection are the subjects of the selected triples. */
  lemma SubjectsSelected(ts: seq<Triple>, keep: Triple -> bool)
    ensures forall x :: x in Subjects(Filter(ts, keep)) <==> exists t :: t in ts && keep(t) && t.subj == x
  {
    var r := Filter(ts, keep);
    FilterMembership(ts, keep);
    forall x | x in Subjects(r) ensures exists t :: t in ts && keep(t) && t.subj == x {
      var i :| 0 <= i < |r| && Subjects(r)[i] == x;
      assert r[i] in ts && keep(r[i]);
    }
    forall x | exists t :: t in ts && keep(t) && t.subj == x ensures x in Subjects(r) {
      var t :| t in ts && keep(t) && t.subj == x;
      var i :| 0 <= i < |r| && r[i] == t;
      assert Subjects(r)[i] == x;
    }
  }

  /** The object-restricted selection is a subsequence of the predicate-only
      one, for inserts and for deletes. */
  lemma ForIsSubsequenceOfForPredicates(d: Delta, p: string, o: string)
    ensures IsSubsequence(GetInsertsFor(d, p, o), GetInsertsForPredicates(d, p))
    ensures IsSubsequence(GetDeletesFor(d, p, o), GetDeletesForPredicates(d, p))
  {
    FilterMonotone(Inserts(d.changeSets), PredicateObjectAre(p, o), PredicateIs(p));
    SubjectsOfSubsequence(Filter(Inserts(d.changeSets), PredicateObjectAre(p, o)),
                          Filter(Inserts(d.changeSets), PredicateIs(p)));
    FilterMonotone(Deletes(d.changeSets), PredicateObjectAre(p, o), PredicateIs(p));
    SubjectsOfSubsequence(Filter(Deletes(d.changeSets), PredicateObjectAre(p, o)),
                          Filter(Deletes(d.changeSets), PredicateIs(p)));
  }

  /** For a non-empty predicate and object the old class selects, subject by
      subject and in the same order, what the newer class's `getInsertsFor`
      and `getDeletesFor` select (an empty string is a wildcard only there). */
  lemma AgreesWithDeltaFilter(d: Delta, p: string, o: string)
    requires p != "" && o != ""
    ensures GetInsertsFor(d, p, o) ==
            Subjects(DeltaFilter.GetInsertsFor(d, DeltaFilter.Undefined, DeltaFilter.Text(p), DeltaFilter.Text(o)))
    ensures GetDeletesFor(d, p, o) ==
            Subjects(DeltaFilter.GetDeletesFor(d, DeltaFilter.Undefined, DeltaFilter.Text(p), DeltaFilter.Text(o)))
  {
    var m := DeltaFilter.Matcher(DeltaFilter.Undefined, DeltaFilter.Text(p), DeltaFilter.Text(o));
    FilterCongruent(Inserts(d.changeSets), PredicateObjectAre(p, o), m);
    FilterCongruent(Deletes(d.changeSets), PredicateObjectAre(p, o), m);
  }
}
