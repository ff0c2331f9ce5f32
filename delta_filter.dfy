/** The `Delta` class of lib/delta/delta.js: selection of a batch's inserted
    or deleted triples by subject, predicate and object, where a pattern that
    is left out (or falsy) matches anything. */
module DeltaFilter {
  import opened Results
  import opened Seqs
  import opened Rdf

  /** An argument of the `…For` methods: left out, a string, or an RDF term
      object that stands for its `.value`. */
  datatype Pattern = Undefined | Text(text: string) | TermOf(value: string)

  /** `getValue` */
  function GetValue(p: Pattern): Option<string> {
    match p
    case Undefined => None
    case Text(s) => Some(s)
    case TermOf(v) => Some(v)
  }

  /** `!s || actual === s`: a missing or empty pattern admits every value. */
  predicate Admits(v: Option<string>, actual: string) {
    v.None? || v.value == "" || actual == v.value
  }

  predicate Matches(t: Triple, s: Pattern, p: Pattern, o: Pattern) {
    Admits(GetValue(s), t.subj) && Admits(GetValue(p), t.pred) && Admits(GetValue(o), t.obj)
  }

  /** The callback `getChangesFor` hands to `filter`. */
  function Matcher(s: Pattern, p: Pattern, o: Pattern): Triple -> bool {
    t => Matches(t, s, p, o)
  }

  /** `getChangesFor` */
  function GetChangesFor(changes: seq<Triple>, s: Pattern, p: Pattern, o: Pattern): (r: seq<Triple>)
    ensures |r| <= |changes|
    ensures forall i :: 0 <= i < |r| ==> r[i] in changes && Matches(r[i], s, p, o)
    ensures forall i :: 0 <= i < |changes| && Matches(changes[i], s, p, o) ==> changes[i] in r
  {
    Filter(changes, Matcher(s, p, o))
  }

  /** A selection is empty iff no triple of the list matches. */
  lemma SelectionNonEmpty(changes: seq<Triple>, s: Pattern, p: Pattern, o: Pattern)
    ensures GetChangesFor(changes, s, p, o) != [] <==> exists t :: t in changes && Matches(t, s, p, o)
  {
    var r := GetChangesFor(changes, s, p, o);
    if r != [] {
      assert r[0] in changes && Matches(r[0], s, p, o);
    }
    if exists t :: t in changes && Matches(t, s, p, o) {
      var t :| t in changes && Matches(t, s, p, o);
      var i :| 0 <= i < |changes| && changes[i] == t;
      assert t in r;
    }
  }

  /** `getInsertsFor` */
  function GetInsertsFor(d: Delta, s: Pattern, p: Pattern, o: Pattern): seq<Triple> {
    GetChangesFor(Inserts(d.changeSets), s, p, o)
  }

  /** `getDeletesFor` */
  function GetDeletesFor(d: Delta, s: Pattern, p: Pattern, o: Pattern): seq<Triple> {
    GetChangesFor(Deletes(d.changeSets), s, p, o)
  }

  /** `hasInsertsFor`: true iff some inserted triple matches. */
  function HasInsertsFor(d: Delta, s: Pattern, p: Pattern, o: Pattern): (b: bool)
    ensures b <==> exists t :: t in Inserts(d.changeSets) && Matches(t, s, p, o)
    ensures b <==> GetInsertsFor(d, s, p, o) != []
  {
    SelectionNonEmpty(Inserts(d.changeSets), s, p, o);
    |GetInsertsFor(d, s, p, o)| > 0
  }

  /** `hasDeletesFor`: true iff some deleted triple matches. */
  function HasDeletesFor(d: Delta, s: Pattern, p: Pattern, o: Pattern): (b: bool)
    ensures b <==> exists t :: t in Deletes(d.changeSets) && Matches(t, s, p, o)
    ensures b <==> GetDeletesFor(d, s, p, o) != []
  {
    SelectionNonEmpty(Deletes(d.changeSets), s, p, o);
    |GetDeletesFor(d, s, p, o)| > 0
  }

  /** The selection is exactly the matching triples in their original order:
      a subsequence of the input in which every matching triple occurs as
      often as in the input and no other triple occurs. */
  lemma GetChangesForExact(changes: seq<Triple>, s: Pattern, p: Pattern, o: Pattern)
    ensures IsSubsequence(GetChangesFor(changes, s, p, o), changes)
    ensures forall t :: multiset(GetChangesFor(changes, s, p, o))[t] ==
                         if Matches(t, s, p, o) then multiset(changes)[t] else 0
  {
    FilterIsSubsequence(changes, Matcher(s, p, o));
    forall t ensures multiset(GetChangesFor(changes, s, p, o))[t] ==
                     if Matches(t, s, p, o) then multiset(changes)[t] else 0 {
      FilterCount(changes, Matcher(s, p, o), t);
    }
  }

  /** Selecting again with the same patterns returns the selection unchanged. */
  lemma GetChangesForIdempotent(changes: seq<Triple>, s: Pattern, p: Pattern, o: Pattern)
    ensures GetChangesFor(GetChangesFor(changes, s, p, o), s, p, o) == GetChangesFor(changes, s, p, o)
  {
    FilterIdempotent(changes, Matcher(s, p, o));
  }

  /** With every pattern left out the whole change list comes back. */
  lemma GetChangesForWildcard(changes: seq<Triple>)
    ensures GetChangesFor(changes, Undefined, Undefined, Undefined) == changes
  {
    FilterAll(changes, Matcher(Undefined, Undefined, Undefined));
  }

  /** A term object selects exactly what the string of its `.value` selects,
      and an empty string selects what a missing pattern does. */
  lemma PatternsCompareByValue(changes: seq<Triple>, s: string, p: string, o: string)
    ensures GetChangesFor(changes, TermOf(s), TermOf(p), TermOf(o)) ==
            GetChangesFor(changes, Text(s), Text(p), Text(o))
    ensures GetChangesFor(changes, Text(""), Text(""), Text("")) == changes
  {
    FilterCongruent(changes, Matcher(TermOf(s), TermOf(p), TermOf(o)), Matcher(Text(s), Text(p), Text(o)));
    FilterAll(changes, Matcher(Text(""), Text(""), Text("")));
  }

  /** Selecting from two batches in sequence is selecting from each. */
  lemma GetInsertsForAppend(a: Delta, b: Delta, s: Pattern, p: Pattern, o: Pattern)
    ensures GetInsertsFor(Delta(a.changeSets + b.changeSets), s, p, o) ==
            GetInsertsFor(a, s, p, o) + GetInsertsFor(b, s, p, o)
    ensures GetDeletesFor(Delta(a.changeSets + b.changeSets), s, p, o) ==
            GetDeletesFor(a, s, p, o) + GetDeletesFor(b, s, p, o)
  {
    FlattenAppend(a.changeSets, b.changeSets);
    FilterAppend(Inserts(a.changeSets), Inserts(b.changeSets), Matcher(s, p, o));
    FilterAppend(Deletes(a.changeSets), Deletes(b.changeSets), Matcher(s, p, o));
  }
}
