/** Change batches as the delta notifier delivers them: a list of change
    sets, each with the triples it inserted and the triples it deleted.
    A triple is recorded by the `.value` of its subject, predicate and
    object terms. */
module Rdf {
  import opened Seqs

  datatype Triple = Triple(subj: string, pred: string, obj: string)

  datatype ChangeSet = ChangeSet(inserts: seq<Triple>, deletes: seq<Triple>)

  /** The body both `Delta` classes wrap. */
  datatype Delta = Delta(changeSets: seq<ChangeSet>)

  /** The `inserts` getter: every change set's inserts, one after another. */
  function Inserts(cs: seq<ChangeSet>): seq<Triple>
    decreases |cs|
  {
    if cs == [] then [] else Inserts(cs[..|cs| - 1]) + cs[|cs| - 1].inserts
  }

  /** The `deletes` getter. */
  function Deletes(cs: seq<ChangeSet>): seq<Triple>
    decreases |cs|
  {
    if cs == [] then [] else Deletes(cs[..|cs| - 1]) + cs[|cs| - 1].deletes
  }

  /** Flattening two batches one after the other is flattening each. */
  lemma {:induction false} FlattenAppend(a: seq<ChangeSet>, b: seq<ChangeSet>)
    ensures Inserts(a + b) == Inserts(a) + Inserts(b)
    ensures Deletes(a + b) == Deletes(a) + Deletes(b)
    decreases |b|
  {
    if b == [] {
      assert a + b == a;
    } else {
      var b' := b[..|b| - 1];
      assert (a + b)[..|a + b| - 1] == a + b';
      assert (a + b)[|a + b| - 1] == b[|b| - 1];
      FlattenAppend(a, b');
    }
  }

  /** A triple is among the flattened inserts (deletes) iff some change set
      inserted (deleted) it. */
  lemma {:induction false} FlattenMembership(cs: seq<ChangeSet>, t: Triple)
    ensures t in Inserts(cs) <==> exists i :: 0 <= i < |cs| && t in cs[i].inserts
    ensures t in Deletes(cs) <==> exists i :: 0 <= i < |cs| && t in cs[i].deletes
    decreases |cs|
  {
    if cs != [] {
      var cs' := cs[..|cs| - 1];
      FlattenMembership(cs', t);
      if t in cs[|cs| - 1].inserts {
        assert t in Inserts(cs);
      }
      if exists i :: 0 <= i < |cs| && t in cs[i].inserts {
        var i :| 0 <= i < |cs| && t in cs[i].inserts;
        if i < |cs| - 1 {
          assert t in cs'[i].inserts;
        }
      }
      if exists i :: 0 <= i < |cs| && t in cs[i].deletes {
        var i :| 0 <= i < |cs| && t in cs[i].deletes;
        if i < |cs| - 1 {
          assert t in cs'[i].deletes;
        }
      }
    }
  }

  /** `.map(t => t.subject.value)` */
  function Subjects(ts: seq<Triple>): (r: seq<string>)
    ensures |r| == |ts|
    ensures forall i :: 0 <= i < |ts| ==> r[i] == ts[i].subj
    decreases |ts|
  {
    if ts == [] then [] else Subjects(ts[..|ts| - 1]) + [ts[|ts| - 1].subj]
  }

  /** Taking subjects keeps a subsequence a subsequence. */
  lemma {:induction false} SubjectsOfSubsequence(a: seq<Triple>, b: seq<Triple>)
    requires IsSubsequence(a, b)
    ensures IsSubsequence(Subjects(a), Subjects(b))
    decreases |b|
  {
    if a != [] {
      var a', b' := a[..|a| - 1], b[..|b| - 1];
      if a[|a| - 1] == b[|b| - 1] && IsSubsequence(a', b') {
        SubjectsOfSubsequence(a', b');
        assert Subjects(a)[..|a| - 1] == Subjects(a');
      } else {
        SubjectsOfSubsequence(a, b');
      }
    }
  }
}
