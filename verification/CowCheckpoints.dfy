/** What a checkpoint is for: a store reopened later goes on from the round that was the last one then. */
module CowCheckpoints {
  import opened SlotTables
  import opened CowStore
  import opened CowRuns

  /** The last executed round and the checkpointed one, read off the steps alone. */
  datatype Marks = Marks(last: nat, checkpointed: nat)

  function MarksOf(t: Tables): Marks { Marks(t.last, t.checkpointed) }

  function MarksAfter(m: Marks, es: seq<Step>): Marks {
    if es == [] then m else
      var before := MarksAfter(m, es[..|es| - 1]);
      match es[|es| - 1]
      case Snapshot(round) => before.(last := round)
      case Checkpointed => before.(checkpointed := before.last)
      case Reopened => before.(last := before.checkpointed)
      case _ => before
  }

  lemma StepMarks(s: Store, e: Step)
    requires Possible(s, e)
    ensures MarksOf(Apply(s, e).tables) == MarksAfter(MarksOf(s.tables), [e])
  {
    assert [e][..0] == [];
    assert MarksAfter(MarksOf(s.tables), []) == MarksOf(s.tables);
  }

  lemma {:induction false} MarksJoined(m: Marks, a: seq<Step>, b: seq<Step>)
    ensures MarksAfter(m, a + b) == MarksAfter(MarksAfter(m, a), b)
    decreases |b|
  {
    if b == [] {
      assert a + b == a;
    } else {
      var n := |b| - 1;
      MarksJoined(m, a, b[..n]);
      assert (a + b)[..|a| + n] == a + b[..n] && (a + b)[|a| + n] == b[n];
    }
  }

  /** Every run moves the two rounds as its steps say: a checkpoint records the last round, and reopening
      goes back to the one recorded. */
  lemma {:induction false} RunMarks(s: Store, es: seq<Step>)
    requires LegalRun(s, es)
    ensures MarksOf(Run(s, es).tables) == MarksAfter(MarksOf(s.tables), es)
    decreases |es|
  {
    hide Possible, InOrder, GcAllows, Apply, MarksOf;
    if es == [] {
      assert MarksAfter(MarksOf(s.tables), es) == MarksOf(s.tables);
    } else {
      hide MarksAfter;
      StepMarks(s, es[0]);
      RunMarks(Apply(s, es[0]), es[1..]);
      MarksJoined(MarksOf(s.tables), [es[0]], es[1..]);
      assert [es[0]] + es[1..] == es;
    }
  }

  predicate NoneEnds(es: seq<Step>) { forall i :: 0 <= i < |es| ==> !es[i].Snapshot? }

  predicate NoneReopens(es: seq<Step>) { forall i :: 0 <= i < |es| ==> !es[i].Reopened? }

  /** Without a snapshot or a reopening the last round stays. */
  lemma {:induction false} LastStays(m: Marks, es: seq<Step>)
    requires NoneEnds(es) && NoneReopens(es)
    ensures MarksAfter(m, es).last == m.last
  {
    if es != [] { LastStays(m, es[..|es| - 1]); }
  }

  /** Once both are the same and no round ends, both stay. */
  lemma {:induction false} MarksStay(m: Marks, es: seq<Step>)
    requires NoneEnds(es) && m.last == m.checkpointed
    ensures MarksAfter(m, es) == m
  {
    if es != [] { MarksStay(m, es[..|es| - 1]); }
  }

  /** On a safe store whose last round is the checkpointed one, reopening is legal and changes no table and
      nothing that is read. */
  lemma ReopenIdle(s: Store)
    requires Safe(s.tables) && s.tables.last == s.tables.checkpointed
    ensures Legal(s, Reopened)
    ensures Apply(s, Reopened).tables == s.tables && Abs(Apply(s, Reopened)) == Abs(s)
  {
    assert NoneLater(s.tables, s.tables.last);
  }

  /** Reopening right after a checkpoint is always legal, and the store is as it was. */
  lemma CheckpointThenReopen(s: Store)
    requires Safe(s.tables)
    ensures var u := Apply(s, Checkpointed);
      && Legal(u, Reopened)
      && Apply(u, Reopened).tables == u.tables && u.tables.last == s.tables.last
      && Abs(Apply(u, Reopened)) == Abs(s)
  {
    hide Safe;
    StepExact(s, Checkpointed);
    ReopenIdle(Apply(s, Checkpointed));
  }

  /** So over every legal run: if no round ends after its last checkpoint, reopening is legal, changes
      nothing, and the last round is that of the last snapshot before the checkpoint. */
  lemma ReopenRestores(s: Store, before: seq<Step>, round: nat, between: seq<Step>, after: seq<Step>)
    requires Safe(s.tables) && NoneEnds(between) && NoneReopens(between) && NoneEnds(after)
    requires LegalRun(s, before + [Snapshot(round)] + between + [Checkpointed] + after)
    ensures var u := Run(s, before + [Snapshot(round)] + between + [Checkpointed] + after);
      && u.tables.last == u.tables.checkpointed == round
      && Legal(u, Reopened)
      && Apply(u, Reopened).tables == u.tables && Abs(Apply(u, Reopened)) == Abs(u)
  {
    hide Safe, LegalRun, Legal, Run, Apply, Abs, MarksAfter;
    var es := before + [Snapshot(round)] + between + [Checkpointed] + after;
    var m := MarksOf(s.tables);
    RunRefines(s, es);
    RunMarks(s, es);
    SnapshotMarks(m, before, round);
    MarksJoined(m, before + [Snapshot(round)], between);
    LastStays(MarksAfter(m, before + [Snapshot(round)]), between);
    CheckpointMarks(m, before + [Snapshot(round)] + between);
    MarksJoined(m, before + [Snapshot(round)] + between + [Checkpointed], after);
    MarksStay(MarksAfter(m, before + [Snapshot(round)] + between + [Checkpointed]), after);
    ReopenIdle(Run(s, es));
  }

  lemma SnapshotMarks(m: Marks, es: seq<Step>, round: nat)
    ensures MarksAfter(m, es + [Snapshot(round)]).last == round
  {
  }

  lemma CheckpointMarks(m: Marks, es: seq<Step>)
    ensures var u := MarksAfter(m, es + [Checkpointed]);
      u.last == u.checkpointed == MarksAfter(m, es).last
  {
    assert (es + [Checkpointed])[..|es|] == es;
  }
}
