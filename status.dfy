/** The overall phase of a WorkflowRun, aggregated from the phases of its
    stages.  Only the five input/output pairs of TestOverallStatus are known
    about the aggregation; the rule below is the simplest one that meets all
    five (see OverallPhase). */
module Status {
  datatype Phase = Pending | Running | Succeeded | Failed

  /** The overall phase of a run whose status records `stages` (stage name to
      phase).  Inferred rule: no stage status yet gives Pending; otherwise a
      running stage makes the run Running, else a failed stage makes it
      Failed, else a stage still pending (beside succeeded ones) keeps it
      Running, and only a run whose every stage succeeded is Succeeded. */
  function OverallPhase(stages: map<string, Phase>): (p: Phase)
    ensures p == Pending <==> stages == map[]
    ensures p == Succeeded <==> stages != map[] && forall s :: s in stages ==> stages[s] == Succeeded
    ensures p == Failed <==>
      (exists s :: s in stages && stages[s] == Failed) && !(exists s :: s in stages && stages[s] == Running)
    ensures (exists s :: s in stages && stages[s] == Running) ==> p == Running
  {
    if stages == map[] then Pending
    else if Running in stages.Values then Running
    else if Failed in stages.Values then Failed
    else if Pending in stages.Values then Running
    else
      assert forall s :: s in stages ==> stages[s] == Succeeded by {
        forall s | s in stages ensures stages[s] == Succeeded {
          assert stages[s] in stages.Values;
        }
      }
      Succeeded
  }

  /** The aggregation depends only on which phases occur, not on the stage
      names. */
  lemma PhaseOfValues(a: map<string, Phase>, b: map<string, Phase>)
    requires a.Values == b.Values
    ensures OverallPhase(a) == OverallPhase(b)
  {
  }

  /** A run with no stage status is Pending. */
  lemma NoStages()
    ensures OverallPhase(map[]) == Pending
  {
  }

  /** A succeeded and a pending stage: the run is still Running. */
  lemma SucceededAndPending()
    ensures OverallPhase(map["A" := Succeeded, "B" := Pending]) == Running
  {
    var m := map["A" := Succeeded, "B" := Pending];
    assert m["B"] == Pending;
  }

  /** Two succeeded stages: the run Succeeded. */
  lemma AllSucceeded()
    ensures OverallPhase(map["A" := Succeeded, "B" := Succeeded]) == Succeeded
  {
    var m := map["A" := Succeeded, "B" := Succeeded];
    assert "A" in m;
    assert forall s :: s in m ==> m[s] == Succeeded;
  }

  /** A succeeded and a failed stage: the run Failed. */
  lemma SucceededAndFailed()
    ensures OverallPhase(map["A" := Succeeded, "B" := Failed]) == Failed
  {
    var m := map["A" := Succeeded, "B" := Failed];
    assert m["B"] == Failed;
  }

  /** A failed and a running stage: Running takes precedence over Failed. */
  lemma FailedAndRunning()
    ensures OverallPhase(map["A" := Failed, "B" := Running]) == Running
  {
    var m := map["A" := Failed, "B" := Running];
    assert m["B"] == Running;
  }
}
