/** LimitedQueues: one LimitedSortedQueue per Workflow, each trimmed to at most
    MaxQueueSize WorkflowRuns; the runs trimmed off the front are the ones the
    controller asks the cluster to delete. */
module Queues {
  import opened History
  import opened Queue

  /** The queue key of a run: its Workflow's namespace and name joined by '/'. */
  function Key(run: WorkflowRun): (k: string)
    ensures |k| == |run.workflowRef.namespace| + 1 + |run.workflowRef.name|
    ensures k[|run.workflowRef.namespace|] == '/'
    ensures k[..|run.workflowRef.namespace|] == run.workflowRef.namespace
    ensures k[|run.workflowRef.namespace| + 1..] == run.workflowRef.name
  {
    run.workflowRef.namespace + "/" + run.workflowRef.name
  }

  /** Runs of two different Workflows never share a queue, because a
      namespace cannot contain '/'. */
  lemma KeyInjective(a: WorkflowRun, b: WorkflowRun)
    requires '/' !in a.workflowRef.namespace && '/' !in b.workflowRef.namespace
    ensures Key(a) == Key(b) <==> a.workflowRef == b.workflowRef
  {
    if Key(a) == Key(b) {
      var na := a.workflowRef.namespace;
      var nb := b.workflowRef.namespace;
      if |na| != |nb| {
        assert false;
      }
    }
  }

  class LimitedQueues {
    /** The number of WorkflowRuns retained per Workflow. */
    const MaxQueueSize: nat
    var Queues: map<string, LimitedSortedQueue>
    /** The (namespace, name) of every WorkflowRun a Delete request was sent
        for, in the order they were sent. */
    ghost var DeleteRequests: seq<RunRef>
    ghost var Repr: set<object>

    /** The queue for key `k` is well formed, belongs to these queues, and
        shares no object with the queue of any other key. */
    ghost predicate QueueOk(k: string)
      reads this, Repr
    {
      k in Queues && Queues[k] in Repr && Queues[k].Repr <= Repr && this !in Queues[k].Repr &&
      Queues[k].Valid() && Queues[k].key == k && Queues[k].max == MaxQueueSize &&
      forall k' :: k' in Queues && k' != k ==>
        Queues[k'] in Repr && Queues[k'] !in Queues[k].Repr && Queues[k].Repr !! Queues[k'].Repr
    }

    ghost predicate Valid()
      reads this, Repr
    {
      forall k {:trigger QueueOk(k)} :: k in Queues ==> QueueOk(k)
    }

    /** The runs held for the Workflow with key `k`, oldest first; none when
        it has no queue. */
    ghost function RunsOf(k: string): seq<Entry>
      reads this, Queues.Values
    {
      if k in Queues then Queues[k].Contents else []
    }

    constructor (maxSize: nat)
      ensures Valid() && fresh(Repr)
      ensures MaxQueueSize == maxSize && Queues == map[] && DeleteRequests == []
    {
      MaxQueueSize := maxSize;
      Queues := map[];
      DeleteRequests := [];
      Repr := {};
    }

    /** Refreshes the run in its Workflow's queue; a run whose Workflow has no
        queue changes nothing. */
    method Refresh(run: WorkflowRun, now: int)
      requires Valid()
      modifies this, Repr
      ensures Valid() && Repr == old(Repr) && Queues == old(Queues) && DeleteRequests == old(DeleteRequests)
      ensures RunsOf(Key(run)) == RefreshRun(old(RunsOf(Key(run))), run.namespace, run.name, now)
      ensures forall k :: k != Key(run) ==> RunsOf(k) == old(RunsOf(k))
    {
      var k := Key(run);
      if k !in Queues {
        return;
      }
      var q := Queues[k];
      assert QueueOk(k);
      var _ := q.Refresh(run, now);
      forall k' | k' in Queues && k' != k
        ensures QueueOk(k') && Queues[k'].Repr == old(Queues[k'].Repr) && Queues[k'].Contents == old(Queues[k'].Contents)
      {
        assert old(QueueOk(k'));
      }
      assert QueueOk(k);
    }

    /** The queue for key `k`, created empty when there is none yet. */
    method QueueFor(k: string) returns (q: LimitedSortedQueue)
      requires Valid()
      modifies this
      ensures Valid() && fresh(Repr - old(Repr)) && DeleteRequests == old(DeleteRequests)
      ensures k in Queues && Queues[k] == q && Queues.Keys == old(Queues.Keys) + {k}
      ensures forall k' :: RunsOf(k') == old(RunsOf(k'))
    {
      if k in Queues {
        q := Queues[k];
        return;
      }
      q := new LimitedSortedQueue(k, MaxQueueSize);
      Queues := Queues[k := q];
      Repr := Repr + q.Repr;
      forall k' | k' in Queues && k' != k
        ensures QueueOk(k')
      {
        assert old(QueueOk(k'));
      }
      assert QueueOk(k);
    }

    /** Pushes or refreshes the run in its Workflow's queue, creating the queue
        if needed, then deletes the oldest runs until the queue is no longer
        than MaxQueueSize. */
    method AddOrRefresh(run: WorkflowRun, now: int)
      requires Valid()
      modifies this, Repr
      ensures Valid() && fresh(Repr - old(Repr)) && Queues.Keys == old(Queues.Keys) + {Key(run)}
      ensures var pushed := History.PushOrRefresh(old(RunsOf(Key(run))), run, now);
        RunsOf(Key(run)) == Retained(pushed, MaxQueueSize) &&
        DeleteRequests == old(DeleteRequests) + RefsOf(Evicted(pushed, MaxQueueSize))
      ensures forall k :: k != Key(run) ==> RunsOf(k) == old(RunsOf(k))
      ensures |RunsOf(Key(run))| <= MaxQueueSize
    {
      var k := Key(run);
      var q := QueueFor(k);
      Push(q, k, run, now);
      ghost var pushed := RunsOf(k);
      Trim(q, k);
      EvictionSplit(pushed, MaxQueueSize);
    }

    /** The pushing half of AddOrRefresh. */
    method Push(q: LimitedSortedQueue, k: string, run: WorkflowRun, now: int)
      requires Valid() && k in Queues && Queues[k] == q
      modifies this, Repr
      ensures Valid() && fresh(Repr - old(Repr)) && Queues == old(Queues) && DeleteRequests == old(DeleteRequests)
      ensures RunsOf(k) == History.PushOrRefresh(old(RunsOf(k)), run, now)
      ensures forall k' :: k' != k ==> RunsOf(k') == old(RunsOf(k'))
    {
      assert QueueOk(k);
      q.PushOrRefresh(run, now);
      Repr := Repr + q.Repr;
      forall k' | k' in Queues && k' != k
        ensures QueueOk(k') && Queues[k'].Repr == old(Queues[k'].Repr) && Queues[k'].Contents == old(Queues[k'].Contents)
      {
        assert old(QueueOk(k'));
      }
      assert QueueOk(k);
    }

    /** The trimming half of AddOrRefresh: pops the oldest runs of `q` until it
        holds at most MaxQueueSize, sending a Delete request for each. */
    method Trim(q: LimitedSortedQueue, k: string)
      requires Valid() && k in Queues && Queues[k] == q
      modifies this, Repr
      ensures Valid() && Repr == old(Repr) && Queues == old(Queues)
      ensures RunsOf(k) == Retained(old(RunsOf(k)), MaxQueueSize)
      ensures DeleteRequests == old(DeleteRequests) + RefsOf(Evicted(old(RunsOf(k)), MaxQueueSize))
      ensures forall k' :: k' != k ==> RunsOf(k') == old(RunsOf(k'))
    {
      assert QueueOk(k);
      var gone := PopOldest(q, MaxQueueSize);
      DeleteRequests := DeleteRequests + gone;
      forall k' | k' in Queues && k' != k
        ensures QueueOk(k') && Queues[k'].Repr == old(Queues[k'].Repr) && Queues[k'].Contents == old(Queues[k'].Contents)
      {
        assert old(QueueOk(k'));
      }
      assert QueueOk(k);
    }

    /** Drops the stale runs of the queue for key `k`. */
    method ScanOne(k: string, now: int)
      requires Valid() && k in Queues
      modifies this, Repr
      ensures Valid() && Repr == old(Repr) && Queues == old(Queues) && DeleteRequests == old(DeleteRequests)
      ensures forall k' :: RunsOf(k') == if k' == k then Sweep(old(RunsOf(k')), now) else old(RunsOf(k'))
    {
      var q := Queues[k];
      assert QueueOk(k);
      ScanQueue(q, now);
      forall k' | k' in Queues && k' != k
        ensures QueueOk(k') && Queues[k'].Repr == old(Queues[k'].Repr) && Queues[k'].Contents == old(Queues[k'].Contents)
      {
        assert old(QueueOk(k'));
      }
      assert QueueOk(k);
    }

    /** One pass of the periodic scan: every queue drops its stale runs. */
    method ScanAll(now: int)
      requires Valid()
      modifies this, Repr
      ensures Valid() && Repr == old(Repr) && Queues == old(Queues) && DeleteRequests == old(DeleteRequests)
      ensures forall k :: RunsOf(k) == Sweep(old(RunsOf(k)), now)
    {
      var remaining := Queues.Keys;
      while remaining != {}
        invariant Valid() && Repr == old(Repr) && Queues == old(Queues)
        invariant DeleteRequests == old(DeleteRequests)
        invariant remaining <= Queues.Keys
        invariant forall k :: RunsOf(k) == if k in remaining then old(RunsOf(k)) else Sweep(old(RunsOf(k)), now)
        decreases remaining
      {
        var k :| k in remaining;
        ScanOne(k, now);
        remaining := remaining - {k};
      }
    }
  }

  /** The trimming loop of AddOrRefresh: pops the oldest runs of `q` while it
      holds more than `max`, returning the (namespace, name) of each popped run
      in the order it was popped. */
  method PopOldest(q: LimitedSortedQueue, max: nat) returns (gone: seq<RunRef>)
    requires q.Valid()
    modifies q, q.head
    ensures q.Valid() && q.Repr == old(q.Repr)
    ensures q.Contents == Retained(old(q.Contents), max)
    ensures gone == RefsOf(Evicted(old(q.Contents), max))
  {
    ghost var all := q.Contents;
    ghost var d := 0;
    gone := [];
    while q.size > max
      invariant q.Valid() && q.Repr == old(q.Repr)
      invariant 0 <= d <= |all| && q.Contents == all[d..]
      invariant gone == RefsOf(all[..d])
      invariant |all| > max ==> d <= |all| - max
      invariant |all| <= max ==> d == 0
      decreases q.size
    {
      var n := q.Pop();
      RefsOfAppend(all, d);
      gone := gone + [RunRef(n.entry.namespace, n.entry.name)];
      d := d + 1;
    }
    assert all[..d] == Evicted(all, max);
  }
}
