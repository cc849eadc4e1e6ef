# Cyclone WorkflowRun history limits and overall status

A model of two parts of the Cyclone workflow controller.

1. **Workflow run history limits.** `LimitedQueues` keeps one `LimitedSortedQueue` per Workflow. The key is `"<namespace>/<name>"` of the Workflow the run belongs to.
   - Each queue is a singly linked list with a sentinel head node. Its nodes are sorted by the runs' creation time.
   - Adding a run already queued only updates its refresh time. Adding a new run links in a new node at its sorted place.
   - After each add, the oldest runs are popped until the queue holds at most `MaxQueueSize`, and a Delete request is sent for each popped run.
   - A periodic scan drops every node whose refresh time is more than twice the resync period (2 × 300 s) in the past. Such a run was deleted from the cluster without the controller noticing.
2. **Overall status.** The phase of a WorkflowRun is aggregated from the phases of its stages.

Modules:

- `History` (history.dfy) is the value-level meaning of one queue. It is the sequence of entries, oldest first, plus one function per queue operation. It also holds the lemmas about those functions: they keep the queue sorted and free of duplicates, refreshing is idempotent, eviction splits a queue into the oldest and the retained runs, and the scan is idempotent and keeps exactly the non-stale entries.
- `Queue` (queue.dfy) is the imperative linked list, `Node` and `LimitedSortedQueue`, with sentinel, `next` pointers and in-place updates. It carries a ghost `Spine` (the nodes in list order) and `Contents` (their entries). Each method is proved to change `Contents` exactly as its `History` function says. `ScanQueue` is the scan of one queue.
- `Queues` (queues.dfy) is the `key` function and the `LimitedQueues` class. The class holds a map from key to queue. A ghost log `DeleteRequests` records every Delete request sent.
- `Status` (status.dfy) is the overall-phase aggregation.

The wall clock is the parameter `now`, in seconds, of every operation that reads it.

## Model

| member | source | states |
|---|---|---|
| History.FindRun | pkg/workflow/workflowrun/limits.go:199-204 | The search loop of Refresh. It yields the index of the first entry with the run's namespace and name, and none exactly when no entry matches. |
| History.RefreshRun | pkg/workflow/workflowrun/limits.go:198-211 | Refreshing keeps the length and every entry's name, namespace and creation time. Only the first match gets refresh time `now`. An absent run leaves the queue unchanged. |
| History.InsertPosition | pkg/workflow/workflowrun/limits.go:186-189 | The insertion place is after every entry created strictly earlier, and before the first entry created at the same time or later. |
| History.RefsOf | pkg/workflow/workflowrun/limits.go:74 | The Delete requests for a list of entries name each entry's namespace and name, in order. |
| History.RefsOfAppend | pkg/workflow/workflowrun/limits.go:71-80 | Popping one more entry appends exactly its request to the requests already sent. |
| History.SetRefreshGood | pkg/workflow/workflowrun/limits.go:206 | Setting one entry's refresh time keeps the queue sorted and duplicate-free. |
| History.RefreshRunGood | pkg/workflow/workflowrun/limits.go:198-211 | Refresh keeps the queue sorted and duplicate-free. |
| History.InsertShape | pkg/workflow/workflowrun/limits.go:186-193 | Inserting into a sorted queue keeps the earlier-created entries before the new one and the others after it, each in its old order. |
| History.InsertSorted | pkg/workflow/workflowrun/limits.go:168-193 | Inserting into a sorted queue keeps it sorted by creation time. |
| History.InsertMultiset | pkg/workflow/workflowrun/limits.go:191-193 | Inserting adds exactly the new entry and loses none. |
| History.InsertUnique | pkg/workflow/workflowrun/limits.go:182-193 | Inserting a run the queue does not hold keeps every run at most once. |
| History.InsertGood | pkg/workflow/workflowrun/limits.go:182-193 | Inserting an absent run keeps the queue sorted and duplicate-free. |
| History.PushOrRefreshGood | pkg/workflow/workflowrun/limits.go:171-194 | PushOrRefresh keeps the queue sorted and duplicate-free. |
| History.PushOrRefreshExisting | pkg/workflow/workflowrun/limits.go:182-184 | For a run already queued, PushOrRefresh changes only refresh times. Size, order, names and creation times stay. |
| History.PushOrRefreshNew | pkg/workflow/workflowrun/limits.go:186-193 | For a run not queued, PushOrRefresh grows the queue by one and adds exactly the run's new entry. |
| History.PushOrRefreshIdempotent | pkg/workflow/workflowrun/limits.go:171-194 | Pushing the same run twice at the same time gives the same queue as pushing it once, for every queue. |
| History.SweepMembers | pkg/workflow/workflowrun/limits.go:97-115 | After a scan, an entry is present exactly when it was present before and is not stale. |
| History.SweepShorter | pkg/workflow/workflowrun/limits.go:97-115 | A scan never lengthens a queue. |
| History.SweepAppend | pkg/workflow/workflowrun/limits.go:101-114 | The scan treats each node on its own: scanning a concatenation is concatenating the scans. |
| History.SweepStep | pkg/workflow/workflowrun/limits.go:106-113 | One iteration of the scan loop drops the next node if it is stale and keeps it otherwise. Stale means the refresh time plus twice the resync period is strictly before `now`. |
| History.RemoveAtGood | pkg/workflow/workflowrun/limits.go:108 | Unlinking one node keeps the queue sorted and duplicate-free. |
| History.SweepGood | pkg/workflow/workflowrun/limits.go:97-115 | A scan keeps the queue sorted and duplicate-free. |
| History.PrefixGood | pkg/workflow/workflowrun/limits.go:101-114 | Every prefix of a sorted, duplicate-free queue is sorted and duplicate-free. |
| History.SweepIdempotent | pkg/workflow/workflowrun/limits.go:97-115 | Scanning twice at the same time is scanning once. |
| History.EvictionSplit | pkg/workflow/workflowrun/limits.go:71-80 | Trimming splits the queue into the evicted prefix and the retained suffix. At most `max` entries are retained. In a sorted queue every evicted run was created no later than every retained one. |
| History.RetainedGood | pkg/workflow/workflowrun/limits.go:71-80 | Trimming keeps the queue sorted and duplicate-free. |
| Queue.Node.constructor | pkg/workflow/workflowrun/limits.go:156-166 | A new node holds its run's entry and no successor. |
| Queue.SpliceIn | pkg/workflow/workflowrun/limits.go:191-192 | Linking a fresh node into the spine keeps the spine free of repeated nodes. |
| Queue.SpliceOut | pkg/workflow/workflowrun/limits.go:108 | Unlinking a node from the spine keeps the spine free of repeated nodes. |
| Queue.LimitedSortedQueue.NextOf | pkg/workflow/workflowrun/limits.go:117-132 | In a well-formed queue each node's `next` is the following spine node, or null after the last, and it holds the corresponding entry. |
| Queue.LimitedSortedQueue.constructor | pkg/workflow/workflowrun/limits.go:135-143 | NewQueue: a queue with the given key and max, size 0, only the sentinel, and no entries. |
| Queue.LimitedSortedQueue.Touch | pkg/workflow/workflowrun/limits.go:206 | Setting one node's refresh time changes that entry's refresh time and nothing else. |
| Queue.LimitedSortedQueue.LinkAfter | pkg/workflow/workflowrun/limits.go:191-193 | Linking a node after the i-th spine node inserts its entry at position i and increments the size. |
| Queue.LimitedSortedQueue.UnlinkAfter | pkg/workflow/workflowrun/limits.go:108-109 | Unlinking the node after the i-th spine node removes entry i, returns that node and decrements the size. |
| Queue.LimitedSortedQueue.Refresh | pkg/workflow/workflowrun/limits.go:198-211 | Returns true exactly when the queue holds the run. The new contents are RefreshRun of the old ones. |
| Queue.LimitedSortedQueue.InsertionPoint | pkg/workflow/workflowrun/limits.go:186-189 | The walk stops at the spine node whose index is InsertPosition of the new run's creation time. |
| Queue.LimitedSortedQueue.InsertNew | pkg/workflow/workflowrun/limits.go:186-193 | Linking in a node for an absent run makes the contents Insert of the old contents. |
| Queue.LimitedSortedQueue.PushOrRefresh | pkg/workflow/workflowrun/limits.go:171-194 | The new contents are History.PushOrRefresh of the old ones, and the queue stays well formed (sorted, duplicate-free, size equal to length). |
| Queue.LimitedSortedQueue.Pop | pkg/workflow/workflowrun/limits.go:214-226 | An empty queue gives null and stays unchanged. Otherwise Pop returns the first, oldest node and removes exactly that entry. |
| Queue.ScanQueue | pkg/workflow/workflowrun/limits.go:97-115 | scanQueue: the new contents are Sweep of the old ones, the stale entries dropped in order. The queue stays well formed. |
| Queues.Key | pkg/workflow/workflowrun/limits.go:42-44 | The key is the Workflow's namespace, then '/', then its name. |
| Queues.KeyInjective | pkg/workflow/workflowrun/limits.go:42-44 | When namespaces contain no '/', two runs share a key exactly when they belong to the same Workflow. |
| Queues.LimitedQueues.constructor | pkg/workflow/workflowrun/limits.go:31-40 | NewLimitedQueues: the given maximum, no queues, no Delete requests. |
| Queues.LimitedQueues.Refresh | pkg/workflow/workflowrun/limits.go:47-55 | The run's queue becomes RefreshRun of itself. A run with no queue and every other queue are unchanged. No queue is created. |
| Queues.LimitedQueues.QueueFor | pkg/workflow/workflowrun/limits.go:61-65 | The run's queue is found, or created empty and added to the map. No other queue changes. |
| Queues.LimitedQueues.AddOrRefresh | pkg/workflow/workflowrun/limits.go:57-81 | The run's queue becomes the last MaxQueueSize entries of PushOrRefresh of itself, which is at most MaxQueueSize. Delete requests are appended for the evicted oldest entries, in order. Other queues are unchanged. |
| Queues.LimitedQueues.Push | pkg/workflow/workflowrun/limits.go:67-69 | The run's queue becomes PushOrRefresh of itself. Other queues and the Delete log are unchanged. |
| Queues.LimitedQueues.Trim | pkg/workflow/workflowrun/limits.go:71-80 | The queue keeps its last MaxQueueSize entries. One Delete request per evicted entry is appended, oldest first. |
| Queues.LimitedQueues.ScanOne | pkg/workflow/workflowrun/limits.go:88-90 | One queue becomes Sweep of itself. Every other queue is unchanged. |
| Queues.LimitedQueues.ScanAll | pkg/workflow/workflowrun/limits.go:83-92 | One tick of AutoScan: every queue becomes Sweep of itself. No queue is added or removed, and no Delete request is sent. |
| Queues.PopOldest | pkg/workflow/workflowrun/limits.go:71-80 | The trim loop: pops while size exceeds the maximum, leaving Retained of the old contents. It returns the Delete requests for Evicted of the old contents, in pop order. |
| Status.OverallPhase | pkg/workflow/workflowrun/operator_test.go:14-145 | Pending exactly when no stage has a status. Succeeded exactly when all stages succeeded. Failed exactly when some stage failed and none is running. A running stage makes the run Running. |
| Status.PhaseOfValues | pkg/workflow/workflowrun/operator_test.go:14-145 | The overall phase depends only on which phases the stages have, not on the stage names. |
| Status.NoStages | pkg/workflow/workflowrun/operator_test.go:18-32 | A run with no stage status is Pending. |
| Status.SucceededAndPending | pkg/workflow/workflowrun/operator_test.go:46-69 | A succeeded and a pending stage: Running. |
| Status.AllSucceeded | pkg/workflow/workflowrun/operator_test.go:71-94 | Two succeeded stages: Succeeded. |
| Status.SucceededAndFailed | pkg/workflow/workflowrun/operator_test.go:96-119 | A succeeded and a failed stage: Failed. |
| Status.FailedAndRunning | pkg/workflow/workflowrun/operator_test.go:121-144 | A failed and a running stage: Running. |

## Left out

- Status.OverallPhase: the `OverallStatus` method (pkg/workflow/workflowrun/operator.go) is not part of this model. The rule is inferred as the simplest one that meets the five TestOverallStatus cases: no status is Pending; any Running is Running; else any Failed is Failed; else any Pending is Running; else Succeeded. The Workflow's own stage list, the other status fields and the returned error are not modelled. TestOverallStatus fixes a succeeded and a pending stage to Running (operator_test.go:52-69). The cases it leaves open, such as all stages Pending (the model gives Running), follow the inferred rule.
- Locking: the per-queue `sync.Mutex` and any concurrency between AutoScan and AddOrRefresh are not modelled. Each operation is one atomic step.
- AutoScan's hourly ticker and goroutine: ScanAll models one tick. The order in which the Go map is visited does not affect the result, because queues share no nodes.
- The Kubernetes client: a Delete request is recorded in the ghost log `DeleteRequests` instead of being sent. Its outcome (success, not found, other error) and the log lines do not change the in-memory state and are not modelled.
- The wall clock: `time.Now()` is the parameter `now`, in whole seconds. The Go scan reads the clock once per node; ScanQueue and ScanAll use one `now` for the whole pass.
- Fixed-width integers: `created` (int64 Unix seconds), `size` and `MaxQueueSize` are unbounded in the model. The durations `ResyncPeriodSeconds * time.Second * 2` cannot overflow at the default 300 s.
- Refresh time precision: `time.Time` is modelled as whole seconds.
- Queues.LimitedQueues.constructor: MaxQueueSize is a `nat`. With a negative maximum, the Go trim loop pops an empty queue, gets nil and dereferences it. That panic is not modelled.
- The node fields `wfr`, `namespace`, `created` and `refresh` are grouped into one `entry` value per node. The sentinel's entry is unused.
- `NewLimitedQueues` starting the AutoScan goroutine is not modelled. The constructor only builds the empty state.
- Ties in creation time: the walk at limits.go:187 stops at the first node with `created >= node.created`, so a new run goes before queued runs created in the same second (InsertShape).
- History.Stale: the resync period is the configured `controller.Config.ResyncPeriodSeconds` at limits.go:106; the model fixes it at its 300 s default as `ResyncPeriodSeconds`. No lemma depends on the value.
- QueueFor, Push, Trim, ScanOne, PopOldest, InsertionPoint, InsertNew, Touch, LinkAfter and UnlinkAfter are steps of the Go functions cited beside them, split out so each proof stays small.
