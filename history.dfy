/** The value-level meaning of one per-workflow run queue: the ordered sequence
    of entries a LimitedSortedQueue holds, and what each of its operations does
    to that sequence. The imperative queue in module Queue is proved against
    these functions. */
module History {

  datatype Option<T> = None | Some(value: T)

  /** The part of a WorkflowRun's spec that names its Workflow. */
  datatype ObjectRef = ObjectRef(namespace: string, name: string)

  /** The fields of a WorkflowRun that the run history reads. `created` is the
      creation timestamp in Unix seconds. */
  datatype WorkflowRun = WorkflowRun(name: string, namespace: string, created: int, workflowRef: ObjectRef)

  /** One queued run: the abstract value of a queue node. Time is in seconds. */
  datatype Entry = Entry(name: string, namespace: string, created: int, refresh: int)

  /** What a delete request names: a WorkflowRun in a namespace. */
  datatype RunRef = RunRef(namespace: string, name: string)

  /** The controller's resync period (five minutes by default). */
  const ResyncPeriodSeconds: int := 300

  predicate SameRun(e: Entry, namespace: string, name: string)
  {
    e.namespace == namespace && e.name == name
  }

  /** `a` may stand before `b` in a sorted queue. */
  predicate Precedes(a: Entry, b: Entry)
  {
    a.created <= b.created
  }

  /** `a` and `b` are entries of two different runs. */
  predicate Differ(a: Entry, b: Entry)
  {
    !SameRun(b, a.namespace, a.name)
  }

  /** Non-decreasing by creation time. */
  ghost predicate Sorted(s: seq<Entry>)
  {
    forall i, j {:trigger Precedes(s[i], s[j])} :: 0 <= i < j < |s| ==> Precedes(s[i], s[j])
  }

  /** At most one entry per (namespace, name). */
  ghost predicate Unique(s: seq<Entry>)
  {
    forall i, j {:trigger Differ(s[i], s[j])} :: 0 <= i < j < |s| ==> Differ(s[i], s[j])
  }

  ghost predicate Good(s: seq<Entry>)
  {
    Sorted(s) && Unique(s)
  }

  /** Index of the first entry for (namespace, name), if any. */
  function FindRun(s: seq<Entry>, namespace: string, name: string): (r: Option<nat>)
    ensures r.Some? ==> r.value < |s| && SameRun(s[r.value], namespace, name)
    ensures r.Some? ==> forall j :: 0 <= j < r.value ==> !SameRun(s[j], namespace, name)
    ensures r.None? <==> forall j :: 0 <= j < |s| ==> !SameRun(s[j], namespace, name)
  {
    if s == [] then None
    else if SameRun(s[0], namespace, name) then Some(0)
    else match FindRun(s[1..], namespace, name)
      case None => None
      case Some(i) => Some(i + 1)
  }

  /** The queue after refreshing (namespace, name) at time `now`: only the
      refresh time of the first match changes, and nothing changes when the
      run is absent. */
  function RefreshRun(s: seq<Entry>, namespace: string, name: string, now: int): (r: seq<Entry>)
    ensures |r| == |s|
    ensures FindRun(s, namespace, name).None? ==> r == s
    ensures forall j :: 0 <= j < |s| ==> r[j].(refresh := s[j].refresh) == s[j]
    ensures forall j :: 0 <= j < |s| ==>
      r[j].refresh == if FindRun(s, namespace, name) == Some(j) then now else s[j].refresh
  {
    match FindRun(s, namespace, name)
    case None => s
    case Some(i) => s[i := s[i].(refresh := now)]
  }

  /** Index of the first entry created at or after `created`; |s| if none. */
  function InsertPosition(s: seq<Entry>, created: int): (p: nat)
    ensures p <= |s|
    ensures forall j :: 0 <= j < p ==> s[j].created < created
    ensures p < |s| ==> s[p].created >= created
  {
    if s == [] || s[0].created >= created then 0
    else 1 + InsertPosition(s[1..], created)
  }

  function Insert(s: seq<Entry>, e: Entry): seq<Entry>
  {
    var p := InsertPosition(s, e.created);
    s[..p] + [e] + s[p..]
  }

  function NewEntry(run: WorkflowRun, now: int): Entry
  {
    Entry(run.name, run.namespace, run.created, now)
  }

  /** The queue after PushOrRefresh of `run` at time `now`. */
  function PushOrRefresh(s: seq<Entry>, run: WorkflowRun, now: int): seq<Entry>
  {
    if FindRun(s, run.namespace, run.name).Some? then RefreshRun(s, run.namespace, run.name, now)
    else Insert(s, NewEntry(run, now))
  }

  /** An entry is stale once twice the resync period has passed, strictly,
      since its last refresh. */
  predicate Stale(e: Entry, now: int)
  {
    e.refresh + 2 * ResyncPeriodSeconds < now
  }

  /** The queue after a scan at time `now`: stale entries removed. */
  function Sweep(s: seq<Entry>, now: int): seq<Entry>
  {
    if s == [] then []
    else
      var rest := Sweep(s[..|s| - 1], now);
      if Stale(s[|s| - 1], now) then rest else rest + [s[|s| - 1]]
  }

  /** The entries that remain after evicting the oldest down to `max`. */
  function Retained(s: seq<Entry>, max: nat): seq<Entry>
  {
    if |s| > max then s[|s| - max..] else s
  }

  /** The entries evicted, oldest first, when trimming down to `max`. */
  function Evicted(s: seq<Entry>, max: nat): seq<Entry>
  {
    if |s| > max then s[..|s| - max] else []
  }

  function RefsOf(s: seq<Entry>): (r: seq<RunRef>)
    ensures |r| == |s|
    ensures forall i :: 0 <= i < |s| ==> r[i] == RunRef(s[i].namespace, s[i].name)
  {
    if s == [] then [] else [RunRef(s[0].namespace, s[0].name)] + RefsOf(s[1..])
  }

  /** Extending an evicted prefix by one entry logs that entry's reference. */
  lemma {:induction false} RefsOfAppend(s: seq<Entry>, d: nat)
    requires d < |s|
    ensures RefsOf(s[..d + 1]) == RefsOf(s[..d]) + [RunRef(s[d].namespace, s[d].name)]
  {
    if d > 0 {
      RefsOfAppend(s[1..], d - 1);
      assert s[1..][..d] == s[..d + 1][1..];
      assert s[1..][..d - 1] == s[..d][1..];
    }
  }

  // ---------------------------------------------------------------- Refresh

  /** Changing one entry's refresh time keeps the queue sorted and free of
      duplicates. */
  lemma SetRefreshGood(s: seq<Entry>, i: nat, now: int)
    requires Good(s) && i < |s|
    ensures Good(s[i := s[i].(refresh := now)])
  {
    var r := s[i := s[i].(refresh := now)];
    forall a, b | 0 <= a < b < |r| ensures Precedes(r[a], r[b]) && Differ(r[a], r[b]) {
      assert Precedes(s[a], s[b]) && Differ(s[a], s[b]);
    }
  }

  lemma RefreshRunGood(s: seq<Entry>, namespace: string, name: string, now: int)
    requires Good(s)
    ensures Good(RefreshRun(s, namespace, name, now))
  {
    if FindRun(s, namespace, name).Some? {
      SetRefreshGood(s, FindRun(s, namespace, name).value, now);
    }
  }

  // ----------------------------------------------------------------- Insert

  /** Insertion places the new entry after every entry created strictly
      earlier, so a new run with the same creation time as queued ones goes
      ahead of them; the other entries keep their order. */
  lemma {:induction false} InsertShape(s: seq<Entry>, e: Entry)
    requires Sorted(s)
    ensures var p := InsertPosition(s, e.created); var r := Insert(s, e);
      |r| == |s| + 1 && r[p] == e &&
      (forall j :: 0 <= j < p ==> r[j] == s[j] && r[j].created < e.created) &&
      (forall j :: p < j < |r| ==> r[j] == s[j - 1] && r[j].created >= e.created)
  {
    var p := InsertPosition(s, e.created);
    var r := Insert(s, e);
    forall j | p < j < |r| ensures r[j] == s[j - 1] && r[j].created >= e.created {
      assert r[j] == s[j - 1];
      if p < j - 1 {
        assert Precedes(s[p], s[j - 1]);
      }
    }
  }

  /** Insertion keeps the queue sorted. */
  lemma {:induction false} InsertSorted(s: seq<Entry>, e: Entry)
    requires Sorted(s)
    ensures Sorted(Insert(s, e))
  {
    var p := InsertPosition(s, e.created);
    var r := Insert(s, e);
    InsertShape(s, e);
    forall i, j | 0 <= i < j < |r| ensures Precedes(r[i], r[j]) {
      if j < p {
        assert Precedes(s[i], s[j]);
      } else if i > p {
        assert Precedes(s[i - 1], s[j - 1]);
      }
    }
  }

  lemma InsertMultiset(s: seq<Entry>, e: Entry)
    ensures multiset(Insert(s, e)) == multiset(s) + multiset{e}
  {
    var p := InsertPosition(s, e.created);
    assert s == s[..p] + s[p..];
  }

  lemma {:induction false} InsertUnique(s: seq<Entry>, e: Entry)
    requires Unique(s)
    requires FindRun(s, e.namespace, e.name).None?
    ensures Unique(Insert(s, e))
  {
    var p := InsertPosition(s, e.created);
    var r := Insert(s, e);
    assert |r| == |s| + 1;
    assert forall j :: 0 <= j < p ==> r[j] == s[j];
    assert r[p] == e;
    assert forall j :: p < j < |r| ==> r[j] == s[j - 1];
    forall i, j | 0 <= i < j < |r| ensures Differ(r[i], r[j]) {
      if i == p {
        assert r[j] == s[j - 1];
      } else if j == p {
        assert r[i] == s[i];
      } else {
        var i' := if i < p then i else i - 1;
        var j' := if j < p then j else j - 1;
        assert r[i] == s[i'] && r[j] == s[j'] && i' < j';
        assert Differ(s[i'], s[j']);
      }
    }
  }

  /** Inserting a run that is not queued keeps the queue sorted and free of
      duplicates. */
  lemma InsertGood(s: seq<Entry>, e: Entry)
    requires Good(s) && FindRun(s, e.namespace, e.name).None?
    ensures Good(Insert(s, e))
  {
    InsertSorted(s, e);
    InsertUnique(s, e);
  }

  // ---------------------------------------------------------- PushOrRefresh

  lemma {:induction false} PushOrRefreshGood(s: seq<Entry>, run: WorkflowRun, now: int)
    requires Good(s)
    ensures Good(PushOrRefresh(s, run, now))
  {
    if FindRun(s, run.namespace, run.name).Some? {
      RefreshRunGood(s, run.namespace, run.name, now);
    } else {
      InsertSorted(s, NewEntry(run, now));
      InsertUnique(s, NewEntry(run, now));
    }
  }

  /** A run already queued is only refreshed: size, order, creation times and
      identities stay as they were. */
  lemma {:induction false} PushOrRefreshExisting(s: seq<Entry>, run: WorkflowRun, now: int)
    requires exists j :: 0 <= j < |s| && SameRun(s[j], run.namespace, run.name)
    ensures var r := PushOrRefresh(s, run, now);
      |r| == |s| &&
      forall j :: 0 <= j < |s| ==> r[j].(refresh := s[j].refresh) == s[j]
  {
  }

  /** A run not yet queued is inserted exactly once, the rest kept. */
  lemma {:induction false} PushOrRefreshNew(s: seq<Entry>, run: WorkflowRun, now: int)
    requires forall j :: 0 <= j < |s| ==> !SameRun(s[j], run.namespace, run.name)
    ensures var r := PushOrRefresh(s, run, now);
      |r| == |s| + 1 &&
      multiset(r) == multiset(s) + multiset{NewEntry(run, now)}
  {
    InsertMultiset(s, NewEntry(run, now));
  }

  /** Adding the same run twice at the same time is the same as adding it once. */
  lemma {:induction false} PushOrRefreshIdempotent(s: seq<Entry>, run: WorkflowRun, now: int)
    ensures PushOrRefresh(PushOrRefresh(s, run, now), run, now) == PushOrRefresh(s, run, now)
  {
    var ns, n := run.namespace, run.name;
    var r := PushOrRefresh(s, run, now);
    match FindRun(s, ns, n)
    case Some(i) =>
      assert FindRun(r, ns, n) == Some(i);
      assert r[i].refresh == now;
      assert RefreshRun(r, ns, n, now) == r[i := r[i].(refresh := now)];
      assert r[i := r[i].(refresh := now)] == r;
    case None =>
      var p := InsertPosition(s, run.created);
      assert r[p] == NewEntry(run, now);
      assert forall j :: 0 <= j < p ==> r[j] == s[j];
      assert FindRun(r, ns, n) == Some(p);
      assert r[p := r[p].(refresh := now)] == r;
  }

  // ------------------------------------------------------------------ Sweep

  /** The scan keeps exactly the entries that are not stale. */
  lemma {:induction false} SweepMembers(s: seq<Entry>, now: int)
    ensures forall e :: e in Sweep(s, now) <==> e in s && !Stale(e, now)
  {
    if s != [] {
      SweepMembers(s[..|s| - 1], now);
      assert s == s[..|s| - 1] + [s[|s| - 1]];
    }
  }

  /** A scan never lengthens a queue. */
  lemma {:induction false} SweepShorter(s: seq<Entry>, now: int)
    ensures |Sweep(s, now)| <= |s|
  {
    if s != [] {
      SweepShorter(s[..|s| - 1], now);
    }
  }

  /** Sweeping a concatenation sweeps each part: survivors keep their order. */
  lemma {:induction false} SweepAppend(a: seq<Entry>, b: seq<Entry>, now: int)
    ensures Sweep(a + b, now) == Sweep(a, now) + Sweep(b, now)
  {
    if b != [] {
      var b' := b[..|b| - 1];
      assert (a + b)[..|a + b| - 1] == a + b';
      assert (a + b)[|a + b| - 1] == b[|b| - 1];
      SweepAppend(a, b', now);
    } else {
      assert a + b == a;
    }
  }

  /** One step of a front-to-back scan: the next entry is dropped when stale
      and kept otherwise. */
  lemma SweepStep(s: seq<Entry>, k: nat, now: int)
    requires k < |s|
    ensures Sweep(s[..k + 1], now) == Sweep(s[..k], now) + (if Stale(s[k], now) then [] else [s[k]])
  {
    assert s[..k + 1][..k] == s[..k];
  }

  /** Removing an entry from a sorted, duplicate-free queue keeps it so. */
  lemma RemoveAtGood(s: seq<Entry>, i: nat)
    requires i < |s| && Good(s)
    ensures Good(s[..i] + s[i + 1..])
  {
    var r := s[..i] + s[i + 1..];
    forall a, b | 0 <= a < b < |r| ensures Precedes(r[a], r[b]) && Differ(r[a], r[b]) {
      var a' := if a < i then a else a + 1;
      var b' := if b < i then b else b + 1;
      assert r[a] == s[a'] && r[b] == s[b'];
      assert Precedes(s[a'], s[b']) && Differ(s[a'], s[b']);
    }
  }

  lemma {:induction false} SweepGood(s: seq<Entry>, now: int)
    requires Good(s)
    ensures Good(Sweep(s, now))
  {
    if s != [] {
      var init := s[..|s| - 1];
      var last := s[|s| - 1];
      PrefixGood(s, |s| - 1);
      SweepGood(init, now);
      SweepMembers(init, now);
      if !Stale(last, now) {
        var rest := Sweep(init, now);
        var r := rest + [last];
        forall a, b | 0 <= a < b < |r| ensures Precedes(r[a], r[b]) && Differ(r[a], r[b]) {
          if b == |r| - 1 {
            assert r[a] in init;
            var k :| 0 <= k < |init| && init[k] == r[a];
            assert s[k] == r[a] && s[|s| - 1] == last == r[b];
            assert Precedes(s[k], s[|s| - 1]) && Differ(s[k], s[|s| - 1]);
          } else {
            assert r[a] == rest[a] && r[b] == rest[b];
            assert Precedes(rest[a], rest[b]) && Differ(rest[a], rest[b]);
          }
        }
      }
    }
  }

  lemma PrefixGood(s: seq<Entry>, n: nat)
    requires Good(s) && n <= |s|
    ensures Good(s[..n])
  {
    var r := s[..n];
    forall a, b | 0 <= a < b < |r| ensures Precedes(r[a], r[b]) && Differ(r[a], r[b]) {
      assert Precedes(s[a], s[b]) && Differ(s[a], s[b]);
    }
  }

  /** Scanning twice at the same time removes nothing more. */
  lemma {:induction false} SweepIdempotent(s: seq<Entry>, now: int)
    ensures Sweep(Sweep(s, now), now) == Sweep(s, now)
  {
    if s != [] {
      var init := s[..|s| - 1];
      var last := s[|s| - 1];
      SweepIdempotent(init, now);
      if !Stale(last, now) {
        SweepAppend(Sweep(init, now), [last], now);
        assert Sweep([last], now) == [last] by {
          assert [last][..0] == [];
        }
      }
    }
  }

  // --------------------------------------------------------------- Eviction

  /** Trimming to `max` keeps the newest `max` entries and evicts the rest,
      oldest first; in a sorted queue no evicted entry is newer than a kept one. */
  lemma EvictionSplit(s: seq<Entry>, max: nat)
    ensures Evicted(s, max) + Retained(s, max) == s
    ensures |Retained(s, max)| == if |s| > max then max else |s|
    ensures Sorted(s) ==> forall i, j :: 0 <= i < |Evicted(s, max)| && 0 <= j < |Retained(s, max)| ==>
      Precedes(Evicted(s, max)[i], Retained(s, max)[j])
  {
    if |s| > max && Sorted(s) {
      var d := |s| - max;
      forall i, j | 0 <= i < |Evicted(s, max)| && 0 <= j < |Retained(s, max)|
        ensures Precedes(Evicted(s, max)[i], Retained(s, max)[j])
      {
        assert Evicted(s, max)[i] == s[i] && Retained(s, max)[j] == s[d + j];
        assert Precedes(s[i], s[d + j]);
      }
    }
  }

  /** What an eviction keeps is still sorted and free of duplicates. */
  lemma RetainedGood(s: seq<Entry>, max: nat)
    requires Good(s)
    ensures Good(Retained(s, max))
  {
    if |s| > max {
      var d := |s| - max;
      var r := Retained(s, max);
      forall a, b | 0 <= a < b < |r| ensures Precedes(r[a], r[b]) && Differ(r[a], r[b]) {
        assert r[a] == s[d + a] && r[b] == s[d + b];
        assert Precedes(s[d + a], s[d + b]) && Differ(s[d + a], s[d + b]);
      }
    }
  }
}
