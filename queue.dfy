/** A LimitedSortedQueue: the run history of one Workflow, a singly linked list
    of nodes behind a sentinel node, sorted by creation time. */
module Queue {
  import opened History

  /** One WorkflowRun in a queue, with the link to the next node. The run's
      name, namespace, creation time and refresh time are kept together in
      `entry`. */
  class Node {
    var next: Node?
    var entry: Entry

    constructor (entry: Entry)
      ensures next == null && this.entry == entry
    {
      this.next := null;
      this.entry := entry;
    }
  }

  /** No node occurs twice. */
  ghost predicate Distinct(s: seq<Node>)
  {
    forall a, b :: 0 <= a < b < |s| ==> s[a] != s[b]
  }

  /** Linking a node that is not yet in the list in after position i. */
  lemma SpliceIn(s: seq<Node>, i: nat, node: Node)
    requires i < |s| && Distinct(s) && node !in s
    ensures var r := s[..i + 1] + [node] + s[i + 1..];
      |r| == |s| + 1 && r[i + 1] == node && Distinct(r) &&
      (forall a :: 0 <= a <= i ==> r[a] == s[a]) &&
      (forall a :: i + 1 < a < |r| ==> r[a] == s[a - 1])
  {
    var r := s[..i + 1] + [node] + s[i + 1..];
    forall a, b | 0 <= a < b < |r| ensures r[a] != r[b] {
      var a' := if a <= i then a else a - 1;
      var b' := if b <= i then b else b - 1;
      if a != i + 1 && b != i + 1 {
        assert r[a] == s[a'] && r[b] == s[b'] && a' < b';
      } else if a == i + 1 {
        assert r[b] == s[b'];
      } else {
        assert r[a] == s[a'];
      }
    }
  }

  /** Unlinking the node after position i. */
  lemma SpliceOut(s: seq<Node>, i: nat)
    requires i + 1 < |s| && Distinct(s)
    ensures var r := s[..i + 1] + s[i + 2..];
      |r| == |s| - 1 && Distinct(r) &&
      (forall a :: 0 <= a <= i ==> r[a] == s[a]) &&
      (forall a :: i < a < |r| ==> r[a] == s[a + 1])
  {
    var r := s[..i + 1] + s[i + 2..];
    forall a, b | 0 <= a < b < |r| ensures r[a] != r[b] {
      var a' := if a <= i then a else a + 1;
      var b' := if b <= i then b else b + 1;
      assert r[a] == s[a'] && r[b] == s[b'] && a' < b';
    }
  }

  class LimitedSortedQueue {
    const key: string
    const max: int
    var size: int
    /** The sentinel: never counted, never holds a run. */
    const head: Node

    /** The sentinel followed by the nodes of the list, in list order. */
    ghost var Spine: seq<Node>
    /** The entries of the nodes after the sentinel: the queue's abstract value. */
    ghost var Contents: seq<Entry>
    ghost var Repr: set<object>

    ghost predicate Valid()
      reads this, Repr
      ensures Valid() ==> this in Repr
    {
      this in Repr &&
      |Spine| == |Contents| + 1 && size == |Contents| && Spine[0] == head &&
      (forall i :: 0 <= i < |Spine| ==> Spine[i] in Repr) &&
      Distinct(Spine) &&
      Spine[|Spine| - 1].next == null &&
      (forall i {:trigger Spine[i].next} :: 0 <= i < |Spine| - 1 ==> Spine[i].next == Spine[i + 1]) &&
      (forall i {:trigger Spine[i].entry} :: 1 <= i < |Spine| ==> Spine[i].entry == Contents[i - 1]) &&
      Good(Contents)
    }

    /** The node after the i-th spine node: the next one, or null after the last. */
    lemma NextOf(i: nat)
      requires Valid() && i < |Spine|
      ensures Spine[i].next == (if i + 1 < |Spine| then Spine[i + 1] else null)
      ensures i + 1 < |Spine| ==> Spine[i].next.entry == Contents[i]
    {
      if i + 1 < |Spine| {
        assert Spine[i].next == Spine[i + 1];
      }
    }

    /** A new queue holds the sentinel only and has size 0. */
    constructor (key: string, max: int)
      ensures Valid() && fresh(Repr)
      ensures this.key == key && this.max == max
      ensures size == 0 && Contents == [] && Spine == [head]
    {
      var dummy := new Node(Entry("", "", 0, 0));
      this.key := key;
      this.max := max;
      size := 0;
      head := dummy;
      Spine := [dummy];
      Contents := [];
      Repr := {this, dummy};
    }

    /** Sets the refresh time of the run held by the node after the i-th
        spine node. */
    method Touch(t: Node, ghost i: nat, now: int)
      requires Valid() && i < |Contents| && t == Spine[i + 1]
      modifies this, t
      ensures Valid() && Repr == old(Repr) && Spine == old(Spine) && size == old(size)
      ensures Contents == old(Contents)[i := old(Contents)[i].(refresh := now)]
    {
      SetRefreshGood(Contents, i, now);
      ghost var S := Spine;
      ghost var C := Contents;
      t.entry := t.entry.(refresh := now);
      Contents := C[i := C[i].(refresh := now)];
      forall a | 0 <= a < |S| - 1 ensures S[a].next == S[a + 1] {
        assert old(S[a].next) == S[a + 1];
      }
      forall a | 0 <= a < |Contents| ensures S[a + 1].entry == Contents[a] {
        if a != i {
          assert S[a + 1] != S[i + 1];
          assert old(S[a + 1].entry) == C[a];
        }
      }
    }

    /** Links `node` in after the i-th spine node `p`. */
    method LinkAfter(p: Node, ghost i: nat, node: Node)
      requires Valid() && i < |Spine| && p == Spine[i] && node !in Repr
      requires Good(Contents[..i] + [node.entry] + Contents[i..])
      modifies this, p, node
      ensures Valid() && Repr == old(Repr) + {node} && node.entry == old(node.entry)
      ensures Spine == old(Spine[..i + 1]) + [node] + old(Spine[i + 1..])
      ensures Contents == old(Contents[..i]) + [node.entry] + old(Contents[i..])
    {
      ghost var S := Spine;
      ghost var C := Contents;
      NextOf(i);
      node.next := p.next;
      p.next := node;
      size := size + 1;
      Spine := S[..i + 1] + [node] + S[i + 1..];
      Contents := C[..i] + [node.entry] + C[i..];
      Repr := Repr + {node};

      assert node !in S;
      SpliceIn(S, i, node);
      forall a | 0 <= a < |Spine| - 1 ensures Spine[a].next == Spine[a + 1] {
        if a < i {
          assert S[a] != p && S[a] != node;
          assert old(S[a].next) == S[a + 1];
        } else if a == i + 1 {
          assert Spine[a + 1] == S[i + 1];
        } else if a > i + 1 {
          assert Spine[a] == S[a - 1] && Spine[a + 1] == S[a];
          assert S[a - 1] != p && S[a - 1] != node;
          assert old(S[a - 1].next) == S[a];
        }
      }
      if i + 1 < |S| {
        assert Spine[|Spine| - 1] == S[|S| - 1];
        assert S[|S| - 1] != p && S[|S| - 1] != node;
      }
      forall a | 0 <= a < |Contents| ensures Spine[a + 1].entry == Contents[a] {
        if a < i {
          assert Spine[a + 1] == S[a + 1] && Contents[a] == C[a];
        } else if a > i {
          assert Spine[a + 1] == S[a] && Contents[a] == C[a - 1];
        }
      }
    }

    /** Unlinks the node after the i-th spine node `p` and returns it. */
    method UnlinkAfter(p: Node, ghost i: nat) returns (n: Node)
      requires Valid() && i + 1 < |Spine| && p == Spine[i]
      requires Good(Contents[..i] + Contents[i + 1..])
      modifies this, p
      ensures Valid() && Repr == old(Repr) && n == old(Spine[i + 1]) && n.entry == old(Contents[i])
      ensures Spine == old(Spine[..i + 1]) + old(Spine[i + 2..])
      ensures Contents == old(Contents[..i]) + old(Contents[i + 1..])
    {
      ghost var S := Spine;
      ghost var C := Contents;
      NextOf(i);
      NextOf(i + 1);
      n := p.next;
      p.next := n.next;
      size := size - 1;
      Spine := S[..i + 1] + S[i + 2..];
      Contents := C[..i] + C[i + 1..];

      SpliceOut(S, i);
      forall a | 0 <= a < |Spine| ensures Spine[a] in Repr {
        assert Spine[a] == S[if a <= i then a else a + 1];
      }
      forall a | 0 <= a < |Spine| - 1 ensures Spine[a].next == Spine[a + 1] {
        if a < i {
          assert S[a] != p;
          assert old(S[a].next) == S[a + 1];
        } else if a > i {
          assert Spine[a] == S[a + 1] && Spine[a + 1] == S[a + 2];
          assert S[a + 1] != p;
          assert old(S[a + 1].next) == S[a + 2];
        }
      }
      if i + 2 < |S| {
        assert Spine[|Spine| - 1] == S[|S| - 1];
        assert S[|S| - 1] != p;
      }
      forall a | 0 <= a < |Contents| ensures Spine[a + 1].entry == Contents[a] {
        if a < i {
          assert Spine[a + 1] == S[a + 1] && Contents[a] == C[a];
        } else {
          assert Spine[a + 1] == S[a + 2] && Contents[a] == C[a + 1];
        }
      }
    }

    /** Sets the refresh time of the first node for the run's (namespace, name);
        reports whether there was one. */
    method Refresh(run: WorkflowRun, now: int) returns (found: bool)
      requires Valid()
      modifies Repr
      ensures Valid() && Repr == old(Repr) && Spine == old(Spine) && size == old(size)
      ensures found <==> exists j :: 0 <= j < |old(Contents)| && SameRun(old(Contents)[j], run.namespace, run.name)
      ensures Contents == RefreshRun(old(Contents), run.namespace, run.name, now)
    {
      var p := head;
      ghost var i := 0;
      while p.next != null && (p.next.entry.namespace != run.namespace || p.next.entry.name != run.name)
        modifies {}
        invariant 0 <= i < |Spine| && p == Spine[i]
        invariant forall j :: 0 <= j < i ==> !SameRun(Contents[j], run.namespace, run.name)
        decreases |Spine| - i
      {
        NextOf(i);
        p := p.next;
        i := i + 1;
      }
      NextOf(i);

      if p.next != null {
        assert FindRun(Contents, run.namespace, run.name) == Some(i);
        Touch(p.next, i, now);
        return true;
      }

      return false;
    }

    /** The last spine node whose successor is absent or created at or after
        `created`: the node a new run created at `created` is linked after. */
    method InsertionPoint(created: int) returns (p: Node, ghost i: nat)
      requires Valid()
      ensures i < |Spine| && p == Spine[i] && i == InsertPosition(Contents, created)
    {
      p := head;
      i := 0;
      while p.next != null && p.next.entry.created < created
        invariant 0 <= i < |Spine| && p == Spine[i]
        invariant forall j :: 0 <= j < i ==> Contents[j].created < created
        decreases |Spine| - i
      {
        NextOf(i);
        p := p.next;
        i := i + 1;
      }
      NextOf(i);
    }

    /** Refreshes the run if it is queued; otherwise inserts it before the
        first node created at or after it. */
    method PushOrRefresh(run: WorkflowRun, now: int)
      requires Valid()
      modifies Repr
      ensures Valid() && fresh(Repr - old(Repr))
      ensures Contents == History.PushOrRefresh(old(Contents), run, now)
    {
      var node := new Node(NewEntry(run, now));

      var found := Refresh(run, now);
      if found {
        return;
      }

      InsertNew(node);
    }

    /** The insertion half of PushOrRefresh: links `node`, whose run is not
        queued, in before the first node created at or after it. */
    method InsertNew(node: Node)
      requires Valid() && node !in Repr && FindRun(Contents, node.entry.namespace, node.entry.name).None?
      modifies Repr, node
      ensures Valid() && Repr == old(Repr) + {node}
      ensures Contents == Insert(old(Contents), old(node.entry))
    {
      var p, i := InsertionPoint(node.entry.created);
      InsertGood(Contents, node.entry);
      LinkAfter(p, i, node);
    }

    /** Removes and returns the oldest node; null, with no change, on an
        empty queue. */
    method Pop() returns (n: Node?)
      requires Valid()
      modifies this, head
      ensures Valid() && Repr == old(Repr)
      ensures old(size) <= 0 ==> n == null && Contents == old(Contents)
      ensures old(size) > 0 ==> n != null && n.entry == old(Contents)[0] && Contents == old(Contents)[1..]
      ensures n != null ==> forall j :: 0 <= j < |Contents| ==> n.entry.created <= Contents[j].created
    {
      if size <= 0 {
        return null;
      }

      RemoveAtGood(Contents, 0);
      assert Contents[..0] + Contents[1..] == Contents[1..];
      ghost var C := Contents;
      forall j | 0 <= j < |C| - 1 ensures C[0].created <= C[1..][j].created {
        assert Precedes(C[0], C[j + 1]);
      }
      n := UnlinkAfter(head, 0);
    }
  }

  /** Unlinks every node whose refresh time is more than twice the resync
      period before `now`. */
  method ScanQueue(q: LimitedSortedQueue, now: int)
    requires q.Valid()
    modifies q.Repr
    ensures q.Valid() && q.Repr == old(q.Repr)
    ensures q.Contents == Sweep(old(q.Contents), now)
  {
    ghost var orig := q.Contents;
    var h := q.head;
    ghost var i := 0;
    ghost var k := 0;
    while h.next != null
      invariant q.Valid() && q.Repr == old(q.Repr)
      invariant 0 <= i < |q.Spine| && h == q.Spine[i]
      invariant 0 <= k <= |orig|
      invariant q.Contents[..i] == Sweep(orig[..k], now)
      invariant q.Contents[i..] == orig[k..]
      decreases |q.Spine| - i
    {
      q.NextOf(i);
      ghost var C := q.Contents;
      assert C[i] == orig[k];
      SweepStep(orig, k, now);
      if h.next.entry.refresh + 2 * ResyncPeriodSeconds < now {
        RemoveAtGood(C, i);
        var _ := q.UnlinkAfter(h, i);
        assert q.Contents[..i] == C[..i];
        assert q.Contents[i..] == C[i + 1..];
      } else {
        assert C[..i + 1] == C[..i] + [C[i]];
        h := h.next;
        i := i + 1;
      }
      k := k + 1;
    }
    q.NextOf(i);
    assert k == |orig| && orig[..k] == orig;
  }
}
