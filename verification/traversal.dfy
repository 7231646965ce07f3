/** The breadth-first scan over the parent relation that both
    `recalculate_tree` and `get_descendants` perform: a FIFO queue seeded
    with one id; each step pops the front id and appends the ids of its
    children, found by scanning the store in dict order.

    `Frontier` is the invariant both scans keep; `Step` shows that one
    dequeue-and-expand keeps it; `Complete` shows what it gives once the
    queue is empty. `Collect` is the scan of `get_descendants`.
 */
module Traversal {
  import opened Wrappers
  import opened EventTree

  /** The ids met so far: waiting in the queue or already popped. */
  ghost function Seen(queue: seq<Id>, done: seq<Id>): set<Id>
  {
    set v | v in queue + done
  }

  /** The state of a scan from `x`, with `done` the popped ids in order and
      `depth` giving, for every seen id, the number of parent links from it
      up to `x`. */
  ghost predicate Frontier(nodes: map<Id, Node>, x: Id, queue: seq<Id>, done: seq<Id>, depth: map<Id, nat>)
  {
    // nothing is queued twice or both queued and popped
    && NoDup(queue) && NoDup(done)
    && (forall v :: v in queue ==> v !in done)
    && (x in queue || x in done)
    // every seen id lies below x, at the recorded distance
    && (forall v :: v in queue + done ==> v in depth && Ancestor(nodes, v, depth[v]) == Some(x))
    // an id other than x is seen only once its parent has been popped
    && (forall v :: v in queue + done && v != x ==>
          v in nodes && nodes[v].parentId.Some? && nodes[v].parentId.value in done)
    // every child of a popped id has been seen
    && (forall k :: k in nodes && nodes[k].parentId.Some? && nodes[k].parentId.value in done ==>
          k in queue + done)
  }

  /** The distances after queueing the children `cs` of `cur`. */
  ghost function Deepen(depth: map<Id, nat>, cs: seq<Id>, cur: Id): map<Id, nat>
    requires cur in depth
  {
    depth + map c | c in cs :: depth[cur] + 1
  }

  /** The state in which both scans start: only `x`, queued. */
  lemma Start(nodes: map<Id, Node>, x: Id)
    ensures Frontier(nodes, x, [x], [], map[x := 0])
  {
  }

  lemma NoDupAppend(a: seq<Id>, b: seq<Id>)
    requires NoDup(a) && NoDup(b)
    requires forall v :: v in a ==> v !in b
    ensures NoDup(a + b)
  {
    forall i, j | 0 <= i < j < |a + b|
      ensures (a + b)[i] != (a + b)[j]
    {
      if j >= |a| && i < |a| {
        assert (a + b)[i] in a && (a + b)[j] in b;
      }
    }
  }

  /** Popping the front id `cur` and queueing its children `cs` keeps the
      invariant, provided `x` is not its own ancestor; the children are all
      new, so no id is ever queued twice. */
  lemma Step(nodes: map<Id, Node>, x: Id, queue: seq<Id>, done: seq<Id>, depth: map<Id, nat>, cs: seq<Id>)
    requires Frontier(nodes, x, queue, done, depth)
    requires NotOwnAncestor(nodes, x)
    requires queue != []
    requires NoDup(cs)
    requires forall k :: k in cs <==> k in nodes && nodes[k].parentId == Some(queue[0])
    ensures forall c :: c in cs ==> c !in queue + done
    ensures Frontier(nodes, x, queue[1..] + cs, done + [queue[0]],
                     Deepen(depth, cs, queue[0]))
  {
    var cur := queue[0];
    StepFresh(nodes, x, queue, done, depth, cs);
    var depth' := Deepen(depth, cs, cur);
    var queue' := queue[1..] + cs;
    var done' := done + [cur];
    StepDistinct(queue, done, cs);
    StepDepths(nodes, x, queue, done, depth, cs);
    StepParents(nodes, x, queue, done, cs);
    StepClosed(nodes, queue, done, cs);
  }

  lemma StepFresh(nodes: map<Id, Node>, x: Id, queue: seq<Id>, done: seq<Id>, depth: map<Id, nat>, cs: seq<Id>)
    requires Frontier(nodes, x, queue, done, depth)
    requires NotOwnAncestor(nodes, x)
    requires queue != []
    requires forall k :: k in cs ==> k in nodes && nodes[k].parentId == Some(queue[0])
    ensures forall c :: c in cs ==> c !in queue + done
  {
    var cur := queue[0];
    assert cur !in done;
    assert Ancestor(nodes, x, depth[cur] + 1) != Some(x);
  }

  /** Each step either queues a new id or shortens the queue. */
  lemma Progress(keys: set<Id>, queue: seq<Id>, done: seq<Id>, cs: seq<Id>)
    requires queue != []
    requires forall c :: c in cs ==> c in keys && c !in queue + done
    ensures cs == [] ==> keys - Seen(queue[1..] + cs, done + [queue[0]]) == keys - Seen(queue, done)
    ensures cs != [] ==> |keys - Seen(queue[1..] + cs, done + [queue[0]])| < |keys - Seen(queue, done)|
  {
    assert forall v :: v in queue ==> v == queue[0] || v in queue[1..];
    var before := keys - Seen(queue, done);
    var after := keys - Seen(queue[1..] + cs, done + [queue[0]]);
    if cs != [] {
      assert cs[0] in before && cs[0] !in after;
      assert after <= before - {cs[0]};
      SubsetCard(after, before - {cs[0]});
    }
  }

  lemma SubsetCard(a: set<Id>, b: set<Id>)
    requires a <= b
    ensures |a| <= |b|
    decreases a
  {
    if a != {} {
      var v :| v in a;
      SubsetCard(a - {v}, b - {v});
    }
  }

  lemma StepDistinct(queue: seq<Id>, done: seq<Id>, cs: seq<Id>)
    requires NoDup(queue) && NoDup(done) && NoDup(cs) && queue != []
    requires forall v :: v in queue ==> v !in done
    requires forall c :: c in cs ==> c !in queue + done
    ensures NoDup(queue[1..] + cs) && NoDup(done + [queue[0]])
    ensures forall v :: v in queue[1..] + cs ==> v !in done + [queue[0]]
  {
    assert queue == [queue[0]] + queue[1..];
    assert queue[0] !in queue[1..];
    NoDupAppend(queue[1..], cs);
    NoDupAppend(done, [queue[0]]);
  }

  lemma StepDepths(nodes: map<Id, Node>, x: Id, queue: seq<Id>, done: seq<Id>, depth: map<Id, nat>, cs: seq<Id>)
    requires queue != []
    requires forall v :: v in queue + done ==> v in depth && Ancestor(nodes, v, depth[v]) == Some(x)
    requires forall k :: k in cs ==> k in nodes && nodes[k].parentId == Some(queue[0])
    requires forall c :: c in cs ==> c !in queue + done
    ensures var depth' := Deepen(depth, cs, queue[0]);
            forall v :: v in queue[1..] + cs + done + [queue[0]] ==>
              v in depth' && Ancestor(nodes, v, depth'[v]) == Some(x)
  {
    var cur := queue[0];
    var depth' := Deepen(depth, cs, cur);
    forall v | v in queue[1..] + cs + done + [queue[0]]
      ensures v in depth' && Ancestor(nodes, v, depth'[v]) == Some(x)
    {
      if v in cs {
        assert Ancestor(nodes, v, depth[cur] + 1) == Ancestor(nodes, cur, depth[cur]);
      } else {
        assert v in queue + done;
      }
    }
  }

  lemma StepParents(nodes: map<Id, Node>, x: Id, queue: seq<Id>, done: seq<Id>, cs: seq<Id>)
    requires queue != []
    requires forall v :: v in queue + done && v != x ==>
               v in nodes && nodes[v].parentId.Some? && nodes[v].parentId.value in done
    requires forall k :: k in cs ==> k in nodes && nodes[k].parentId == Some(queue[0])
    ensures forall v :: v in queue[1..] + cs + done + [queue[0]] && v != x ==>
              v in nodes && nodes[v].parentId.Some? && nodes[v].parentId.value in done + [queue[0]]
  {
    forall v | v in queue[1..] + cs + done + [queue[0]] && v != x
      ensures v in nodes && nodes[v].parentId.Some? && nodes[v].parentId.value in done + [queue[0]]
    {
      if v !in cs {
        assert v in queue + done;
      }
    }
  }

  lemma StepClosed(nodes: map<Id, Node>, queue: seq<Id>, done: seq<Id>, cs: seq<Id>)
    requires queue != []
    requires forall k :: k in nodes && nodes[k].parentId.Some? && nodes[k].parentId.value in done ==>
               k in queue + done
    requires forall k :: k in nodes && nodes[k].parentId == Some(queue[0]) ==> k in cs
    ensures forall k :: k in nodes && nodes[k].parentId.Some? && nodes[k].parentId.value in done + [queue[0]] ==>
              k in queue[1..] + cs + done + [queue[0]]
  {
    assert forall v :: v in queue ==> v == queue[0] || v in queue[1..];
  }

  /** With the queue empty, the popped ids are exactly those below `x`. */
  lemma Complete(nodes: map<Id, Node>, x: Id, done: seq<Id>, depth: map<Id, nat>)
    requires Frontier(nodes, x, [], done, depth)
    ensures forall k :: k in done <==> Descends(nodes, k, x)
  {
    forall k | Descends(nodes, k, x)
      ensures k in done
    {
      var n: nat :| Ancestor(nodes, k, n) == Some(x);
      Reaches(nodes, x, done, depth, k, n);
    }
    forall k | k in done
      ensures Descends(nodes, k, x)
    {
      assert Ancestor(nodes, k, depth[k]) == Some(x);
    }
  }

  lemma {:induction false} Reaches(nodes: map<Id, Node>, x: Id, done: seq<Id>, depth: map<Id, nat>, k: Id, n: nat)
    requires Frontier(nodes, x, [], done, depth)
    requires Ancestor(nodes, k, n) == Some(x)
    ensures k in done
    decreases n
  {
    if n > 0 {
      Reaches(nodes, x, done, depth, nodes[k].parentId.value, n - 1);
    }
  }

  /** The breadth-first loop of `get_descendants`: pops `curr`, appends it to
      the result, queues its children. */
  function Collect(order: seq<Id>, nodes: map<Id, Node>, x: Id,
                   queue: seq<Id>, done: seq<Id>, ghost depth: map<Id, nat>): (d: seq<Id>)
    requires Valid(Store(order, nodes))
    requires NotOwnAncestor(nodes, x)
    requires Frontier(nodes, x, queue, done, depth)
    ensures NoDup(d)
    ensures forall k :: k in d <==> Descends(nodes, k, x)
    ensures done <= d
    ensures queue != [] ==> |d| > |done| && d[|done|] == queue[0]
    decreases |nodes.Keys - Seen(queue, done)|, |queue|
  {
    if queue == [] then
      Complete(nodes, x, done, depth);
      done
    else
      var cur := queue[0];
      var cs := ChildrenOf(order, nodes, cur);
      Step(nodes, x, queue, done, depth, cs);
      Progress(nodes.Keys, queue, done, cs);
      var d := Collect(order, nodes, x, queue[1..] + cs, done + [cur],
                       Deepen(depth, cs, cur));
      d
  }

  /** `get_descendants(x)`: `x` first, then every record below it, each once. */
  function Descendants(s: Store, x: Id): (d: seq<Id>)
    requires Valid(s)
    requires NotOwnAncestor(s.nodes, x)
    ensures NoDup(d)
    ensures |d| > 0 && d[0] == x
    ensures forall k :: k in d <==> Descends(s.nodes, k, x)
  {
    Start(s.nodes, x);
    Collect(s.order, s.nodes, x, [x], [], map[x := 0])
  }
}
