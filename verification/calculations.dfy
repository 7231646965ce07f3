/** The operations of calculations.py: creating the session's store,
    recomputing the derived fields of every record below the root, and
    deleting a record together with everything below it.
 */
module Calculations {
  import opened Wrappers
  import opened EventTree
  import opened Traversal

  // ---------------------------------------------------------------------
  // Reference definition: products along the ancestor chain
  // ---------------------------------------------------------------------

  /** Real multiplication under a name: two products with equal operands
      are then equal by congruence alone, without arithmetic reasoning. */
  function Mul(a: real, b: real): real
  {
    a * b
  }

  /** The path probability of a record `n` parent links below the root:
      the product of the edge factors on the chain from the root down to
      it (1 at the root itself). */
  ghost function ChainProb(nodes: map<Id, Node>, id: Id, n: nat): real
    decreases n
  {
    if n == 0 || id !in nodes || nodes[id].parentId.None? || nodes[id].parentId.value !in nodes then 1.0
    else
      var p := nodes[id].parentId.value;
      Mul(ChainProb(nodes, p, n - 1), EdgeFactor(nodes[p], nodes[id].branch))
  }

  /** The path frequency of a record `n` links below the root: the root's
      frequency times the same product of edge factors. */
  ghost function ChainFreq(nodes: map<Id, Node>, id: Id, n: nat): real
    decreases n
  {
    if n == 0 then (if id in nodes then FreqOf(nodes[id]) else 1.0)
    else if id !in nodes || nodes[id].parentId.None? || nodes[id].parentId.value !in nodes then 1.0
    else
      var p := nodes[id].parentId.value;
      Mul(ChainFreq(nodes, p, n - 1), EdgeFactor(nodes[p], nodes[id].branch))
  }

  /** The fields of a record the reference chains read: every editable
      field but the name. */
  predicate SameFactors(a: Node, b: Node)
  {
    && a.kind == b.kind
    && a.prob == b.prob
    && a.freq == b.freq
    && a.parentId == b.parentId
    && a.branch == b.branch
  }

  /** The reference chains read only the editable fields other than the
      name. */
  lemma {:induction false} ChainFrame(a: map<Id, Node>, b: map<Id, Node>, id: Id, n: nat)
    requires a.Keys == b.Keys
    requires forall k :: k in a ==> SameFactors(a[k], b[k])
    ensures ChainProb(a, id, n) == ChainProb(b, id, n)
    ensures ChainFreq(a, id, n) == ChainFreq(b, id, n)
    decreases n
  {
    if n > 0 && id in a && a[id].parentId.Some? && a[id].parentId.value in a {
      ChainFrame(a, b, a[id].parentId.value, n - 1);
    }
  }

  /** The derived fields `node` must carry when it is the record `v`, found
      `n` parent links below the root `r` of `nodes`. The root keeps its
      `risk`: only children get a new one. */
  ghost predicate Derived(nodes: map<Id, Node>, r: Id, v: Id, n: nat, node: Node)
    requires v in nodes
  {
    && node.pathProb == Some(ChainProb(nodes, v, n))
    && node.pathFreq == Some(ChainFreq(nodes, v, n))
    && (v == r ==> node.risk == nodes[v].risk)
    && (v != r ==> node.risk.Some? && node.risk.value == Mul(ChainFreq(nodes, v, n), CostOf(nodes[v])))
  }

  /** `out` is what a full recompute from root `r` must leave: the same
      records with the same editable fields; every record below the root
      carries the chain products; every other record is untouched. */
  ghost predicate Settled(nodes: map<Id, Node>, r: Id, out: map<Id, Node>)
  {
    && out.Keys == nodes.Keys
    && (forall k :: k in nodes ==> SameEditable(out[k], nodes[k]))
    && (forall k, n: nat :: k in nodes && Ancestor(nodes, k, n) == Some(r) ==> Derived(nodes, r, k, n, out[k]))
    && (forall k :: k in nodes && !Descends(nodes, k, r) ==> out[k] == nodes[k])
  }

  // ---------------------------------------------------------------------
  // recalculate_tree
  // ---------------------------------------------------------------------

  /** The store has no root record, or its first root is not its own
      ancestor: otherwise the breadth-first loop of recalculate_tree never
      empties its queue. */
  ghost predicate RecomputeTerminates(s: Store)
  {
    && Valid(s)
    && (FindRoot(s).None? || NotOwnAncestor(s.nodes, FindRoot(s).value))
  }

  /** The body of the inner `for` loop: the child's new derived fields from
      its parent's. */
  function Propagated(parent: Node, child: Node): (c: Node)
    requires parent.pathProb.Some? && parent.pathFreq.Some?
    ensures SameEditable(c, child)
    ensures c.pathProb == Some(Mul(parent.pathProb.value, EdgeFactor(parent, child.branch)))
    ensures c.pathFreq == Some(Mul(parent.pathFreq.value, EdgeFactor(parent, child.branch)))
    ensures c.risk == Some(Mul(c.pathFreq.value, CostOf(child)))
  {
    var pathFreq := Mul(parent.pathFreq.value, EdgeFactor(parent, child.branch));
    child.(pathProb := Some(Mul(parent.pathProb.value, EdgeFactor(parent, child.branch))),
           pathFreq := Some(pathFreq),
           risk := Some(Mul(pathFreq, CostOf(child))))
  }

  /** The loop invariant on the records: the seen ones carry their chain
      products, the unseen ones are as they were. */
  ghost predicate Values(nodes: map<Id, Node>, r: Id, m: map<Id, Node>,
                         queue: seq<Id>, done: seq<Id>, depth: map<Id, nat>)
  {
    && m.Keys == nodes.Keys
    && (forall k :: k in nodes ==> SameEditable(m[k], nodes[k]))
    && (forall v :: v in queue + done ==> v in depth && v in nodes && Derived(nodes, r, v, depth[v], m[v]))
    && (forall k :: k in nodes && k !in queue + done ==> m[k] == nodes[k])
  }

  /** The `while queue` loop of recalculate_tree over the records `m`;
      `nodes` is the store before the loop, kept for the specification. */
  function Walk(ghost nodes: map<Id, Node>, ghost r: Id, order: seq<Id>, m: map<Id, Node>,
                queue: seq<Id>, ghost done: seq<Id>, ghost depth: map<Id, nat>): (out: map<Id, Node>)
    requires Valid(Store(order, nodes)) && r in nodes && NotOwnAncestor(nodes, r)
    requires Frontier(nodes, r, queue, done, depth)
    requires Values(nodes, r, m, queue, done, depth)
    ensures Settled(nodes, r, out)
    decreases |nodes.Keys - Seen(queue, done)|, |queue|
  {
    if queue == [] then
      WalkDone(nodes, r, m, done, depth);
      m
    else
      var cur := queue[0];
      var cs := ChildrenOf(order, m, cur);
      var parent := m[cur];
      var m' := map k | k in m :: if k in cs then Propagated(parent, m[k]) else m[k];
      WalkStep(nodes, r, order, m, queue, done, depth, cs, m');
      Progress(nodes.Keys, queue, done, cs);
      Walk(nodes, r, order, m', queue[1..] + cs, done + [cur], Deepen(depth, cs, cur))
  }

  lemma WalkStep(nodes: map<Id, Node>, r: Id, order: seq<Id>, m: map<Id, Node>,
                 queue: seq<Id>, done: seq<Id>, depth: map<Id, nat>, cs: seq<Id>, m': map<Id, Node>)
    requires Valid(Store(order, nodes)) && r in nodes && NotOwnAncestor(nodes, r)
    requires Frontier(nodes, r, queue, done, depth)
    requires Values(nodes, r, m, queue, done, depth)
    requires queue != []
    requires NoDup(cs)
    requires forall k :: k in cs <==> k in order && m[k].parentId == Some(queue[0])
    requires m[queue[0]].pathProb.Some? && m[queue[0]].pathFreq.Some?
    requires m' == map k | k in m :: if k in cs then Propagated(m[queue[0]], m[k]) else m[k]
    ensures forall c :: c in cs ==> c in nodes && c !in queue + done
    ensures Frontier(nodes, r, queue[1..] + cs, done + [queue[0]], Deepen(depth, cs, queue[0]))
    ensures Values(nodes, r, m', queue[1..] + cs, done + [queue[0]], Deepen(depth, cs, queue[0]))
  {
    var cur := queue[0];
    assert forall k :: k in cs <==> k in nodes && nodes[k].parentId == Some(cur);
    Step(nodes, r, queue, done, depth, cs);
    assert r in queue + done && cur in queue + done;
    ValuesStep(nodes, r, m, queue, done, depth, cs, m');
  }

  lemma ValuesStep(nodes: map<Id, Node>, r: Id, m: map<Id, Node>,
                   queue: seq<Id>, done: seq<Id>, depth: map<Id, nat>, cs: seq<Id>, m': map<Id, Node>)
    requires r in nodes && queue != [] && r in queue + done
    requires Values(nodes, r, m, queue, done, depth)
    requires forall c :: c in cs ==> c in nodes && nodes[c].parentId == Some(queue[0]) && c !in queue + done
    requires m[queue[0]].pathProb.Some? && m[queue[0]].pathFreq.Some?
    requires m' == map k | k in m :: if k in cs then Propagated(m[queue[0]], m[k]) else m[k]
    ensures Values(nodes, r, m', queue[1..] + cs, done + [queue[0]], Deepen(depth, cs, queue[0]))
  {
    var cur := queue[0];
    assert cur in queue + done;
    var depth' := Deepen(depth, cs, cur);
    ChildrenDerived(nodes, r, m, cur, depth[cur], cs, m');
    forall v | v in queue[1..] + cs + done + [cur]
      ensures v in depth' && v in nodes && Derived(nodes, r, v, depth'[v], m'[v])
    {
      if v !in cs {
        assert v in queue + done;
      }
    }
    assert forall v :: v in queue ==> v == cur || v in queue[1..];
  }

  lemma ChildrenDerived(nodes: map<Id, Node>, r: Id, m: map<Id, Node>, cur: Id, d: nat, cs: seq<Id>, m': map<Id, Node>)
    requires cur in nodes && cur in m && SameEditable(m[cur], nodes[cur])
    requires Derived(nodes, r, cur, d, m[cur])
    requires forall c :: c in cs ==> c in nodes && c in m && c != r && nodes[c].parentId == Some(cur) && m[c] == nodes[c]
    requires m' == map k | k in m :: if k in cs then Propagated(m[cur], m[k]) else m[k]
    ensures forall c :: c in cs ==> Derived(nodes, r, c, d + 1, m'[c])
  {
    forall c | c in cs
      ensures Derived(nodes, r, c, d + 1, m'[c])
    {
      ChildDerived(nodes, r, cur, d, m[cur], c);
    }
  }

  /** One execution of the inner loop body yields the chain products one
      link further down. */
  lemma ChildDerived(nodes: map<Id, Node>, r: Id, cur: Id, d: nat, parent: Node, c: Id)
    requires cur in nodes && c in nodes && c != r
    requires nodes[c].parentId == Some(cur)
    requires SameEditable(parent, nodes[cur])
    requires Derived(nodes, r, cur, d, parent)
    ensures Derived(nodes, r, c, d + 1, Propagated(parent, nodes[c]))
  {
    ChildProb(nodes, cur, d, parent, c);
    ChildFreq(nodes, cur, d, parent, c);
    ChildRisk(nodes, cur, d, parent, c);
  }

  lemma ChildProb(nodes: map<Id, Node>, cur: Id, d: nat, parent: Node, c: Id)
    requires cur in nodes && c in nodes && nodes[c].parentId == Some(cur)
    requires SameEditable(parent, nodes[cur])
    requires parent.pathProb == Some(ChainProb(nodes, cur, d)) && parent.pathFreq.Some?
    ensures Propagated(parent, nodes[c]).pathProb == Some(ChainProb(nodes, c, d + 1))
  {
    EdgeFactorFrame(parent, nodes[cur], nodes[c].branch);
  }

  lemma ChildFreq(nodes: map<Id, Node>, cur: Id, d: nat, parent: Node, c: Id)
    requires cur in nodes && c in nodes && nodes[c].parentId == Some(cur)
    requires SameEditable(parent, nodes[cur])
    requires parent.pathProb.Some? && parent.pathFreq == Some(ChainFreq(nodes, cur, d))
    ensures Propagated(parent, nodes[c]).pathFreq == Some(ChainFreq(nodes, c, d + 1))
  {
    EdgeFactorFrame(parent, nodes[cur], nodes[c].branch);
  }

  lemma ChildRisk(nodes: map<Id, Node>, cur: Id, d: nat, parent: Node, c: Id)
    requires cur in nodes && c in nodes && nodes[c].parentId == Some(cur)
    requires SameEditable(parent, nodes[cur])
    requires parent.pathProb.Some? && parent.pathFreq == Some(ChainFreq(nodes, cur, d))
    ensures Propagated(parent, nodes[c]).risk == Some(Mul(ChainFreq(nodes, c, d + 1), CostOf(nodes[c])))
  {
    ChildFreq(nodes, cur, d, parent, c);
  }

  lemma EdgeFactorFrame(a: Node, b: Node, branch: Option<Branch>)
    requires SameEditable(a, b)
    ensures EdgeFactor(a, branch) == EdgeFactor(b, branch)
  {
  }

  lemma WalkDone(nodes: map<Id, Node>, r: Id, m: map<Id, Node>, done: seq<Id>, depth: map<Id, nat>)
    requires r in nodes && NotOwnAncestor(nodes, r)
    requires Frontier(nodes, r, [], done, depth)
    requires Values(nodes, r, m, [], done, depth)
    ensures Settled(nodes, r, m)
  {
    Complete(nodes, r, done, depth);
    forall k, n: nat | k in nodes && Ancestor(nodes, k, n) == Some(r)
      ensures Derived(nodes, r, k, n, m[k])
    {
      assert k in [] + done;
      DepthUnique(nodes, k, r, n, depth[k]);
    }
  }

  /** `recalculate_tree`: with no root record the store is returned as it
      is; otherwise the first root gets path probability 1 and path
      frequency its `freq` (1 when absent), and every record below it gets
      the products of edge factors along its ancestor chain, with risk its
      path frequency times its cost (0 when absent). Nothing else changes. */
  function Recompute(s: Store): (t: Store)
    requires RecomputeTerminates(s)
    ensures RecomputeTerminates(t) && SameShape(s, t)
    ensures FindRoot(t) == FindRoot(s)
    ensures FindRoot(s).None? ==> t == s
    ensures FindRoot(s).Some? ==> Settled(s.nodes, FindRoot(s).value, t.nodes)
  {
    match FindRoot(s)
    case None => s
    case Some(r) =>
      var root := s.nodes[r];
      var m0 := s.nodes[r := root.(pathProb := Some(1.0), pathFreq := Some(FreqOf(root)))];
      Start(s.nodes, r);
      var out := Walk(s.nodes, r, s.order, m0, [r], [], map[r := 0]);
      RecomputeFrame(s, r, out);
      Store(s.order, out)
  }

  lemma RecomputeFrame(s: Store, r: Id, out: map<Id, Node>)
    requires RecomputeTerminates(s) && FindRoot(s) == Some(r)
    requires Settled(s.nodes, r, out)
    ensures var t := Store(s.order, out);
            && RecomputeTerminates(t) && SameShape(s, t) && FindRoot(t) == FindRoot(s)
  {
    var t := Store(s.order, out);
    FindRootFrame(s, t);
    forall n: nat | n >= 1
      ensures Ancestor(out, r, n) != Some(r)
    {
      AncestorFrame(s.nodes, out, r, n);
    }
  }

  // ---------------------------------------------------------------------
  // Properties of the recompute
  // ---------------------------------------------------------------------

  /** What Recompute leaves at one record `k` found `n` links below the root. */
  lemma RecomputeAt(s: Store, k: Id, n: nat)
    requires RecomputeTerminates(s) && FindRoot(s).Some?
    requires k in s.nodes && Ancestor(s.nodes, k, n) == Some(FindRoot(s).value)
    ensures k in Recompute(s).nodes && SameEditable(Recompute(s).nodes[k], s.nodes[k])
    ensures Recompute(s).nodes[k].pathProb == Some(ChainProb(s.nodes, k, n))
    ensures Recompute(s).nodes[k].pathFreq == Some(ChainFreq(s.nodes, k, n))
    ensures k != FindRoot(s).value ==>
              && Recompute(s).nodes[k].risk.Some?
              && Recompute(s).nodes[k].risk.value == Mul(ChainFreq(s.nodes, k, n), CostOf(s.nodes[k]))
    ensures k == FindRoot(s).value ==> Recompute(s).nodes[k].risk == s.nodes[k].risk
  {
    var t := Recompute(s);
    assert Settled(s.nodes, FindRoot(s).value, t.nodes);
    assert Derived(s.nodes, FindRoot(s).value, k, n, t.nodes[k]);
  }

  /** Each record below the root ends with its parent's values times the
      edge factor, and with risk its own path frequency times its cost. */
  lemma ChildOfParent(s: Store, c: Id)
    requires RecomputeTerminates(s) && FindRoot(s).Some?
    requires c in s.nodes && c != FindRoot(s).value && Descends(s.nodes, c, FindRoot(s).value)
    ensures var t := Recompute(s).nodes;
            && s.nodes[c].parentId.Some? && s.nodes[c].parentId.value in t
            && var p := s.nodes[c].parentId.value;
            && t[c].pathProb.Some? && t[c].pathFreq.Some? && t[c].risk.Some?
            && t[p].pathProb.Some? && t[p].pathFreq.Some?
            && t[c].pathProb.value == Mul(t[p].pathProb.value, EdgeFactor(t[p], t[c].branch))
            && t[c].pathFreq.value == Mul(t[p].pathFreq.value, EdgeFactor(t[p], t[c].branch))
            && t[c].risk.value == Mul(t[c].pathFreq.value, CostOf(t[c]))
  {
    var r := FindRoot(s).value;
    var n: nat :| Ancestor(s.nodes, c, n) == Some(r);
    SettledChild(s.nodes, r, Recompute(s).nodes, c, n);
  }

  lemma SettledChild(nodes: map<Id, Node>, r: Id, out: map<Id, Node>, c: Id, n: nat)
    requires Settled(nodes, r, out) && r in nodes
    requires c in nodes && c != r && Ancestor(nodes, c, n) == Some(r)
    ensures nodes[c].parentId.Some? && nodes[c].parentId.value in out
    ensures var p := nodes[c].parentId.value;
            && out[c].pathProb.Some? && out[c].pathFreq.Some? && out[c].risk.Some?
            && out[p].pathProb.Some? && out[p].pathFreq.Some?
            && out[c].pathProb.value == Mul(out[p].pathProb.value, EdgeFactor(out[p], out[c].branch))
            && out[c].pathFreq.value == Mul(out[p].pathFreq.value, EdgeFactor(out[p], out[c].branch))
            && out[c].risk.value == Mul(out[c].pathFreq.value, CostOf(out[c]))
  {
    var p := nodes[c].parentId.value;
    assert Ancestor(nodes, p, n - 1) == Some(r);
    assert Derived(nodes, r, c, n, out[c]);
    assert Derived(nodes, r, p, n - 1, out[p]);
    EdgeFactorFrame(out[p], nodes[p], nodes[c].branch);
    ChainStep(nodes, c, n);
  }

  /** An edge out of a root record has factor 1 whatever the child's branch:
      the child carries the root's path probability and frequency. */
  lemma RootChild(s: Store, c: Id)
    requires RecomputeTerminates(s) && FindRoot(s).Some?
    requires c in s.nodes && c != FindRoot(s).value && Descends(s.nodes, c, FindRoot(s).value)
    requires s.nodes[c].parentId.Some? && s.nodes[c].parentId.value in s.nodes
    requires s.nodes[s.nodes[c].parentId.value].kind == Root
    ensures var t := Recompute(s).nodes;
            var p := s.nodes[c].parentId.value;
            t[c].pathProb == t[p].pathProb && t[c].pathFreq == t[p].pathFreq
  {
    ChildOfParent(s, c);
  }

  /** One step of the reference chain. */
  lemma ChainStep(nodes: map<Id, Node>, c: Id, n: nat)
    requires n > 0 && c in nodes && nodes[c].parentId.Some? && nodes[c].parentId.value in nodes
    ensures var p := nodes[c].parentId.value;
            && ChainProb(nodes, c, n) == Mul(ChainProb(nodes, p, n - 1), EdgeFactor(nodes[p], nodes[c].branch))
            && ChainFreq(nodes, c, n) == Mul(ChainFreq(nodes, p, n - 1), EdgeFactor(nodes[p], nodes[c].branch))
  {
  }

  /** Conservation: below a non-root parent, a success child and a child on
      any other branch together carry exactly the parent's path probability
      and path frequency. */
  lemma SiblingsSum(s: Store, p: Id, yes: Id, no: Id)
    requires RecomputeTerminates(s) && FindRoot(s).Some?
    requires p in s.nodes && s.nodes[p].kind != Root && Descends(s.nodes, p, FindRoot(s).value)
    requires yes in s.nodes && s.nodes[yes].parentId == Some(p) && s.nodes[yes].branch == Some(Success)
    requires no in s.nodes && s.nodes[no].parentId == Some(p) && s.nodes[no].branch != Some(Success)
    ensures var t := Recompute(s).nodes;
            && t[p].pathProb.Some? && t[yes].pathProb.Some? && t[no].pathProb.Some?
            && t[yes].pathProb.value + t[no].pathProb.value == t[p].pathProb.value
            && t[p].pathFreq.Some? && t[yes].pathFreq.Some? && t[no].pathFreq.Some?
            && t[yes].pathFreq.value + t[no].pathFreq.value == t[p].pathFreq.value
  {
    var r := FindRoot(s).value;
    var n: nat :| Ancestor(s.nodes, p, n) == Some(r);
    assert Ancestor(s.nodes, yes, n + 1) == Some(r);
    assert Ancestor(s.nodes, no, n + 1) == Some(r);
    assert yes != r && no != r;
    ChildOfParent(s, yes);
    ChildOfParent(s, no);
    var t := Recompute(s).nodes;
    assert EdgeFactor(t[p], t[yes].branch) == t[p].prob;
    assert EdgeFactor(t[p], t[no].branch) == 1.0 - t[p].prob;
    MulSplit(t[p].pathProb.value, t[p].prob);
    MulSplit(t[p].pathFreq.value, t[p].prob);
  }

  /** A value split by a factor and its complement adds up to the value. */
  lemma MulSplit(x: real, q: real)
    ensures Mul(x, q) + Mul(x, 1.0 - q) == x
  {
  }

  /** The store's derived fields are what a recompute would give them. */
  ghost predicate Consistent(s: Store)
  {
    RecomputeTerminates(s) && Recompute(s) == s
  }

  /** A second recompute changes nothing: the first leaves a fixed point. */
  lemma RecomputeIdempotent(s: Store)
    requires RecomputeTerminates(s)
    ensures Recompute(Recompute(s)) == Recompute(s)
  {
    var t := Recompute(s);
    var u := Recompute(t);
    if FindRoot(s).Some? {
      forall k | k in t.nodes
        ensures u.nodes[k] == t.nodes[k]
      {
        IdempotentAt(s, k);
      }
      assert u.nodes.Keys == t.nodes.Keys;
      MapEq(u.nodes, t.nodes);
    }
  }

  /** The record at `k` is the same after one recompute and after two. */
  lemma IdempotentAt(s: Store, k: Id)
    requires RecomputeTerminates(s) && FindRoot(s).Some? && k in s.nodes
    ensures k in Recompute(Recompute(s)).nodes
    ensures Recompute(Recompute(s)).nodes[k] == Recompute(s).nodes[k]
  {
    var r := FindRoot(s).value;
    var t := Recompute(s);
    var u := Recompute(t);
    if Descends(s.nodes, k, r) {
      var n: nat :| Ancestor(s.nodes, k, n) == Some(r);
      AncestorFrame(s.nodes, t.nodes, k, n);
      ChainFrame(s.nodes, t.nodes, k, n);
      RecomputeAt(s, k, n);
      RecomputeAt(t, k, n);
      if k == r {
        assert Derived(t.nodes, r, k, n, u.nodes[k]);
      }
      NodeEq(u.nodes[k], t.nodes[k]);
    } else {
      forall n: nat
        ensures Ancestor(t.nodes, k, n) != Some(r)
      {
        AncestorFrame(s.nodes, t.nodes, k, n);
      }
      assert !Descends(t.nodes, k, r);
    }
  }

  lemma MapEq(a: map<Id, Node>, b: map<Id, Node>)
    requires a.Keys == b.Keys && forall k :: k in a ==> a[k] == b[k]
    ensures a == b
  {
  }

  /** Two records with the same editable and derived fields are equal. */
  lemma NodeEq(a: Node, b: Node)
    requires SameEditable(a, b)
    requires a.pathProb == b.pathProb && a.pathFreq == b.pathFreq && a.risk == b.risk
    ensures a == b
  {
  }

  // ---------------------------------------------------------------------
  // init_session_state
  // ---------------------------------------------------------------------

  /** The record init_session_state creates. */
  function SessionRoot(): Node
  {
    Node("Fire Ignition", Root, 1.0, Some(1.0), Some(0.0), None, None, Some(1.0), Some(1.0), Some(0.0))
  }

  /** `init_session_state`: an existing store is kept as it is; otherwise
      the store becomes a single root record named "Fire Ignition" with
      probability 1, frequency 1, path probability 1, path frequency 1,
      cost 0 and risk 0. */
  function InitSessionState(existing: Option<Store>, rootId: Id): (s: Store)
    ensures existing.Some? ==> s == existing.value
    ensures existing.None? ==>
              && Valid(s) && s.nodes.Keys == {rootId}
              && s.nodes[rootId].kind == Root
              && s.nodes[rootId].parentId == None && s.nodes[rootId].branch == None
              && s.nodes[rootId].name == "Fire Ignition" && s.nodes[rootId].prob == 1.0
              && s.nodes[rootId].freq == Some(1.0)
              && s.nodes[rootId].pathProb == Some(1.0) && s.nodes[rootId].pathFreq == Some(1.0)
              && s.nodes[rootId].cost == Some(0.0) && s.nodes[rootId].risk == Some(0.0)
  {
    if existing.Some? then existing.value
    else Store([rootId], map[rootId := SessionRoot()])
  }

  /** A freshly created store is well formed and already consistent: a
      recompute leaves it as it is. */
  lemma InitIsConsistent(rootId: Id)
    ensures WellFormed(InitSessionState(None, rootId))
    ensures Recompute(InitSessionState(None, rootId)) == InitSessionState(None, rootId)
  {
    var s := InitSessionState(None, rootId);
    assert FindRoot(s) == Some(rootId);
    assert Ancestor(s.nodes, rootId, 0) == Some(rootId);
    RootNotOwnAncestor(s);
  }

  // ---------------------------------------------------------------------
  // delete_node
  // ---------------------------------------------------------------------

  /** `order` without the ids in `gone`, in the same order. */
  function Without(order: seq<Id>, gone: seq<Id>): (r: seq<Id>)
    ensures forall k :: k in r <==> k in order && k !in gone
    ensures NoDup(order) ==> NoDup(r)
  {
    if order == [] then []
    else
      var rest := Without(order[1..], gone);
      assert forall k :: k in order <==> k == order[0] || k in order[1..];
      if order[0] in gone then rest
      else
        assert NoDup(order) ==> order[0] !in order[1..];
        [order[0]] + rest
  }

  /** The loop `for t in targets: del nodes[t]` once every target is a key. */
  function Prune(s: Store, targets: seq<Id>): (t: Store)
    requires Valid(s)
    ensures Valid(t)
    ensures forall k :: k in t.nodes <==> k in s.nodes && k !in targets
    ensures forall k :: k in t.nodes ==> t.nodes[k] == s.nodes[k]
  {
    Store(Without(s.order, targets), map k | k in s.nodes && k !in targets :: s.nodes[k])
  }

  /** Both loops of delete_node end: the scan below `x` (which never
      returns to `x`) and the recompute of what is left. */
  ghost predicate DeleteEnds(s: Store, x: Id)
  {
    && Valid(s) && NotOwnAncestor(s.nodes, x)
    && (x in s.nodes ==> RecomputeTerminates(Prune(s, Descendants(s, x))))
  }

  /** `delete_node(x)`: collects `x` and everything below it, deletes them,
      then recomputes. When `x` is not a key the first `del` raises and the
      store is left as it was. */
  function DeleteNode(s: Store, x: Id): (r: Result<Store>)
    requires DeleteEnds(s, x)
    ensures r.Err? <==> x !in s.nodes
    ensures r.Err? ==> r.error == KeyError
    ensures r.Ok? ==> Valid(r.value)
    // exactly x and its descendants are gone
    ensures r.Ok? ==> forall k :: k in r.value.nodes <==> k in s.nodes && !Descends(s.nodes, k, x)
    ensures r.Ok? ==> |r.value.nodes| == |s.nodes| - |Descendants(s, x)|
    // no survivor names a removed record as its parent
    ensures r.Ok? ==> forall k :: k in r.value.nodes && r.value.nodes[k].parentId.Some? ==>
                        !Descends(s.nodes, r.value.nodes[k].parentId.value, x)
    // survivors keep their editable fields
    ensures r.Ok? ==> forall k :: k in r.value.nodes ==> SameEditable(r.value.nodes[k], s.nodes[k])
    // the derived fields of what is left are recomputed from its root
    ensures r.Ok? ==> var p := Prune(s, Descendants(s, x));
                      FindRoot(p).Some? ==> Settled(p.nodes, FindRoot(p).value, r.value.nodes)
    // with no root left, the recompute returns at once and the pruned store stands
    ensures r.Ok? ==> var p := Prune(s, Descendants(s, x));
                      FindRoot(p).None? ==> r.value == p
  {
    var targets := Descendants(s, x);
    if x !in s.nodes then Err(KeyError)
    else
      var pruned := Prune(s, targets);
      var t := Recompute(pruned);
      DeleteCount(s, x, targets, pruned);
      Ok(t)
  }

  lemma DeleteCount(s: Store, x: Id, targets: seq<Id>, pruned: Store)
    requires Valid(s) && x in s.nodes && NotOwnAncestor(s.nodes, x)
    requires targets == Descendants(s, x)
    requires pruned == Prune(s, targets)
    ensures |pruned.nodes| == |s.nodes| - |targets|
    ensures forall k :: k in pruned.nodes && pruned.nodes[k].parentId.Some? ==>
              !Descends(s.nodes, pruned.nodes[k].parentId.value, x)
  {
    var gone := set v | v in targets;
    forall v | v in gone
      ensures v in s.nodes
    {
      var n: nat :| Ancestor(s.nodes, v, n) == Some(x);
    }
    NoDupCard(targets);
    assert pruned.nodes.Keys == s.nodes.Keys - gone;
    DiffCard(s.nodes.Keys, gone);
    forall k | k in pruned.nodes && pruned.nodes[k].parentId.Some?
      ensures !Descends(s.nodes, pruned.nodes[k].parentId.value, x)
    {
      ParentOutside(s.nodes, k, x);
    }
  }

  /** A record outside the subtree of `x` has its parent outside it too. */
  lemma ParentOutside(nodes: map<Id, Node>, k: Id, x: Id)
    requires k in nodes && nodes[k].parentId.Some? && !Descends(nodes, k, x)
    ensures !Descends(nodes, nodes[k].parentId.value, x)
  {
    forall n: nat
      ensures Ancestor(nodes, nodes[k].parentId.value, n) != Some(x)
    {
      assert Ancestor(nodes, k, n + 1) == Ancestor(nodes, nodes[k].parentId.value, n);
    }
  }

  lemma {:induction false} NoDupCard(xs: seq<Id>)
    requires NoDup(xs)
    ensures |set v | v in xs| == |xs|
  {
    if xs != [] {
      NoDupCard(xs[1..]);
      assert (set v | v in xs) == (set v | v in xs[1..]) + {xs[0]};
      assert xs[0] !in xs[1..];
    }
  }

  lemma DiffCard(a: set<Id>, b: set<Id>)
    requires b <= a
    ensures |a - b| == |a| - |b|
  {
    assert a == (a - b) + b;
  }

  /** In a well-formed store the breadth-first scans of delete_node end,
      whatever id is deleted. */
  lemma DeleteTerminates(s: Store, x: Id)
    requires WellFormed(s)
    ensures DeleteEnds(s, x)
  {
    WellFormedAcyclic(s, x);
    if x in s.nodes {
      var pruned := Prune(s, Descendants(s, x));
      if FindRoot(pruned).Some? {
        assert FindRoot(pruned) == FindRoot(s);
        RootNotOwnAncestor(pruned);
      }
    }
  }

  /** Deleting any record but the root keeps a well-formed store well
      formed: the root survives, and every survivor still has a live parent
      and a chain up to the root. */
  lemma DeleteKeepsWellFormed(s: Store, x: Id)
    requires WellFormed(s) && x in s.nodes && x != FindRoot(s).value
    ensures DeleteEnds(s, x)
    ensures DeleteNode(s, x).Ok? && WellFormed(DeleteNode(s, x).value)
    ensures FindRoot(Prune(s, Descendants(s, x))) == FindRoot(s)
    ensures FindRoot(DeleteNode(s, x).value) == FindRoot(s)
  {
    DeleteTerminates(s, x);
    var r := FindRoot(s).value;
    var pruned := Prune(s, Descendants(s, x));
    forall n: nat
      ensures Ancestor(s.nodes, r, n) != Some(x)
    {
      if n >= 1 {
        RootHasNoAncestor(s.nodes, r, n);
      }
    }
    assert r in pruned.nodes;
    assert FindRoot(pruned) == Some(r);
    forall k | k in pruned.nodes && k != r
      ensures HasLiveParent(pruned.nodes, k)
    {
      assert HasLiveParent(s.nodes, k);
      ParentOutside(s.nodes, k, x);
    }
    forall k | k in pruned.nodes
      ensures Descends(pruned.nodes, k, r)
    {
      var n: nat :| Ancestor(s.nodes, k, n) == Some(r);
      AncestorPrune(s.nodes, x, pruned.nodes, k, n);
    }
    assert WellFormed(pruned);
    WellFormedFrame(pruned, Recompute(pruned));
  }

  /** Outside the subtree of `x`, removing that subtree leaves every parent
      chain as it was. */
  lemma {:induction false} AncestorPrune(nodes: map<Id, Node>, x: Id, kept: map<Id, Node>, k: Id, n: nat)
    requires forall v :: v in kept <==> v in nodes && !Descends(nodes, v, x)
    requires forall v :: v in kept ==> kept[v] == nodes[v]
    requires k in kept
    ensures Ancestor(kept, k, n) == Ancestor(nodes, k, n)
    decreases n
  {
    if n > 0 && nodes[k].parentId.Some? {
      var p := nodes[k].parentId.value;
      if p in nodes {
        ParentOutside(nodes, k, x);
        AncestorPrune(nodes, x, kept, p, n - 1);
      }
    }
  }

  /** Outside the subtree of `x`, removing that subtree leaves every chain
      product as it was. */
  lemma {:induction false} ChainPrune(nodes: map<Id, Node>, x: Id, kept: map<Id, Node>, k: Id, n: nat)
    requires forall v :: v in kept <==> v in nodes && !Descends(nodes, v, x)
    requires forall v :: v in kept ==> kept[v] == nodes[v]
    requires k in kept
    ensures ChainProb(kept, k, n) == ChainProb(nodes, k, n)
    ensures ChainFreq(kept, k, n) == ChainFreq(nodes, k, n)
    decreases n
  {
    if n > 0 && nodes[k].parentId.Some? {
      var p := nodes[k].parentId.value;
      if p in nodes {
        ParentOutside(nodes, k, x);
        ChainPrune(nodes, x, kept, p, n - 1);
      }
    }
  }

  /** On a consistent well-formed store, deleting a record other than the
      root leaves the survivors' derived fields as they were: the recompute
      at the end of delete_node has nothing to change. */
  lemma DeleteKeepsConsistent(s: Store, x: Id)
    requires WellFormed(s) && Consistent(s)
    requires x in s.nodes && x != FindRoot(s).value
    ensures DeleteEnds(s, x) && DeleteNode(s, x).Ok?
    ensures DeleteNode(s, x).value == Prune(s, Descendants(s, x))
    ensures Consistent(DeleteNode(s, x).value)
  {
    DeleteKeepsWellFormed(s, x);
    var r := FindRoot(s).value;
    var p := Prune(s, Descendants(s, x));
    var u := Recompute(p);
    assert Settled(p.nodes, r, u.nodes);
    assert Settled(s.nodes, r, s.nodes);
    SurvivorsSettled(s.nodes, x, p.nodes, r, u.nodes);
    MapEq(u.nodes, p.nodes);
    assert u == p;
  }

  /** Every survivor of the pruning already carries what the recompute of
      the pruned records gives it. */
  lemma SurvivorsSettled(nodes: map<Id, Node>, x: Id, kept: map<Id, Node>, r: Id, out: map<Id, Node>)
    requires forall v :: v in kept <==> v in nodes && !Descends(nodes, v, x)
    requires forall v :: v in kept ==> kept[v] == nodes[v]
    requires forall v :: v in nodes ==> Descends(nodes, v, r)
    requires Settled(nodes, r, nodes) && Settled(kept, r, out)
    ensures out.Keys == kept.Keys
    ensures forall k :: k in kept ==> out[k] == kept[k]
  {
    forall k | k in kept
      ensures out[k] == kept[k]
    {
      var n: nat :| Ancestor(nodes, k, n) == Some(r);
      AncestorPrune(nodes, x, kept, k, n);
      assert Derived(nodes, r, k, n, nodes[k]);
      assert Derived(kept, r, k, n, out[k]);
      DerivedPrune(nodes, x, kept, r, k, n, out[k]);
    }
  }

  /** A survivor whose derived fields match its chain in the whole store
      matches its chain in the pruned store too. */
  lemma DerivedPrune(nodes: map<Id, Node>, x: Id, kept: map<Id, Node>, r: Id, k: Id, n: nat, b: Node)
    requires forall v :: v in kept <==> v in nodes && !Descends(nodes, v, x)
    requires forall v :: v in kept ==> kept[v] == nodes[v]
    requires k in kept
    requires Derived(nodes, r, k, n, nodes[k])
    requires Derived(kept, r, k, n, b) && SameEditable(b, kept[k])
    ensures b == kept[k]
  {
    ChainPrune(nodes, x, kept, k, n);
    NodeEq(b, kept[k]);
  }
}
