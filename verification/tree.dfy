/** The tree store: node records keyed by id, the parent relation over them,
    and the edge-factor rule that the recompute and the insert paths share.

    A store is a Python dict of node records. Its iteration order is the
    order in which keys were inserted; the order decides which root record
    `next(...)` finds first, so the model keeps it beside the map.
 */
module EventTree {
  import opened Wrappers

  type Id = string

  /** The record's `type`: "root", "event" (a barrier) or "outcome". */
  datatype Kind = Root | Event | Outcome

  /** The record's `branch`: "Success (Yes)" or "Failure (No)". */
  datatype Branch = Success | Failure

  /** One node record. `name`, `kind`, `prob`, `freq`, `cost`, `parentId` and
      `branch` are set by the editing surface; `pathProb`, `pathFreq` and
      `risk` are derived. A key that a creation path leaves out is `None`. */
  datatype Node = Node(
    name: string,
    kind: Kind,
    prob: real,
    freq: Option<real>,
    cost: Option<real>,
    parentId: Option<Id>,
    branch: Option<Branch>,
    pathProb: Option<real>,
    pathFreq: Option<real>,
    risk: Option<real>)

  /** The editable fields of two records agree (derived fields may not). */
  predicate SameEditable(a: Node, b: Node)
  {
    && a.name == b.name
    && a.kind == b.kind
    && a.prob == b.prob
    && a.freq == b.freq
    && a.cost == b.cost
    && a.parentId == b.parentId
    && a.branch == b.branch
  }

  /** The dict: `nodes` with its keys listed in insertion order. */
  datatype Store = Store(order: seq<Id>, nodes: map<Id, Node>)

  predicate NoDup(xs: seq<Id>)
  {
    forall i, j :: 0 <= i < j < |xs| ==> xs[i] != xs[j]
  }

  /** `order` lists every key exactly once. */
  predicate Valid(s: Store)
  {
    && NoDup(s.order)
    && (forall k :: k in s.order ==> k in s.nodes)
    && (forall k :: k in s.nodes ==> k in s.order)
  }

  /** The factor on the edge from `parent` into a child on `branch`: 1 below
      a root record, the parent's success probability on the success branch,
      and its complement on any other branch value (including none). */
  function EdgeFactor(parent: Node, branch: Option<Branch>): (e: real)
    ensures parent.kind == Root ==> e == 1.0
    ensures parent.kind != Root && branch == Some(Success) ==> e == parent.prob
    ensures parent.kind != Root && branch != Some(Success) ==> e == 1.0 - parent.prob
    ensures 0.0 <= parent.prob <= 1.0 ==> 0.0 <= e <= 1.0
  {
    if parent.kind == Root then 1.0
    else if branch == Some(Success) then parent.prob
    else 1.0 - parent.prob
  }

  /** The cost used in the risk product; an absent `cost` key reads as 0. */
  function CostOf(n: Node): real
  {
    n.cost.GetOr(0.0)
  }

  /** The frequency used at the root; an absent `freq` key reads as 1. */
  function FreqOf(n: Node): real
  {
    n.freq.GetOr(1.0)
  }

  /** The first key in dict order whose record has type root: what
      `next(nid for nid, n in nodes.items() if n['type'] == 'root')` finds. */
  function FindRoot(s: Store): (r: Option<Id>)
    requires Valid(s)
    ensures r.Some? ==> r.value in s.nodes && s.nodes[r.value].kind == Root
    ensures r.Some? ==> exists i :: 0 <= i < |s.order| && s.order[i] == r.value
                                 && forall j :: 0 <= j < i ==> s.nodes[s.order[j]].kind != Root
    ensures r.None? <==> forall k :: k in s.nodes ==> s.nodes[k].kind != Root
  {
    FirstRoot(s.order, s.nodes)
  }

  function FirstRoot(order: seq<Id>, nodes: map<Id, Node>): (r: Option<Id>)
    requires forall k :: k in order ==> k in nodes
    ensures r.Some? ==> r.value in nodes && nodes[r.value].kind == Root
    ensures r.Some? ==> exists i :: 0 <= i < |order| && order[i] == r.value
                                 && forall j :: 0 <= j < i ==> nodes[order[j]].kind != Root
    ensures r.None? <==> forall k :: k in order ==> nodes[k].kind != Root
  {
    if order == [] then None
    else if nodes[order[0]].kind == Root then Some(order[0])
    else
      var r := FirstRoot(order[1..], nodes);
      assert forall k :: k in order ==> k == order[0] || k in order[1..];
      if r.Some? then
        ghost var i :| 0 <= i < |order[1..]| && order[1..][i] == r.value
                     && forall j :: 0 <= j < i ==> nodes[order[1..][j]].kind != Root;
        assert order[i + 1] == r.value;
        r
      else r
  }

  /** FindRoot reads only the key order and the `type` of each record. */
  lemma FindRootFrame(s: Store, t: Store)
    requires Valid(s) && Valid(t) && s.order == t.order
    requires forall k :: k in s.nodes ==> k in t.nodes && s.nodes[k].kind == t.nodes[k].kind
    ensures FindRoot(s) == FindRoot(t)
  {
    FirstRootFrame(s.order, s.nodes, t.nodes);
  }

  lemma {:induction false} FirstRootFrame(order: seq<Id>, a: map<Id, Node>, b: map<Id, Node>)
    requires forall k :: k in order ==> k in a && k in b && a[k].kind == b[k].kind
    ensures FirstRoot(order, a) == FirstRoot(order, b)
  {
    if order != [] {
      FirstRootFrame(order[1..], a, b);
    }
  }

  /** The keys, in dict order, whose record names `cur` as its parent: the
      list comprehension that both breadth-first scans use. */
  function ChildrenOf(order: seq<Id>, nodes: map<Id, Node>, cur: Id): (cs: seq<Id>)
    requires forall k :: k in order ==> k in nodes
    ensures forall k :: k in cs <==> k in order && nodes[k].parentId == Some(cur)
    ensures NoDup(order) ==> NoDup(cs)
  {
    if order == [] then []
    else
      var rest := ChildrenOf(order[1..], nodes, cur);
      assert forall k :: k in order <==> k == order[0] || k in order[1..];
      if nodes[order[0]].parentId == Some(cur) then
        assert NoDup(order) ==> order[0] !in order[1..];
        [order[0]] + rest
      else rest
  }

  /** Following `parentId` links `n` times from `id`; `None` once a record is
      missing or has no parent. */
  function Ancestor(nodes: map<Id, Node>, id: Id, n: nat): Option<Id>
    decreases n
  {
    if n == 0 then Some(id)
    else if id in nodes && nodes[id].parentId.Some? then Ancestor(nodes, nodes[id].parentId.value, n - 1)
    else None
  }

  /** `id` is `top` or lies below it along parent links. */
  ghost predicate Descends(nodes: map<Id, Node>, id: Id, top: Id)
  {
    exists n: nat :: Ancestor(nodes, id, n) == Some(top)
  }

  /** No chain of one or more parent links leads from `x` back to `x`: the
      condition under which a breadth-first scan from `x` ends. */
  ghost predicate NotOwnAncestor(nodes: map<Id, Node>, x: Id)
  {
    forall n: nat :: n >= 1 ==> Ancestor(nodes, x, n) != Some(x)
  }

  /** Following a + b links is following a links and then b more. */
  lemma {:induction false} AncestorAdd(nodes: map<Id, Node>, id: Id, a: nat, b: nat)
    requires Ancestor(nodes, id, a).Some?
    ensures Ancestor(nodes, id, a + b) == Ancestor(nodes, Ancestor(nodes, id, a).value, b)
    decreases a
  {
    if a > 0 {
      AncestorAdd(nodes, nodes[id].parentId.value, a - 1, b);
    }
  }

  /** Below a top that is not its own ancestor, the distance to it is unique. */
  lemma {:induction false} DepthUnique(nodes: map<Id, Node>, id: Id, top: Id, a: nat, b: nat)
    requires NotOwnAncestor(nodes, top)
    requires Ancestor(nodes, id, a) == Some(top) && Ancestor(nodes, id, b) == Some(top)
    ensures a == b
    decreases a
  {
    if a != 0 && b != 0 {
      DepthUnique(nodes, nodes[id].parentId.value, top, a - 1, b - 1);
    }
  }

  /** The parent chain depends only on the `parentId` of each record. */
  lemma {:induction false} AncestorFrame(a: map<Id, Node>, b: map<Id, Node>, id: Id, n: nat)
    requires a.Keys == b.Keys
    requires forall k :: k in a ==> a[k].parentId == b[k].parentId
    ensures Ancestor(a, id, n) == Ancestor(b, id, n)
    decreases n
  {
    if n > 0 && id in a && a[id].parentId.Some? {
      AncestorFrame(a, b, a[id].parentId.value, n - 1);
    }
  }

  /** The structural invariants of a tree built through the editing surface:
      exactly one root record, without a parent; every other record has a
      parent that exists and is not an outcome; every record lies below the
      root. */
  ghost predicate WellFormed(s: Store)
  {
    && Valid(s)
    && FindRoot(s).Some?
    && var r := FindRoot(s).value;
       && (forall k :: k in s.nodes && s.nodes[k].kind == Root ==> k == r)
       && s.nodes[r].parentId.None?
       && (forall k :: k in s.nodes && k != r ==> HasLiveParent(s.nodes, k))
       && (forall k :: k in s.nodes ==> Descends(s.nodes, k, r))
  }

  /** The record at `k` names a parent that exists and is not an outcome. */
  ghost predicate HasLiveParent(nodes: map<Id, Node>, k: Id)
    requires k in nodes
  {
    && nodes[k].parentId.Some?
    && nodes[k].parentId.value in nodes
    && nodes[nodes[k].parentId.value].kind != Outcome
  }

  /** The root of a well-formed store is not its own ancestor. */
  lemma RootNotOwnAncestor(s: Store)
    requires Valid(s) && FindRoot(s).Some?
    requires s.nodes[FindRoot(s).value].parentId.None?
    ensures NotOwnAncestor(s.nodes, FindRoot(s).value)
  {
    var r := FindRoot(s).value;
    forall n: nat | n >= 1
      ensures Ancestor(s.nodes, r, n) != Some(r)
    {
    }
  }

  /** Whether two stores agree on their keys, their order and every editable
      field: a change to derived fields alone. */
  predicate SameShape(s: Store, t: Store)
  {
    && s.order == t.order
    && s.nodes.Keys == t.nodes.Keys
    && forall k :: k in s.nodes ==> SameEditable(s.nodes[k], t.nodes[k])
  }

  /** Whether two stores agree on their keys, their order, and the type and
      parent of every record: the part of a store that WellFormed reads. */
  predicate SameLinks(s: Store, t: Store)
  {
    && s.order == t.order
    && s.nodes.Keys == t.nodes.Keys
    && forall k :: k in s.nodes ==> s.nodes[k].kind == t.nodes[k].kind && s.nodes[k].parentId == t.nodes[k].parentId
  }

  /** WellFormed reads only the links of a store. */
  lemma WellFormedFrame(s: Store, t: Store)
    requires WellFormed(s) && SameLinks(s, t)
    ensures WellFormed(t)
  {
    assert Valid(t);
    FindRootFrame(s, t);
    var r := FindRoot(s).value;
    assert forall k :: k in t.nodes && k != r ==> HasLiveParent(s.nodes, k) && HasLiveParent(t.nodes, k);
    DescendsFrame(s, t, r);
  }

  lemma DescendsFrame(s: Store, t: Store, r: Id)
    requires SameLinks(s, t)
    requires forall k :: k in s.nodes ==> Descends(s.nodes, k, r)
    ensures forall k :: k in t.nodes ==> Descends(t.nodes, k, r)
  {
    forall k | k in t.nodes
      ensures Descends(t.nodes, k, r)
    {
      var n: nat :| Ancestor(s.nodes, k, n) == Some(r);
      AncestorFrame(s.nodes, t.nodes, k, n);
    }
  }

  // ---------------------------------------------------------------------
  // Writing one key
  // ---------------------------------------------------------------------

  /** `nodes[id] = rec`: a new key goes to the end of the dict order, an
      existing key keeps its place and gets the new record. */
  function Put(s: Store, id: Id, rec: Node): (t: Store)
    requires Valid(s)
    ensures Valid(t)
    ensures t.nodes == s.nodes[id := rec]
    ensures id in s.nodes ==> t.order == s.order
    ensures id !in s.nodes ==> t.order == s.order + [id]
  {
    if id in s.nodes then Store(s.order, s.nodes[id := rec])
    else
      assert forall k :: k in s.order + [id] <==> k in s.order || k == id;
      Store(s.order + [id], s.nodes[id := rec])
  }

  /** Every record's parent, when it names one, is a key of the store. */
  ghost predicate Closed(nodes: map<Id, Node>)
  {
    forall k :: k in nodes && nodes[k].parentId.Some? ==> nodes[k].parentId.value in nodes
  }

  /** Adding a record under a fresh key changes no existing parent chain. */
  lemma {:induction false} AncestorExtend(nodes: map<Id, Node>, id: Id, rec: Node, k: Id, n: nat)
    requires Closed(nodes) && id !in nodes && k in nodes
    ensures Ancestor(nodes[id := rec], k, n) == Ancestor(nodes, k, n)
    decreases n
  {
    if n > 0 && nodes[k].parentId.Some? {
      AncestorExtend(nodes, id, rec, nodes[k].parentId.value, n - 1);
    }
  }

  /** Appending a key whose record is not a root leaves the first root where
      it was. */
  lemma {:induction false} FirstRootAppend(order: seq<Id>, a: map<Id, Node>, b: map<Id, Node>, id: Id)
    requires forall k :: k in order ==> k in a && k in b && a[k].kind == b[k].kind
    requires id in b && b[id].kind != Root
    ensures FirstRoot(order + [id], b) == FirstRoot(order, a)
  {
    if order == [] {
      assert order + [id] == [id];
    } else {
      assert (order + [id])[1..] == order[1..] + [id];
      FirstRootAppend(order[1..], a, b, id);
    }
  }

  /** A store stays well formed when a record that is not a root is added
      under a fresh key, as the child of a record that is not an outcome. */
  lemma PutChildWellFormed(s: Store, id: Id, rec: Node)
    requires WellFormed(s) && id !in s.nodes
    requires rec.kind != Root && rec.parentId.Some?
    requires rec.parentId.value in s.nodes && s.nodes[rec.parentId.value].kind != Outcome
    ensures WellFormed(Put(s, id, rec))
    ensures FindRoot(Put(s, id, rec)) == FindRoot(s)
  {
    var t := Put(s, id, rec);
    FirstRootAppend(s.order, s.nodes, t.nodes, id);
    assert FindRoot(t) == FindRoot(s);
    var r := FindRoot(s).value;
    PutDescends(s, id, rec, r, t.nodes);
    PutLiveParents(s, id, rec, r, t.nodes);
  }

  lemma PutDescends(s: Store, id: Id, rec: Node, r: Id, nodes: map<Id, Node>)
    requires WellFormed(s) && id !in s.nodes && r == FindRoot(s).value
    requires rec.parentId.Some? && rec.parentId.value in s.nodes
    requires nodes == s.nodes[id := rec]
    ensures forall k :: k in nodes ==> Descends(nodes, k, r)
  {
    WellFormedClosed(s);
    forall k | k in nodes
      ensures Descends(nodes, k, r)
    {
      if k == id {
        var p := rec.parentId.value;
        var n: nat :| Ancestor(s.nodes, p, n) == Some(r);
        AncestorExtend(s.nodes, id, rec, p, n);
        assert Ancestor(nodes, id, n + 1) == Some(r);
      } else {
        var n: nat :| Ancestor(s.nodes, k, n) == Some(r);
        AncestorExtend(s.nodes, id, rec, k, n);
      }
    }
  }

  lemma PutLiveParents(s: Store, id: Id, rec: Node, r: Id, nodes: map<Id, Node>)
    requires WellFormed(s) && id !in s.nodes && r == FindRoot(s).value
    requires rec.parentId.Some? && rec.parentId.value in s.nodes && s.nodes[rec.parentId.value].kind != Outcome
    requires nodes == s.nodes[id := rec]
    ensures forall k :: k in nodes && k != r ==> HasLiveParent(nodes, k)
  {
    forall k | k in nodes && k != r
      ensures HasLiveParent(nodes, k)
    {
      if k != id {
        assert HasLiveParent(s.nodes, k);
      }
    }
  }

  /** In a well-formed store every named parent exists. */
  lemma WellFormedClosed(s: Store)
    requires WellFormed(s)
    ensures Closed(s.nodes)
  {
    var r := FindRoot(s).value;
    forall k | k in s.nodes && s.nodes[k].parentId.Some?
      ensures s.nodes[k].parentId.value in s.nodes
    {
      if k != r {
        assert HasLiveParent(s.nodes, k);
      }
    }
  }

  /** A well-formed store has no cycle: no record is its own ancestor. */
  lemma WellFormedAcyclic(s: Store, x: Id)
    requires WellFormed(s)
    ensures NotOwnAncestor(s.nodes, x)
  {
    var r := FindRoot(s).value;
    forall m: nat | m >= 1
      ensures Ancestor(s.nodes, x, m) != Some(x)
    {
      if x in s.nodes && Ancestor(s.nodes, x, m) == Some(x) {
        var d: nat :| Ancestor(s.nodes, x, d) == Some(r);
        AncestorAdd(s.nodes, x, d, m);
        AncestorAdd(s.nodes, x, m, d);
        RootHasNoAncestor(s.nodes, r, m);
      }
    }
  }

  /** Above a record without a parent there is nothing. */
  lemma RootHasNoAncestor(nodes: map<Id, Node>, r: Id, m: nat)
    requires r in nodes && nodes[r].parentId.None? && m >= 1
    ensures Ancestor(nodes, r, m) == None
  {
  }
}
