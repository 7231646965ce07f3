/** The store-editing paths of app.py: start-up, `add_node`, `reset_tree`,
    the root rename, the list of records offered as parents, and the
    "Add to Tree" insert, which computes a new record's path probability on
    the spot instead of running the recompute.

    Ids come from `uuid.uuid4()`; here they are parameters (`newId`,
    `rootId`), and `FreshId` shows that an id outside the store always
    exists.
 */
module App {
  import opened Wrappers
  import opened EventTree
  import opened Calculations

  /** One entry of the edge list: the parent, the new record, the branch.
      The label text and colour are presentation and are not kept. */
  datatype Edge = Edge(source: Id, target: Id, branch: Branch)

  /** The session: the store and the edge list. */
  datatype Session = Session(tree: Store, edges: seq<Edge>)

  /** The root record app.py writes at start-up and on reset: it has no
      `freq`, `cost`, `path_freq` or `risk` key. */
  function AppRoot(): Node
  {
    Node("Fire Ignition", Root, 1.0, None, None, None, None, Some(1.0), None, None)
  }

  /** `s` holds one record, under `rootId`: a root named "Fire Ignition"
      with no parent and no branch, probability 1 and path probability 1. */
  ghost predicate OnlyRoot(s: Store, rootId: Id)
  {
    && Valid(s) && s.nodes.Keys == {rootId}
    && var n := s.nodes[rootId];
       && n.kind == Root && n.name == "Fire Ignition"
       && n.parentId == None && n.branch == None
       && n.prob == 1.0 && n.pathProb == Some(1.0)
  }

  /** The store holding only `AppRoot()` under `rootId`. */
  function SingleRoot(rootId: Id): (s: Store)
    ensures OnlyRoot(s, rootId) && |s.nodes| == 1
    ensures WellFormed(s) && FindRoot(s) == Some(rootId)
  {
    var s := Store([rootId], map[rootId := AppRoot()]);
    assert FindRoot(s) == Some(rootId);
    assert Ancestor(s.nodes, rootId, 0) == Some(rootId);
    s
  }

  /** Start-up: each of the two session keys is created only when it is
      missing; an existing store or edge list is kept as it is. */
  function Startup(tree: Option<Store>, edges: Option<seq<Edge>>, rootId: Id): (s: Session)
    ensures tree.Some? ==> s.tree == tree.value
    ensures tree.None? ==> OnlyRoot(s.tree, rootId) && WellFormed(s.tree)
    ensures edges.Some? ==> s.edges == edges.value
    ensures edges.None? ==> s.edges == []
  {
    Session(if tree.Some? then tree.value else SingleRoot(rootId),
            if edges.Some? then edges.value else [])
  }

  /** `reset_tree`: whatever the session held, afterwards the store is a
      single root record and the edge list is empty. */
  function ResetTree(rootId: Id): (s: Session)
    ensures s.edges == []
    ensures OnlyRoot(s.tree, rootId) && |s.tree.nodes| == 1 && WellFormed(s.tree)
  {
    Session(SingleRoot(rootId), [])
  }

  /** A key that is not in the store: one character longer than all keys
      together. It stands for the uuid the source draws. */
  function FreshId(s: Store): (id: Id)
    requires Valid(s)
    ensures id !in s.nodes
  {
    var all := Concat(s.order);
    forall k | k in s.order
      ensures |k| <= |all|
    {
      ConcatLength(s.order, k);
    }
    all + "#"
  }

  function Concat(ids: seq<Id>): string
  {
    if ids == [] then "" else ids[0] + Concat(ids[1..])
  }

  lemma {:induction false} ConcatLength(ids: seq<Id>, k: Id)
    requires k in ids
    ensures |k| <= |Concat(ids)|
  {
    if ids[0] != k {
      ConcatLength(ids[1..], k);
    }
  }

  // ---------------------------------------------------------------------
  // add_node
  // ---------------------------------------------------------------------

  /** The record `add_node` writes: only `name`, `type`, `prob` and
      `parent_id` are set. */
  function AddedRecord(parentId: Id, name: string, successProb: real, isOutcome: bool): Node
  {
    Node(name, if isOutcome then Outcome else Event, successProb, None, None,
         Some(parentId), None, None, None, None)
  }

  /** `add_node`: looks the parent up (a missing one raises before anything
      is written) and stores the new record under `newId`. */
  function AddNode(s: Store, parentId: Id, name: string, successProb: real, isOutcome: bool, newId: Id): (r: Result<Store>)
    requires Valid(s)
    ensures r.Err? <==> parentId !in s.nodes
    ensures r.Err? ==> r.error == KeyError
    ensures r.Ok? ==> Valid(r.value) && r.value.nodes.Keys == s.nodes.Keys + {newId}
    ensures r.Ok? ==>
              var n := r.value.nodes[newId];
              && n.name == name && n.prob == successProb && n.parentId == Some(parentId)
              && (n.kind == Outcome <==> isOutcome) && (n.kind == Event <==> !isOutcome)
              && n.pathProb.None? && n.pathFreq.None? && n.risk.None?
    ensures r.Ok? && newId !in s.nodes ==>
              && r.value.order == s.order + [newId]
              && forall k :: k in s.nodes ==> r.value.nodes[k] == s.nodes[k]
  {
    if parentId !in s.nodes then Err(KeyError)
    else Ok(Put(s, newId, AddedRecord(parentId, name, successProb, isOutcome)))
  }

  /** `add_node` under a parent that is not an outcome, with a fresh id,
      keeps a well-formed store well formed. */
  lemma AddNodeKeepsWellFormed(s: Store, parentId: Id, name: string, successProb: real, isOutcome: bool, newId: Id)
    requires WellFormed(s) && parentId in s.nodes && s.nodes[parentId].kind != Outcome
    requires newId !in s.nodes
    ensures AddNode(s, parentId, name, successProb, isOutcome, newId).Ok?
    ensures WellFormed(AddNode(s, parentId, name, successProb, isOutcome, newId).value)
  {
    PutChildWellFormed(s, newId, AddedRecord(parentId, name, successProb, isOutcome));
  }

  // ---------------------------------------------------------------------
  // The parent drop-down
  // ---------------------------------------------------------------------

  /** The ids offered under "Attach to Parent Node", in dict order: every
      record that is not an outcome. */
  function ParentOptions(s: Store): (opts: seq<Id>)
    requires Valid(s)
    ensures NoDup(opts)
    ensures forall k :: k in opts <==> k in s.nodes && s.nodes[k].kind != Outcome
  {
    Eligible(s.order, s.nodes)
  }

  function Eligible(order: seq<Id>, nodes: map<Id, Node>): (opts: seq<Id>)
    requires forall k :: k in order ==> k in nodes
    ensures forall k :: k in opts <==> k in order && nodes[k].kind != Outcome
    ensures NoDup(order) ==> NoDup(opts)
  {
    if order == [] then []
    else
      var rest := Eligible(order[1..], nodes);
      assert forall k :: k in order <==> k == order[0] || k in order[1..];
      if nodes[order[0]].kind != Outcome then
        assert NoDup(order) ==> order[0] !in order[1..];
        [order[0]] + rest
      else rest
  }

  // ---------------------------------------------------------------------
  // The "Add to Tree" insert
  // ---------------------------------------------------------------------

  /** The record the insert writes. An outcome stores probability 0
      whatever the slider said. */
  function InsertedRecord(parent: Node, parentId: Id, branch: Branch, isOutcome: bool,
                          name: string, successProb: real): Node
    requires parent.pathProb.Some?
  {
    Node(name, if isOutcome then Outcome else Event, if isOutcome then 0.0 else successProb,
         None, None, Some(parentId), Some(branch),
         Some(Mul(parent.pathProb.value, EdgeFactor(parent, Some(branch)))), None, None)
  }

  /** "Add to Tree": reads the chosen parent (raising when it is missing or
      carries no path probability), stores the new record with its path
      probability, and appends the edge. */
  function Insert(sess: Session, parentId: Id, branch: Branch, isOutcome: bool,
                  name: string, successProb: real, newId: Id): (r: Result<Session>)
    requires Valid(sess.tree)
    ensures r.Err? <==> parentId !in sess.tree.nodes || sess.tree.nodes[parentId].pathProb.None?
    ensures r.Err? ==> r.error == KeyError
    ensures r.Ok? ==>
              && Valid(r.value.tree)
              && r.value.tree.nodes.Keys == sess.tree.nodes.Keys + {newId}
              && r.value.edges == sess.edges + [Edge(parentId, newId, branch)]
    // the stored record
    ensures r.Ok? ==>
              var n := r.value.tree.nodes[newId];
              && n.name == name && n.parentId == Some(parentId) && n.branch == Some(branch)
              && (n.kind == Outcome <==> isOutcome) && (n.kind == Event <==> !isOutcome)
              && n.prob == (if isOutcome then 0.0 else successProb)
              && n.pathProb.Some?
    // its path probability: the parent's times the factor of the chosen branch
    ensures r.Ok? ==>
              var parent := sess.tree.nodes[parentId];
              var pp := r.value.tree.nodes[newId].pathProb.value;
              && (parent.kind == Root ==> pp == parent.pathProb.value)
              && (parent.kind != Root && branch == Success ==> pp == parent.pathProb.value * parent.prob)
              && (parent.kind != Root && branch == Failure ==> pp == parent.pathProb.value * (1.0 - parent.prob))
              && (0.0 <= parent.prob <= 1.0 && 0.0 <= parent.pathProb.value <= 1.0 ==> 0.0 <= pp <= 1.0)
    // with a fresh id nothing else changes
    ensures r.Ok? && newId !in sess.tree.nodes ==>
              && r.value.tree.order == sess.tree.order + [newId]
              && forall k :: k in sess.tree.nodes ==> r.value.tree.nodes[k] == sess.tree.nodes[k]
  {
    if parentId !in sess.tree.nodes then Err(KeyError)
    else
      var parent := sess.tree.nodes[parentId];
      if parent.pathProb.None? then Err(KeyError)
      else
        var rec := InsertedRecord(parent, parentId, branch, isOutcome, name, successProb);
        UnitProduct(parent.pathProb.value, EdgeFactor(parent, Some(branch)));
        assert rec.pathProb.value == parent.pathProb.value * EdgeFactor(parent, Some(branch));
        Ok(Session(Put(sess.tree, newId, rec), sess.edges + [Edge(parentId, newId, branch)]))
  }

  /** Two numbers in [0,1] have their product in [0,1]. */
  lemma UnitProduct(a: real, b: real)
    ensures 0.0 <= a <= 1.0 && 0.0 <= b <= 1.0 ==> 0.0 <= a * b <= 1.0
  {
    if 0.0 <= a <= 1.0 && 0.0 <= b <= 1.0 {
      assert a * b <= a * 1.0;
    }
  }

  /** Inserting under an offered parent, with a fresh id, keeps a
      well-formed store well formed; in particular an outcome never gains a
      child this way. */
  lemma InsertKeepsWellFormed(sess: Session, parentId: Id, branch: Branch, isOutcome: bool,
                              name: string, successProb: real, newId: Id)
    requires WellFormed(sess.tree) && newId !in sess.tree.nodes
    requires parentId in ParentOptions(sess.tree)
    requires sess.tree.nodes[parentId].pathProb.Some?
    ensures Insert(sess, parentId, branch, isOutcome, name, successProb, newId).Ok?
    ensures WellFormed(Insert(sess, parentId, branch, isOutcome, name, successProb, newId).value.tree)
  {
    var parent := sess.tree.nodes[parentId];
    PutChildWellFormed(sess.tree, newId, InsertedRecord(parent, parentId, branch, isOutcome, name, successProb));
  }

  /** Every record below the root carries the path probability a recompute
      would give it: the product of the edge factors on its chain. The
      stores app.py builds carry no `path_freq` or `risk`, so this is the
      part of consistency they can keep. */
  ghost predicate PathProbsAgree(s: Store)
  {
    && Valid(s)
    && FindRoot(s).Some?
    && forall k, n: nat :: k in s.nodes && Ancestor(s.nodes, k, n) == Some(FindRoot(s).value) ==>
         s.nodes[k].pathProb == Some(ChainProb(s.nodes, k, n))
  }

  /** The store of start-up and of `reset_tree` already agrees. */
  lemma StartAgrees(edges: Option<seq<Edge>>, rootId: Id)
    ensures PathProbsAgree(SingleRoot(rootId))
    ensures PathProbsAgree(Startup(None, edges, rootId).tree)
    ensures PathProbsAgree(ResetTree(rootId).tree)
  {
    var s := SingleRoot(rootId);
    forall k, n: nat | k in s.nodes && Ancestor(s.nodes, k, n) == Some(rootId)
      ensures s.nodes[k].pathProb == Some(ChainProb(s.nodes, k, n))
    {
      assert k == rootId;
    }
  }

  /** A store left by a recompute agrees. */
  lemma ConsistentAgrees(s: Store)
    requires Consistent(s) && FindRoot(s).Some?
    ensures PathProbsAgree(s)
  {
    forall k, n: nat | k in s.nodes && Ancestor(s.nodes, k, n) == Some(FindRoot(s).value)
      ensures s.nodes[k].pathProb == Some(ChainProb(s.nodes, k, n))
    {
      ConsistentAt(s, k, n);
    }
  }

  /** On an agreeing well-formed store, the path probability of every
      record is the one a recompute gives it. */
  lemma AgreesWithRecompute(s: Store, k: Id)
    requires WellFormed(s) && PathProbsAgree(s) && k in s.nodes
    ensures RecomputeTerminates(s)
    ensures Recompute(s).nodes[k].pathProb == s.nodes[k].pathProb
  {
    RootNotOwnAncestor(s);
    var n: nat :| Ancestor(s.nodes, k, n) == Some(FindRoot(s).value);
    RecomputeAt(s, k, n);
  }

  /** An insert under an offered parent, with a fresh id, keeps the
      agreement: the path probability it writes is the chain product of the
      new record. With `StartAgrees` and `RenameKeepsAgreement`, every path
      probability app.py writes is the one the recompute would give. */
  lemma InsertKeepsAgreement(sess: Session, parentId: Id, branch: Branch, isOutcome: bool,
                             name: string, successProb: real, newId: Id)
    requires WellFormed(sess.tree) && PathProbsAgree(sess.tree)
    requires parentId in ParentOptions(sess.tree) && newId !in sess.tree.nodes
    ensures Insert(sess, parentId, branch, isOutcome, name, successProb, newId).Ok?
    ensures var t := Insert(sess, parentId, branch, isOutcome, name, successProb, newId).value.tree;
            WellFormed(t) && PathProbsAgree(t)
  {
    var s := sess.tree;
    var r := FindRoot(s).value;
    var m: nat :| Ancestor(s.nodes, parentId, m) == Some(r);
    assert s.nodes[parentId].pathProb == Some(ChainProb(s.nodes, parentId, m));
    InsertKeepsWellFormed(sess, parentId, branch, isOutcome, name, successProb, newId);
    var rec := InsertedRecord(s.nodes[parentId], parentId, branch, isOutcome, name, successProb);
    assert Insert(sess, parentId, branch, isOutcome, name, successProb, newId).value.tree == Put(s, newId, rec);
    PutKeepsAgreement(s, parentId, rec, newId, m, r, Put(s, newId, rec).nodes);
  }

  /** Storing under a fresh key a child whose path probability is its
      parent's times the edge factor keeps the agreement. */
  lemma PutKeepsAgreement(s: Store, p: Id, rec: Node, id: Id, m: nat, r: Id, nodes: map<Id, Node>)
    requires WellFormed(s) && PathProbsAgree(s) && id !in s.nodes
    requires p in s.nodes && s.nodes[p].kind != Outcome
    requires rec.kind != Root && rec.parentId == Some(p)
    requires r == FindRoot(s).value && Ancestor(s.nodes, p, m) == Some(r)
    requires s.nodes[p].pathProb == Some(ChainProb(s.nodes, p, m))
    requires rec.pathProb == Some(Mul(s.nodes[p].pathProb.value, EdgeFactor(s.nodes[p], rec.branch)))
    requires nodes == Put(s, id, rec).nodes
    ensures PathProbsAgree(Put(s, id, rec))
  {
    var t := Put(s, id, rec);
    PutChildWellFormed(s, id, rec);
    WellFormedClosed(s);
    RootNotOwnAncestor(t);
    NewChain(s, id, rec, p, m, r);
    forall k, n: nat | k in nodes && Ancestor(nodes, k, n) == Some(r)
      ensures nodes[k].pathProb == Some(ChainProb(nodes, k, n))
    {
      if k == id {
        DepthUnique(nodes, id, r, n, m + 1);
      } else {
        AncestorExtend(s.nodes, id, rec, k, n);
        ChainExtend(s.nodes, id, rec, k, n);
      }
    }
  }

  /** The path probability the insert writes is the one a recompute of the
      new store gives the new record. */
  lemma InsertAgreesWithRecompute(sess: Session, parentId: Id, branch: Branch, isOutcome: bool,
                                  name: string, successProb: real, newId: Id)
    requires WellFormed(sess.tree) && PathProbsAgree(sess.tree)
    requires parentId in ParentOptions(sess.tree) && newId !in sess.tree.nodes
    ensures Insert(sess, parentId, branch, isOutcome, name, successProb, newId).Ok?
    ensures var t := Insert(sess, parentId, branch, isOutcome, name, successProb, newId).value.tree;
            && RecomputeTerminates(t)
            && Recompute(t).nodes[newId].pathProb == t.nodes[newId].pathProb
  {
    InsertKeepsAgreement(sess, parentId, branch, isOutcome, name, successProb, newId);
    var t := Insert(sess, parentId, branch, isOutcome, name, successProb, newId).value.tree;
    AgreesWithRecompute(t, newId);
  }

  /** On a consistent store, a record below the root carries its chain
      product. */
  lemma ConsistentAt(s: Store, k: Id, n: nat)
    requires Consistent(s) && FindRoot(s).Some?
    requires k in s.nodes && Ancestor(s.nodes, k, n) == Some(FindRoot(s).value)
    ensures s.nodes[k].pathProb == Some(ChainProb(s.nodes, k, n))
  {
    RecomputeAt(s, k, n);
  }

  /** The chain of a record added under `p`, one link below `p`. */
  lemma NewChain(s: Store, id: Id, rec: Node, p: Id, n: nat, r: Id)
    requires WellFormed(s) && id !in s.nodes && p in s.nodes
    requires rec.parentId == Some(p) && Ancestor(s.nodes, p, n) == Some(r)
    ensures Ancestor(s.nodes[id := rec], id, n + 1) == Some(r)
    ensures ChainProb(s.nodes[id := rec], id, n + 1) == Mul(ChainProb(s.nodes, p, n), EdgeFactor(s.nodes[p], rec.branch))
  {
    WellFormedClosed(s);
    AncestorExtend(s.nodes, id, rec, p, n);
    ChainExtend(s.nodes, id, rec, p, n);
    ChainStep(s.nodes[id := rec], id, n + 1);
  }

  /** Adding a record under a fresh key changes no existing chain product. */
  lemma {:induction false} ChainExtend(nodes: map<Id, Node>, id: Id, rec: Node, k: Id, n: nat)
    requires Closed(nodes) && id !in nodes && k in nodes
    ensures ChainProb(nodes[id := rec], k, n) == ChainProb(nodes, k, n)
    ensures ChainFreq(nodes[id := rec], k, n) == ChainFreq(nodes, k, n)
    decreases n
  {
    if n > 0 && nodes[k].parentId.Some? {
      ChainExtend(nodes, id, rec, nodes[k].parentId.value, n - 1);
    }
  }

  // ---------------------------------------------------------------------
  // Renaming the initiating event
  // ---------------------------------------------------------------------

  /** The root rename: the first root record's name is compared with the
      entered name; when they differ, every record of type root takes the
      new name. With no root record, `next` raises. */
  function RenameRoot(s: Store, newName: string): (r: Result<Store>)
    requires Valid(s)
    ensures r.Err? <==> FindRoot(s).None?
    ensures r.Err? ==> r.error == StopIteration
    ensures r.Ok? ==> r.value.order == s.order && r.value.nodes.Keys == s.nodes.Keys
    // the initiating event ends with the entered name
    ensures r.Ok? ==> FindRoot(r.value) == FindRoot(s) && r.value.nodes[FindRoot(s).value].name == newName
    // only the names of root records change
    ensures r.Ok? ==> forall k :: k in s.nodes ==>
              && r.value.nodes[k] == s.nodes[k].(name := r.value.nodes[k].name)
              && (s.nodes[k].kind != Root ==> r.value.nodes[k] == s.nodes[k])
    // a changed name is written to every root record, not only the first
    ensures r.Ok? && newName != s.nodes[FindRoot(s).value].name ==>
              forall k :: k in s.nodes && s.nodes[k].kind == Root ==> r.value.nodes[k].name == newName
    // an unchanged name leaves the store as it is
    ensures r.Ok? && newName == s.nodes[FindRoot(s).value].name ==> r.value == s
  {
    match FindRoot(s)
    case None => Err(StopIteration)
    case Some(root) =>
      if newName == s.nodes[root].name then Ok(s)
      else
        var t := Store(s.order, map k | k in s.nodes ::
                         if s.nodes[k].kind == Root then s.nodes[k].(name := newName) else s.nodes[k]);
        FindRootFrame(s, t);
        Ok(t)
  }

  /** Entering the same name twice is the same as entering it once. */
  lemma RenameIdempotent(s: Store, newName: string)
    requires Valid(s) && FindRoot(s).Some?
    ensures RenameRoot(RenameRoot(s, newName).value, newName) == RenameRoot(s, newName)
  {
  }

  /** A rename keeps a well-formed store well formed. */
  lemma RenameKeepsWellFormed(s: Store, newName: string)
    requires WellFormed(s)
    ensures RenameRoot(s, newName).Ok? && WellFormed(RenameRoot(s, newName).value)
  {
    WellFormedFrame(s, RenameRoot(s, newName).value);
  }

  /** A rename keeps the agreement: names take no part in the products. */
  lemma RenameKeepsAgreement(s: Store, newName: string)
    requires WellFormed(s) && PathProbsAgree(s)
    ensures RenameRoot(s, newName).Ok? && PathProbsAgree(RenameRoot(s, newName).value)
  {
    var t := RenameRoot(s, newName).value;
    forall k, n: nat | k in t.nodes && Ancestor(t.nodes, k, n) == Some(FindRoot(t).value)
      ensures t.nodes[k].pathProb == Some(ChainProb(t.nodes, k, n))
    {
      AncestorFrame(s.nodes, t.nodes, k, n);
      ChainFrame(s.nodes, t.nodes, k, n);
    }
  }

  // ---------------------------------------------------------------------
  // A worked session
  // ---------------------------------------------------------------------

  /** Start a session, add a barrier "Detector" with success probability
      0.9 under the root, then the outcomes "Loss" on its failure branch and
      "Safe" on its success branch: the path probabilities are 1, 0.1 and
      0.9, and the outcome stores probability 0. */
  lemma DetectorScenario()
    ensures var s0 := Startup(None, None, "root");
            var s1 := Insert(s0, "root", Success, false, "Detector", 0.9, "det");
            && s1.Ok?
            && var s2 := Insert(s1.value, "det", Failure, true, "Loss", 1.0, "loss");
            && s2.Ok?
            && var s3 := Insert(s2.value, "det", Success, true, "Safe", 1.0, "safe");
            && s3.Ok?
            && var t := s3.value.tree;
            && t.nodes["det"].pathProb == Some(1.0)
            && t.nodes["loss"].pathProb == Some(0.1)
            && t.nodes["safe"].pathProb == Some(0.9)
            && t.nodes["loss"].prob == 0.0
            && |s3.value.edges| == 3
  {
    var s0 := Startup(None, None, "root");
    assert s0.tree.nodes["root"].kind == Root && s0.tree.nodes["root"].pathProb == Some(1.0);
    var s1 := Insert(s0, "root", Success, false, "Detector", 0.9, "det");
    var det := s1.value.tree.nodes["det"];
    assert det.kind == Event && det.prob == 0.9 && det.pathProb == Some(1.0);
    var s2 := Insert(s1.value, "det", Failure, true, "Loss", 1.0, "loss");
    assert s2.value.tree.nodes["det"] == det;
    assert s2.value.tree.nodes["loss"].pathProb == Some(1.0 * (1.0 - 0.9));
    var s3 := Insert(s2.value, "det", Success, true, "Safe", 1.0, "safe");
    assert s3.value.tree.nodes["det"] == det;
    assert s3.value.tree.nodes["loss"] == s2.value.tree.nodes["loss"];
    assert s3.value.tree.nodes["safe"].pathProb == Some(1.0 * 0.9);
  }
}
