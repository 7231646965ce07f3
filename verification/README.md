# Event-tree consistency engine, modelled in Dafny

This project models the core of a Streamlit event-tree builder. The app is
used for fire-risk analysis. The tree is held as a dict from node id to node
record. Each record has:

- `type`: root, event (a barrier) or outcome;
- editable fields `prob`, `freq`, `cost`, `parent_id` and `branch`;
- derived fields `path_prob`, `path_freq` and `risk`.

The model covers three parts.

- **Recompute** (`recalculate_tree`). This is a breadth-first pass from the
  first root record. It pushes path probability and path frequency down the
  parent links and sets `risk = path_freq * cost` at every child. The edge
  factor is:
  - 1 below a root;
  - the parent's `prob` on the "Success (Yes)" branch;
  - `1 - prob` on any other branch.
- **Cascade delete** (`delete_node` and its inner `get_descendants`). It
  collects the record and everything below it, deletes all of them, and
  recomputes.
- **Store-editing paths.** These are `init_session_state`, the app's
  start-up, `reset_tree`, `add_node`, the parent drop-down, the "Add to
  Tree" insert and the root rename. The insert sets the new record's path
  probability itself, with the same edge rule.

Files:

- `wrappers.dfy`: `Option` (a dict key that may be absent) and `Result` (an
  operation that may raise `KeyError` or `StopIteration`).
- `tree.dfy` (module `EventTree`):
  - the `Node` record and the `Store`, a map plus its keys in dict order;
  - the edge factor and the first-root lookup;
  - the children scan and the parent chain (`Ancestor`);
  - the structural invariant `WellFormed`, with lemmas about which edits
    preserve it.
- `traversal.dfy` (module `Traversal`):
  - the FIFO scan shared by both breadth-first loops;
  - its invariant `Frontier`;
  - `Descendants` (`get_descendants`).
- `calculations.dfy` (module `Calculations`): `Recompute`, `DeleteNode`,
  `InitSessionState`, and their properties.
- `app.dfy` (module `App`): start-up, reset, `add_node`, the parent
  drop-down, the insert and the rename.

How the Python behaviour maps onto the model:

- **Dict order.** A Python dict remembers insertion order. That order decides
  which root `next(...)` finds first and the order of each children list, so
  a `Store` keeps `order` next to its map.
- **Absent keys.** A key a creation path leaves out is `None`.
  `dict.get(k, default)` is `GetOr(default)`.
- **Ids.** `uuid.uuid4()` ids are parameters (`rootId`, `newId`).
  `FreshId` shows that an unused id always exists.
- **Reals.** Probabilities are Dafny `real`, so the products and sums hold
  exactly. `Mul(a, b)` is `a * b`: real multiplication under a name, used
  in the contracts of the recompute. The insert's contract writes `*`.
- **Termination.** Both breadth-first loops end only if the start record is
  not its own ancestor (`NotOwnAncestor`). This is a precondition of
  `Recompute` (through `RecomputeTerminates`) and of `DeleteNode` (through
  `DeleteEnds`). `WellFormedAcyclic` shows that every well-formed store meets
  it.

Recompute is proved against a reference definition:

- `ChainProb` is the product of the edge factors along a record's ancestor
  chain. `ChainFreq` is the same product multiplied by the root's frequency.
- `Settled` states what a full pass must leave. Every record below the root
  carries these products, with `risk` equal to the path frequency times the
  cost. Every other record, and every editable field, is untouched.

The model does what the Python does, including where a stricter tree editor
might refuse:

- With no root record, `recalculate_tree` returns quietly. It does not fail.
- `delete_node` does not refuse the root. Deleting it removes every record
  below it.
- The insert neither recomputes nor refuses a second child of the root.
- Lookups of missing ids raise `KeyError` (`StopIteration` for the rename's
  `next`). There is no other error kind.

The stores app.py builds never carry `path_freq` or `risk`, so a recompute
would change them. What they do keep is `PathProbsAgree`: every record's
path probability is the product of the edge factors on its chain, the
value a recompute would write. Start-up, reset, the insert and the rename
all keep it.

## Model

| member | source | states |
|---|---|---|
| EventTree.EdgeFactor | calculations.py:53-60 | the factor is 1 below a root, the parent's `prob` on the success branch, and `1 - prob` on any other branch value (including none); it lies in [0,1] when `prob` does |
| EventTree.FindRoot | calculations.py:31 | the result is the first key in dict order whose record is a root; it is `None` exactly when no record is a root |
| EventTree.ChildrenOf | calculations.py:48 | the list holds exactly the keys whose record names `cur` as parent, each once |
| EventTree.Put | app.py:126-133 | storing under a new key appends it to the dict order; storing under an existing key keeps the order; the map gets the record |
| EventTree.PutChildWellFormed | app.py:126-133 | adding a non-root record under a fresh id, below a non-outcome parent, keeps the store well formed and keeps its root |
| EventTree.WellFormedAcyclic | calculations.py:44-71 | in a well-formed store no record is its own ancestor, so both breadth-first loops end |
| Traversal.Collect | calculations.py:79-85 | the popped-then-queued scan yields each record below `x` exactly once and nothing else, extending what was already popped |
| Traversal.Descendants | calculations.py:77-85 | `get_descendants(x)` starts with `x` and lists, without repetition, exactly the records whose parent chain reaches `x` |
| Calculations.Walk | calculations.py:42-71 | the `while queue` loop leaves every record below the root with its chain products, the root's own risk untouched, editable fields unchanged, and records outside the tree untouched |
| Calculations.Recompute | calculations.py:25-71 | with no root the store is unchanged; otherwise the result satisfies the reference specification `Settled`; keys, order, editable fields and the first root are preserved |
| Calculations.RecomputeAt | calculations.py:35-68 | a record `n` links below the root gets path probability and path frequency equal to the chain products; a non-root record's risk is its path frequency times its cost (0 when absent); the root keeps its risk |
| Calculations.ChildOfParent | calculations.py:50-68 | after a recompute each record below the root carries its parent's path probability and frequency times the edge factor, and risk equal to its path frequency times its cost (`Mul(a, b)` is `a * b`) |
| Calculations.RootChild | calculations.py:54-55 | a child of a root record ends with exactly the root's path probability and path frequency, whatever its branch |
| Calculations.SiblingsSum | calculations.py:57-64 | below a non-root parent, a success child and a child on any other branch have path probabilities, and path frequencies, that add up to the parent's |
| Calculations.RecomputeIdempotent | calculations.py:25-71 | a second recompute returns the store unchanged |
| Calculations.InitSessionState | calculations.py:6-22 | an existing store is kept; otherwise the store is one root record named "Fire Ignition" with no parent or branch, probability 1, frequency 1, path probability 1, path frequency 1, cost 0 and risk 0 |
| Calculations.InitIsConsistent | calculations.py:6-22 | the created store is well formed and a recompute leaves it unchanged |
| Calculations.Prune | calculations.py:88-89 | deleting the targets leaves exactly the other keys, each with its record unchanged, and the key list stays free of repeats |
| Calculations.DeleteNode | calculations.py:74-90 | a missing id raises `KeyError`; otherwise exactly the id and its descendants are gone, the count drops by the closure size, no survivor names a removed parent, survivors keep their editable fields, and their derived fields are recomputed from the remaining root (`Settled`); with no root left the pruned store is returned as it is |
| Calculations.DeleteTerminates | calculations.py:77-90 | in a well-formed store the descendant scan and the recompute after deletion both end, for any id |
| Calculations.DeleteKeepsWellFormed | calculations.py:74-90 | deleting any record other than the root keeps a well-formed store well formed, with the same root |
| Calculations.DeleteKeepsConsistent | calculations.py:74-90 | on a well-formed store a recompute leaves unchanged, deleting a record other than the root only removes records: the recompute at the end changes nothing, and the result is again a recompute fixed point |
| App.Startup | app.py:10-25 | a missing store becomes a single well-formed root record and a missing edge list becomes empty; existing ones are kept |
| App.ResetTree | app.py:47-59 | afterwards the store is a single root record named "Fire Ignition", probability 1, path probability 1, no parent or branch, and the edge list is empty |
| App.FreshId | app.py:96 | the id drawn for a new record is not already a key |
| App.AddNode | app.py:29-44 | a missing parent raises `KeyError`; otherwise one record is added with the given name, probability and parent, type outcome exactly when asked, and no derived fields; with a fresh id nothing else changes |
| App.AddNodeKeepsWellFormed | app.py:29-44 | adding under a non-outcome parent with a fresh id keeps the store well formed |
| App.ParentOptions | app.py:80 | the drop-down lists exactly the records that are not outcomes, each once |
| App.Insert | app.py:94-144 | a missing parent, or one without `path_prob`, raises `KeyError`; otherwise the new record has the chosen name, parent, branch and type, probability 0 for an outcome, and path probability equal to the parent's times the branch factor, in [0,1] when the inputs are; one edge is appended; with a fresh id nothing else changes |
| App.InsertKeepsWellFormed | app.py:80-133 | inserting under an offered parent with a fresh id keeps the store well formed, so an outcome never gains a child this way |
| App.StartAgrees | app.py:12-22 | the single-root store of start-up and of `reset_tree` satisfies `PathProbsAgree` |
| App.ConsistentAgrees | calculations.py:25-71 | a store a recompute leaves unchanged satisfies `PathProbsAgree` |
| App.AgreesWithRecompute | calculations.py:25-71 | on a well-formed store satisfying `PathProbsAgree`, a recompute ends and gives every record the path probability it already has |
| App.InsertKeepsAgreement | app.py:107-133 | inserting under an offered parent with a fresh id, into a well-formed store satisfying `PathProbsAgree`, succeeds and keeps both properties |
| App.InsertAgreesWithRecompute | app.py:107-123 | on such a store, the path probability the insert writes is the one a recompute of the new store gives the new record |
| App.RenameKeepsAgreement | app.py:66-72 | a rename of a well-formed store keeps `PathProbsAgree`, since names take no part in the products |
| App.RenameRoot | app.py:66-72 | with no root `next` raises `StopIteration`; an unchanged name leaves the store as it is; a changed name is written to every root record; only the names of root records change, and keys and order stay |
| App.RenameIdempotent | app.py:66-72 | entering the same name twice is the same as entering it once |
| App.RenameKeepsWellFormed | app.py:66-72 | a rename keeps the store well formed |
| App.DetectorScenario | app.py:94-133 | the worked session gives 1, 0.1 and 0.9. It adds a barrier with success probability 0.9 under the root, then a failure outcome and a success outcome under the barrier. The outcome stores probability 0 |

## Left out

- Module `graph_renderer` and the drawing code in app.py (lines 152-192):
  Graphviz styling, colours and label strings. These are presentation only
  and read the store without changing it.
- Streamlit widgets and `st.rerun`. The values a user picks become
  parameters of `Insert`, `AddNode` and `RenameRoot`.
- Edge labels and colours in the edge list (app.py:136-143). An `Edge` keeps
  only the source, the target and the branch.
- `uuid` ids: these are parameters. Freshness is a hypothesis of the lemmas
  that need it, because the source does not check for collisions.
- Float rounding and the `:.2f`/`:.4f` formatting. Reals are exact.
- Calculations.Recompute: records that `add_node` creates have no `branch`
  key. Under a non-root parent, calculations.py:57 raises `KeyError` on them.
  The model has no separate absent state for `branch`, so it reads the
  missing key as no branch and applies the failure factor. Nothing in app.py
  calls `add_node`.
- Calculations.Recompute: a store whose first root is its own ancestor makes
  the loop run forever. Such stores are excluded by the precondition rather
  than modelled.
- Calculations.DeleteNode: deleting from inside a cycle makes
  `get_descendants` run forever. This is excluded by the precondition
  `DeleteEnds` for the same reason.
- Editing an existing record's fields, and saving or loading a tree: the
  modelled files have no such operation, so there is nothing to model.
