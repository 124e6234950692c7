# Koinos StateDB, modelled and verified

StateDB is a fork-aware key/value store. States form a tree of *deltas* over a root map: a node holds
only what it wrote (objects and tombstones), and a reader merges the deltas from its node down to the
root. This project models that store and proves that the merging, the folding and the fork handling
never show in what a reader sees.

The project follows the program from the bottom up.

| file | what it holds |
|---|---|
| `ByteStrings.dfy` | byte strings, their order, sorted key lists, lower bounds |
| `Deltas.dfy` | deltas as values: the view of a chain, point lookup, put, erase, squash, commit, exported entries, sizes |
| `StateDeltas.dfy` | class `StateDelta`, the mutable delta with its parent link |
| `MergeOrder.dfy` | the two index orders of the merge iterator and where sub-iterators may stand |
| `MergeIterators.dfy` | class `MergeIterator`, bidirectional, and whole traversals |
| `StateNodes.dfy` | classes `StateNode` and `AnonymousNode`: reads, neighbours in a space, writes with byte accounting |
| `Codecs.dfy` | a length-prefixed codec of the kind the neighbour queries need |
| `Trees.dfy` | the tree of nodes: ancestors, subtrees, children |
| `Queues.dfy` | the growing queue of a discard: what it collects, and in which order |
| `Forests.dfy` | the fork tree without its data and every database call as a step on it |
| `ForkChoice.dfy` | fork heads and the head, over every call |
| `Runs.dfy` | the database as a value, the naive database with one full snapshot per node, and runs |
| `Histories.dfy` | what a node holds and exports, told by the writes made on it |
| `Comparators.dfy` | fifo, block time and pob on a list of forks they may change |
| `Discards.dfy` | what a discard and a commit leave of the database |
| `Databases.dfy` | class `Database`: index, root, head and fork heads; every method is proved to be the step of its name |
| `ObjectCaches.dfy` | class `ObjectCache`, the byte-bounded LRU cache |
| `RocksBackends.dfy` | class `RocksBackend`: get, put and erase through the cache |

`dafny verify dfyconfig.toml` checks everything.

How the pieces meet:

* The specification of a merge iterator is a *cursor* into the sorted list of keys the point lookup
  finds. `Increment` adds one and `Decrement` subtracts one, whatever happened before, so the two undo
  each other in any interleaving. `Valid` says more than the cursor: every sub-iterator rests at its
  own lower bound of the key under the cursor, which is what makes the next step possible. The proofs
  rest on revisions increasing strictly along a chain.
* A class method of `Database` states its effect as `Abs() == Step(…, old(Abs()), …)`. The lemmas about
  `Step`, `Exec` and the forest steps are therefore about the class. `RunRefinesNaive` then says that
  any run of calls shows what a database with a private full snapshot in every node would show.
* A run may contain every database call and every commit of an anonymous node into an indexed one,
  including calls that fail without effect, finalizing a node again and discards that fail at the head.
  It may not contain a commit away from the head, or pob finalizing the root again while it is the head:
  the first leaves the database broken (`CommitNode`, `CommitMayBeIllegal`) and the second reads the
  parent of the root (`DecidableIff`, `GenesisRootIsDone`). `Legal` is exactly that.
* Under all three algorithms there is an exact condition per call for the fork heads, `Tidy`, and for the
  head, which is that the call is no double production (`Doubles`). Over every run the one and the other
  are right throughout if and only if every call meets the condition (`RunInvariants`).

Where the code differs from its documentation, or does something a reader would not expect, the model
follows the code and says so with a lemma or a postcondition:

* The header documents fork heads as the finalized nodes without finalized children
  (include/koinos/state_db/state_db.hpp:428-433), for every algorithm. A discard re-adds a parent only if
  it has no children at all, so that definition breaks: `DiscardKeepsTipsIff` gives the exact condition,
  `DiscardMayLoseATip` a forest where it happens, and `StepKeepsTipsIff` the exact condition for every
  call. What survives discards is `ForkInv`: finalized leaves are fork heads, and fork heads have no
  finalized child. `StepKeepsForkInvIff` says exactly when a call keeps that; the exceptions are the next
  three.
* Under pob a double production can make the head fall to the parent of one of the two nodes, which then
  is a fork head over finalized children (`FinalizeKeepsForkInvIff`, `DoubleProductionMayBreak`).
* `finalize_node` accepts a finalized node; for one with a finalized child this puts a fork head above
  another (`FinalizeKeepsForkInvIff`, `RefinalizeMayBreak`). `RefinalizeChangesNothingIff` says when it is
  harmless. Finalizing the head again under pob deposes it (`PobDropsBothDoubles`).
* The header documents for every algorithm that the head is the longest chain, the oldest in a tie
  (include/koinos/state_db/state_db.hpp:405-411). Block time prefers the earlier block among equally long
  chains, and pob does so until a signer produces twice at the head's height: then the old head still
  beats the new one (`StepKeepsHeadChosenIff`, `DoubleBreaksHeadRule`).
* A discard that fails at the head has already dropped the fork heads it met: all doomed ones of lower
  revision than the head, none of higher (`MetBeforeStop`, `DiscardNode`). `BlockedDiscardIsSafeIff` says
  when that does no harm whatever the order of siblings, `BlockedDiscardMayBreak` shows a loss.
* A commit away from the head throws after the root has moved; two nodes without a parent are left
  (`CommitNode`).
* A commit of an anonymous node reaches the node it was created from only while neither commit nor reset
  has been called, because both chain on the anonymous state itself (`AnonymousNode.Commit`,
  `CommitTwice`, `CommitAfterReset`).
* The comment on `create_writable_node` promises that children of a discarded parent can still be read;
  discarding takes the children too (`DiscardNode`).
* `put` leaves a tombstone in place, so a key can be held and removed at once. The backend wins
  everywhere (`PutUpdatesView`, `SquashKeepsView`). Such a key is exported twice (`EntryMultiplicity`,
  `ExportedTwiceIff`).

## Model

| member | source | states |
|---|---|---|
| Deltas.FindReadsTheView | src/koinos/state_db/state_delta.cpp:42-51 | the recursive point lookup reads, for every key and chain, the map obtained by applying all deltas from the root up |
| Deltas.PutUpdatesView | src/koinos/state_db/state_delta.cpp:28-31 | a put changes the view at one key only, also when the node holds a tombstone for it; the object is held and the tombstones stay as they were |
| Deltas.EraseUpdatesView | src/koinos/state_db/state_delta.cpp:33-40 | an erase removes exactly one key from the view; a visible key leaves the backend and gets a tombstone, for any other nothing changes |
| Deltas.SquashKeepsView | src/koinos/state_db/state_delta.cpp:53-81 | after a squash the parent reads as the child did, for root and non-root parents; the child reads as before; a non-root parent's modified keys are the union |
| Deltas.CommitKeepsView | src/koinos/state_db/state_delta.cpp:83-148 | replacing any prefix of a chain by one root that holds its view changes no view above |
| Deltas.ReplayGivesView | src/koinos/state_db/state_delta.cpp:328-371 | replaying a node's exported entries on its parent's view gives the node's view if all its keys parse |
| Deltas.ReplayAppliesIff | src/koinos/state_db/state_delta.cpp:328-371 | the entries reproduce the node on every base if and only if every modified key parses as a database key |
| Deltas.EntryKeysAreModified | src/koinos/state_db/state_delta.cpp:328-371 | a key is exported if and only if the node has modified it and it parses |
| Deltas.EntryMultiplicity | src/koinos/state_db/state_delta.cpp:328-371 | a key is exported at most twice, and twice exactly when it parses and the node holds it next to its own tombstone |
| Histories.ReadersSeeTheWrites | src/koinos/state_db/state_delta.cpp:28-40 | after any sequence of writes on an empty node, a reader sees those writes made on the view below, one by one |
| Histories.TombstoneIff | src/koinos/state_db/state_delta.cpp:33-40 | the node has a tombstone for a key if and only if one of the writes removed it while it was visible |
| Histories.HeldIff | src/koinos/state_db/state_delta.cpp:28-40 | it holds a key if and only if the last write to it was a put, with the value of that put |
| Histories.ExportedTwiceIff | src/koinos/state_db/state_delta.cpp:328-371 | a key is exported twice if and only if it parses and was removed while visible and put for good afterwards |
| Histories.ExportedWithoutValueIff | src/koinos/state_db/state_delta.cpp:328-371 | a key is exported without a value if and only if it parses, was once removed while visible, and its last write was no put |
| StateDeltas.StateDelta.LookupReadsTheView | src/koinos/state_db/state_delta.cpp:42-51 | the lookup through parent links reads the view of the linked deltas |
| StateDeltas.StateDelta.Put | src/koinos/state_db/state_delta.cpp:28-31 | the backend gains the object under its key; tombstones, parent and finalized mark stay as they were |
| StateDeltas.StateDelta.Erase | src/koinos/state_db/state_delta.cpp:33-40 | a key visible through the parents leaves the backend and gets a tombstone; for any other key nothing changes |
| StateDeltas.StateDelta.Squash | src/koinos/state_db/state_delta.cpp:53-81 | the two loops fold the delta into its parent, tombstones first; a root takes no tombstones; nothing else changes, the grandparent included |
| StateDeltas.StateDelta.Stack | src/koinos/state_db/state_delta.cpp:97-105 | the loop collects the deltas from this one to the root |
| StateDeltas.StateDelta.WriteStack | src/koinos/state_db/state_delta.cpp:107-132 | popping the stack onto the root's backend yields the view of the whole chain |
| StateDeltas.StateDelta.Commit | src/koinos/state_db/state_delta.cpp:83-148 | the delta becomes a root whose backend is its former view, without tombstones and parent, over a chain of any length |
| StateDeltas.StateDelta.MakeChild | src/koinos/state_db/state_delta.cpp:247-257 | an empty unfinalized child one revision higher |
| StateDeltas.StateDelta.Clone | src/koinos/state_db/state_delta.cpp:259-282 | a copy with the same parent, revision, contents and mark under a new id and header |
| StateDeltas.StateDelta.GetDeltaEntries | src/koinos/state_db/state_delta.cpp:328-371 | the list is in key order, has every object and every tombstone whose key parses once and no other, and carries a value exactly for keys the backend holds |
| ByteStrings.LessByFirstDifference | src/koinos/state_db/merge_iterator.cpp:35-63 | the order of keys: a proper prefix comes first, else the smaller byte at the first difference decides |
| MergeOrder.BeforeIsStrictTotalOrder | src/koinos/state_db/merge_iterator.cpp:35-63 | with the revision as second key both index orders are strict and total on sub-iterators of distinct revisions, so a unique index never drops one |
| MergeOrder.Owner | src/koinos/state_db/merge_iterator.hpp:119-130 | every visible key is clean in exactly one delta that holds it |
| MergeOrder.LiveIsVisible | src/koinos/state_db/merge_iterator.hpp:119-130 | a key that is not dirty is visible, with the value of that delta |
| MergeOrder.ResolveRound | src/koinos/state_db/merge_iterator.cpp:240-260 | one look at the first sub-iterator: it is at rest with all others on its owner, or it is dirty and one step closer |
| MergeOrder.IncrementPoises | src/koinos/state_db/merge_iterator.cpp:95-108 | stepping the first sub-iterator leaves all others where the next visible key wants them, up to dirty keys |
| MergeOrder.LeastIsOwner | src/koinos/state_db/merge_iterator.cpp:185-198 | the first clean rewound sub-iterator below the head key stands on the key before the cursor |
| MergeOrder.RewoundNotBeyond | src/koinos/state_db/merge_iterator.cpp:200-219 | no rewound sub-iterator has passed its lower bound of that key |
| MergeIterators.MergeIterator.constructor | src/koinos/state_db/merge_iterator.hpp:86-105 | the chain walk and the first resolve leave the cursor at begin, at end or at the lower bound among the visible keys |
| MergeIterators.MergeIterator.Walk | src/koinos/state_db/merge_iterator.hpp:86-105 | the deque holds the chain, root first, with one sub-iterator per delta and strictly increasing revisions |
| MergeIterators.MergeIterator.IsDirty | src/koinos/state_db/merge_iterator.hpp:119-130 | true exactly if a newer delta has modified the key; the index never underflows |
| MergeIterators.MergeIterator.ResolveConflicts | src/koinos/state_db/merge_iterator.cpp:240-260 | skips dirty heads and ends with every sub-iterator at its lower bound of the key under the cursor |
| MergeIterators.MergeIterator.Increment | src/koinos/state_db/merge_iterator.cpp:95-108 | moves the cursor by one, or fails exactly at the end |
| MergeIterators.MergeIterator.RewindOne | src/koinos/state_db/merge_iterator.cpp:124-183 | moves one sub-iterator below the head key and past dirty keys, never before its begin |
| MergeIterators.MergeIterator.FindLeast | src/koinos/state_db/merge_iterator.cpp:185-198 | the walk over the reverse index stops at the key before the cursor |
| MergeIterators.MergeIterator.ForwardTo | src/koinos/state_db/merge_iterator.cpp:200-219 | afterwards every sub-iterator is at its lower bound of that key |
| MergeIterators.MergeIterator.Decrement | src/koinos/state_db/merge_iterator.cpp:110-225 | from anywhere but begin, the cursor moves to the greatest visible key below, with every sub-iterator back in place |
| MergeIterators.MergeIterator.Key | src/koinos/state_db/merge_iterator.cpp:232-238 | the visible key under the cursor, none at the end |
| MergeIterators.MergeIterator.Value | src/koinos/state_db/merge_iterator.cpp:227-230 | the value the view has under that key |
| MergeIterators.MergeIterator.Equals | src/koinos/state_db/merge_iterator.cpp:70-93 | true exactly if both are at the end or both stand on one key of deltas of one revision; over one chain, exactly if the cursors are equal |
| MergeIterators.KeysFrom | src/koinos/state_db/merge_iterator.cpp:276-306 | the keys from begin or a lower bound on are those at or after it for which the point lookup finds something |
| MergeIterators.Traverse | src/koinos/state_db/merge_iterator.cpp:276-306 | incrementing from a start until the iterator equals end visits exactly those keys, in strictly increasing order, each with the value the point lookup returns |
| StateNodes.SpaceIsContiguous | src/koinos/state_db/state_db.cpp:1012-1064 | between two keys of a space there are only keys of that space |
| StateNodes.NearestDecides | src/koinos/state_db/state_db.cpp:1012-1064 | so the nearest key of the whole view decides what is nearest in the space |
| StateNodes.StateNode.GetObject | src/koinos/state_db/state_db.cpp:995-1010 | reads the node's view under the encoded key |
| StateNodes.StateNode.GetNextObject | src/koinos/state_db/state_db.cpp:1012-1039 | the least visible key of the space above the query with its value, or none if there is none |
| StateNodes.StateNode.GetPrevObject | src/koinos/state_db/state_db.cpp:1041-1064 | the greatest visible key of the space below the query with its value, or none if there is none |
| StateNodes.StateNode.PutObject | src/koinos/state_db/state_db.cpp:1066-1087 | refused exactly on a finalized node; else backend and view change at one key, tombstones stay, and the returned amount is the change in the view's size |
| StateNodes.StateNode.RemoveObject | src/koinos/state_db/state_db.cpp:1089-1110 | refused exactly on a finalized node; else the view loses one key, with a tombstone if it was visible and no change at all if not, and the returned amount is the change in the view's size |
| StateNodes.BytesAreConserved | src/koinos/state_db/state_db.cpp:1066-1110 | what one write reports is the change in the total of key and value bytes |
| StateNodes.TotalBytesAreConserved | src/koinos/state_db/state_db.cpp:1066-1110 | over any sequence of writes the reported amounts add up to the change in the view's size |
| StateNodes.StateNode.CreateAnonymousNode | src/koinos/state_db/state_db.cpp:1173-1180 | an anonymous node on an empty child one revision above this node |
| StateNodes.AnonymousNode.Commit | src/koinos/state_db/state_db.cpp:1258-1263 | the delta below takes the anonymous delta in and reads as it did; the node it was created from changes only if that is the delta below; afterwards it never is |
| StateNodes.AnonymousNode.Reset | src/koinos/state_db/state_db.cpp:1265-1268 | an empty child of the anonymous state itself, one revision higher |
| StateNodes.CommitAfterReset | src/koinos/state_db/state_db.cpp:1258-1268 | after a reset, what is put and committed leaves the node's view as it was |
| StateNodes.CommitTwice | src/koinos/state_db/state_db.cpp:1258-1268 | of two puts each followed by a commit only the first changes the node's view |
| Codecs.LengthPrefixedIsDelimited | src/koinos/state_db/state_db.cpp:1012-1064 | a codec that the neighbour queries can rely on exists: parts delimited by their lengths |
| Forests.PriorIsStrictTotalOrder | src/koinos/state_db/state_db.cpp:1300-1317 | the pob priority is a strict total order on nodes with distinct ids |
| Forests.PriorPrefers | src/koinos/state_db/state_db.cpp:1300-1317 | what comes first is at least as high, at one height no later, and at one height and time has the smaller id |
| Trees.AncestorsFormAChain | src/koinos/state_db/state_db.cpp:376-381 | a node has at most one ancestor-or-self at a revision |
| Forests.RootReaches | include/koinos/state_db/state_db.hpp:464-469 | every node descends from the root |
| Forests.StepKeepsInv | src/koinos/state_db/state_db.cpp:475-852 | every legal call keeps the tree: parents present, finalized and one revision lower, the root the only parentless node, head and fork heads finalized nodes, the head a fork head |
| Forests.FinalizeKeepsInv | src/koinos/state_db/state_db.cpp:685-745 | the same for finalizing any node, under all three comparators |
| Forests.CommitKeepsInv | src/koinos/state_db/state_db.cpp:826-852 | the same for committing with the head in the subtree; the committed node is then finalized |
| Forests.DecidableIff | src/koinos/state_db/state_db.cpp:720-732 | finalizing looks for the root's parent exactly when pob finalizes the root again while it is the head |
| ForkChoice.ForkHeadsAreIncomparable | src/koinos/state_db/state_db.cpp:734-744 | no fork head is a strict ancestor of another |
| ForkChoice.FinalizeKeepsForkInvIff | src/koinos/state_db/state_db.cpp:685-745 | under every algorithm, finalizing keeps the fork heads right if and only if the node has no finalized child and the call is no pob double production after which the best of the head's parent and the other fork heads is the parent of one of the two |
| ForkChoice.DoubleProductionMayBreak | src/koinos/state_db/state_db.cpp:720-744 | a forest in which finalizing a second block of one signer leaves the root as only fork head above two finalized leaves |
| ForkChoice.RefinalizeMayBreak | src/koinos/state_db/state_db.cpp:685-745 | a forest in which finalizing the root again breaks them |
| ForkChoice.GiveUpKeepsForkInvIff | src/koinos/state_db/state_db.cpp:780-806 | a discard that fails at the head keeps the fork heads right if and only if it met no finalized leaf |
| ForkChoice.BlockedDiscardIsSafeIff | src/koinos/state_db/state_db.cpp:780-806 | it does so for every order of siblings, if and only if every finalized leaf below the node but the head is higher than the head |
| ForkChoice.HeadIsTheOnlyLeaf | src/koinos/state_db/state_db.cpp:780-806 | where the head rule holds that means that the head is the only finalized leaf below the node |
| ForkChoice.BlockedDiscardMayBreak | src/koinos/state_db/state_db.cpp:780-806 | a forest in which every failed discard of a node loses a fork head |
| ForkChoice.StepKeepsForkInvIff | src/koinos/state_db/state_db.cpp:475-852 | the exact condition, for every call and every algorithm, for: finalized leaves are fork heads, and fork heads have no finalized child |
| ForkChoice.DiscardKeepsTipsIff | src/koinos/state_db/state_db.cpp:815-823 | a discard keeps the documented fork heads if and only if the node was not finalized or its parent is not left with unfinalized children only |
| ForkChoice.DiscardMayLoseATip | src/koinos/state_db/state_db.cpp:815-823 | a forest in which a discard loses a documented fork head |
| ForkChoice.StepKeepsTipsIff | include/koinos/state_db/state_db.hpp:428-433 | the exact condition, for every call and every algorithm, under which the fork heads stay the finalized nodes without finalized children |
| ForkChoice.BlockedDiscardKeepsTipsIff | src/koinos/state_db/state_db.cpp:780-806 | for a blocked discard, whatever the order of siblings: every fork head below the node but the head is higher than the head |
| ForkChoice.StepKeepsHeadChosenIff | src/koinos/state_db/state_db.cpp:701-732 | under fifo the head is the first finalized among the highest finalized nodes; under block time the one with the least timestamp, ties to the first finalized; under pob the same as under block time, kept by a call if and only if it is no double production |
| ForkChoice.DoubleBreaksHeadRule | src/koinos/state_db/state_db.cpp:1285-1328 | after a double production the old head still beats the new one |
| ForkChoice.PobDropsBothDoubles | src/koinos/state_db/state_db.cpp:1285-1328 | when the head's signer finalizes a node as high, the head becomes the best of its parent and the other fork heads: of two different nodes neither stays head, and finalizing the head again deposes it |
| ForkChoice.DoubleHeadIsHighest | src/koinos/state_db/state_db.cpp:1285-1328 | after a double production the new head is one of the old head's parent and the other fork heads, and of these none is higher, none as high is earlier, and none as high and as early has a smaller id |
| ForkChoice.RefinalizeChangesNothingIff | src/koinos/state_db/state_db.cpp:685-745 | the exact condition, for every algorithm, under which finalizing a node again changes nothing |
| ForkChoice.CommitMayBeIllegal | src/koinos/state_db/state_db.cpp:838-851 | a forest and a finalized node away from the head: with it as the cut off root the tree is no longer sound |
| Runs.StepRefinesNaive | src/koinos/state_db/state_db.cpp:475-852 | one call on the deltas is one call on a database with a full snapshot per node: create and clone copy one, a write changes one in one key, an anonymous commit applies a delta to one, discard and commit drop some |
| Runs.RunRefinesNaive | src/koinos/state_db/state_db.cpp:475-852 | the same over every run of calls |
| Runs.WriteKeepsOthers | src/koinos/state_db/state_db.cpp:1066-1110 | a write changes no other node's view: a writable node is nobody's parent |
| Runs.CommitKeepsViews | src/koinos/state_db/state_db.cpp:826-852 | committing changes the view of no node that stays |
| Runs.FinalizedViewNeverChanges | src/koinos/state_db/state_db.cpp:475-852 | over every run, a finalized node's view is the same as long as it stays in the tree |
| Runs.RunInvariants | src/koinos/state_db/state_db.cpp:275-332 | over every run from an opened database: a sound tree; the head rule throughout, under fifo and block time always and under pob if and only if no call is a double production; and under every algorithm the right fork heads throughout if and only if every call meets the exact condition |
| Runs.PlainRunIsTidy | src/koinos/state_db/state_db.cpp:475-852 | under fifo and block time every run without failed discards and repeated finalizing meets it |
| Runs.GenesisRootIsDone | src/koinos/state_db/state_db.cpp:720-732 | in a database just opened, finalizing the root again is what pob cannot do and fifo and block time can |
| Runs.TwoForkHeadsAreReached | src/koinos/state_db/state_db.cpp:475-745 | from every opened database, a run that finalizes one child of the root and then makes and finalizes a second, with the first as head, leaves exactly the two as fork heads |
| Comparators.EraseFork | src/koinos/state_db/state_db.cpp:1290-1297 | the list without the one entry of that id |
| Comparators.SortByPriority | src/koinos/state_db/state_db.cpp:1320-1322 | the same entries, higher revisions first, then earlier timestamps, then smaller ids, strictly |
| Comparators.PobComparator | src/koinos/state_db/state_db.cpp:1285-1328 | without a double production the earlier block, the head in a tie; else the highest of the head's parent and the other forks, the earliest among those, the smallest id among those |
| Comparators.Compare | src/koinos/state_db/state_db.cpp:1275-1328 | each comparator picks what the specification of the head chooses |
| Queues.CollectedAll | src/koinos/state_db/state_db.cpp:776-806 | a queue whose every entry has had its children added holds the doomed nodes, each once |
| Queues.MetBeforeStop | src/koinos/state_db/state_db.cpp:780-806 | before any node every queue has met all doomed nodes of lower revision and none of higher |
| Queues.MayMeet | src/koinos/state_db/state_db.cpp:780-806 | for any other node no higher than the one it stops at, some order of siblings makes the queue meet it first |
| Queues.SparesNothingIffRooted | src/koinos/state_db/state_db.cpp:787-798 | what is left is a rooted tree if and only if the whitelist has spared nothing, that is, exactly the subtree is taken |
| Discards.CommitDooms | src/koinos/state_db/state_db.cpp:841-851 | with the committed node cut off, discarding the old root takes everything outside the committed subtree |
| Databases.VisibleIsView | src/koinos/state_db/state_delta.cpp:42-51 | what a reader sees through the parent links of the index is the view of the database as a value |
| Databases.Database.constructor | src/koinos/state_db/state_db.cpp:312-332 | the opened database: the finalized root is head and only fork head |
| Databases.Database.GetNodeAtRevision | src/koinos/state_db/state_db.cpp:350-393 | below the root an error; else the ancestor-or-self of the child (of the head, if unknown) at the lower of the two revisions; the walk never passes the root and the internal error never fires |
| Databases.Database.CreateWritableNode | src/koinos/state_db/state_db.cpp:475-523 | null exactly if the parent is missing or not finalized, head or not, or the id is taken; else an empty unfinalized child of that parent, one revision higher, is all that is added: the create step |
| Databases.Database.CloneNode | src/koinos/state_db/state_db.cpp:574-597 | an error exactly if the node is missing or finalized, null exactly if the id is taken; else a copy with the same parent, revision and contents under the new id is all that is added: the clone step |
| Runs.RunKeepsEncoded | src/koinos/state_db/state_db.cpp:1066-1087 | if every write of a run goes through the codec, every node holds encoded keys only, which is what the neighbours need |
| Databases.Database.GetObject | src/koinos/state_db/state_db.cpp:995-1010 | what the node's naive snapshot holds under the encoded key |
| Databases.Database.GetNextObject | src/koinos/state_db/state_db.cpp:1012-1039 | the next object of the space in the node's naive snapshot |
| Databases.Database.GetPrevObject | src/koinos/state_db/state_db.cpp:1041-1064 | the previous object of the space in the node's naive snapshot |
| Databases.Database.PutObject | src/koinos/state_db/state_db.cpp:1066-1087 | the put step: the node's backend changes at the encoded key and its tombstones stay; the amount is that of the naive snapshot |
| Databases.Database.RemoveObject | src/koinos/state_db/state_db.cpp:1089-1110 | the remove step: an encoded key its reader saw leaves the backend and gets a tombstone, for any other nothing changes; the amount is that of the naive snapshot |
| Databases.Database.CommitAnonymous | src/koinos/state_db/state_db.cpp:1258-1263 | the squash step of the node the anonymous one sits on; refused if that is finalized |
| Databases.Database.UpdateHead | src/koinos/state_db/state_db.cpp:701-732 | the head rule, with the fall back to the head's parent among the fork heads |
| Databases.Database.UpdateForkHeads | src/koinos/state_db/state_db.cpp:734-744 | the node replaces its parent among the fork heads unless its parent is the head |
| Databases.Database.FinalizeNode | src/koinos/state_db/state_db.cpp:685-745 | the finalize step, also for a node finalized before |
| Databases.Database.CollectDoomed | src/koinos/state_db/state_db.cpp:776-806 | the loop terminates, collects exactly the doomed nodes, each once, and stops exactly if the head is one, having met what a queue with some order of siblings meets |
| Databases.Database.RestoreForkHead | src/koinos/state_db/state_db.cpp:815-823 | a parent left childless becomes a fork head; the internal error never fires |
| Databases.Database.DiscardNode | src/koinos/state_db/state_db.cpp:767-824 | removes exactly the node and its descendants; refuses the root; with the head among them fails without touching the index, minus the fork heads met |
| Databases.Database.CutOff | src/koinos/state_db/state_db.cpp:838-848 | the node is the parentless root over its whole view; the old tree is still indexed |
| Databases.Database.CommitNode | src/koinos/state_db/state_db.cpp:826-852 | leaves exactly the committed node and its descendants with their fork heads; fails if and only if the head is outside, and then the root has moved and the database is no longer valid |
| ObjectCaches.FittingKeeps | src/koinos/state_db/backends/rocksdb/object_cache.cpp:40-42 | of a list of entries exactly those stay that fit together with everything more recent |
| ObjectCaches.KeptIff | src/koinos/state_db/backends/rocksdb/object_cache.cpp:36-42 | an entry survives an insertion if and only if the key and value bytes of the new entry, of this one and of everything more recent, at least two an entry, fit the bound together |
| ObjectCaches.ObjectCache.Accounts | src/koinos/state_db/backends/rocksdb/object_cache.cpp:31-63 | the size is the bytes of the entries, each counted as at least two; neither the key and value bytes held nor twice the number of entries ever exceeds the bound |
| ObjectCaches.ObjectCache.Get | src/koinos/state_db/backends/rocksdb/object_cache.cpp:13-29 | a hit moves to the front and keeps its value, absent included; a miss changes nothing |
| ObjectCaches.ObjectCache.Put | src/koinos/state_db/backends/rocksdb/object_cache.cpp:31-50 | the new entry first, then the longest most recent part of the others that fits; if the bytes of all, each entry counted as at least two, fit the bound, nothing is evicted |
| ObjectCaches.ObjectCache.Remove | src/koinos/state_db/backends/rocksdb/object_cache.cpp:52-63 | removes one key from list and map and its size from the total |
| RocksBackends.RocksBackend.Get | src/koinos/state_db/backends/rocksdb/rocksdb_backend.cpp:287-310 | always the lookup in the map underneath, cached or not, absent keys included |
| RocksBackends.RocksBackend.Put | src/koinos/state_db/backends/rocksdb/rocksdb_backend.cpp:255-285 | updates the map; size stays its cardinality and no cache entry contradicts it |
| RocksBackends.RocksBackend.Erase | src/koinos/state_db/backends/rocksdb/rocksdb_backend.cpp:312-331 | removes from the map; size stays its cardinality and the cache remembers the absence |
| RocksBackends.LargerCacheHoldsMore | src/koinos/state_db/backends/rocksdb/rocksdb_backend.cpp:255-331 | over every run of accesses whose entries fit the smaller cache, a larger one holds at least what the smaller holds, in the same order, so the size of the cache only affects speed |

## Left out

- RocksDB itself, its iterator, column families, metadata, flush and write batches: `db` is a map, and
  the backend is modelled outside a batch, where `erase` and `put` both reach the map at once.
- RocksDB errors other than "not found", and pointers handed out by `get` that outlive their cache entry.
- Iterators stored in the cache's map: the position of a key in the list is found by the key.
- `object_cache::clear`: it leaves the size as it was. A cache entry larger than the whole cache, for
  which eviction runs off the list, is excluded by `Fits`.
- Locks, condition variables and timeouts: each call is one atomic step. A create that times out is a
  create that returns null.
- Protobuf encoding: an abstract `Codec`; the neighbours assume that it is injective, that encodings of a
  space share a prefix no other space has, and that only encoded keys are stored.
- Multihashes as ids (numbers here), Merkle roots, and the 64-bit width of revisions, timestamps and
  byte counts.
- Comparators supplied by the user of `open`; the genesis function: an opened database starts from
  whatever its root holds.
- Writing to a delta while an iterator over it is alive: an iterator reads the chain as it was made.
- Decrementing an iterator that is at begin, and the alternative algorithm of docs/merge_iterator.md.
- `reset`, `close`, the lock variants of each call and the `database` forwarding class: the same bodies.
- `clear` and `merkle_root` of a delta, `get_all_nodes`, `get_fork_heads`, `get_root`: reads of fields.
- A discard with a whitelist from outside: only commit passes one. `SparesNothingIffRooted` says what it
  would take.
- Databases.Database.CollectDoomed: leaves the order among siblings open, so which fork heads of the
  head's own revision a failing discard drops is not determined; the theorems about failed discards hold
  for every order.
- StateDeltas.StateDelta.GetDeltaEntries: an entry carries the database key, not the space and key it
  decodes to; whether a key parses is a parameter.
- MergeIterators.MergeIterator.Equals: iterators of different chains that stand in different deltas of one
  revision are compared by key, where the source compares positions of two containers. An iterator
  over no delta cannot be made, since the constructor refuses an empty chain.
- Creating and resetting anonymous nodes is no step of a run: both only make a delta outside the index.
- The backend of the old root after a commit is left empty rather than null.
