# Verified models of GPSEE's data structures and module system

GPSEE embeds the SpiderMonkey JavaScript engine and gives it modules, files and
callbacks. This project models the parts of it that stand on their own, in Dafny, and
proves what they are for. The models keep the form of the C code: the same loops and
branches, assigning the same fields, each proved against a statement of what it does.

| file | models |
|---|---|
| `RedBlackTree.dfy` | the red-black tree macros of `freebsd_tree.h`: rotations, insertion, deletion, both fix-up loops |
| `RedBlackShape.dfy` | what a valid tree means: search order, colours, equal black counts, the height bound |
| `RedBlackQueries.dfy` | find, nearest find, next, previous, minimum, maximum, iteration both ways |
| `ModuleMemo.dfy` | the top-down splay tree macros, as instantiated for module handles |
| `RequireLock.dfy` | the lockless re-entrant lock around `require`, for any number of interleaved threads |
| `ModuleWorld.dfy` | what the names of modules stand for, and accounts of what requiring them comes to |
| `ModuleAccounts.dfy` | what those accounts mean: outcomes, what stays loaded, singletons |
| `ModuleSystem.dfy` | module handles, garbage collection, and `require` with all its exits |
| `ModuleShutdown.dfy` | the shutdown rounds, the cleanup loop, the end of a realm |
| `ModuleRun.dfy` | whole runs of a realm, from its creation to its destruction |
| `Base64.dfy` | the base 64 codec against section 4 of RFC 4648 |
| `AsyncCallbacks.dfy` | the sorted list of asynchronous callbacks |
| `XdrFile.dfy` | the write-behind XDR stream on a stdio file |

`dafny verify dfyconfig.toml` checks everything.

## How to read it

*Trees.* Search order, link consistency and balance are conditions on one node and its
neighbours, thanks to ghost fields: an open interval of keys, and in the red-black tree
a black height. `Valid()` says they hold at every node. `RedBlackShape.ValidMeansRedBlack`
derives the usual global definitions from it, so `Valid()` can be read as "is a red-black
tree". For the splay tree, `Memo.Inorder()` is the in-order sequence, and
`InorderLists` says that it lists exactly the nodes, in order.

*Keys* are integers: the rank of an element under the comparator. A strict total order on
finitely many elements is no more than that.

*Realms.* A `Realm` holds the memo, the unreachable list and the handles destroyed so
far. Four ghost records only ever grow: `events` has each time a handle was put on the
list and each time one was destroyed, `log` each call of a fini function with its answer,
`runs` each init function or script that was started, `minted` the scope and the exports
made for each handle. What foreign code answers (a fini function, a collector that may
finalise a scope) is an arbitrary choice at each call, or a parameter. `Realm.Valid()`
contains: each handle is in exactly one of the memo, the list and the destroyed; nothing is
in `events` twice, and where a handle is is what `events` says of it; no fini function is
called again after it agreed or was forced; no init function or script runs twice; no object
is made twice. `Ready(running, pins)` adds what holds while code runs: `running` are the
names of the modules whose code is on the stack, as many as `nesting` has counted; `pins`
are their handles with what may not change on them; every memoised handle is loaded, and
has the scope and the exports that were made for it. A new realm is `Ready({}, map[])`, and
so is it after every `require` from the program. `Kept()` and `Onward()` say of two states
that between them nothing was undone: the records go on, the destroyed stay destroyed, the
released stay released.

*Outcomes.* `Realm.Now()` has the handles that are loaded, with their exports. A `Trace`
accounts for one `require`, or for one collection: the module was given as it was, was
refused, or was executed, statement by statement, each with its own account; the collection
took certain handles. `Proper(world, running, now, t)` says which accounts are possible where
`now` is loaded: a module is given as it is exactly if it is loaded, and only one that is not
can be refused or executed; each statement starts from what those before it have left
loaded; a collection takes no module that is running or has a fini function.
`Succeeds(world, t)` computes the outcome from an account, `RunsOf(world, t)` what was started,
`LoadedAfter(world, now, t)` what is loaded in the end. `LoadModule` returns an account, and
`Realm.Ended` says that it is proper where it started, and that the outcome, the code started
and what is loaded are the computed ones. `ModuleAccounts` proves what that means:
the world decides the outcome, and modules are singletons.

*Locking.* `RequireLock` proves the lock itself: that it is safe, and that it is given and
given back. `Realm` is one thread's view: its
`lockDepth` is what that thread has taken and not given back.

*Proofs.* `hide` keeps a proof from unfolding what it does not need. `Whole(b)` is `b`: it
marks an invariant that is passed along as one condition.

## Findings

- `gpsee_removeAsyncCallback` searches by `next` fields only (gpsee.c:540-542), so it never
  finds the head of the list, and then goes on through a null pointer. `Callbacks.Remove`
  models that as an outcome, and proves it comes about if and only if the entry is not in
  the list or is its head. By `Callbacks.AddAndRemove`, an entry just added can be removed
  again exactly if the list has an entry of a higher context; `Callbacks.LoneEntryStays`
  is the case of an empty list.
- `gpsee_destroyRealm` removes the collection callback before `gpsee_moduleSystemCleanup`
  runs (gpsee_realms.c:289-298), and nothing drains the unreachable list afterwards.
  `ModuleShutdown.DestroyRealm` proves when handles are left on it for good: every handle
  is destroyed if and only if the collection at the start takes the whole memo, that is, if
  every memoised module is picked by the collector, is loaded or no longer used, and has no
  fini function that is still due. So one loaded module with a fini function is enough for a
  leak: `ModuleRun.OneModuleIsLeft`.
- `binary_to_b64` is documented to return the number of bytes written, and to count them if
  there is no buffer (modules/binary/base64.c:404-415). For an input of one byte or more it
  returns less than the length of the encoding, with or without the NUL
  (`Base64.NeverTheLength`): padding is not counted, nor the last group of an input whose
  length is divisible by three. For the empty input it returns 0, after encoding a group that
  was never written and storing it beyond the bounds it asks for (lines 433-449); and without
  a buffer, it stores through the null pointer (lines 447-454).
- The comment above `b64_to_binary` asks for `(strlen / 4) * 3 + 2` bytes
  (modules/binary/base64.c:309-310) while the function itself allocates
  `strlen * 6 / 8 + 1`. Both are enough: `Base64.FromBase64` decodes into a buffer of the
  one size, `Base64.Decode` of the other.
- `xdrfile_raw` returns NULL for a chunk of no bytes as long as it has no buffer
  (gpsee_xdrfile.c:278-320), and NULL is how it fails. `XdrFile.EncodeAll` and
  `XdrFile.DecodeAll` succeed if and only if every empty raw chunk comes after one that is
  not empty (and the file is long enough); `XdrFile.EmptyChunkFirst` is a schedule that
  cannot be encoded.

## Model

| member | source | states |
|---|---|---|
| `RedBlackTree.Tree.Insert` | freebsd_tree.h:596-624 | keeps every red-black invariant, and adds exactly the new node or, if a node has its key, returns that one and changes no link and no colour |
| `RedBlackTree.Tree.InsertColor` | freebsd_tree.h:406-447 | from a tree whose only fault is a red node under a red parent, ends with a valid tree; the grandparent is never NULL and the climb terminates |
| `RedBlackTree.Tree.GrandparentIsBlack` | freebsd_tree.h:409-411 | while the parent is red there is a grandparent, and it is black |
| `RedBlackTree.Tree.Remove` | freebsd_tree.h:528-593 | removing any node of a valid tree leaves a valid tree of exactly the other nodes, in all of the cases of none, one and two children |
| `RedBlackTree.Tree.SwapWithSuccessor` | freebsd_tree.h:537-579 | with two children, the node of the next greater key leaves its place and has the removed node's parent, the link from there, its children and its colour; its own child and colour are returned, and what is left to repair is at most one missing black at the place it left |
| `RedBlackTree.Tree.SpliceOut` | freebsd_tree.h:577-588 | a node with at most one child is unlinked and its child takes its place; the tree stays linked and ordered, and is one black short at that place exactly if the node was black |
| `RedBlackTree.Tree.RemoveColor` | freebsd_tree.h:450-526 | a tree that is one black node short below one place becomes valid; the sibling is never NULL and the loop terminates |
| `RedBlackTree.Tree.FixShortLeft` | freebsd_tree.h:456-489 | one turn of the loop with the short subtree on the left: the fault is gone, or has moved one level up |
| `RedBlackTree.Tree.FixShortRight` | freebsd_tree.h:489-521 | the mirror image |
| `RedBlackTree.Tree.RotateLeft` | freebsd_tree.h:341-359 | the exact new links, with search order and parent links kept |
| `RedBlackTree.Tree.RotateRight` | freebsd_tree.h:361-379 | the mirror image |
| `RedBlackTree.Tree.Leftmost` | freebsd_tree.h:540-542 | the leftmost node of the right subtree is the in-order successor |
| `RedBlackTree.Tree.DistinctKeys` | freebsd_tree.h:607-614 | in a valid tree no two nodes have equal keys |
| `RedBlackShape.ValidMeansRedBlack` | freebsd_tree.h:53-60 | a valid tree is sorted, has a black root, no red node with a red child and one black count on all paths, and 2^height <= (n + 1)^2 |
| `RedBlackQueries.Find` | freebsd_tree.h:627-642 | finds a node exactly if there is one with that key, in exactly as many comparisons as there are nodes on the way to it, at most the height of the tree |
| `RedBlackQueries.NFind` | freebsd_tree.h:645-663 | returns the least node not below the key, or NULL exactly if there is none, with the same number of comparisons |
| `RedBlackQueries.Next` | freebsd_tree.h:666-685 | the in-order successor, found through parent links |
| `RedBlackQueries.Prev` | freebsd_tree.h:688-707 | the in-order predecessor |
| `RedBlackQueries.NeighboursAreInverse` | freebsd_tree.h:666-707 | neighbours are unique, and next and previous undo each other |
| `RedBlackQueries.MinMax` | freebsd_tree.h:709-722 | the first or the last node, or NULL exactly if the tree is empty |
| `RedBlackQueries.Foreach` | freebsd_tree.h:736-739 | visits every node once, in ascending order |
| `RedBlackQueries.ForeachReverse` | freebsd_tree.h:741-744 | visits every node once, in descending order |
| `ModuleMemo.Memo.SplayDown` | freebsd_tree.h:208-241 | the loop terminates, and left, middle and right tree together hold every node in order, whatever the path taken; two turns to the same side never follow each other unless the first has rotated |
| `ModuleMemo.Memo.DownLeft` | freebsd_tree.h:218-227 | one turn on the left: exactly if the key is below the child as well, the child is rotated above the root first, so that two levels are passed at once and the upper is put below the lower; the exact links, and the turn stops exactly if there is nothing further down |
| `ModuleMemo.Memo.DownRight` | freebsd_tree.h:228-237 | the mirror image |
| `ModuleMemo.Memo.LinkLeft` | freebsd_tree.h:99-103 | the root moves to the inner end of the one tree, its child becomes the root, and the three trees still hold everything in order |
| `ModuleMemo.Memo.LinkRight` | freebsd_tree.h:105-109 | the mirror image |
| `ModuleMemo.Memo.RotateRight` | freebsd_tree.h:87-91 | a rotation in the middle tree keeps the three trees in order |
| `ModuleMemo.Memo.RotateLeft` | freebsd_tree.h:93-97 | the mirror image |
| `ModuleMemo.Memo.Assemble` | freebsd_tree.h:111-116 | the three trees become one search tree again, with nothing lost |
| `ModuleMemo.Memo.NothingOnThatSide` | freebsd_tree.h:215-237 | where the descent stops, no node lies strictly between the key searched for and the root |
| `ModuleMemo.Memo.Splay` | freebsd_tree.h:208-241 | the in-order sequence stays exactly as it was, and the root is the node searched for or an immediate neighbour of where it would be |
| `ModuleMemo.Memo.MinMax` | freebsd_tree.h:152-157 | the first or last node is at the root and returned, and the in-order sequence is as it was |
| `ModuleMemo.Memo.Find` | freebsd_tree.h:127-136 | finds a node exactly if there is one with that name; the sequence is as it was |
| `ModuleMemo.Memo.Next` | freebsd_tree.h:138-150 | the in-order successor, although the tree is splayed first |
| `ModuleMemo.Memo.Insert` | freebsd_tree.h:163-185 | adds exactly the new node, or returns the one with that name and adds nothing |
| `ModuleMemo.Memo.RemoveRoot` | freebsd_tree.h:193-203 | the left subtree, splayed again on the key removed, has a root without a right child, so hanging the right subtree there loses nothing |
| `ModuleMemo.Memo.Remove` | freebsd_tree.h:187-206 | exactly the node of that name leaves the tree |
| `ModuleMemo.Memo.Foreach` | freebsd_tree.h:291-294 | every node is visited once, in ascending order, although each step restructures the tree |
| `ModuleMemo.Memo.InorderLists` | freebsd_tree.h:53-60 | the in-order sequence lists exactly the nodes, in strictly ascending order |
| `RequireLock.StepKeepsInv` | gpsee_modules.c:320-371 | every atomic step of every thread keeps: one owner, depth equal to the owner's nesting, depth 0 when free |
| `RequireLock.RunKeepsInv` | gpsee_modules.c:320-371 | so it holds after any interleaving of any number of threads |
| `RequireLock.LockIsSafe` | gpsee_modules.c:320-371 | in every reachable state at most one thread holds the lock, the depth is its nesting, a free lock has depth 0, and no assertion fails: at each of them what it asserts is true, in particular the releasing compare-and-swap will succeed |
| `RequireLock.FreeIsTaken` | gpsee_modules.c:334-335 | in every reachable state, the compare-and-swap of a thread that tries for a free lock makes it the owner |
| `RequireLock.LockAlone` | gpsee_modules.c:320-345 | from any reachable state with a free lock, a thread that locks, undisturbed, is through after five steps: it owns the lock, at depth 1 |
| `RequireLock.LocksOrGoesOn` | gpsee_modules.c:320-345 | a thread that has asked for the lock never comes back without it: each step keeps it asking, or leaves it the owner, one deeper; it sleeps exactly after finding the lock taken |
| `RequireLock.UnlockEnds` | gpsee_modules.c:347-369 | whatever the others do between its steps, a holder that unlocks is through after four steps, or five if it held the lock once; it is one less deep, and the lock is free exactly if it held it once |
| `RequireLock.NobodyIsLockedOut` | gpsee_modules.c:320-371 | from every reachable state, any thread that waits for the lock gets it in some continuation: there is no deadlock |
| `RequireLock.DepthIsPrivate` | gpsee_modules.c:341-362 | only the holder reads or changes the depth |
| `RequireLock.OthersLeaveItAlone` | gpsee_modules.c:320-371 | whatever the other threads do in any number of steps, the holder keeps the lock and finds the depth unchanged |
| `RequireLock.Reentry` | gpsee_modules.c:323-342 | a holder gets the lock again without waiting, one deeper, whatever the others do meanwhile |
| `ModuleSystem.Realm.constructor` | gpsee_modules.c:1782-1829 | a new realm has an empty memo and satisfies every invariant |
| `ModuleSystem.Realm.MarkModuleUnused` | gpsee_modules.c:688-703 | a due fini of a loaded handle is forced, once; scope, exports and the loaded flag are cleared |
| `ModuleSystem.Realm.ReleaseModuleHandle` | gpsee_modules.c:775-794 | the handle goes from the memo to the head of the unreachable list, exactly once, and its fini is called with force if it was loaded and still due; a second release changes nothing |
| `ModuleSystem.Realm.MovedValid` | gpsee_modules.c:775-794 | after that move every handle is still in exactly one place, the list is linked, and no fini function was called again |
| `ModuleSystem.Realm.ReleasedForGood` | gpsee_modules.c:775-794 | between any two states of which the later has the events of the earlier, a handle that was released stays released |
| `ModuleSystem.Realm.DestroyModuleHandle` | gpsee_modules.c:722-749 | the head of the list is destroyed, which it had not been before; every other handle stays where it was, and the handle returned is the next one of the list |
| `ModuleSystem.Realm.Drain` | gpsee_modules.c:1708-1712 | the collection destroys every listed handle, each once, and leaves the list empty |
| `ModuleSystem.Realm.FindModuleHandle` | gpsee_modules.c:597-604 | finds the memoised handle of a name, exactly if there is one |
| `ModuleSystem.Realm.AcquireModuleHandle` | gpsee_modules.c:622-683 | the memoised handle of that name, or a fresh one memoised under it, so that names stay unique; a fresh one has a scope and exports, different from each other and from every object made for any handle before |
| `ModuleSystem.Realm.OwnExports` | gpsee_modules.c:622-683 | no two modules that are loaded have the same exports |
| `ModuleSystem.Realm.NothingInCommon` | gpsee_modules.c:622-683 | no two memoised handles have an object in common, be it a scope or exports |
| `ModuleSystem.Realm.CollectGarbage` | gpsee_modules.c:1703-1751 | a collection takes from the memo exactly those scopes that the collector picks and whose handle is flagged loaded, or has no scope any more, with no fini due and no code running, and destroys their handles; all others stay; what happened before stays on record |
| `ModuleSystem.Realm.LoadInternalModule` | gpsee_modules.c:1308-1362 | finds nothing exactly if there is no internal module of that name; one that was loaded comes back as it was, any other is a new handle, with both its init and its fini function set and no script |
| `ModuleSystem.Realm.RunLoaders` | gpsee_modules.c:912-962 | native library, then script; fails exactly if the library or the script is there and bad; otherwise the init and the fini function are set as the library exports them, and the script if there is one |
| `ModuleSystem.Realm.LoadDiskModule` | gpsee_modules.c:1153-1173 | from a canonical name on: the one handle of that name, as it was if it was loaded, and else with its code; where there is code it fails exactly if a loader does, and then no handle of that name is left |
| `ModuleSystem.Realm.InitializeModule` | gpsee_modules.c:1368-1411 | the init function runs, then the script, each if there is one, and neither ever again, whatever they require on the way; it succeeds exactly if the script completes and does not throw, whatever the init function did; the handle is still loaded, with the same exports, and so is exactly what the accounts of the statements leave loaded |
| `ModuleSystem.Realm.RunScript` | gpsee_modules.c:1383-1401 | the script is taken out of the handle before it runs, so that it cannot run again; it fails exactly if one of its statements does without being caught, or if it throws; each statement is accounted for from what is loaded when its turn comes |
| `ModuleSystem.Realm.ExecuteStmts` | gpsee_modules.c:1394-1397 | statements are executed in order, up to the first that fails and is not caught, each from what those before it have left loaded; what was started is what their accounts list, in that order, and what is loaded is what they leave |
| `ModuleSystem.Realm.CollectWhileRunning` | gpsee_modules.c:1703-1751 | a collection under a running script takes from what is loaded exactly the handles its account names, none of them running or with a fini function; all else stays loaded with its exports, and the list is empty |
| `ModuleSystem.Realm.EnterModule` | gpsee_modules.c:1457-1486 | the count of modules whose code is running goes up by one and equals the number of names running; it never exceeds the number of names there are |
| `ModuleAccounts.BlameIsRight` | gpsee_modules.c:1394-1411 | a require fails exactly if, along the requires that were not caught, it comes down to a module that cannot be had, or to one whose script gets to its end and throws |
| `ModuleAccounts.ExecutedIfThereIsCode` | gpsee_modules.c:1457-1496 | a module that is not loaded has its code executed exactly if there is an internal module of that name, or there are files, none of them bad, with an init function or a script |
| `ModuleAccounts.StepsOfScript` | gpsee_modules.c:1383-1410 | the i-th step of a script is what its i-th statement, as written, asks for; it is the last one exactly if no statement follows, or if it is a require that fails and is not caught |
| `ModuleAccounts.StepsOfInit` | gpsee_modules.c:1368-1381 | the same for the code of an init function |
| `ModuleAccounts.HowItEnds` | gpsee_modules.c:1383-1410 | an executed module fails exactly if it has a script that stops at a failed require it does not catch, or that throws at its end |
| `ModuleAccounts.CaughtSucceeds` | gpsee_modules.c:1394-1411 | a script that catches whatever its requires throw, and throws nothing itself, is executed to its end and succeeds, whatever the required modules do |
| `ModuleAccounts.SameOutcome` | gpsee_modules.c:1416-1497 | where modules of the same names are loaded, and no collection takes any, requiring a module comes out the same way, by the same steps, and leaves the same names loaded, however deep and cyclic the requires are |
| `ModuleAccounts.LoadedIfItSucceeds` | gpsee_modules.c:1466-1496 | a require of a module that has code succeeds exactly if it leaves the module loaded |
| `ModuleAccounts.Stays` | gpsee_modules.c:1416-1497 | what is loaded stays loaded, with the same exports, whatever any require comes to, until a collection takes it; and what is running no collection takes |
| `ModuleAccounts.GivenAsItIs` | gpsee_modules.c:1457-1465 | in any sequence of requires and collections, once a module is loaded, requiring it gives the same handle with the same exports and runs nothing, as long as no collection has taken it |
| `ModuleAccounts.AlwaysGiven` | gpsee_modules.c:1457-1465 | the same at any depth: whatever code runs for a require, wherever it asks for a module that is loaded, or whose own code is still running, it is given that one handle |
| `ModuleSystem.Realm.LoadFresh` | gpsee_modules.c:1466-1496 | flagged loaded first, the module's init function and script run, each if there is one; it fails exactly if it has neither, or if its script fails; on success it is loaded with the exports returned, on failure no handle of its name is memoised; every other module stays loaded as it was, except as the account of its code says; every way out releases the lock once |
| `ModuleSystem.Realm.UseHandle` | gpsee_modules.c:1457-1496 | a loaded module is returned as it is, with its exports, nothing is run, and the same modules are loaded as before; any other is executed or refused, with exactly the outcome, the runs and the loaded modules that follow from its own code |
| `ModuleSystem.Realm.LoadModule` | gpsee_modules.c:1416-1497 | `require` terminates for every module graph, cyclic, failing or throwing; a module is given as it is, with the same exports and nothing run, exactly if it is loaded; any other has its code run, once, exactly if it has any and its loaders succeed, with exactly the outcome its account computes, where each nested require finds exactly what is loaded by then; it is not memoised after a failure; every other loaded module stays so, with its exports, unless the account names the collection that took it; no handle comes back, no record is lost, and the lock is as deep after any exit as before |
| `ModuleShutdown.AskAll` | gpsee_modules.c:1882-1895 | one round calls every due fini function exactly once, in the order of the names and without force, and leaves due exactly those that did not agree |
| `ModuleShutdown.ForceAll` | gpsee_modules.c:1901-1912 | the last round calls every fini function still due once, with force, and leaves every handle unused whatever the answers |
| `ModuleShutdown.Shutdown` | gpsee_modules.c:1877-1916 | terminates whatever the fini functions answer; the dangling count falls from round to round, and force is used only after a round that changed nothing; at exit every memoised handle has fini, scope and exports NULL, every due fini has agreed or been forced, and none was called again after that; a memo that was not empty does not become empty, after more than one round the unreachable list is empty, and nothing that happened is undone |
| `ModuleShutdown.TurnWindsDown` | gpsee_modules.c:1879-1916 | one turn of the loop either ends it or strictly lowers the number of fini functions due |
| `ModuleShutdown.WhoAnsweredIsFinished` | gpsee_modules.c:1885-1893 | whoever agrees in a round, or is in the forced one, is on record as finished |
| `ModuleShutdown.DanglingCounts` | gpsee_modules.c:1880-1889 | the counter of a round equals the number of handles left due |
| `ModuleShutdown.Cleanup` | gpsee_modules.c:2002-2019 | the memo ends empty and the unreachable list is its handles in descending order of their names, followed by the old list; what happened before stays on record |
| `ModuleShutdown.RestOfMemo` | gpsee_modules.c:2010-2018 | removing the first handle after its successor was taken leaves exactly the rest, in order |
| `ModuleShutdown.DestroyRealm` | gpsee_realms.c:284-298 | collection, shutdown, destruction of the contexts and cleanup: the memo is empty, every fini function that was due is finished, and every handle is destroyed if and only if the collection at the start took the whole memo; the others are on the list, last those that the late collection takes; and if the shutdown took one round, they are all that the first collection left |
| `ModuleShutdown.CollectAndShutDown` | gpsee_realms.c:284-288 | the list is empty, and the memo is empty exactly if the collection took all of it |
| `ModuleRun.Lifetime` | gpsee_modules.c:1368-1916 | over a whole run, of any requires and collections in any order and then the end of the realm, each state's records continue those of all states before; in the end no handle has been queued or destroyed twice, every handle has been queued, exactly those destroyed are on record as destroyed, no fini function was called again after it agreed or was forced, no init function and no script has run twice; the accounts of the actions follow on from one another from nothing loaded, they say what has run and what was loaded before the end, and each require that succeeded returned the exports of its module; after each collection, no handle that was queued waits to be destroyed; at the end, every fini function of a module that was loaded has been finished, and every handle is destroyed exactly if the collector picked all that was loaded and none of it had a fini function |
| `ModuleRun.OwnExports` | gpsee_modules.c:656-683 | over a whole run, two requires that succeed return the same exports exactly if they were given the same handle: modules of different names never share exports, and a module that is loaded again after a collection has new ones |
| `ModuleRun.SameExportsAgain` | gpsee_modules.c:1457-1465 | over a whole run, once a require has succeeded, every later one of that name returns the same exports and runs nothing, until an account names the collection that took the module |
| `ModuleRun.FailureIsPassedOn` | gpsee_modules.c:1394-1411 | a script that requires, without catching, a module whose script throws: requiring it fails and leaves it not loaded, whatever the collector does |
| `ModuleRun.FailureIsCaught` | gpsee_modules.c:1394-1411 | a script that catches the failure of its only require is loaded all the same |
| `ModuleRun.StopsAtFailure` | gpsee_modules.c:1368-1411 | an init function with a require, and a script with two of which the first fails: what was started is the init function, what it requires, the script, and what it requires first; the second is not |
| `ModuleRun.OnlyScripts` | gpsee_realms.c:284-298 | if every module there is is a script, then after any requires and collections the end of the realm destroys every handle, where the collector picks all of them |
| `ModuleRun.NativeFiniIsCalled` | gpsee_modules.c:957-958 | the fini function of a native module that was required is called when the realm is destroyed, until it agrees or with force |
| `ModuleRun.OneModuleIsLeft` | gpsee_realms.c:284-298 | whatever the collector picks, a realm in which the only module there is was required once ends with a handle that is not destroyed |
| `Base64.Encode3Bytes` | modules/binary/base64.c:373-402 | shifts and masks give the RFC encoding of one, two or three bytes |
| `Base64.EncodeGroups` | modules/binary/base64.c:422-431 | the loop has written the encoding of all whole groups but the last, and carries the last one to three bytes |
| `Base64.BinaryToB64` | modules/binary/base64.c:416-460 | for every non-empty input the buffer holds the padded encoding of section 4 of RFC 4648, of length 4 * ceil(n / 3), and a NUL, and nothing beyond is touched; the value returned, exactly; for the empty input, exactly, a group that was never written is encoded, and 0 returned if it comes to that; without a buffer, exactly, a store through the null pointer |
| `Base64.NeverTheLength` | modules/binary/base64.c:404-460 | whatever the buffer, the value returned is less than the length of the encoding, unless the input is empty; so it is neither that length nor one more for the NUL |
| `Base64.ToBase64` | modules/binary/binary.c:78-91 | for every input, the empty one included, the string is the encoding of section 4 of RFC 4648 |
| `Base64.EncodingOfGroups` | modules/binary/base64.c:422-431 | encodings of whole groups concatenate |
| `Base64.LastGroup` | modules/binary/base64.c:433-457 | zero bytes in place of missing ones give the same digits wherever no padding goes over them |
| `Base64.EncodingLength` | modules/binary/base64.c:411-412 | the length of an encoding is 4 * ceil(n / 3) |
| `Base64.DigitIsTable` | modules/binary/base64.c:50-58 | the d-th digit is the d-th character of Table 1 of RFC 4648, written out |
| `Base64.LongTestVector` | modules/binary/base64.c:404-460 | the encoding of "foobar" is the test vector of section 10 of RFC 4648; `TestVectors` has the shorter ones |
| `Base64.StrchrReadsTable` | modules/binary/base64.c:50-58 | looking a character up in the alphabet string is reading Table 1 of the RFC backwards, with `=` at index 64 |
| `Base64.BytesNext` | modules/binary/base64.c:345-364 | each digit completes exactly one byte, except the first of a quartet |
| `Base64.DecodeStep` | modules/binary/base64.c:331-364 | one turn of the loop keeps: what is written are the bytes of the digits read, and the carry is the rest |
| `Base64.B64ToBinary` | modules/binary/base64.c:317-369 | for every string, valid or not, the output is that of its leading digits, with the extra byte when padding follows the first digit of a quartet, within strlen * 6 / 8 bytes |
| `Base64.FromBase64` | modules/binary/binary.c:128-130 | a buffer of the documented size, strlen / 4 * 3 + 2 bytes, takes the whole output of every string |
| `Base64.RoundTrip` | modules/binary/base64.c:317-460 | decoding the encoding of any bytes gives exactly those bytes |
| `Base64.ThereAndBack` | modules/binary/binary.c:78-130 | the same for toBase64 and fromBase64 run one after the other on real buffers, for every input, with the exact count |
| `AsyncCallbacks.Callbacks.Add` | gpsee.c:485-522 | the new entry goes before the first entry whose context is not greater, nothing else moves, and the "first for this context" test is exact |
| `AsyncCallbacks.Callbacks.FindBefore` | gpsee.c:540 | the search fails exactly for the head and for entries not in the list |
| `AsyncCallbacks.Callbacks.Remove` | gpsee.c:532-547 | for any entry: it is the only one to leave the list, and is freed, unless it is not in the list or is its head; exactly then the search comes back empty, a null pointer is dereferenced, and the list is as it was |
| `AsyncCallbacks.Callbacks.AddAndRemove` | gpsee.c:485-547 | removing an entry right after adding it undoes the addition, if and only if the list has an entry of a higher context |
| `AsyncCallbacks.Callbacks.LoneEntryStays` | gpsee.c:532-547 | the only entry of a list cannot be removed |
| `AsyncCallbacks.Callbacks.RemoveContext` | gpsee.c:562-604 | exactly the entries of the context leave the list, the others keep their order, and each one removed is freed once |
| `AsyncCallbacks.SegmentIsAll` | gpsee.c:578-587 | because the list is sorted, one contiguous segment is all there is of a context |
| `AsyncCallbacks.WithoutIsFilter` | gpsee.c:562-604 | what remains is exactly the entries of other contexts |
| `AsyncCallbacks.Callbacks.FreeSegment` | gpsee.c:592-601 | every entry of the segment is freed once, and the loop stops at its end |
| `AsyncCallbacks.Callbacks.TriggerPass` | gpsee.c:403-423 | one pass triggers each context that has an entry, once |
| `AsyncCallbacks.Callbacks.RemoveAll` | gpsee.c:613-626 | every entry is freed once and the list is empty |
| `XdrFile.Xdr.CommitRaw` | gpsee_xdrfile.c:244-255 | committing moves pending bytes to the file and leaves the stream as it was; when decoding it does nothing |
| `XdrFile.Xdr.Raw` | gpsee_xdrfile.c:258-321 | encoding: earlier bytes are in the file, and the chunk handed out is the end of the stream whatever it is filled with; decoding: the chunk holds the next bytes; NULL exactly if too few bytes are left, or if none are asked for while there is no buffer |
| `XdrFile.Xdr.SetBytes` | gpsee_xdrfile.c:390-420 | appends to the stream, after any pending chunk; fails exactly once finalised |
| `XdrFile.Xdr.Set32` | gpsee_xdrfile.c:452-482 | appends four bytes, of which the first is the least significant of the word, or on a big-endian machine the most |
| `XdrFile.Xdr.GetBytes` | gpsee_xdrfile.c:421-451 | the next bytes of the file, or failure exactly if there are too few |
| `XdrFile.Xdr.Get32` | gpsee_xdrfile.c:483-513 | the word of which the next four bytes are the digits to the base 256, the first the least significant, or on a big-endian machine the most |
| `XdrFile.Xdr.Finalize` | gpsee_xdrfile.c:201-234 | the file holds the whole stream, a pending chunk included, and is closed only if owned |
| `XdrFile.EncodeAll` | gpsee_xdrfile.c:201-321 | any sequence of operations is carried out up to the first empty raw chunk that no other raw chunk comes before, and the file is then the concatenation of the payloads up to there, in order |
| `XdrFile.DecodeAll` | gpsee_xdrfile.c:258-513 | for any schedule and any file, succeeds exactly if the file is long enough and no empty raw chunk comes before the others, and then delivers the bytes of the file in order; the file is closed exactly if it is owned |
| `XdrFile.PayloadIsUnique` | gpsee_xdrfile.c:258-513 | a schedule and the bytes determine the operations |
| `XdrFile.RoundTrip` | gpsee_xdrfile.c:201-513 | decoding with the schedule of the encoder returns every operation with its payload, for every sequence of operations that can be encoded |
| `XdrFile.EmptyChunkFirst` | gpsee_xdrfile.c:258-320 | a schedule that begins with an empty raw chunk cannot be encoded |

## Left out

- SpiderMonkey objects, rooting, exceptions, request and thread plumbing, logging, `dlopen`, compilation of scripts: foreign calls. A collection is a step that may finalise scopes and then drains the unreachable list.
- ModuleSystem.Realm.CollectGarbage: the engine is taken to finalise a scope only when the module's fini is done, as `finalizeModuleScope` asserts, and not while the module's code is running.
- ModuleSystem.Realm.LoadDiskModule: the search for a file and the canonical name (gpsee_modules.c:1113-1295), which depend on the file system; the model starts from a canonical name, and the absolute-name branch that falls through to the path search is not part of it.
- ModuleSystem.Realm.InitializeModule: code is a list of requires, caught or not, and collections, with a throw at the end or not; what else it does is not modelled.
- ModuleSystem.Realm.AcquireModuleHandle: allocation failure, and blended modules whose script fails to compile after the library was loaded into an acquired scope, beyond releasing the handle.
- ModuleSystem.Realm.LoadModule: one thread; other threads are kept out by the lock that RequireLock proves.
- ModuleShutdown.Cleanup: handles that still have a scope are taken to have no fini left, as `finalizeModuleScope` asserts.
- Base64.BinaryToB64: what comes of encoding a group that was never written, which an empty input leads to (its caller guards against it, as `Base64.ToBase64` does), and input longer than the range of `int`.
- RequireLock.LockIsSafe: memory is taken to be sequentially consistent, and a thread unlocks only what it has locked, as `gpsee_loadModule` does on every way out.
- RequireLock.NobodyIsLockedOut: that there is such a continuation, not that a scheduler takes it; the C code promises no fairness, and a thread may try for the lock in vain for as long as others keep taking it.
- Quoted-printable coding: its decoder looks at the rest of the whole buffer, so soft line breaks do not round-trip.
- AsyncCallbacks.Callbacks.Remove: what follows the null dereference; the mutex around each operation is taken as given, and the operation callback that walks the list is left out as easy.
- XdrFile.Xdr: memory maps, seeking and telling, failed writes and allocations, lengths beyond `int`; an encoder starts at the end of its file.
- Amortised time bounds for splaying, and `RB_AUGMENT`, which does nothing here.
- Data stores, byte arrays, and the other modules: they would add easier members, or do not do what their documentation says.
