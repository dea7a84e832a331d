# Naming server of a distributed file system, in Dafny

This project models the naming server of a small distributed file system.
The naming server keeps the directory tree of the whole file system. Each
file node records the storage node that hosts it, an access counter, and the
storage nodes that hold replicas of it. Storage nodes register with the
naming server and announce the files they hold. Clients ask it:

- where a file is stored;
- to list a directory;
- whether a path is a directory;
- to create or delete a file or directory;
- to lock and unlock a path.

Locking a path takes a reader/writer lock on every node from the root down.
While it does, it counts shared accesses to files. On the 21st shared access
since the last reset, the file is copied to every other registered storage
node. An exclusive lock on a file first deletes its replicas.

The project is organised by the program's own structure:

| file | module | what it holds |
|---|---|---|
| `wrappers.dfy` | `Wrappers` | `Option` and `Result` |
| `storage.dfy` | `Storage` | the storage-node record, its `equals` and `hashCode` |
| `locks.dfy` | `Locks` | the reader/writer lock with writer priority, as states and as the class `RWLock` |
| `paths.dfy` | `Paths` | `eliminate_spaces` (splitting a path into segments) and node path strings |
| `tree.dfy` | `Tree` | the tree as a map from segment sequences to nodes: its shape invariant, `exist`, `is_Directory`, `get_serverInfo`, `list_under_dir`, creation and `add` |
| `replicas.dfy` | `Replicas` | the access counter, `replicate` and `deleteReplicas` |
| `effects.dfy` | `Effects` | what `deleteReplicas`, `replicate`, one step of the lock walk and `delete` do to the tree and to the requests sent |
| `walks.dfy` | `Walks` | the lock table during `lock_along_the_path` and `unlock_previous`, and the walk itself |
| `namespace.dfy` | `Namespaces` | the classes `Namespace` (the tree, updated in place) and `LockTable`, with one method per tree operation |
| `naming.dfy` | `Naming` | the endpoints' decisions as functions, and the class `NamingServer` whose methods carry them out |

## How the model works

- **The tree** is a `map<seq<string>, Node>` keyed by segment sequences; the
  root is `[]`. The Java code identifies tree nodes by their path strings,
  `curr.path + "/" + name`. `Paths.PathStringInjective` and
  `Paths.EliminateSpacesOfPathString` show that keying by segments is the
  same identification.
- **Pure functions and classes.** The pure functions in `Tree`, `Effects` and
  `Walks` state what each operation does. The methods of
  `Namespaces.Namespace` and `Naming.NamingServer` do it step by step, with
  the loops of the Java code, and each is proved equal to its function.
- **Requests to storage nodes** are `storage_delete`, `storage_copy` and
  `storage_create`. Each is appended to the log `issued` rather than sent.
- **A null dereference** inside a handler ends it at that point, and the
  changes made before it are kept. It is modelled as a `NullDereference`
  completion, and as a `NullPointer` reply at the endpoint. The cases are:
  - a file made by `create_file` has no host, and a later delete or lock
    walk touches it;
  - `create_file` runs before any registration;
  - the unlock walk finds a lock entry missing.
- **Locks.** The class `Locks.RWLock` mirrors the Java class field for
  field, and each of its methods is tied to the `LockState` step function.
  The lock table, and so the server, holds `LockState` values.
- **Blocking.** A thread that would block in `lockShared` or `lockExclusive`
  is modelled by a precondition: the lock can be taken without waiting
  (`Walks.CanLock`, `Naming.LockEnabled`).

Behaviour of the source that the model keeps as written:

- `deleteReplicas` removes by value while moving its index forward. So it
  sends a delete to, and removes, only the replicas at even positions. The
  replicas at odd positions stay listed (`Replicas.LongerReplicaListsKeepCopies`).
- `delete` on a directory acts only through the directory's first file
  child. A directory with no file child is left in place. Otherwise the
  directory is unhooked with everything under it, and only that child and
  the directory's own host are sent a delete.
- `add` gives the new storage node as host to every node on the path,
  including directories that already existed and have a host.
- `register` records the client stub before checking it for a duplicate. A
  duplicate command stub is rejected after the client stub has been added.
- `lock` does not check the path's format, only that it is not empty and
  that it exists. The root is locked exclusively only for the literal path
  "/", so "//" locks it shared even when exclusive access is requested.

## Model

| member | source | states |
|---|---|---|
| `Storage.Equals` | naming/StorageInfo.java:21-28 | equal exactly to a StorageInfo object with the same three fields, so `contains` on lists of records is value membership |
| `Storage.Wrap32` | naming/StorageInfo.java:31-33 | Java `int` arithmetic: the result is in the signed 32-bit range and congruent to the input modulo 2^32 |
| `Storage.Utf16` | naming/StorageInfo.java:32 | a character is one UTF-16 code unit below 0x10000 and two above it, each a 16-bit value |
| `Storage.Utf16Units` | naming/StorageInfo.java:32 | a string has at least as many code units as characters |
| `Storage.Utf16UnitsOfBmp` | naming/StorageInfo.java:32 | a string of Basic Multilingual Plane characters has exactly its characters as code units |
| `Storage.UnitsHash` | naming/StorageInfo.java:32 | the 31-polynomial fold over code units stays in the 32-bit range |
| `Storage.StringHash` | naming/StorageInfo.java:32 | `String.hashCode`, taken over the UTF-16 code units, stays in the 32-bit range |
| `Storage.SupplementaryHash` | naming/StorageInfo.java:32 | a character above 0xFFFF hashes as its surrogate pair: U+1F600 gives 31 * 0xD83D + 0xDE00 |
| `Storage.HashCode` | naming/StorageInfo.java:31-33 | `hashCode` is a Java `int` congruent to 31 times the address's hash plus the client port, modulo 2^32 |
| `Storage.EqualsReflexive` | naming/StorageInfo.java:22-28 | every record equals itself |
| `Storage.EqualsSymmetric` | naming/StorageInfo.java:22-28 | `equals` is symmetric |
| `Storage.EqualsTransitive` | naming/StorageInfo.java:22-28 | `equals` is transitive |
| `Storage.EqualsOnlyStorageInfo` | naming/StorageInfo.java:24 | no object of another class, and not null, equals a record |
| `Storage.HashConsistent` | naming/StorageInfo.java:21-33 | equal records have equal hash codes |
| `Storage.HashNotInjective` | naming/StorageInfo.java:31-33 | records that differ only in the command port are unequal but hash alike |
| `Storage.HashCollisionExample` | naming/StorageInfo.java:31-33 | a concrete pair of unequal records with the same hash |
| `Locks.FreshIsIdle` | naming/RWLock.java:8-12 | a new lock has no holders and no requests, and can be taken either way |
| `Locks.PendingWriterBlocksReaders` | naming/RWLock.java:14-23 | a pending exclusive request blocks every shared acquisition |
| `Locks.StepKeepsMutualExclusion` | naming/RWLock.java:14-50 | every enabled step keeps shared and exclusive holders apart |
| `Locks.RunKeepsMutualExclusion` | naming/RWLock.java:14-50 | mutual exclusion holds after any run of enabled steps |
| `Locks.WriterPriority` | naming/RWLock.java:14-37 | while an exclusive request is pending and none is granted, no shared acquisition happens and the request count does not drop |
| `Locks.RunKeepsRequestsNonNegative` | naming/RWLock.java:25-37 | the count of pending exclusive requests never goes negative |
| `Locks.SharedRoundTrip` | naming/RWLock.java:14-44 | a shared acquisition followed by its release restores the lock |
| `Locks.ExclusiveRoundTrip` | naming/RWLock.java:25-50 | request, grant and release of exclusive access restore the lock |
| `Locks.RWLock.constructor` | naming/RWLock.java:8-12 | a fresh lock: no readers, no requests, not writing |
| `Locks.RWLock.LockShared` | naming/RWLock.java:14-23 | after the wait, one more reader; the invariant is kept |
| `Locks.RWLock.LockExclusiveRequest` | naming/RWLock.java:25-30 | one more pending request; from then on no shared acquisition is possible |
| `Locks.RWLock.LockExclusiveGrant` | naming/RWLock.java:33-36 | after the wait, one request fewer and the writer holds the lock; mutual exclusion kept |
| `Locks.RWLock.UnlockShared` | naming/RWLock.java:39-44 | one reader fewer |
| `Locks.RWLock.UnlockExclusive` | naming/RWLock.java:46-50 | the writer flag is cleared |
| `Paths.EliminateSpaces` | naming/Address.java:105-112 | the segments are non-empty and contain no '/' |
| `Paths.EliminateSpacesAppend` | naming/Address.java:105-112 | splitting two strings joined by '/' gives the first string's segments followed by the second's |
| `Paths.EliminateSpacesOfSegment` | naming/Address.java:105-112 | a single good segment is its own segment list |
| `Paths.EliminateSpacesOfRoot` | naming/Address.java:105-112 | both "" and "/" have no segments: both name the root |
| `Paths.EliminateSpacesKeepsCharacters` | naming/Address.java:105-112 | no character other than '/' is lost or reordered |
| `Paths.EliminateSpacesOfPathString` | naming/Address.java:105-112 | splitting a node's path string gives back its segments |
| `Paths.PathStringInjective` | naming/Address.java:91-98 | two nodes are `equals` (same path string) exactly when they have the same segments |
| `Paths.PathStringStartsWithSlash` | naming/Address.java:119 | every node path string below the root starts with '/' |
| `Tree.EmptyTreeWellFormed` | naming/Address.java:43-48 | the root directory alone satisfies the tree invariant |
| `Tree.CandidateMatchesChild` | naming/Address.java:117-127 | the candidate built from the current path finds the child with that name and no other |
| `Tree.ExistIff` | naming/Address.java:115-132 | `exist` holds exactly when the node is present |
| `Tree.IsDirectoryOfExisting` | naming/Address.java:272-285 | on a present path, `is_Directory` reports that node's kind |
| `Tree.GetServerInfoIs` | naming/Address.java:55-72 | `get_serverInfo` is the node's host, or null when the path is missing |
| `Tree.ListUnderDir` | naming/Address.java:287-309 | the listing is the children's names of the node the walk ends on |
| `Tree.ListUnderDirIsChildren` | naming/Address.java:287-309 | on "/" or a present path the listing is exactly that node's children, in insertion order |
| `Tree.CreateKeepsWellFormed` | naming/Address.java:219-270 | creation keeps the tree invariant, and a failed creation changes nothing |
| `Tree.CreateSucceedsIff` | naming/Address.java:219-270 | success exactly when every proper prefix is a present directory and a present path is itself a directory |
| `Tree.CreateAttachesOne` | naming/Address.java:219-270 | a new path gets exactly one new node of the requested kind, at the end of its parent's children; every other node is unchanged |
| `Tree.CreateThenExists` | naming/Address.java:219-270 | after a success the path exists, and a new node has the requested kind |
| `Tree.CreateOnExistingChangesNothing` | naming/Address.java:219-270 | creating a present path never changes the tree |
| `Tree.Add` | naming/Address.java:135-158 | the path is present afterwards and no node is removed |
| `Tree.AddKeepsWellFormed` | naming/Address.java:135-158 | `add` keeps the tree invariant |
| `Tree.AddEstablishes` | naming/Address.java:135-158 | afterwards the path exists, `get_serverInfo` is the new storage node, and so is the host of every node on the way |
| `Tree.AddShape` | naming/Address.java:135-158 | nothing removed, no node changes kind, new intermediate nodes are directories and a new last node is a file, new nodes lie on the path, nodes off the path are untouched |
| `Tree.DetachFacts` | naming/Address.java:160-217 | unhooking a node keeps the invariant, removes exactly its subtree, and drops its name from the parent's children |
| `Replicas.BumpStaysInRange` | naming/Address.java:312-318 | a counter within 0..limit stays within it |
| `Replicas.FirstCrossing` | naming/Address.java:312-318 | from a fresh counter, calls 1..limit report false, and call limit+1 reports true and resets the counter |
| `Replicas.TwentyFirstAccessReplicates` | naming/Address.java:362 | with the limit of 20, the 21st shared access is the first to replicate |
| `Replicas.AddMissingFacts` | naming/Address.java:398-414 | `replicate` only appends, never adds the host, adds only registered servers, covers every registered server but the host, and lists none twice |
| `Replicas.AddMissingIdempotent` | naming/Address.java:398-414 | replicating twice adds nothing the second time |
| `Replicas.AddMissingCovered` | naming/Address.java:398-414 | a replica list that already covers every registered server is left alone |
| `Replicas.DeleteReplicasSplits` | naming/Address.java:416-429 | the replicas kept and those deleted together make up the old list; no duplicates appear |
| `Replicas.ShortReplicaListsEmptied` | naming/Address.java:416-429 | a list of at most one replica ends empty |
| `Replicas.LongerReplicaListsKeepCopies` | naming/Address.java:416-429 | with two or more replicas, the second is never sent a delete and stays listed |
| `Replicas.DeleteReplicasIteration` | naming/Address.java:417-427 | one iteration of the loop: the entry at the index is deleted and the one after it slides into place and is skipped |
| `Effects.DeleteReplicasEffectFacts` | naming/Address.java:416-429 | only the node's replica list changes, requests are only appended, and the tree invariant is kept |
| `Effects.ReplicateEffectFacts` | naming/Address.java:398-414 | only the replica list changes and is only extended; the host is never added; on success every registered server but the host is listed; it fails exactly when there is no host and some registered server is unlisted |
| `Effects.VisitEffectFacts` | naming/Address.java:351-365 | visiting a node changes only that node's counter and replicas, and fails only on a file without a host that is not locked exclusively |
| `Effects.VisitCounts` | naming/Address.java:351-365 | exclusively locked node: counter 0 and only the skipped replicas kept; directory: unchanged; file below the limit: one more access; file past it: counter reset |
| `Effects.DeleteFile` | naming/Address.java:171-183 | deleting a file with a host removes exactly that node and sends deletes to its even-positioned replicas, then to its host |
| `Effects.DeleteDirectoryWithoutFileChild` | naming/Address.java:184-213 | a directory with no file among its children is left in place and nothing is sent |
| `Effects.DeleteDirectoryWithFileChild` | naming/Address.java:184-213 | with hosts present, the directory and its whole subtree leave the tree |
| `Effects.DeleteKeepsWellFormed` | naming/Address.java:160-217 | `delete` keeps the tree invariant however it ends |
| `Effects.DeleteFailsOnlyOnMissingHost` | naming/Address.java:160-217 | a null dereference happens only on a node other than the root whose host is missing, or on a directory with a file child whose host is missing |
| `Walks.LockedThenReleased` | naming/RWLock.java:14-50 | releasing a lock that could be taken and was taken restores it |
| `Walks.LockingKeepsValid` | naming/RWLock.java:14-50 | taking a free lock and releasing a lock keep the lock invariant |
| `Walks.LockedUpToAt` | naming/Address.java:339-375 | each node on the path is locked once from its previous state; other entries are untouched |
| `Walks.LockedUpToKeys` | naming/Address.java:349 | the walk adds an entry for each node it locks and drops none |
| `Walks.LockedUpToValid` | naming/Address.java:339-375 | with the guards met, every lock in the table stays valid |
| `Walks.UnlockWithoutEntryFails` | naming/Address.java:377-396 | unlocking when the first node has no entry fails and changes nothing |
| `Walks.UnlockedUpToAt` | naming/Address.java:377-396 | with every entry present, each node on the path is released once and nothing else changes |
| `Walks.UnlockedUpToValid` | naming/Address.java:377-396 | unlocking drops no entry and keeps every lock valid |
| `Walks.LockThenUnlock` | naming/Address.java:339-396 | unlocking what the lock walk locked succeeds and restores every lock |
| `Walks.LockWalk` | naming/Address.java:339-375 | the walk keeps the set of nodes, and completes exactly the steps requested unless it fails |
| `Walks.LockWalkLocks` | naming/Address.java:339-375 | the lock table after the walk is the table with the nodes reached locked |
| `Walks.LockWalkKeepsWellFormed` | naming/Address.java:339-375 | the walk keeps the tree invariant |
| `Walks.LockWalkAppends` | naming/Address.java:339-375 | the walk only appends requests |
| `Walks.LockWalkFrame` | naming/Address.java:339-375 | the walk changes only nodes on the part of the path it reached |
| `Walks.LockWalkFails` | naming/Address.java:339-375 | the walk fails only at a node on the path that is not locked exclusively and has no host |
| `Walks.LiveLocksAt` | naming/Address.java:349 | a node no longer in the tree has no entry and looks up as a fresh lock; a node in the tree keeps its entry and lock |
| `Walks.LiveLocksFacts` | naming/Address.java:349 | the kept entries are all in the tree, stay valid, and are the whole table when it had no other entries |
| `Walks.LockWalkKeysInTree` | naming/Address.java:339-375 | when every entry is a node in the tree, the walk keeps it so |
| `Walks.ExclusiveWalkClearsReplicas` | naming/Address.java:355-358 | after a completed exclusive walk the target's counter is 0 and only the skipped replicas remain |
| `Namespaces.LockTable.constructor` | naming/NamingServer.java:53-54 | the table starts with the root's lock alone |
| `Namespaces.LockTable.Lock` | naming/Address.java:349-362 | an entry is created if missing, then the lock is taken shared or exclusively |
| `Namespaces.LockTable.Unlock` | naming/Address.java:389-393 | the entry is released; a missing entry is a null dereference and changes nothing |
| `Namespaces.LockTable.Retain` | naming/Address.java:349 | the table keeps exactly the entries of nodes still in the tree |
| `Namespaces.Namespace.constructor` | naming/Address.java:43-48 | the root directory alone, nothing sent, invariant holds |
| `Namespaces.Namespace.Exist` | naming/Address.java:115-132 | true exactly when the path's node is present |
| `Namespaces.Namespace.IsDirectory` | naming/Address.java:272-285 | the kind of the node the skipping walk ends on; on a present path, that node's kind |
| `Namespaces.Namespace.GetServerInfo` | naming/Address.java:55-72 | the node's host, or null when the path is missing |
| `Namespaces.Namespace.ListedNode` | naming/Address.java:287-300 | the walk of `list_under_dir` ends at `ListedNode`: segments that name no child are skipped |
| `Namespaces.Namespace.ListUnderDir` | naming/Address.java:287-309 | the children's names of the node reached; for "/" and present paths exactly that node's children |
| `Namespaces.Namespace.CreateNode` | naming/Address.java:219-270 | the tree and the answer are those of `Tree.Create`; the invariant is kept and nothing is sent |
| `Namespaces.Namespace.CreateDirectory` | naming/Address.java:219-243 | `create_directory` is the creation of a directory node |
| `Namespaces.Namespace.CreateFile` | naming/Address.java:245-270 | `create_file` is the creation of a file node, with no host |
| `Namespaces.Namespace.Add` | naming/Address.java:135-158 | the tree becomes `Tree.Add` of the old tree; nothing is sent |
| `Namespaces.Namespace.IncAccessTime` | naming/Address.java:312-318 | the counter is incremented, or reset to 0 and true reported when it passes the limit |
| `Namespaces.Namespace.ResetAccess` | naming/Address.java:320-322 | the counter becomes 0 and nothing else changes |
| `Namespaces.Namespace.DeleteReplicas` | naming/Address.java:416-429 | the loop's effect is that of `Effects.DeleteReplicasEffect` |
| `Namespaces.Namespace.Replicate` | naming/Address.java:398-414 | the loop's effect is that of `Effects.ReplicateEffect` |
| `Namespaces.Namespace.DeleteFileAt` | naming/Address.java:171-183 | deleting a file: tree, requests and completion are those of `DeleteEffect` |
| `Namespaces.Namespace.DeleteDirectoryAt` | naming/Address.java:184-213 | deleting a directory: tree, requests and completion are those of `DeleteEffect` |
| `Namespaces.Namespace.Delete` | naming/Address.java:160-217 | the walk's effect is that of `Effects.DeleteEffect`; the invariant is kept |
| `Namespaces.Namespace.Visit` | naming/Address.java:355-365 | the bookkeeping at one node is that of `Effects.VisitEffect` |
| `Namespaces.Namespace.LockAndVisit` | naming/Address.java:343-365 | the node's lock is taken, then the node is visited |
| `Namespaces.Namespace.LockAlongThePath` | naming/Address.java:339-375 | tree, requests, lock table and completion are those of `Walks.LockWalk` over the whole path |
| `Namespaces.Namespace.UnlockPrevious` | naming/Address.java:377-396 | the lock table and completion are those of `Walks.UnlockedUpTo` over the whole path |
| `Namespaces.AddWalk` | naming/Address.java:135-158 | the loop of `add` builds, segment by segment, the tree `AddUpTo` gives for the whole path |
| `Namespaces.DeleteEach` | naming/Address.java:416-429 | the loop of `deleteReplicas` keeps exactly the replicas at odd positions and sends `storage_delete` to those at even positions, in order |
| `Naming.NodePathsAreValid` | naming/NamingServer.java:91-111 | the path string of every node below the root, when its names contain no ':', passes the validity test and names that node again |
| `Naming.GetStorageAnswers` | naming/NamingServer.java:114-142 | IllegalArgument exactly for invalid paths; FileNotFound exactly for missing paths and directories; a stub exactly for files with a host (their address and client port); a null dereference for files without one |
| `Naming.ListAnswers` | naming/NamingServer.java:272-304 | a listing exactly for valid paths naming a directory, and then its children in order; FileNotFound for missing paths and files |
| `Naming.IsDirectoryAnswers` | naming/NamingServer.java:307-335 | FileNotFound exactly for missing valid paths; otherwise the node's kind |
| `Naming.CreateAnswers` | naming/NamingServer.java:180-269 | false exactly for "/" and present paths; FileNotFound exactly when the parent is not a present chain of directories; a node of the requested kind is attached exactly when the path is new and its parent ready; only a new file sends `storage_create`, to the last command port; every rejection leaves the tree alone |
| `Naming.AtMostOneCreateSucceeds` | naming/NamingServer.java:180-269 | after a create answers true, every valid create of the same node, of either kind, answers false and changes nothing |
| `Naming.DeleteAnswers` | naming/NamingServer.java:145-177 | IllegalArgument exactly for "", IllegalState exactly for other invalid paths, FileNotFound exactly for missing ones; rejections change nothing; a file with a host is gone afterwards; the invariant is kept |
| `Naming.AnnounceOne` | naming/NamingServer.java:378-391 | one announced file keeps the tree invariant and removes no node |
| `Naming.Announce` | naming/NamingServer.java:376-391 | the reconciliation keeps the tree invariant and removes no node |
| `Naming.AnnounceStops` | naming/NamingServer.java:379-382 | once a file is rejected, later files are not looked at |
| `Naming.AnnounceOneRejects` | naming/NamingServer.java:379-382 | one file rejects the registration exactly when it is an invalid path, and a rejection stays |
| `Naming.AnnounceOneLists` | naming/NamingServer.java:383-389 | one file adds at most itself to the delete list, and only a valid path other than "/"; unless rejected, that path exists afterwards and is listed when it existed before |
| `Naming.AnnounceOneShape` | naming/NamingServer.java:383-389 | one file changes no node's kind; a node below the root keeps its host or gets the new storage node |
| `Naming.AnnounceDeletesAnnounced` | naming/NamingServer.java:376-391 | every entry of the delete list is a valid announced path other than "/" |
| `Naming.AnnounceCovers` | naming/NamingServer.java:376-391 | unless rejected, every valid announced path exists afterwards, and is on the delete list when the tree had it before |
| `Naming.AnnounceShape` | naming/NamingServer.java:376-391 | no node changes kind; a node below the root keeps its host or gets the new storage node |
| `Naming.AnnounceRejectsIff` | naming/NamingServer.java:379-382 | registration is rejected exactly when some announced path is invalid |
| `Naming.AnnounceFacts` | naming/NamingServer.java:376-391 | every path to delete is a valid announced path other than "/"; every announced path that was already present is on the delete list; every valid announced path exists afterwards; a node below the root keeps its host or gets the new storage node; no node changes kind |
| `Naming.LockThenUnlockAtServer` | naming/NamingServer.java:406-480 | `lock` then `unlock` of the same path and mode, when no lock had to wait, succeeds and restores every lock |
| `Naming.NamingServer.constructor` | naming/NamingServer.java:41-55 | empty registrations, the root directory alone, and the root's lock alone |
| `Naming.NamingServer.GetStorage` | naming/NamingServer.java:114-142 | the answer is `GetStorageReply` on the current tree |
| `Naming.NamingServer.List` | naming/NamingServer.java:272-304 | the answer is `ListReply` on the current tree |
| `Naming.NamingServer.IsDirectory` | naming/NamingServer.java:307-335 | the answer is `IsDirectoryReply` on the current tree |
| `Naming.NamingServer.CreateDirectory` | naming/NamingServer.java:180-218 | answer, tree and requests are those of `CreateReply` for a directory; the server invariant is kept |
| `Naming.NamingServer.CreateFile` | naming/NamingServer.java:220-269 | answer, tree and requests are those of `CreateReply` for a file, including the `storage_create` request; the server invariant is kept |
| `Naming.NamingServer.Delete` | naming/NamingServer.java:145-177 | answer, tree and requests are those of `DeleteReply`; the entries of the nodes it removed leave the lock table; the server invariant is kept |
| `Naming.NamingServer.Register` | naming/NamingServer.java:338-403 | the client stub is always recorded; a duplicate client or command stub is IllegalState with the registrations noted in the source kept; otherwise the stubs and the storage node are listed once, and the tree and answer are those of `Announce`; the invariant is kept |
| `Naming.NamingServer.Reconcile` | naming/NamingServer.java:376-391 | the loop's tree and answer are those of `Announce` |
| `Naming.NamingServer.AnnounceFile` | naming/NamingServer.java:378-391 | one iteration is `AnnounceOne` |
| `Naming.NamingServer.Lock` | naming/NamingServer.java:406-443 | IllegalArgument for "", FileNotFound for missing paths, both changing nothing; otherwise the root is locked (exclusively only for "/") and the tree, requests and lock table are those of the lock walk; on success the table is `LockedTable`; the invariant is kept |
| `Naming.NamingServer.Unlock` | naming/NamingServer.java:446-480 | IllegalArgument for "" and missing paths, changing nothing; otherwise the table and answer are those of `UnlockedTable`; the invariant is kept |

## Left out

- HTTP transport, JSON parsing, the wrong-method replies, and `getResponse`. Requests to storage nodes are logged in `issued`, never sent.
- `IOException` and `InterruptedException` from outbound calls and lock waits. Every call is taken to return.
- Concurrency. Handlers run one at a time in the model. A lock wait that would block is excluded by a precondition rather than modelled as a suspended thread.
- The lock table keys Java `Address` objects by `hashCode`. Address does not override `hashCode`, so the Java lookup is by object identity. The model keys it by path and drops the entry of every node that `delete` removes, since no lookup can reach a removed node's lock. A node created again at the same path is a new object, so it starts without an entry, as in the source.
- `Address.list` and `dfs` (Address.java:325-337): no endpoint of the core calls them.
- The storage server: storage/StorageServer.java is not part of this model.
- The branches of `lock_along_the_path` and `unlock_previous` for a segment that is missing (Address.java:369-371). The server reaches these walks only after `exist` succeeds, and no handler changes the tree between the check and the walk.
- The root's `replicaServers` is null in the source. The root is never visited by the walks, so it is an empty list here.
- `Namespaces.Namespace.Add`: does not ensure the tree invariant itself. The callers apply `Tree.AddKeepsWellFormed`.
- `create_directory` and `create_file` test `exist() && !is_Directory()` and `exist() && is_Directory()` separately. Both give false, so the model tests `exist` once.
- A null dereference in a handler ends the exchange without a reply in the source. The model replies `NullPointer`, and keeps the changes made before it.
- `Naming.NamingServer.Lock`: stated only for requests that do not wait. A request that would wait on a lock is outside the model.
- `Naming.NamingServer.Register`: the duplicate client and command stub checks take `jsonhelper.ServerInfo` to compare by address and port. That class is not part of this model.
- `Naming.AnnounceFacts`: says nothing about the root's host. `add` sets the root's host only for a path with no segments, which register never adds.
