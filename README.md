# go-fuse FileSystemConnector: the inode tree, in Dafny

This project models the bookkeeping core of go-fuse's `FileSystemConnector`,
found in `fuse/fsconnector.go`.

The FUSE kernel module refers to in-process inodes by integer ids. The
connector does three things:

- It keeps a tree of those inodes, with a handle map from live ids to
  nodes and a table of mounted backend filesystems.
- It updates the tree as the kernel looks names up, forgets them, renames
  and unlinks.
- It works out, bottom-up, which nodes nobody can reach any more, so that
  their ids can be released.

On top of the tree, the connector grafts sub-filesystems (`Mount`, `Unmount`)
and sends cache invalidations to the kernel (`Notify`, `EntryNotify`,
`FileNotify`).

The model is an arena of node and mount records held by a `Connector`
class. The source's operations become methods that update its fields.
The project has four modules:

- `Tree` (`tree.dfy`): the records and the arena type, as values.
  - The Mount and Unmount arena updates `Graft`/`Ungraft`.
  - `Collectible`: the final test of `considerDropInode`.
  - `Pruned`: what a collection leaves behind.
  - The tree edits `AddChild`, `RmChild` and `Rename`.
  - Path resolution, `Walk`/`Follow`.
  - The rank bookkeeping that keeps the child maps acyclic. It is also
    the termination measure of the recursive collection.
- `Invariant` (`invariant.dfy`): the connector invariant `Inv`, with one
  lemma per kind of edit showing that the edit preserves it. `Inv` says:
  - the root exists and is not in the handle map;
  - the handle map only names arena ids;
  - the allocators are ahead of every id in use;
  - the child maps are acyclic;
  - the root carries a mount;
  - every sub-mount entry `p.mounts[name]` names a mount whose root inode
    points back at it, is neither `p` nor the root, and is grafted nowhere
    else.
- `Collection` (`collection.dfy`): the two loops of `considerDropInode` on
  values.
  - It defines `Collected`, which says what a collection started at a
    node does. Its region is the set of nodes reachable from that node
    without stepping onto a mount point.
    - It only drops child entries, and only inside the region.
    - Every dropped entry named a node that is collectible afterwards
      and whose id is released.
    - Every released id is that of a node ranked below the start, inside
      the region, collectible, and named by a dropped entry.
    - Nodes already pruned are left alone.
  - It also holds the classification the first loop builds up.
- `FsConnector` (`connector.dfy`): the `Connector` class, with one method
  per operation of the source and the notification records it sends.

A path is given already split into components, as a `MountPath` for
`Mount` and a (directory, name) pair for `Unmount`.

Calls to the kernel and to backends are appended to two logs:

- `notices`, the invalidations;
- `events`, the backend mount and unmount hooks.

The kernel's reply to a notification is a parameter of the method that
sends it.

## Model

| member | source | states |
|---|---|---|
| FsConnector.Connector.constructor | fuse/fsconnector.go:39-50 | A fresh connector has only the root, with id 1, and no registered handles. The root backend is mounted on the root with the given options, or the defaults when none are given. The mount hook is recorded. The invariant holds. |
| Tree.NewNode | fuse/fsconnector.go:60-69 | A new inode has no children, no lookups, no mount, no mount point, no sub-mounts and no open files, and its `isDir` flag is as asked. |
| FsConnector.Connector.NewInode | fuse/fsconnector.go:60-69 | The next fresh id is registered in the handle map for a new record. No existing node has that id as a child. Nothing else changes. |
| Invariant.InvAfterNew | fuse/fsconnector.go:60-69 | The registered id was unused and is nobody's child. Adding its record keeps the invariant. |
| FsConnector.Connector.LookupUpdate | fuse/fsconnector.go:79-94 | If `name` names a child, that same node is returned. No id is allocated, and exactly `count` is added to its lookup count. Otherwise one fresh id is allocated and registered. It is inserted under `name` with the parent's mount and a lookup count of `count`. No other node changes. |
| FsConnector.Connector.NewChild | fuse/fsconnector.go:85-92 | This is the creating branch of lookupUpdate. The arena becomes the parent with the new child entry, plus the new node under the fresh id. Only that id is registered. |
| FsConnector.Connector.AttachChild | fuse/fsconnector.go:88 | addChild of a childless node that no node has as a child. The arena becomes `AddChild` of the old one. The handles, allocators, mounts and logs are unchanged, and the invariant is kept. Mount uses the same method at line 271. |
| Tree.AddChild | fuse/fsconnector.go:88 | addChild sets `name` to the child in the parent's map. Every other entry and every other node stays as it was. |
| Tree.AttachKeepsRank | fuse/fsconnector.go:88 | Attaching a childless node that has no parent keeps the child maps acyclic. The node is ranked just below its new parent. |
| Invariant.InvAfterAttach | fuse/fsconnector.go:88 | Attaching a fresh parentless node keeps the connector invariant. |
| Invariant.InvAfterEdit | fuse/fsconnector.go:92 | Changing a node's counters while keeping its child map, sub-mounts and mount point keeps the invariant. The same lemma covers lines 107 and 128. |
| FsConnector.Connector.LookupMount | fuse/fsconnector.go:96-111 | It returns a mount exactly when `name` has a sub-mount entry under the parent, and then it returns that mount. Exactly `count` is added to the lookup count of the mount's root inode. Without an entry, nothing changes. |
| FsConnector.Connector.GetInodeData | fuse/fsconnector.go:113-118 | The root id yields the root. A live handle yields its own node, which is in the arena. |
| FsConnector.Connector.ForgetUpdate | fuse/fsconnector.go:120-130 | `count` is subtracted from the node's lookup count, with no clamping. Then the subtree is collected. Afterwards the node is pruned. A direct child's entry is removed exactly when that child is collectible, and a removed child's id is released. The arena and handles are a `Collected` of the decremented arena, within the node's region. So no id outside the region is released, and no live node is unlinked. Every other mount point keeps its record and handle. The node itself keeps its handle, and the mounts and allocators are unchanged. |
| FsConnector.Connector.ConsiderDropInode | fuse/fsconnector.go:132-157 | It returns true exactly when the node, after pruning, is collectible: no children, lookup count at most 0, not the root, no mount point, no open files. A child entry is removed exactly when that child is collectible, and each removed child's id is released. The node is left pruned. The whole change is a `Collected` within the node's region: only entries naming collectible nodes are dropped, and only ids of nodes ranked below it that such an entry named are released. No node outside the region changes. Every other mount point keeps its record and handle. |
| FsConnector.Connector.SweepChildren | fuse/fsconnector.go:133-138 | The first loop asks every child without a mount point whether it is collectible. It returns those names, without duplicates. Every other child is a mount point or pruned, and the node's own record is untouched. The changes below are a `Collected` within the node's region. |
| FsConnector.Connector.SweepOne | fuse/fsconnector.go:134-137 | One turn of the first loop. A child with a mount point is neither entered nor listed: the arena and handles stay exactly as they were. Any other child is collected within its own region, which lies inside the node's region, and is listed exactly when it is collectible. |
| Collection.ClassifyStep | fuse/fsconnector.go:134-137 | Collecting below one child leaves the answers for the children already asked valid. |
| Collection.CollectedTrans | fuse/fsconnector.go:132-145 | Two collections in a row, at ranks up to r and in regions inside one region, are one collection at rank r in that region. |
| Collection.DropsTrans | fuse/fsconnector.go:132-145 | An entry dropped by either of two collections in a row names a node that is collectible at the end and whose id is no longer registered. |
| Collection.ReleasesTrans | fuse/fsconnector.go:132-145 | An id released by either of two collections in a row is ranked below r, inside the region, collectible at the end, and named by an entry dropped across the two. |
| Collection.CollectedSparesMounts | fuse/fsconnector.go:135 | A collection within the region of n leaves every other mount point's record and handle as they were. |
| Tree.WithinNotMount | fuse/fsconnector.go:135 | Every node of a region other than its start is not a mount point: the sweep never enters one. |
| Tree.RegionChild | fuse/fsconnector.go:135-136 | The region of a child that is not a mount point lies inside its parent's region. |
| Tree.RegionShrinks | fuse/fsconnector.go:132-145 | Removing child entries only shrinks a region. |
| Tree.WithinShrinks | fuse/fsconnector.go:132-145 | Removing child entries only removes paths, by induction on the rank. |
| FsConnector.Connector.DetachChildren | fuse/fsconnector.go:139-145 | The second loop removes exactly the listed names from the node's child map. The handles become exactly the old handles minus the removed children's ids. Every other node stays unchanged, the node becomes pruned, and the change is a `Collected` within the node's region. |
| Collection.RmChildren | fuse/fsconnector.go:139-145 | On values: the kept map is the child map minus exactly the listed names. The live handles lose exactly the ids of the removed children. |
| Collection.ClassifiedKept | fuse/fsconnector.go:139-145 | After the first loop, a removed child is collectible. A kept child is a mount point, or is not collectible and is pruned. |
| Collection.DetachCollected | fuse/fsconnector.go:139-145 | Removing the collectible children and releasing their ids is a collection below the node's rank, within its region. |
| Collection.DetachDrops | fuse/fsconnector.go:139-145 | Every entry the second loop drops names a collectible child whose id is no longer registered. |
| Collection.DetachReleases | fuse/fsconnector.go:139-145 | Every id the second loop releases is a removed child's: ranked below the node, in its region, and collectible. |
| Collection.DetachDone | fuse/fsconnector.go:139-145 | The second loop's outcome has exactly the listed names removed and exactly their ids released. The node is pruned and the change is a collection within its region. |
| Collection.DetachChoice | fuse/fsconnector.go:139-145 | After the second loop, a direct child is gone exactly when the first loop found it collectible, and then its id is released. |
| Collection.SweepThenDetach | fuse/fsconnector.go:132-145 | The two loops together prune the node, remove exactly its collectible direct children and release their ids. The whole change is one collection within the node's region. |
| Collection.DetachPrunesSelf | fuse/fsconnector.go:139-145 | After the second loop, the node itself is pruned. |
| Collection.DetachStable | fuse/fsconnector.go:139-145 | Dropping only collectible children leaves every pruned node pruned and unchanged. |
| Tree.DetachKeepsPruned | fuse/fsconnector.go:139-145 | This is the same fact for one pruned node, by induction on its rank. |
| Invariant.DetachInv | fuse/fsconnector.go:139-145 | Detaching children and releasing ids keeps the invariant, and only shrinks child maps. |
| Tree.RmChild | fuse/fsconnector.go:140 | rmChild removes exactly `k` from the parent's child map, and every other node and entry stays as it was. The same function serves lines 168 and 182. The removal at line 172 is folded into `Tree.Rename`, whose map update overwrites `newName`. |
| FsConnector.Connector.RenameUpdate | fuse/fsconnector.go:159-174 | It fails, changing nothing, exactly when the parents belong to different mounts, or when the mounts agree and the old name is absent. Otherwise the arena is the Rename of the old one. |
| Tree.RenameMoves | fuse/fsconnector.go:168-173 | After a rename, the new parent's `newName` holds the moved node, with the same id. `oldName` is gone unless source and target coincide. Only the two child maps change, and every other entry is kept. |
| Tree.RenameKeepsRank | fuse/fsconnector.go:168-173 | A rename whose target parent is not inside the moved subtree keeps the child maps acyclic under the adjusted ranks. |
| Tree.RenameRankRaises | fuse/fsconnector.go:168-173 | The adjusted ranks still fit the old tree and place the target parent above the moved node. |
| Tree.MoveEdgeKeepsRank | fuse/fsconnector.go:168-173 | Moving an entry under a parent ranked above the moved node keeps valid ranks valid. |
| Invariant.InvAfterRename | fuse/fsconnector.go:159-174 | A rename keeps the connector invariant. |
| FsConnector.Connector.UnlinkUpdate | fuse/fsconnector.go:176-183 | Only `name` leaves the parent's child map. The detached node keeps its record, counters and handle. |
| Invariant.InvAfterRmChild | fuse/fsconnector.go:182 | Removing a child entry keeps the invariant. |
| FsConnector.Connector.FindLastKnownInode | fuse/fsconnector.go:187-214 | The loop's result is the walk from the root. Empty components are skipped, and the walk follows exact child matches and stops at the first unmatched one. |
| Tree.WalkSplitsPath | fuse/fsconnector.go:195-213 | The walk splits the path into a prefix that resolves exactly to the returned node and a suffix of the path. A non-empty suffix starts at a non-empty component that the node has no child for. |
| Tree.WalkResolvesIff | fuse/fsconnector.go:216-222 | The suffix is empty exactly when the path resolves, and then the walk and exact resolution give the same node. |
| FsConnector.Connector.FindInode | fuse/fsconnector.go:216-222 | The result is the node the path resolves to exactly, and none when it does not resolve. |
| FsConnector.Connector.MountFs | fuse/fsconnector.go:270 | A fresh mount id is created for the backend and options, rooted at x. It becomes x's mount and mount point. |
| Invariant.InvAfterMountFs | fuse/fsconnector.go:270 | The fresh mount id is unused and no sub-mount entry names it. Mounting it on the root, or on a node without a mount point, keeps the invariant. |
| FsConnector.Connector.MountRoot | fuse/fsconnector.go:286-290 | It mounts the backend afresh on the root, with the options exactly as given, and records the mount hook. |
| FsConnector.Connector.Mount | fuse/fsconnector.go:242-284 | "/" or "" remounts the root and returns OK. Otherwise the status is ENOENT when the directory does not resolve or has no mount, then EBUSY when `base` exists, else OK. Any failure leaves the whole object unchanged. On success, the fresh inode is a child under `base`, the fresh mount is the sub-mount entry under `base`, and the fresh mount is rooted at that inode. It gets the root mount's options when none are given. One mount hook is recorded. |
| FsConnector.Connector.MountUnder | fuse/fsconnector.go:265-283 | The successful branch of Mount. The complete new state is given: one new id, one new mount, the parent's two maps extended by `base`, and the hook event. |
| FsConnector.Connector.NewMountedInode | fuse/fsconnector.go:265-270 | newInode(true) followed by mountFs. The results are a fresh id that is nobody's child and a fresh mount that no sub-mount entry names. |
| FsConnector.Connector.GraftMount | fuse/fsconnector.go:271-276 | The parent's child map and sub-mount table both gain `base`, and nothing else changes. |
| Invariant.GraftArena | fuse/fsconnector.go:271-276 | addChild followed by the sub-mount insert equals one update of the parent's record. |
| Invariant.InvAfterGraft | fuse/fsconnector.go:271-276 | Inserting the sub-mount entry of a freshly attached mount root keeps the invariant, including that no mount is grafted twice. |
| FsConnector.Connector.Unmount | fuse/fsconnector.go:299-335 | The status is EINVAL when the directory does not resolve or `name` has no sub-mount entry, then EBUSY when the mount has open files or may not be unmounted, else OK. Any failure leaves the whole object unchanged. On success: the mount's root is cleared, the root inode's mount point is cleared, and `name` leaves both of the parent's maps. One unmount hook and exactly one entry invalidation of (parent, name) are recorded. |
| Tree.UnmountUndoesMount | fuse/fsconnector.go:320-329 | After Mount grafts a fresh mount root under `base`, Unmount of `base` finds that mount and that root. Its removal restores every node that existed before the Mount, and leaves only the detached root inode, which is no longer a mount point. |
| Invariant.InvAfterUngraft | fuse/fsconnector.go:328-329 | Removing `name` from both of the parent's maps keeps the invariant, and afterwards no entry names that mount. |
| Invariant.InvAfterRetire | fuse/fsconnector.go:325-326 | Clearing a mount that no entry names, and clearing its inode's mount point, keeps the invariant. |
| FsConnector.Connector.FileNotify | fuse/fsconnector.go:337-349 | An unresolved path gives ENOENT and sends nothing. Otherwise exactly one inode invalidation of that node with the given range is sent, and the kernel's reply is returned. |
| FsConnector.Connector.EntryNotify | fuse/fsconnector.go:351-358 | An unresolved directory gives ENOENT and sends nothing. Otherwise exactly one entry invalidation of (directory node, name) is sent, and the kernel's reply is returned. |
| FsConnector.Connector.Notify | fuse/fsconnector.go:360-369 | Exactly one invalidation, that of NotifyTarget, is sent, and the kernel's reply is returned. |
| FsConnector.NotifyTargetSpec | fuse/fsconnector.go:360-369 | The inode is invalidated exactly when the path resolves, and then it is the resolved inode. Otherwise the entry invalidated is a non-empty component of the path that the deepest node reached has no child for. |

## Left out

- Locking (`treeLock`, `openFilesMutex`): the model is single-threaded, so the race between Unmount's busy test and its removal is not represented.
- The handle map's internals and unsafe pointer decoding: the handle map is a set of live ids with a counter that hands out fresh ones. No id is ever reused.
- `filepath.Clean` and `filepath.Split`: paths arrive already split into components. "/" and "" arrive as `MountPath.AtRoot`.
- Backend `Mount`/`Unmount` hooks: these are foreign calls, recorded as `events` entries.
- Kernel notifications: recorded as `notices` entries. The kernel's reply is a parameter.
- `createChild` and `fileInfoToEntry`: they turn attributes into reply records and depend on types that are not part of this model.
- The `Owner` and `SkipCheckHandles` options, `Debug` logging, and the `paranoia`/`verify` self-check: these are configuration and diagnostics only. `Options` keeps the three timeouts.
- `canUnmount`: `Inode.canUnmount` lives in inode.go, which is not part of this model, so Unmount takes its answer as a parameter.
- `addChild`, `rmChild` and `mountFs`: these Inode methods live in inode.go and are modelled as their map updates.
- Writes into the nil child map of a non-directory are not modelled: there is always an empty map.
- Open-file counts are carried but never changed: the operations that open and close files are not part of this model.
- The handle that NewFileSystemConnector registers for the root is not modelled. In Go it is registered and then shadowed by FUSE_ROOT_ID; here the root is simply not in the handle map.
- 64-bit ids and counts are unbounded integers, so wrap-around is not modelled.
- RenameUpdate requires that the new parent is not inside the moved subtree. The kernel guarantees this, and the source assumes it without checking.
- RenameUpdate: the two panics are modelled as a `RenameOutcome` result that leaves the state unchanged.
- ForgetUpdate does not detach or release the forgotten node itself. This follows the source, which ignores considerDropInode's result at line 129. A node that still has a parent is collected when its parent is next collected. A node that no longer has a parent keeps its id registered for good, in the source as in the model. Examples are a node unlinked at line 182, and the former occupant of `newName` that a rename displaces at line 172.
- ForgetUpdate, ConsiderDropInode: the model does not state that a node has at most one parent. A released id is the target of a dropped entry and is collectible, but nothing rules out a second entry naming it elsewhere. The source never creates such an entry: addChild only attaches nodes that have just been created or just been removed. The invariant does not record this.
- ConsiderDropInode: the first loop visits the children in an unspecified order, chosen by `:|`, just as Go map iteration order is unspecified. The contracts do not depend on that order.
- Mount: the root mount's record from before a remount of "/" stays in the mount table. It is simply no longer the root's mount point.
- Unmount does not release the former mount root's handle: the source leaves it registered.

## Notes on the source

Three consequences of the code worth stating:

- Collectible uses `lookupCount <= 0`, as the code does. A count made negative by an over-large forget therefore still allows collection.
- Notify never returns ENOENT. The walk always yields a node, so either an entry or an inode invalidation is sent.
- A remount of "/" passes its options through unchanged, possibly none. Only NewFileSystemConnector fills in default options.
