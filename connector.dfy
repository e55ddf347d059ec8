/**
 * The FileSystemConnector: the arena of inodes the kernel knows by id,
 * the handle map, the mount table, and the operations that keep them in
 * step with the kernel's lookup/forget protocol.
 */
module FsConnector {
  import opened Tree
  import opened Invariant
  import opened Collection

  /** Invalidation records sent to the kernel. */
  datatype Notice =
    | EntryInval(parent: NodeId, name: string)
    | InodeInval(ino: NodeId, off: int, length: int)

  /** Calls made into backend filesystems. */
  datatype Event =
    | BackendMounted(backend: BackendId, mount: MountId)
    | BackendUnmounted(backend: BackendId, mount: MountId)

  /** A mount point as (directory components, base name), or the root ("/" or ""). */
  datatype MountPath = AtRoot | Under(dir: seq<string>, base: string)

  /** How renameUpdate ends; the two failures are fatal panics in the source. */
  datatype RenameOutcome = Renamed | CrossMountRename | SourceMissing

  /** The invalidation Notify sends for a path: the entry if the walk stopped early, else the inode. */
  function NotifyTarget(nodes: Arena, comps: seq<string>): Notice
  {
    var (node, rest) := Walk(nodes, ROOT_ID, comps);
    if |rest| > 0 then EntryInval(node, rest[0]) else InodeInval(node, 0, 0)
  }

  /**
   * Notify invalidates the inode exactly when the path resolves (and then
   * that inode); otherwise it invalidates a non-empty name that the
   * deepest resolvable directory on the path has no child for.
   */
  lemma NotifyTargetSpec(nodes: Arena, comps: seq<string>)
    ensures NotifyTarget(nodes, comps).InodeInval? <==> Follow(nodes, ROOT_ID, comps).Some?
    ensures NotifyTarget(nodes, comps).InodeInval? ==>
              NotifyTarget(nodes, comps) == InodeInval(Follow(nodes, ROOT_ID, comps).value, 0, 0)
    ensures NotifyTarget(nodes, comps).EntryInval? ==>
              var p := NotifyTarget(nodes, comps).parent;
              var name := NotifyTarget(nodes, comps).name;
              && name != ""
              && (p !in nodes || name !in nodes[p].children)
              && exists i :: 0 <= i < |comps| && comps[i] == name && Follow(nodes, ROOT_ID, comps[..i]) == Some(p)
  {
    WalkResolvesIff(nodes, ROOT_ID, comps);
    WalkSplitsPath(nodes, ROOT_ID, comps);
    var (node, rest) := Walk(nodes, ROOT_ID, comps);
    if |rest| > 0 {
      var i := |comps| - |rest|;
      assert comps[i] == rest[0];
    }
  }

  /** The arena right after forgetUpdate's subtraction, before collection. */
  function Forgotten(nodes: Arena, id: NodeId, count: int): Arena
    requires id in nodes
  {
    nodes[id := nodes[id].(lookupCount := nodes[id].lookupCount - count)]
  }

  /** The status Mount returns below the root, in the order the source tests its conditions. */
  function MountStatus(nodes: Arena, dir: seq<string>, base: string): Status
  {
    var parent := Follow(nodes, ROOT_ID, dir);
    if parent.None? || parent.value !in nodes || nodes[parent.value].mount.None? then ENOENT
    else if base in nodes[parent.value].children then EBUSY
    else OK
  }

  /** The status Unmount returns, in the order the source tests its conditions. */
  function UnmountStatus(nodes: Arena, mt: map<MountId, MountRec>, dir: seq<string>, name: string,
                         canUnmount: bool): Status
  {
    var parent := Follow(nodes, ROOT_ID, dir);
    if parent.None? || parent.value !in nodes || name !in nodes[parent.value].mounts then EINVAL
    else if nodes[parent.value].mounts[name] !in mt || mt[nodes[parent.value].mounts[name]].openFiles > 0
            || !canUnmount then EBUSY
    else OK
  }

  class Connector {
    /** Every inode object, live or orphaned; the arena never shrinks. */
    var nodes: Arena
    var mountsTable: map<MountId, MountRec>
    /** The handle map: ids the kernel may still use. */
    var handles: set<NodeId>
    /** Fresh-id allocators for inodes and mounts. */
    var nextId: NodeId
    var nextMount: MountId
    /** Invalidations sent to the kernel, oldest first. */
    var notices: seq<Notice>
    /** Backend Mount/Unmount hook calls, oldest first. */
    var events: seq<Event>
    /** Acyclicity witness for the child maps. */
    ghost var rank: map<NodeId, nat>

    ghost predicate Valid()
      reads this
    {
      Inv(nodes, mountsTable, handles, nextId, nextMount, rank)
    }

    /**
     * NewFileSystemConnector: a root directory with id ROOT_ID and the
     * root backend mounted on it (default options when none are given).
     */
    constructor (backend: BackendId, opts: Option<Options>)
      ensures Valid()
      ensures nodes.Keys == {ROOT_ID} && handles == {}
      ensures nodes[ROOT_ID] == NewNode(true).(mount := Some(0), mountPoint := Some(0))
      ensures mountsTable == map[0 := MountRec(Some(ROOT_ID), backend,
                                               Some(if opts.None? then DefaultOptions else opts.value), 0)]
      ensures notices == [] && events == [BackendMounted(backend, 0)]
    {
      var o := if opts.None? then DefaultOptions else opts.value;
      nodes := map[ROOT_ID := NewNode(true).(mount := Some(0), mountPoint := Some(0))];
      mountsTable := map[0 := MountRec(Some(ROOT_ID), backend, Some(o), 0)];
      handles := {};
      nextId := ROOT_ID + 1;
      nextMount := 1;
      notices := [];
      events := [BackendMounted(backend, 0)];
      rank := map[ROOT_ID := 0];
    }

    /** newInode: register a fresh id for a new, parentless node. */
    method NewInode(isDir: bool) returns (id: NodeId)
      requires Valid()
      modifies this
      ensures Valid()
      ensures id == old(nextId) && id !in old(nodes) && nextId == id + 1
      ensures forall x, k :: x in nodes && k in nodes[x].children ==> nodes[x].children[k] != id
      ensures nodes == old(nodes)[id := NewNode(isDir)]
      ensures handles == old(handles) + {id}
      ensures rank == old(rank)[id := 0]
      ensures mountsTable == old(mountsTable) && nextMount == old(nextMount)
      ensures notices == old(notices) && events == old(events)
    {
      InvAfterNew(nodes, mountsTable, handles, nextId, nextMount, rank, isDir);
      id := nextId;
      nextId := nextId + 1;
      nodes := nodes[id := NewNode(isDir)];
      handles := handles + {id};
      rank := rank[id := 0];
    }

    /** addChild on a node that no other node has as a child yet. */
    method AttachChild(p: NodeId, name: string, c: NodeId)
      requires Valid()
      requires p in nodes && c in nodes && c != p && |nodes[c].children| == 0
      requires forall x, k :: x in nodes && k in nodes[x].children ==> nodes[x].children[k] != c
      modifies this
      ensures Valid()
      ensures nodes == AddChild(old(nodes), p, name, c)
      ensures handles == old(handles) && nextId == old(nextId)
      ensures mountsTable == old(mountsTable) && nextMount == old(nextMount)
      ensures notices == old(notices) && events == old(events)
    {
      InvAfterAttach(nodes, mountsTable, handles, nextId, nextMount, rank, p, name, c);
      rank := LeafRank(rank, p, c);
      nodes := AddChild(nodes, p, name, c);
    }

    /**
     * lookupUpdate: find the child `name` of `parent`, creating and
     * registering it (inheriting the parent's mount) when absent, and add
     * `count` to its lookup count.
     */
    method LookupUpdate(parent: NodeId, name: string, isDir: bool, count: int) returns (child: NodeId)
      requires Valid() && parent in nodes
      modifies this
      ensures Valid()
      ensures parent in nodes && child in nodes
      ensures name in nodes[parent].children && nodes[parent].children[name] == child
      ensures old(name in nodes[parent].children) ==>
                && child == old(nodes[parent].children[name])
                && nodes == old(nodes)[child := old(nodes[child]).(lookupCount := old(nodes[child].lookupCount) + count)]
                && handles == old(handles) && nextId == old(nextId)
      ensures !old(name in nodes[parent].children) ==>
                && child == old(nextId) && child !in old(nodes)
                && handles == old(handles) + {child} && nextId == old(nextId) + 1
                && nodes == AddChild(old(nodes), parent, name, child)[child :=
                     NewNode(isDir).(mount := old(nodes[parent].mount), lookupCount := count)]
      ensures mountsTable == old(mountsTable) && nextMount == old(nextMount)
      ensures notices == old(notices) && events == old(events)
    {
      if name in nodes[parent].children {
        child := nodes[parent].children[name];
        var r := nodes[child].(lookupCount := nodes[child].lookupCount + count);
        InvAfterEdit(nodes, mountsTable, handles, nextId, nextMount, rank, child, r);
        nodes := nodes[child := r];
      } else {
        child := NewChild(parent, name, isDir, count);
      }
    }

    /** The branch of lookupUpdate that creates, registers and attaches the missing child. */
    method NewChild(parent: NodeId, name: string, isDir: bool, count: int) returns (child: NodeId)
      requires Valid() && parent in nodes && name !in nodes[parent].children
      modifies this
      ensures Valid()
      ensures child == old(nextId) && child !in old(nodes)
      ensures handles == old(handles) + {child} && nextId == old(nextId) + 1
      ensures nodes == AddChild(old(nodes), parent, name, child)[child :=
                NewNode(isDir).(mount := old(nodes[parent].mount), lookupCount := count)]
      ensures mountsTable == old(mountsTable) && nextMount == old(nextMount)
      ensures notices == old(notices) && events == old(events)
    {
      NewChildArena(nodes, parent, name, nextId, isDir,
                    NewNode(isDir).(mount := nodes[parent].mount, lookupCount := count));
      child := NewInode(isDir);
      AttachChild(parent, name, child);
      var r := NewNode(isDir).(mount := nodes[parent].mount, lookupCount := count);
      InvAfterEdit(nodes, mountsTable, handles, nextId, nextMount, rank, child, r);
      nodes := nodes[child := r];
    }

    /**
     * lookupMount: when a sub-mount is grafted under `name`, add `count`
     * to the lookup count of its root inode and return it.
     */
    method LookupMount(parent: NodeId, name: string, count: int) returns (m: Option<MountId>)
      requires Valid() && parent in nodes
      modifies this
      ensures Valid()
      ensures m.Some? <==> old(name in nodes[parent].mounts)
      ensures m.None? ==> nodes == old(nodes)
      ensures m.Some? ==>
                && m.value == old(nodes[parent].mounts[name])
                && var mi := old(mountsTable[m.value].mountInode.value);
                   nodes == old(nodes)[mi := old(nodes[mi]).(lookupCount := old(nodes[mi].lookupCount) + count)]
      ensures handles == old(handles) && nextId == old(nextId)
      ensures mountsTable == old(mountsTable) && nextMount == old(nextMount)
      ensures notices == old(notices) && events == old(events)
    {
      if name !in nodes[parent].mounts {
        return None;
      }
      var mnt := nodes[parent].mounts[name];
      var mi := mountsTable[mnt].mountInode.value;
      assert EntryLinked(nodes, mountsTable, parent, mnt);
      var r := nodes[mi].(lookupCount := nodes[mi].lookupCount + count);
      InvAfterEdit(nodes, mountsTable, handles, nextId, nextMount, rank, mi, r);
      nodes := nodes[mi := r];
      m := Some(mnt);
    }

    /** getInodeData: the root id yields the root; a live handle decodes to its own node. */
    function GetInodeData(nodeId: NodeId): (r: NodeId)
      reads this
      requires Valid() && (nodeId == ROOT_ID || nodeId in handles)
      ensures r in nodes && r == nodeId
    {
      if nodeId == ROOT_ID then ROOT_ID else nodeId
    }

    /**
     * forgetUpdate: subtract `count` from the node's lookup count (no
     * clamping) and collect what became unreachable below it. The node
     * itself is neither detached nor released here.
     */
    method ForgetUpdate(nodeId: NodeId, count: int)
      requires Valid() && (nodeId == ROOT_ID || nodeId in handles)
      modifies this
      ensures Valid() && nodeId in nodes && rank == old(rank)
      ensures nodes[nodeId] == old(nodes[nodeId]).(lookupCount := old(nodes[nodeId].lookupCount) - count,
                                                   children := nodes[nodeId].children)
      ensures Pruned(nodes, rank, nodeId)
      ensures forall k :: k in old(nodes)[nodeId].children ==>
                (k !in nodes[nodeId].children <==> Collectible(nodes, old(nodes)[nodeId].children[k]))
      ensures forall k :: k in old(nodes)[nodeId].children && k !in nodes[nodeId].children ==>
                old(nodes)[nodeId].children[k] !in handles
      ensures Collected(Forgotten(old(nodes), nodeId, count), nodes, rank, rank[nodeId],
                        Region(Forgotten(old(nodes), nodeId, count), rank, nodeId), old(handles), handles)
      ensures nodeId in old(handles) ==> nodeId in handles
      ensures forall m :: m in old(nodes) && m != nodeId && old(nodes)[m].mountPoint.Some? ==>
                m in nodes && nodes[m] == old(nodes)[m] && (m in old(handles) ==> m in handles)
      ensures nextId == old(nextId)
      ensures mountsTable == old(mountsTable) && nextMount == old(nextMount)
      ensures notices == old(notices) && events == old(events)
    {
      var node := GetInodeData(nodeId);
      var r := nodes[node].(lookupCount := nodes[node].lookupCount - count);
      InvAfterEdit(nodes, mountsTable, handles, nextId, nextMount, rank, node, r);
      nodes := nodes[node := r];
      ghost var n1 := nodes;
      assert n1 == Forgotten(old(nodes), nodeId, count);
      assert n1[nodeId].children == old(nodes)[nodeId].children;
      var _ := ConsiderDropInode(node);
      assert forall m :: m in old(nodes) && m != nodeId ==> n1[m] == old(nodes)[m];
      if nodeId in old(handles) {
        ReleasesBelow(n1, nodes, rank, rank[nodeId], Region(n1, rank, nodeId), old(handles), handles, nodeId);
      }
    }

    /**
     * considerDropInode: recursively collect every child that is not a
     * mount point and reports itself collectible, detach those children
     * and release their ids, then report whether n itself is collectible.
     */
    method ConsiderDropInode(n: NodeId) returns (drop: bool)
      requires Valid() && n in nodes
      modifies this
      decreases rank[n], 2
      ensures Valid() && n in nodes && rank == old(rank)
      ensures drop == Collectible(nodes, n)
      ensures Pruned(nodes, rank, n)
      ensures forall k :: k in old(nodes)[n].children ==>
                (k !in nodes[n].children <==> Collectible(nodes, old(nodes)[n].children[k]))
      ensures forall k :: k in old(nodes)[n].children && k !in nodes[n].children ==>
                old(nodes)[n].children[k] !in handles
      ensures Collected(old(nodes), nodes, rank, rank[n], Region(old(nodes), rank, n), old(handles), handles)
      ensures forall m :: m in old(nodes) && m != n && old(nodes)[m].mountPoint.Some? ==>
                m in nodes && nodes[m] == old(nodes)[m] && (m in old(handles) ==> m in handles)
      ensures nextId == old(nextId)
      ensures mountsTable == old(mountsTable) && nextMount == old(nextMount)
      ensures notices == old(notices) && events == old(events)
    {
      ghost var n0, h0 := nodes, handles;
      var del := SweepChildren(n);
      ghost var mid, hmid := nodes, handles;
      assert RankOk(mid, rank);
      DetachChildren(n, del);
      SweepThenDetach(n0, mid, nodes, rank, n, del, h0, hmid, handles);
      CollectedSparesMounts(n0, nodes, rank, n, h0, handles);
      if |nodes[n].children| > 0 || nodes[n].lookupCount > 0 {
        drop := false;
      } else if n == ROOT_ID || nodes[n].mountPoint.Some? {
        drop := false;
      } else {
        drop := nodes[n].openFiles == 0;
      }
    }

    /**
     * The first loop of considerDropInode: ask every child that is not a
     * mount point whether it is collectible, collecting below it, and
     * return the names of those that are. n's own record is untouched.
     */
    method SweepChildren(n: NodeId) returns (del: seq<string>)
      requires Valid() && n in nodes
      modifies this
      decreases rank[n], 1
      ensures Valid() && n in nodes && rank == old(rank)
      ensures nodes[n] == old(nodes)[n]
      ensures Classified(nodes, rank, nodes[n].children, nodes[n].children.Keys, del)
      ensures Collected(old(nodes), nodes, rank, rank[n], Region(old(nodes), rank, n), old(handles), handles)
      ensures nextId == old(nextId)
      ensures mountsTable == old(mountsTable) && nextMount == old(nextMount)
      ensures notices == old(notices) && events == old(events)
    {
      var kids := nodes[n].children;
      var todo := kids.Keys;
      ghost var done: set<string> := {};
      del := [];
      while todo != {}
        invariant Valid() && n in nodes && rank == old(rank)
        invariant nodes[n] == old(nodes)[n] && nodes[n].children == kids
        invariant todo <= kids.Keys && done == kids.Keys - todo
        invariant Classified(nodes, rank, kids, done, del)
        invariant Collected(old(nodes), nodes, rank, rank[n], Region(old(nodes), rank, n), old(handles), handles)
        invariant nextId == old(nextId)
        invariant mountsTable == old(mountsTable) && nextMount == old(nextMount)
        invariant notices == old(notices) && events == old(events)
        decreases todo
      {
        var k :| k in todo;
        var d := SweepOne(n, k, done, del, old(nodes), old(handles));
        if d {
          del := del + [k];
        }
        TakeOne(kids.Keys, todo, k);
        todo := todo - {k};
        done := done + {k};
      }
    }

    /**
     * One turn of the first loop: unless child k is a mount point, run
     * considerDropInode on it and report whether it is collectible.
     */
    method SweepOne(n: NodeId, k: string, ghost done: set<string>, ghost del: seq<string>,
                    ghost a0: Arena, ghost h0: set<NodeId>) returns (d: bool)
      requires Valid() && n in nodes && k in nodes[n].children && k !in done
      requires Classified(nodes, rank, nodes[n].children, done, del)
      requires Collected(a0, nodes, rank, rank[n], Region(a0, rank, n), h0, handles)
      modifies this
      decreases rank[n], 0
      ensures Valid() && n in nodes && rank == old(rank)
      ensures nodes[n] == old(nodes)[n]
      ensures old(nodes)[old(nodes)[n].children[k]].mountPoint.Some? ==>
                !d && nodes == old(nodes) && handles == old(handles)
      ensures Classified(nodes, rank, nodes[n].children, done + {k}, if d then del + [k] else del)
      ensures Collected(a0, nodes, rank, rank[n], Region(a0, rank, n), h0, handles)
      ensures nextId == old(nextId)
      ensures mountsTable == old(mountsTable) && nextMount == old(nextMount)
      ensures notices == old(notices) && events == old(events)
    {
      var v := nodes[n].children[k];
      ghost var cur, hcur := nodes, handles;
      ghost var reg: set<NodeId> := {};
      d := false;
      if nodes[v].mountPoint.None? {
        d := ConsiderDropInode(v);
        reg := Region(cur, rank, v);
        assert Shrunk(a0[n], cur[n]) && Shrunk(a0[v], cur[v]);
        RegionShrinks(a0, cur, rank, v);
        RegionChild(a0, rank, n, k);
      }
      ClassifyStep(cur, nodes, rank, cur[n].children, done, del, k, d);
      CollectedTrans(a0, cur, nodes, rank, rank[n], rank[v], rank[n],
                     Region(a0, rank, n), reg, Region(a0, rank, n), h0, hcur, handles);
    }

    /**
     * The second loop of considerDropInode: rmChild every name in `del`
     * and release the removed child's id from the handle map.
     */
    method DetachChildren(n: NodeId, del: seq<string>)
      requires Valid() && n in nodes
      requires Classified(nodes, rank, nodes[n].children, nodes[n].children.Keys, del)
      modifies this
      ensures Valid() && n in nodes && rank == old(rank)
      ensures Detached(old(nodes), nodes, rank, n, del, old(handles), handles)
      ensures handles == old(handles) - set i | 0 <= i < |del| :: old(nodes)[n].children[del[i]]
      ensures nextId == old(nextId)
      ensures mountsTable == old(mountsTable) && nextMount == old(nextMount)
      ensures notices == old(notices) && events == old(events)
    {
      var children, live := RmChildren(nodes[n].children, del, handles);
      assert Inv(nodes[n := nodes[n].(children := children)], mountsTable, live, nextId, nextMount, rank) by {
        DetachInv(nodes, mountsTable, handles, nextId, nextMount, rank, n, children, live);
      }
      DetachDone(nodes, rank, handles, n, del, children, live);
      nodes := nodes[n := nodes[n].(children := children)];
      handles := live;
    }

    /**
     * renameUpdate: move the child `on` of op to the name `nn` under np,
     * discarding whatever np had under `nn`. Both parents must belong to
     * the same mount and the source must exist; otherwise nothing changes
     * and the outcome names the violated condition (a panic in the source).
     * The kernel never moves a directory below itself, so np is not in the
     * moved subtree.
     */
    method RenameUpdate(op: NodeId, on: string, np: NodeId, nn: string) returns (res: RenameOutcome)
      requires Valid() && op in nodes && np in nodes
      requires on in nodes[op].children ==> !Descendant(nodes, rank, np, nodes[op].children[on])
      modifies this
      ensures Valid()
      ensures res == CrossMountRename <==> old(nodes[op].mount != nodes[np].mount)
      ensures res == SourceMissing <==> old(nodes[op].mount == nodes[np].mount && on !in nodes[op].children)
      ensures res != Renamed ==> nodes == old(nodes)
      ensures res == Renamed ==> old(on in nodes[op].children) && nodes == Rename(old(nodes), op, on, np, nn)
      ensures handles == old(handles) && nextId == old(nextId)
      ensures mountsTable == old(mountsTable) && nextMount == old(nextMount)
      ensures notices == old(notices) && events == old(events)
    {
      if nodes[op].mount != nodes[np].mount {
        return CrossMountRename;
      }
      if on !in nodes[op].children {
        return SourceMissing;
      }
      InvAfterRename(nodes, mountsTable, handles, nextId, nextMount, rank, op, on, np, nn);
      rank := RenameRank(nodes, rank, op, on, np);
      nodes := Rename(nodes, op, on, np, nn);
      res := Renamed;
    }

    /**
     * unlinkUpdate: rmChild(name) on parent. The detached node keeps its
     * record and its handle until a later forget collects it.
     */
    method UnlinkUpdate(parent: NodeId, name: string)
      requires Valid() && parent in nodes
      modifies this
      ensures Valid()
      ensures nodes == RmChild(old(nodes), parent, name)
      ensures handles == old(handles) && nextId == old(nextId)
      ensures mountsTable == old(mountsTable) && nextMount == old(nextMount)
      ensures notices == old(notices) && events == old(events)
    {
      InvAfterRmChild(nodes, mountsTable, handles, nextId, nextMount, rank, parent, name);
      nodes := RmChild(nodes, parent, name);
    }

    /**
     * findLastKnownInode: walk the components from the root, skipping
     * empty ones, while each names a child; return the node reached and
     * the components from the first one that does not.
     */
    method FindLastKnownInode(comps: seq<string>) returns (node: NodeId, rest: seq<string>)
      requires Valid()
      ensures node in nodes
      ensures (node, rest) == Walk(nodes, ROOT_ID, comps)
    {
      node := ROOT_ID;
      var i := 0;
      while i < |comps|
        invariant 0 <= i <= |comps| && node in nodes
        invariant Walk(nodes, ROOT_ID, comps) == Walk(nodes, node, comps[i..])
      {
        if comps[i] != "" {
          if comps[i] !in nodes[node].children {
            return node, comps[i..];
          }
          node := nodes[node].children[comps[i]];
        }
        i := i + 1;
      }
      rest := [];
    }

    /** findInode: the node a path resolves to exactly, if any. */
    method FindInode(comps: seq<string>) returns (r: Option<NodeId>)
      requires Valid()
      ensures r == Follow(nodes, ROOT_ID, comps)
      ensures r.Some? ==> r.value in nodes
    {
      var node, rest := FindLastKnownInode(comps);
      WalkResolvesIff(nodes, ROOT_ID, comps);
      if |rest| > 0 {
        r := None;
      } else {
        r := Some(node);
      }
    }

    /**
     * mountFs on x: a fresh mount of `backend` with options `opts`, rooted
     * at x, becomes x's mount and mount point.
     */
    method MountFs(x: NodeId, backend: BackendId, opts: Option<Options>) returns (m: MountId)
      requires Valid() && x in nodes && (x == ROOT_ID || nodes[x].mountPoint.None?)
      modifies this
      ensures Valid()
      ensures m == old(nextMount) && m !in old(mountsTable) && nextMount == m + 1
      ensures mountsTable == old(mountsTable)[m := MountRec(Some(x), backend, opts, 0)]
      ensures nodes == old(nodes)[x := old(nodes[x]).(mount := Some(m), mountPoint := Some(m))]
      ensures handles == old(handles) && nextId == old(nextId)
      ensures notices == old(notices) && events == old(events)
    {
      InvAfterMountFs(nodes, mountsTable, handles, nextId, nextMount, rank, x, backend, opts);
      m := nextMount;
      nextMount := nextMount + 1;
      mountsTable := mountsTable[m := MountRec(Some(x), backend, opts, 0)];
      nodes := nodes[x := nodes[x].(mount := Some(m), mountPoint := Some(m))];
    }

    /** mountRoot: mount `backend` afresh on the root and call its mount hook. */
    method MountRoot(backend: BackendId, opts: Option<Options>) returns (m: MountId)
      requires Valid()
      modifies this
      ensures Valid()
      ensures m == old(nextMount) && m !in old(mountsTable) && nextMount == m + 1
      ensures mountsTable == old(mountsTable)[m := MountRec(Some(ROOT_ID), backend, opts, 0)]
      ensures nodes == old(nodes)[ROOT_ID := old(nodes[ROOT_ID]).(mount := Some(m), mountPoint := Some(m))]
      ensures events == old(events) + [BackendMounted(backend, m)]
      ensures handles == old(handles) && nextId == old(nextId) && notices == old(notices)
    {
      m := MountFs(ROOT_ID, backend, opts);
      events := events + [BackendMounted(backend, m)];
    }

    /**
     * Mount: "/" or "" remounts the root. Otherwise the directory must
     * resolve (ENOENT), belong to a mount (ENOENT) and have no child named
     * `base` (EBUSY); then a fresh directory inode rooted at a fresh mount
     * (with the root mount's options when none are given) is placed under
     * `base` both as a child and as a sub-mount entry. Failures change
     * nothing.
     */
    method Mount(path: MountPath, backend: BackendId, opts: Option<Options>) returns (st: Status)
      requires Valid()
      modifies this
      ensures Valid()
      ensures path.AtRoot? ==> st == OK
      ensures path.Under? ==> st == MountStatus(old(nodes), path.dir, path.base)
      ensures st != OK ==> unchanged(this)
      ensures path.AtRoot? ==>
                && mountsTable == old(mountsTable)[old(nextMount) := MountRec(Some(ROOT_ID), backend, opts, 0)]
                && nodes == old(nodes)[ROOT_ID := old(nodes[ROOT_ID]).(mount := Some(old(nextMount)),
                                                                  mountPoint := Some(old(nextMount)))]
                && handles == old(handles) && nextId == old(nextId)
      ensures path.Under? && st == OK ==>
                var p := Follow(old(nodes), ROOT_ID, path.dir).value;
                var c, m := old(nextId), old(nextMount);
                var o := if opts.None? then old(mountsTable[nodes[ROOT_ID].mountPoint.value].options) else opts;
                && c !in old(nodes) && p in old(nodes)
                && handles == old(handles) + {c} && nextId == c + 1
                && mountsTable == old(mountsTable)[m := MountRec(Some(c), backend, o, 0)]
                && nodes == Graft(old(nodes)[c := NewNode(true).(mount := Some(m), mountPoint := Some(m))],
                                  p, path.base, c, m)
      ensures st == OK ==> nextMount == old(nextMount) + 1 && events == old(events) + [BackendMounted(backend, old(nextMount))]
      ensures notices == old(notices)
    {
      if path.AtRoot? {
        var _ := MountRoot(backend, opts);
        return OK;
      }
      var parent := FindInode(path.dir);
      if parent.None? {
        return ENOENT;
      }
      var p := parent.value;
      if nodes[p].mount.None? {
        return ENOENT;
      }
      if path.base in nodes[p].children {
        return EBUSY;
      }
      st := MountUnder(p, path.base, backend, opts);
    }

    /** The successful branch of Mount below the root. */
    method MountUnder(p: NodeId, base: string, backend: BackendId, opts: Option<Options>) returns (st: Status)
      requires Valid() && p in nodes && base !in nodes[p].children
      modifies this
      ensures Valid() && st == OK
      ensures old(nextId) !in old(nodes)
      ensures handles == old(handles) + {old(nextId)} && nextId == old(nextId) + 1
      ensures nextMount == old(nextMount) + 1
      ensures mountsTable == old(mountsTable)[old(nextMount) :=
                MountRec(Some(old(nextId)), backend,
                         if opts.None? then old(mountsTable[nodes[ROOT_ID].mountPoint.value].options) else opts, 0)]
      ensures nodes == Graft(old(nodes)[old(nextId) := NewNode(true).(mount := Some(old(nextMount)),
                                                                      mountPoint := Some(old(nextMount)))],
                             p, base, old(nextId), old(nextMount))
      ensures events == old(events) + [BackendMounted(backend, old(nextMount))]
      ensures notices == old(notices)
    {
      var o := if opts.None? then mountsTable[nodes[ROOT_ID].mountPoint.value].options else opts;
      var c, m := NewMountedInode(backend, o);
      GraftMount(p, base, c, m);
      events := events + [BackendMounted(backend, m)];
      st := OK;
    }

    /** newInode(true) followed by mountFs on it. */
    method NewMountedInode(backend: BackendId, opts: Option<Options>) returns (c: NodeId, m: MountId)
      requires Valid()
      modifies this
      ensures Valid()
      ensures c == old(nextId) && c !in old(nodes) && c != ROOT_ID && m == old(nextMount)
      ensures handles == old(handles) + {c} && nextId == c + 1 && nextMount == m + 1
      ensures mountsTable == old(mountsTable)[m := MountRec(Some(c), backend, opts, 0)]
      ensures nodes == old(nodes)[c := NewNode(true).(mount := Some(m), mountPoint := Some(m))]
      ensures forall x, k :: x in nodes && k in nodes[x].children ==> nodes[x].children[k] != c
      ensures forall q, n :: q in nodes && n in nodes[q].mounts ==> nodes[q].mounts[n] != m
      ensures notices == old(notices) && events == old(events)
    {
      c := NewInode(true);
      m := MountFs(c, backend, opts);
    }

    /**
     * The rest of Mount: c, the root of mount m, goes under `base` in p's
     * child map and m under `base` in p's mount table.
     */
    method GraftMount(p: NodeId, base: string, c: NodeId, m: MountId)
      requires Valid() && p in nodes && c in nodes && c != p && c != ROOT_ID
      requires |nodes[c].children| == 0 && nodes[c].mountPoint == Some(m)
      requires forall x, k :: x in nodes && k in nodes[x].children ==> nodes[x].children[k] != c
      requires m in mountsTable && mountsTable[m].mountInode == Some(c)
      requires forall q, n :: q in nodes && n in nodes[q].mounts ==> nodes[q].mounts[n] != m
      modifies this
      ensures Valid()
      ensures nodes == Graft(old(nodes), p, base, c, m)
      ensures handles == old(handles) && nextId == old(nextId)
      ensures mountsTable == old(mountsTable) && nextMount == old(nextMount)
      ensures notices == old(notices) && events == old(events)
    {
      GraftArena(nodes, p, base, c, m);
      AttachChild(p, base, c);
      InvAfterGraft(nodes, mountsTable, handles, nextId, nextMount, rank, p, base, m);
      nodes := nodes[p := nodes[p].(mounts := nodes[p].mounts[base := m])];
    }

    /**
     * Unmount: the directory must resolve and have a sub-mount at `name`
     * (EINVAL); the mount must have no open files and its root inode must
     * agree to be unmounted (`canUnmount`, EBUSY). Then the mount is
     * severed from its root inode, `name` leaves both p's mount table and
     * child map, the backend's unmount hook runs and the kernel is told to
     * drop the entry. Failures change nothing.
     */
    method Unmount(dir: seq<string>, name: string, canUnmount: bool) returns (st: Status)
      requires Valid()
      modifies this
      ensures Valid()
      ensures st == UnmountStatus(old(nodes), old(mountsTable), dir, name, canUnmount)
      ensures st != OK ==> unchanged(this)
      ensures st == OK ==>
                var p := Follow(old(nodes), ROOT_ID, dir).value;
                var m := old(nodes[p].mounts[name]);
                var mi := old(mountsTable[m].mountInode.value);
                && mountsTable == old(mountsTable)[m := old(mountsTable[m]).(mountInode := None)]
                && nodes == Ungraft(old(nodes), p, name, mi)
                && events == old(events) + [BackendUnmounted(old(mountsTable[m].backend), m)]
                && notices == old(notices) + [EntryInval(p, name)]
      ensures handles == old(handles) && nextId == old(nextId) && nextMount == old(nextMount)
    {
      var parent := FindInode(dir);
      if parent.None? {
        return EINVAL;
      }
      var p := parent.value;
      if name !in nodes[p].mounts {
        return EINVAL;
      }
      var m := nodes[p].mounts[name];
      assert EntryLinked(nodes, mountsTable, p, m);
      if mountsTable[m].openFiles > 0 {
        return EBUSY;
      }
      var mi := mountsTable[m].mountInode.value;
      if !canUnmount {
        return EBUSY;
      }
      InvAfterUngraft(nodes, mountsTable, handles, nextId, nextMount, rank, p, name);
      nodes := nodes[p := nodes[p].(mounts := nodes[p].mounts - {name}, children := nodes[p].children - {name})];
      InvAfterRetire(nodes, mountsTable, handles, nextId, nextMount, rank, p, m);
      nodes := nodes[mi := nodes[mi].(mountPoint := None)];
      mountsTable := mountsTable[m := mountsTable[m].(mountInode := None)];
      events := events + [BackendUnmounted(mountsTable[m].backend, m)];
      notices := notices + [EntryInval(p, name)];
      st := OK;
    }

    /** FileNotify: invalidate a byte range of the inode a path resolves to; the kernel's reply is returned. */
    method FileNotify(comps: seq<string>, off: int, length: int, reply: Status) returns (st: Status)
      requires Valid()
      modifies this`notices
      ensures Follow(nodes, ROOT_ID, comps).None? ==> st == ENOENT && notices == old(notices)
      ensures Follow(nodes, ROOT_ID, comps).Some? ==>
                st == reply && notices == old(notices) + [InodeInval(Follow(nodes, ROOT_ID, comps).value, off, length)]
    {
      var node := FindInode(comps);
      if node.None? {
        return ENOENT;
      }
      notices := notices + [InodeInval(node.value, off, length)];
      st := reply;
    }

    /** EntryNotify: invalidate the entry `name` of the directory a path resolves to. */
    method EntryNotify(dir: seq<string>, name: string, reply: Status) returns (st: Status)
      requires Valid()
      modifies this`notices
      ensures Follow(nodes, ROOT_ID, dir).None? ==> st == ENOENT && notices == old(notices)
      ensures Follow(nodes, ROOT_ID, dir).Some? ==>
                st == reply && notices == old(notices) + [EntryInval(Follow(nodes, ROOT_ID, dir).value, name)]
    {
      var node := FindInode(dir);
      if node.None? {
        return ENOENT;
      }
      notices := notices + [EntryInval(node.value, name)];
      st := reply;
    }

    /**
     * Notify: invalidate the inode a path resolves to, or else the first
     * unresolved entry below the deepest node the path reaches.
     */
    method Notify(comps: seq<string>, reply: Status) returns (st: Status)
      requires Valid()
      modifies this`notices
      ensures st == reply
      ensures notices == old(notices) + [NotifyTarget(nodes, comps)]
    {
      var node, rest := FindLastKnownInode(comps);
      if |rest| > 0 {
        notices := notices + [EntryInval(node, rest[0])];
      } else {
        notices := notices + [InodeInval(node, 0, 0)];
      }
      st := reply;
    }
  }
}
