/**
 * Value-level model of the inode tree kept by the FUSE FileSystemConnector:
 * node records, the arena that holds them, and the pure functions that
 * describe path resolution, collectibility and the tree edits.
 */
module Tree {

  /** Kernel-visible node identifiers (64-bit in the protocol, unbounded here). */
  type NodeId = nat
  /** Identifiers of sub-filesystem mounts in the connector's mount table. */
  type MountId = nat
  /** Opaque identity of a backend filesystem implementation. */
  type BackendId = nat

  /** The node id the FUSE protocol reserves for the root (FUSE_ROOT_ID). */
  const ROOT_ID: NodeId := 1

  datatype Option<T> = None | Some(value: T)

  /** Status codes returned to callers, and any status the kernel replies. */
  datatype Status = OK | ENOENT | EBUSY | EINVAL | Errno(code: int)

  /** Cache timeouts of a mount, in seconds. */
  datatype Options = Options(negativeTimeout: real, attrTimeout: real, entryTimeout: real)

  /** The options NewFileSystemOptions builds. */
  const DefaultOptions: Options := Options(0.0, 1.0, 1.0)

  /**
   * One inode. A node that is not a directory has no child map in the
   * source; here it has an empty one.
   */
  datatype NodeRec = NodeRec(
    isDir: bool,
    children: map<string, NodeId>,
    lookupCount: int,
    mount: Option<MountId>,        // the mount this node belongs to
    mountPoint: Option<MountId>,   // the mount rooted at this node, if any
    mounts: map<string, MountId>,  // sub-mounts grafted under child names
    openFiles: nat)

  /** One mounted backend filesystem. */
  datatype MountRec = MountRec(
    mountInode: Option<NodeId>,
    backend: BackendId,
    options: Option<Options>,
    openFiles: nat)

  type Arena = map<NodeId, NodeRec>

  /** The record newInode creates: no children, no lookups, no mount yet. */
  function NewNode(isDir: bool): (r: NodeRec)
    ensures r.isDir == isDir && |r.children| == 0 && r.lookupCount == 0
    ensures r.mount.None? && r.mountPoint.None? && |r.mounts| == 0 && r.openFiles == 0
  {
    NodeRec(isDir, map[], 0, None, None, map[], 0)
  }

  // ---------------------------------------------------------------------
  // Collection

  /**
   * The final test of considerDropInode: no children left, no outstanding
   * kernel lookups, not the root, no mount attached and no open files.
   */
  predicate Collectible(nodes: Arena, x: NodeId)
  {
    && x in nodes
    && |nodes[x].children| == 0
    && nodes[x].lookupCount <= 0
    && x != ROOT_ID
    && nodes[x].mountPoint.None?
    && nodes[x].openFiles == 0
  }

  /**
   * Acyclicity witness: every child exists and has a strictly smaller
   * rank than its parent.
   */
  ghost predicate RankOk(nodes: Arena, rank: map<NodeId, nat>)
  {
    && rank.Keys == nodes.Keys
    && forall x, k :: x in nodes && k in nodes[x].children ==>
         nodes[x].children[k] in nodes && rank[nodes[x].children[k]] < rank[x]
  }

  /**
   * x is fully pruned: every child that is not a mount point is not
   * collectible and is itself fully pruned. This is what a run of
   * considerDropInode leaves behind.
   */
  ghost predicate Pruned(nodes: Arena, rank: map<NodeId, nat>, x: NodeId)
    decreases if x in rank then rank[x] else 0
  {
    && x in nodes && x in rank
    && forall k :: k in nodes[x].children ==>
         && nodes[x].children[k] in nodes
         && nodes[x].children[k] in rank
         && rank[nodes[x].children[k]] < rank[x]
         && (|| nodes[nodes[x].children[k]].mountPoint.Some?
             || (!Collectible(nodes, nodes[x].children[k])
                 && Pruned(nodes, rank, nodes[x].children[k])))
  }

  /** The arena after rmChild(k) on p. */
  function RmChild(nodes: Arena, p: NodeId, k: string): (r: Arena)
    requires p in nodes
    ensures r.Keys == nodes.Keys
    ensures k !in r[p].children
    ensures forall j :: j != k ==> (j in r[p].children <==> j in nodes[p].children)
    ensures forall j :: j in r[p].children ==> r[p].children[j] == nodes[p].children[j]
    ensures r[p] == nodes[p].(children := r[p].children)
    ensures forall x :: x in nodes && x != p ==> r[x] == nodes[x]
  {
    nodes[p := nodes[p].(children := nodes[p].children - {k})]
  }

  /**
   * Dropping from p's child map only names whose children are collectible
   * leaves every pruned node pruned and untouched.
   */
  lemma {:induction false} DetachKeepsPruned(nodes: Arena, rank: map<NodeId, nat>, p: NodeId,
                                             kept: map<string, NodeId>, x: NodeId)
    requires p in nodes
    requires kept.Keys <= nodes[p].children.Keys
    requires forall k :: k in kept ==> kept[k] == nodes[p].children[k]
    requires forall k :: k in nodes[p].children && k !in kept ==> Collectible(nodes, nodes[p].children[k])
    requires Pruned(nodes, rank, x)
    ensures Pruned(nodes[p := nodes[p].(children := kept)], rank, x)
    ensures nodes[p := nodes[p].(children := kept)][x] == nodes[x]
    decreases rank[x]
  {
    var nodes' := nodes[p := nodes[p].(children := kept)];
    if x == p {
      assert forall k :: k in nodes[p].children ==> k in kept;
    }
    forall j | j in nodes'[x].children
      ensures var c := nodes'[x].children[j];
        && c in nodes' && c in rank && rank[c] < rank[x]
        && (nodes'[c].mountPoint.Some? || (!Collectible(nodes', c) && Pruned(nodes', rank, c)))
    {
      var c := nodes[x].children[j];
      assert j in nodes[x].children;
      if nodes[c].mountPoint.None? {
        DetachKeepsPruned(nodes, rank, p, kept, c);
      }
    }
  }

  /**
   * y is reached from x along child edges that never step onto a mount
   * point: the part of x's subtree that considerDropInode on x visits.
   */
  ghost predicate Within(nodes: Arena, rank: map<NodeId, nat>, y: NodeId, x: NodeId)
    decreases if x in rank then rank[x] else 0
  {
    || y == x
    || (&& x in nodes && x in rank
        && exists k :: && k in nodes[x].children
                       && nodes[x].children[k] in nodes
                       && nodes[nodes[x].children[k]].mountPoint.None?
                       && nodes[x].children[k] in rank
                       && rank[nodes[x].children[k]] < rank[x]
                       && Within(nodes, rank, y, nodes[x].children[k]))
  }

  /** The ids considerDropInode on x may touch. */
  ghost function Region(nodes: Arena, rank: map<NodeId, nat>, x: NodeId): set<NodeId>
  {
    set y | y in nodes && Within(nodes, rank, y, x)
  }

  /** Losing child entries only loses reachability. */
  lemma {:induction false} WithinShrinks(a: Arena, b: Arena, rank: map<NodeId, nat>, y: NodeId, x: NodeId)
    requires b.Keys == a.Keys && forall z :: z in b ==> Shrunk(a[z], b[z])
    requires Within(b, rank, y, x)
    ensures Within(a, rank, y, x)
    decreases if x in rank then rank[x] else 0
  {
    if y != x {
      var k :| && k in b[x].children
               && b[x].children[k] in b
               && b[b[x].children[k]].mountPoint.None?
               && b[x].children[k] in rank
               && rank[b[x].children[k]] < rank[x]
               && Within(b, rank, y, b[x].children[k]);
      var c := b[x].children[k];
      assert Shrunk(a[x], b[x]) && Shrunk(a[c], b[c]);
      WithinShrinks(a, b, rank, y, c);
      assert k in a[x].children && a[x].children[k] == c && a[c].mountPoint.None?;
    }
  }

  lemma RegionShrinks(a: Arena, b: Arena, rank: map<NodeId, nat>, x: NodeId)
    requires b.Keys == a.Keys && forall z :: z in b ==> Shrunk(a[z], b[z])
    ensures Region(b, rank, x) <= Region(a, rank, x)
  {
    forall y | y in Region(b, rank, x) ensures y in Region(a, rank, x) {
      WithinShrinks(a, b, rank, y, x);
    }
  }

  /** The region of a child that is not a mount point lies inside its parent's. */
  lemma RegionChild(a: Arena, rank: map<NodeId, nat>, n: NodeId, k: string)
    requires n in a && k in a[n].children && a[n].children[k] in a
    requires a[a[n].children[k]].mountPoint.None?
    requires n in rank && a[n].children[k] in rank && rank[a[n].children[k]] < rank[n]
    ensures Region(a, rank, a[n].children[k]) <= Region(a, rank, n)
  {
    var c := a[n].children[k];
    forall y | y in Region(a, rank, c) ensures Within(a, rank, y, n) {
      assert Within(a, rank, y, c);
    }
  }

  /** The walk that builds a region never steps onto a mount point: only its start may be one. */
  lemma {:induction false} WithinNotMount(nodes: Arena, rank: map<NodeId, nat>, y: NodeId, x: NodeId)
    ensures Within(nodes, rank, y, x) && y != x ==> y in nodes && nodes[y].mountPoint.None?
    decreases if x in rank then rank[x] else 0
  {
    if Within(nodes, rank, y, x) && y != x {
      var k :| && k in nodes[x].children
               && nodes[x].children[k] in nodes
               && nodes[nodes[x].children[k]].mountPoint.None?
               && nodes[x].children[k] in rank
               && rank[nodes[x].children[k]] < rank[x]
               && Within(nodes, rank, y, nodes[x].children[k]);
      WithinNotMount(nodes, rank, y, nodes[x].children[k]);
    }
  }

  // ---------------------------------------------------------------------
  // Descendants and the rank bookkeeping that keeps the tree acyclic

  /** y lies in the subtree rooted at x (x itself included). */
  ghost predicate Descendant(nodes: Arena, rank: map<NodeId, nat>, y: NodeId, x: NodeId)
    decreases if x in rank then rank[x] else 0
  {
    || y == x
    || (&& x in nodes && x in rank
        && exists k :: && k in nodes[x].children
                       && nodes[x].children[k] in rank
                       && rank[nodes[x].children[k]] < rank[x]
                       && Descendant(nodes, rank, y, nodes[x].children[k]))
  }

  /** The children of a descendant are descendants. */
  lemma {:induction false} DescendantClosed(nodes: Arena, rank: map<NodeId, nat>,
                                            y: NodeId, x: NodeId, k: string)
    requires RankOk(nodes, rank)
    requires x in nodes && y in nodes && k in nodes[y].children
    requires Descendant(nodes, rank, y, x)
    ensures Descendant(nodes, rank, nodes[y].children[k], x)
    decreases rank[x]
  {
    var c := nodes[y].children[k];
    if y == x {
      assert Descendant(nodes, rank, c, c);
    } else {
      var j :| && j in nodes[x].children
               && nodes[x].children[j] in rank
               && rank[nodes[x].children[j]] < rank[x]
               && Descendant(nodes, rank, y, nodes[x].children[j]);
      DescendantClosed(nodes, rank, y, nodes[x].children[j], k);
    }
  }

  /** Raise by d the rank of every node outside `keep`. */
  function ShiftOutside(rank: map<NodeId, nat>, keep: set<NodeId>, d: nat): (r: map<NodeId, nat>)
    ensures r.Keys == rank.Keys
    ensures forall x :: x in rank && x in keep ==> r[x] == rank[x]
    ensures forall x :: x in rank && x !in keep ==> r[x] == rank[x] + d
  {
    map x | x in rank :: if x in keep then rank[x] else rank[x] + d
  }

  /**
   * Raising every rank outside a set that is closed under taking
   * children keeps every child below its parent.
   */
  lemma ShiftKeepsRank(nodes: Arena, rank: map<NodeId, nat>, keep: set<NodeId>, d: nat)
    requires RankOk(nodes, rank)
    requires forall x, k :: x in keep && x in nodes && k in nodes[x].children ==>
               nodes[x].children[k] in keep
    ensures RankOk(nodes, ShiftOutside(rank, keep, d))
  {
  }

  /** The ids whose rank is below r. */
  function Below(rank: map<NodeId, nat>, r: nat): (s: set<NodeId>)
    ensures forall x :: x in s <==> x in rank && rank[x] < r
  {
    set x | x in rank && rank[x] < r
  }

  /** The arena after addChild(name, c) on p. */
  function AddChild(nodes: Arena, p: NodeId, name: string, c: NodeId): (r: Arena)
    requires p in nodes
    ensures r.Keys == nodes.Keys
    ensures name in r[p].children && r[p].children[name] == c
    ensures forall j :: j != name ==> (j in r[p].children <==> j in nodes[p].children)
    ensures forall j :: j != name && j in r[p].children ==> r[p].children[j] == nodes[p].children[j]
    ensures r[p] == nodes[p].(children := r[p].children)
    ensures forall x :: x in nodes && x != p ==> r[x] == nodes[x]
  {
    nodes[p := nodes[p].(children := nodes[p].children[name := c])]
  }

  /** The rank map that goes with attaching the leaf c under p: c goes just below p. */
  function LeafRank(rank: map<NodeId, nat>, p: NodeId, c: NodeId): (r: map<NodeId, nat>)
    requires p in rank
    ensures r.Keys == rank.Keys + {c}
  {
    ShiftOutside(rank, Below(rank, rank[p]), 1)[c := rank[p]]
  }

  /** Attaching a childless node that has no parent keeps the tree acyclic. */
  lemma AttachKeepsRank(nodes: Arena, rank: map<NodeId, nat>, p: NodeId, name: string, c: NodeId)
    requires RankOk(nodes, rank)
    requires p in nodes && c in nodes && c != p && |nodes[c].children| == 0
    requires forall x, k :: x in nodes && k in nodes[x].children ==> nodes[x].children[k] != c
    ensures RankOk(AddChild(nodes, p, name, c), LeafRank(rank, p, c))
  {
    var keep := Below(rank, rank[p]);
    ShiftKeepsRank(nodes, rank, keep, 1);
    var nodes' := AddChild(nodes, p, name, c);
    var rank' := LeafRank(rank, p, c);
    forall x, k | x in nodes' && k in nodes'[x].children
      ensures nodes'[x].children[k] in nodes' && rank'[nodes'[x].children[k]] < rank'[x]
    {
      if x == p && k == name {
        assert nodes'[x].children[k] == c;
      } else {
        assert x in nodes && k in nodes[x].children && nodes'[x].children[k] == nodes[x].children[k];
      }
    }
  }

  /** b is a with some children removed and nothing else changed. */
  ghost predicate Shrunk(a: NodeRec, b: NodeRec)
  {
    && b == a.(children := b.children)
    && b.children.Keys <= a.children.Keys
    && forall k :: k in b.children ==> b.children[k] == a.children[k]
  }

  // ---------------------------------------------------------------------
  // Rename

  /**
   * The arena after renameUpdate: rmChild(oldName) on oldParent,
   * rmChild(newName) on newParent, then addChild(newName, node).
   */
  function Rename(nodes: Arena, op: NodeId, on: string, np: NodeId, nn: string): (r: Arena)
    requires op in nodes && np in nodes && on in nodes[op].children
    ensures r.Keys == nodes.Keys
  {
    var node := nodes[op].children[on];
    var n1 := RmChild(nodes, op, on);
    n1[np := n1[np].(children := n1[np].children[nn := node])]
  }

  /** The moved node's identity survives, and so does everything but two child maps. */
  lemma RenameMoves(nodes: Arena, op: NodeId, on: string, np: NodeId, nn: string)
    requires op in nodes && np in nodes && on in nodes[op].children
    ensures var r := Rename(nodes, op, on, np, nn);
      && nn in r[np].children
      && r[np].children[nn] == nodes[op].children[on]
      && ((op, on) != (np, nn) ==> on !in r[op].children)
      && (forall x :: x in nodes && x != op && x != np ==> r[x] == nodes[x])
      && (forall x :: x in nodes ==> r[x] == nodes[x].(children := r[x].children))
      && (forall x, k :: x in nodes && (x, k) != (op, on) && (x, k) != (np, nn) ==>
            (k in r[x].children <==> k in nodes[x].children) &&
            (k in r[x].children ==> r[x].children[k] == nodes[x].children[k]))
  {
  }

  /** The rank map that goes with Rename: everything outside the moved subtree rises. */
  ghost function RenameRank(nodes: Arena, rank: map<NodeId, nat>, op: NodeId, on: string,
                            np: NodeId): (r: map<NodeId, nat>)
    requires RankOk(nodes, rank)
    requires op in nodes && np in nodes && on in nodes[op].children
  {
    var node := nodes[op].children[on];
    var d := if rank[node] >= rank[np] then rank[node] - rank[np] + 1 else 0;
    ShiftOutside(rank, SubtreeOf(nodes, rank, node), d)
  }

  /** The subtree of a node, as a set of arena ids. */
  ghost function SubtreeOf(nodes: Arena, rank: map<NodeId, nat>, x: NodeId): (s: set<NodeId>)
    requires RankOk(nodes, rank) && x in nodes
    ensures x in s
    ensures forall y, k :: y in s && y in nodes && k in nodes[y].children ==> nodes[y].children[k] in s
    ensures forall y :: y in nodes ==> (y in s <==> Descendant(nodes, rank, y, x))
  {
    var s := set y | y in nodes && Descendant(nodes, rank, y, x);
    forall y, k | y in s && y in nodes && k in nodes[y].children
      ensures nodes[y].children[k] in s
    {
      DescendantClosed(nodes, rank, y, x, k);
    }
    s
  }

  lemma RenameKeepsRank(nodes: Arena, rank: map<NodeId, nat>, op: NodeId, on: string,
                        np: NodeId, nn: string)
    requires RankOk(nodes, rank)
    requires op in nodes && np in nodes && on in nodes[op].children
    requires !Descendant(nodes, rank, np, nodes[op].children[on])
    ensures RankOk(Rename(nodes, op, on, np, nn), RenameRank(nodes, rank, op, on, np))
  {
    RenameRankRaises(nodes, rank, op, on, np);
    MoveEdgeKeepsRank(nodes, RenameRank(nodes, rank, op, on, np), op, on, np, nn);
  }

  /** The new ranks are still valid for the old arena and put np above the moved node. */
  lemma RenameRankRaises(nodes: Arena, rank: map<NodeId, nat>, op: NodeId, on: string, np: NodeId)
    requires RankOk(nodes, rank)
    requires op in nodes && np in nodes && on in nodes[op].children
    requires !Descendant(nodes, rank, np, nodes[op].children[on])
    ensures var r := RenameRank(nodes, rank, op, on, np);
      RankOk(nodes, r) && r[nodes[op].children[on]] < r[np]
  {
    var node := nodes[op].children[on];
    var moved := SubtreeOf(nodes, rank, node);
    var d := if rank[node] >= rank[np] then rank[node] - rank[np] + 1 else 0;
    ShiftKeepsRank(nodes, rank, moved, d);
    assert node in moved && np !in moved;
  }

  /** Adding the edge (np, nn) -> node keeps the ranks valid when np ranks above node. */
  lemma MoveEdgeKeepsRank(nodes: Arena, rank: map<NodeId, nat>, op: NodeId, on: string,
                          np: NodeId, nn: string)
    requires RankOk(nodes, rank)
    requires op in nodes && np in nodes && on in nodes[op].children
    requires rank[nodes[op].children[on]] < rank[np]
    ensures RankOk(Rename(nodes, op, on, np, nn), rank)
  {
    var nodes' := Rename(nodes, op, on, np, nn);
    RenameMoves(nodes, op, on, np, nn);
    forall x, k | x in nodes' && k in nodes'[x].children
      ensures nodes'[x].children[k] in nodes' && rank[nodes'[x].children[k]] < rank[x]
    {
      if !(x == np && k == nn) {
        assert k in nodes[x].children && nodes'[x].children[k] == nodes[x].children[k];
      }
    }
  }

  // ---------------------------------------------------------------------
  // Sub-mounts

  /** The arena after Mount grafts mount root c under `base` of p: a child entry and a sub-mount entry. */
  function Graft(nodes: Arena, p: NodeId, base: string, c: NodeId, m: MountId): (r: Arena)
    requires p in nodes
    ensures r.Keys == nodes.Keys
  {
    nodes[p := nodes[p].(children := nodes[p].children[base := c], mounts := nodes[p].mounts[base := m])]
  }

  /** The arena after Unmount: `name` leaves both of p's maps and mi stops being a mount point. */
  function Ungraft(nodes: Arena, p: NodeId, name: string, mi: NodeId): (r: Arena)
    requires p in nodes && mi in nodes
    ensures r.Keys == nodes.Keys
  {
    var n1 := nodes[p := nodes[p].(mounts := nodes[p].mounts - {name}, children := nodes[p].children - {name})];
    n1[mi := n1[mi].(mountPoint := None)]
  }

  /**
   * Unmounting what Mount just grafted finds that mount and its root under
   * the name, and restores every node that existed before; only the
   * detached root inode remains, no longer a mount point.
   */
  lemma UnmountUndoesMount(nodes: Arena, p: NodeId, base: string, c: NodeId, m: MountId)
    requires p in nodes && c !in nodes
    requires base !in nodes[p].children && base !in nodes[p].mounts
    ensures var g := Graft(nodes[c := NewNode(true).(mount := Some(m), mountPoint := Some(m))], p, base, c, m);
      && base in g[p].mounts && g[p].mounts[base] == m
      && base in g[p].children && g[p].children[base] == c
      && Ungraft(g, p, base, c) == nodes[c := NewNode(true).(mount := Some(m))]
  {
    var g := Graft(nodes[c := NewNode(true).(mount := Some(m), mountPoint := Some(m))], p, base, c, m);
    assert g[p].children - {base} == nodes[p].children;
    assert g[p].mounts - {base} == nodes[p].mounts;
  }

  // ---------------------------------------------------------------------
  // Path resolution

  /**
   * The walk of findLastKnownInode from `cur`: empty components are
   * skipped, each other component must name a child; the walk stops at
   * the first component that does not, returning the rest of the path
   * from that component on.
   */
  function Walk(nodes: Arena, cur: NodeId, comps: seq<string>): (NodeId, seq<string>)
    decreases |comps|
  {
    if comps == [] then (cur, [])
    else if comps[0] == "" then Walk(nodes, cur, comps[1..])
    else if cur in nodes && comps[0] in nodes[cur].children then
      Walk(nodes, nodes[cur].children[comps[0]], comps[1..])
    else (cur, comps)
  }

  /** Exact resolution: every non-empty component names a child. */
  function Follow(nodes: Arena, cur: NodeId, comps: seq<string>): Option<NodeId>
    decreases |comps|
  {
    if comps == [] then Some(cur)
    else if comps[0] == "" then Follow(nodes, cur, comps[1..])
    else if cur in nodes && comps[0] in nodes[cur].children then
      Follow(nodes, nodes[cur].children[comps[0]], comps[1..])
    else None
  }

  /**
   * Walk splits the path into a prefix that resolves exactly to the node
   * it returns and a suffix that starts at a non-empty component that
   * node has no child for.
   */
  lemma {:induction false} WalkSplitsPath(nodes: Arena, cur: NodeId, comps: seq<string>)
    ensures var (n, rest) := Walk(nodes, cur, comps);
      && |rest| <= |comps|
      && rest == comps[|comps| - |rest|..]
      && Follow(nodes, cur, comps[..|comps| - |rest|]) == Some(n)
      && (rest != [] ==> rest[0] != "" && (n !in nodes || rest[0] !in nodes[n].children))
    decreases |comps|
  {
    if comps == [] {
    } else if comps[0] == "" {
      WalkSplitsPath(nodes, cur, comps[1..]);
      var (n, rest) := Walk(nodes, cur, comps[1..]);
      var m := |comps| - |rest|;
      assert comps[1..][..|comps[1..]| - |rest|] == comps[1..m];
      assert comps[..m][1..] == comps[1..m];
    } else if cur in nodes && comps[0] in nodes[cur].children {
      var c := nodes[cur].children[comps[0]];
      WalkSplitsPath(nodes, c, comps[1..]);
      var (n, rest) := Walk(nodes, c, comps[1..]);
      var m := |comps| - |rest|;
      assert comps[1..][..|comps[1..]| - |rest|] == comps[1..m];
      assert comps[..m][1..] == comps[1..m];
    } else {
      assert comps[..0] == [];
    }
  }

  /** A walk consumes the whole path exactly when the path resolves, and then to the same node. */
  lemma {:induction false} WalkResolvesIff(nodes: Arena, cur: NodeId, comps: seq<string>)
    ensures Walk(nodes, cur, comps).1 == [] <==> Follow(nodes, cur, comps).Some?
    ensures Walk(nodes, cur, comps).1 == [] ==> Follow(nodes, cur, comps) == Some(Walk(nodes, cur, comps).0)
    decreases |comps|
  {
    if comps == [] {
    } else if comps[0] == "" {
      WalkResolvesIff(nodes, cur, comps[1..]);
    } else if cur in nodes && comps[0] in nodes[cur].children {
      WalkResolvesIff(nodes, nodes[cur].children[comps[0]], comps[1..]);
    }
  }
}
