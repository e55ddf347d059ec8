/**
 * The invariant the FileSystemConnector keeps over its arena, handle map
 * and mount table, and the lemmas that show each kind of edit keeps it.
 */
module Invariant {
  import opened Tree

  /**
   * Mount m, grafted under p, is rooted at an inode other than p and the
   * root, and that inode points back at m.
   */
  ghost predicate EntryLinked(nodes: Arena, mountsTable: map<MountId, MountRec>, p: NodeId, m: MountId)
  {
    && m in mountsTable
    && mountsTable[m].mountInode.Some?
    && mountsTable[m].mountInode.value in nodes
    && mountsTable[m].mountInode.value != ROOT_ID
    && mountsTable[m].mountInode.value != p
    && nodes[mountsTable[m].mountInode.value].mountPoint == Some(m)
  }

  /** No mount is grafted at two places. */
  ghost predicate GraftsUnique(nodes: Arena)
  {
    forall p1, n1, p2, n2 ::
      (&& p1 in nodes && n1 in nodes[p1].mounts && p2 in nodes && n2 in nodes[p2].mounts
       && nodes[p1].mounts[n1] == nodes[p2].mounts[n2]) ==> p1 == p2 && n1 == n2
  }

  /** The mount-table links every sub-mount entry relies on. */
  ghost predicate MountsLinked(nodes: Arena, mountsTable: map<MountId, MountRec>)
  {
    && (forall p, name :: p in nodes && name in nodes[p].mounts ==>
          EntryLinked(nodes, mountsTable, p, nodes[p].mounts[name]))
    && GraftsUnique(nodes)
  }

  /** The connector invariant, over the connector's fields as values. */
  ghost predicate Inv(nodes: Arena, mountsTable: map<MountId, MountRec>, handles: set<NodeId>,
                      nextId: NodeId, nextMount: MountId, rank: map<NodeId, nat>)
  {
    && ROOT_ID in nodes
    && (forall x :: x in nodes ==> x < nextId)
    && handles <= nodes.Keys
    && ROOT_ID !in handles
    && RankOk(nodes, rank)
    && (forall m :: m in mountsTable ==> m < nextMount)
    && nodes[ROOT_ID].mountPoint.Some?
    && nodes[ROOT_ID].mountPoint.value in mountsTable
    && MountsLinked(nodes, mountsTable)
  }

  /** Editing fields of one node other than its child map and mount links keeps the invariant. */
  lemma InvAfterEdit(nodes: Arena, mt: map<MountId, MountRec>, handles: set<NodeId>,
                     nextId: NodeId, nextMount: MountId, rank: map<NodeId, nat>, x: NodeId, r: NodeRec)
    requires Inv(nodes, mt, handles, nextId, nextMount, rank) && x in nodes
    requires r.children == nodes[x].children && r.mounts == nodes[x].mounts
    requires r.mountPoint == nodes[x].mountPoint
    ensures Inv(nodes[x := r], mt, handles, nextId, nextMount, rank)
  {
    var nodes' := nodes[x := r];
    assert RankOk(nodes', rank) by {
      forall y, k | y in nodes' && k in nodes'[y].children
        ensures nodes'[y].children[k] in nodes' && rank[nodes'[y].children[k]] < rank[y]
      {
        assert nodes'[y].children == nodes[y].children;
      }
    }
    assert MountsLinked(nodes', mt) by {
      forall y | y in nodes' ensures nodes'[y].mounts == nodes[y].mounts && nodes'[y].mountPoint == nodes[y].mountPoint {}
    }
  }

  /** Removing child entries and releasing handles keeps the invariant. */
  lemma InvAfterShrink(nodes: Arena, nodes': Arena, mt: map<MountId, MountRec>, handles: set<NodeId>,
                       handles': set<NodeId>, nextId: NodeId, nextMount: MountId, rank: map<NodeId, nat>)
    requires Inv(nodes, mt, handles, nextId, nextMount, rank)
    requires nodes'.Keys == nodes.Keys && handles' <= handles
    requires forall x :: x in nodes ==> Shrunk(nodes[x], nodes'[x])
    ensures Inv(nodes', mt, handles', nextId, nextMount, rank)
  {
    assert RankOk(nodes', rank) by {
      forall y, k | y in nodes' && k in nodes'[y].children
        ensures nodes'[y].children[k] in nodes' && rank[nodes'[y].children[k]] < rank[y]
      {
        assert Shrunk(nodes[y], nodes'[y]);
        assert k in nodes[y].children;
      }
    }
    assert MountsLinked(nodes', mt) by {
      forall y | y in nodes' ensures nodes'[y].mounts == nodes[y].mounts && nodes'[y].mountPoint == nodes[y].mountPoint {
        assert Shrunk(nodes[y], nodes'[y]);
      }
    }
  }

  /** Registering a fresh, parentless node keeps the invariant. */
  lemma InvAfterNew(nodes: Arena, mt: map<MountId, MountRec>, handles: set<NodeId>,
                    nextId: NodeId, nextMount: MountId, rank: map<NodeId, nat>, isDir: bool)
    requires Inv(nodes, mt, handles, nextId, nextMount, rank)
    ensures nextId !in nodes
    ensures forall x, k :: x in nodes && k in nodes[x].children ==> nodes[x].children[k] != nextId
    ensures Inv(nodes[nextId := NewNode(isDir)], mt, handles + {nextId}, nextId + 1, nextMount, rank[nextId := 0])
  {
    var nodes' := nodes[nextId := NewNode(isDir)];
    var rank' := rank[nextId := 0];
    assert RankOk(nodes', rank') by {
      forall y, k | y in nodes' && k in nodes'[y].children
        ensures nodes'[y].children[k] in nodes' && rank'[nodes'[y].children[k]] < rank'[y]
      {
        assert y in nodes && nodes'[y] == nodes[y];
        assert nodes[y].children[k] != nextId;
      }
    }
    assert MountsLinked(nodes', mt) by {
      forall y | y in nodes ensures nodes'[y] == nodes[y] {}
    }
  }

  /** Registering c before attaching it does not change the arena lookupUpdate ends with. */
  lemma NewChildArena(nodes: Arena, p: NodeId, name: string, c: NodeId, isDir: bool, r: NodeRec)
    requires p in nodes && c !in nodes
    ensures AddChild(nodes[c := NewNode(isDir)], p, name, c)[c := r] == AddChild(nodes, p, name, c)[c := r]
  {
  }

  /** addChild followed by the mount-table entry, written as one update of p. */
  lemma GraftArena(nodes: Arena, p: NodeId, base: string, c: NodeId, m: MountId)
    requires p in nodes
    ensures var n1 := AddChild(nodes, p, base, c);
      n1[p := n1[p].(mounts := n1[p].mounts[base := m])] == Graft(nodes, p, base, c, m)
  {
  }

  /** Attaching a childless, parentless node under p keeps the invariant. */
  lemma InvAfterAttach(nodes: Arena, mt: map<MountId, MountRec>, handles: set<NodeId>,
                       nextId: NodeId, nextMount: MountId, rank: map<NodeId, nat>,
                       p: NodeId, name: string, c: NodeId)
    requires Inv(nodes, mt, handles, nextId, nextMount, rank)
    requires p in nodes && c in nodes && c != p && |nodes[c].children| == 0
    requires forall x, k :: x in nodes && k in nodes[x].children ==> nodes[x].children[k] != c
    ensures Inv(AddChild(nodes, p, name, c), mt, handles, nextId, nextMount, LeafRank(rank, p, c))
  {
    AttachKeepsRank(nodes, rank, p, name, c);
    var nodes' := AddChild(nodes, p, name, c);
    assert MountsLinked(nodes', mt) by {
      forall y | y in nodes ensures nodes'[y].mounts == nodes[y].mounts && nodes'[y].mountPoint == nodes[y].mountPoint {}
    }
  }

  /** Detaching some children of n and releasing handles keeps the invariant. */
  lemma DetachInv(nodes: Arena, mt: map<MountId, MountRec>, handles: set<NodeId>, nextId: NodeId,
                  nextMount: MountId, rank: map<NodeId, nat>, n: NodeId,
                  kept: map<string, NodeId>, live: set<NodeId>)
    requires Inv(nodes, mt, handles, nextId, nextMount, rank) && n in nodes
    requires kept.Keys <= nodes[n].children.Keys
    requires forall k :: k in kept ==> kept[k] == nodes[n].children[k]
    requires live <= handles
    ensures forall x :: x in nodes ==> Shrunk(nodes[x], nodes[n := nodes[n].(children := kept)][x])
    ensures Inv(nodes[n := nodes[n].(children := kept)], mt, live, nextId, nextMount, rank)
  {
    var nodes' := nodes[n := nodes[n].(children := kept)];
    forall x | x in nodes ensures Shrunk(nodes[x], nodes'[x]) {}
    InvAfterShrink(nodes, nodes', mt, handles, live, nextId, nextMount, rank);
  }

  /** Moving the child `on` of op to `nn` under np keeps the invariant, with the rank map RenameRank. */
  lemma InvAfterRename(nodes: Arena, mt: map<MountId, MountRec>, handles: set<NodeId>,
                       nextId: NodeId, nextMount: MountId, rank: map<NodeId, nat>,
                       op: NodeId, on: string, np: NodeId, nn: string)
    requires Inv(nodes, mt, handles, nextId, nextMount, rank)
    requires op in nodes && np in nodes && on in nodes[op].children
    requires !Descendant(nodes, rank, np, nodes[op].children[on])
    ensures Inv(Rename(nodes, op, on, np, nn), mt, handles, nextId, nextMount, RenameRank(nodes, rank, op, on, np))
  {
    RenameKeepsRank(nodes, rank, op, on, np, nn);
    RenameMoves(nodes, op, on, np, nn);
    var nodes' := Rename(nodes, op, on, np, nn);
    assert MountsLinked(nodes', mt) by {
      forall y | y in nodes ensures nodes'[y].mounts == nodes[y].mounts && nodes'[y].mountPoint == nodes[y].mountPoint {}
    }
  }

  /** rmChild keeps the invariant. */
  lemma InvAfterRmChild(nodes: Arena, mt: map<MountId, MountRec>, handles: set<NodeId>,
                        nextId: NodeId, nextMount: MountId, rank: map<NodeId, nat>, p: NodeId, name: string)
    requires Inv(nodes, mt, handles, nextId, nextMount, rank) && p in nodes
    ensures Inv(RmChild(nodes, p, name), mt, handles, nextId, nextMount, rank)
  {
    var nodes' := RmChild(nodes, p, name);
    forall x | x in nodes ensures Shrunk(nodes[x], nodes'[x]) {}
    InvAfterShrink(nodes, nodes', mt, handles, handles, nextId, nextMount, rank);
  }

  /**
   * mountFs on x: a fresh mount id rooted at x becomes x's mount and mount
   * point. x is the root or is not yet the root of any mount.
   */
  lemma InvAfterMountFs(nodes: Arena, mt: map<MountId, MountRec>, handles: set<NodeId>,
                        nextId: NodeId, nextMount: MountId, rank: map<NodeId, nat>,
                        x: NodeId, backend: BackendId, opts: Option<Options>)
    requires Inv(nodes, mt, handles, nextId, nextMount, rank) && x in nodes
    requires x == ROOT_ID || nodes[x].mountPoint.None?
    ensures nextMount !in mt
    ensures forall q, n :: q in nodes && n in nodes[q].mounts ==> nodes[q].mounts[n] != nextMount
    ensures Inv(nodes[x := nodes[x].(mount := Some(nextMount), mountPoint := Some(nextMount))],
                mt[nextMount := MountRec(Some(x), backend, opts, 0)], handles, nextId, nextMount + 1, rank)
  {
    var nodes' := nodes[x := nodes[x].(mount := Some(nextMount), mountPoint := Some(nextMount))];
    var mt' := mt[nextMount := MountRec(Some(x), backend, opts, 0)];
    forall y | y in nodes ensures nodes'[y].children == nodes[y].children && nodes'[y].mounts == nodes[y].mounts {}
    assert RankOk(nodes', rank) by {
      forall y, k | y in nodes' && k in nodes'[y].children
        ensures nodes'[y].children[k] in nodes' && rank[nodes'[y].children[k]] < rank[y]
      {
        assert k in nodes[y].children;
      }
    }
    assert MountsLinked(nodes', mt') by {
      forall p, name | p in nodes' && name in nodes'[p].mounts
        ensures var m := nodes'[p].mounts[name];
          && m in mt' && mt'[m] == mt[m] && mt[m].mountInode.value != x
          && nodes'[mt[m].mountInode.value].mountPoint == Some(m)
      {
        assert name in nodes[p].mounts;
      }
    }
  }

  /** Recording mount m under `base` in p's mount table keeps the invariant when m is rooted at a node other than p. */
  lemma InvAfterGraft(nodes: Arena, mt: map<MountId, MountRec>, handles: set<NodeId>,
                      nextId: NodeId, nextMount: MountId, rank: map<NodeId, nat>,
                      p: NodeId, base: string, m: MountId)
    requires Inv(nodes, mt, handles, nextId, nextMount, rank) && p in nodes
    requires m in mt && mt[m].mountInode.Some? && mt[m].mountInode.value in nodes
    requires mt[m].mountInode.value != ROOT_ID && mt[m].mountInode.value != p
    requires nodes[mt[m].mountInode.value].mountPoint == Some(m)
    requires forall q, name :: q in nodes && name in nodes[q].mounts ==> nodes[q].mounts[name] != m
    ensures Inv(nodes[p := nodes[p].(mounts := nodes[p].mounts[base := m])], mt, handles, nextId, nextMount, rank)
  {
    var nodes' := nodes[p := nodes[p].(mounts := nodes[p].mounts[base := m])];
    forall y | y in nodes
      ensures nodes'[y].children == nodes[y].children && nodes'[y].mountPoint == nodes[y].mountPoint
    {}
    assert RankOk(nodes', rank) by {
      forall y, k | y in nodes' && k in nodes'[y].children
        ensures nodes'[y].children[k] in nodes' && rank[nodes'[y].children[k]] < rank[y]
      {
        assert k in nodes[y].children;
      }
    }
    forall q, n | q in nodes' && n in nodes'[q].mounts
      ensures EntryLinked(nodes', mt, q, nodes'[q].mounts[n])
    {
      if (q, n) != (p, base) {
        assert n in nodes[q].mounts && nodes'[q].mounts[n] == nodes[q].mounts[n];
        assert EntryLinked(nodes, mt, q, nodes[q].mounts[n]);
      }
    }
    assert GraftsUnique(nodes') by {
      forall p1, n1, p2, n2 |
        && p1 in nodes' && n1 in nodes'[p1].mounts && p2 in nodes' && n2 in nodes'[p2].mounts
        && nodes'[p1].mounts[n1] == nodes'[p2].mounts[n2]
        ensures p1 == p2 && n1 == n2
      {
        if (p1, n1) != (p, base) && (p2, n2) != (p, base) {
          assert n1 in nodes[p1].mounts && nodes'[p1].mounts[n1] == nodes[p1].mounts[n1];
          assert n2 in nodes[p2].mounts && nodes'[p2].mounts[n2] == nodes[p2].mounts[n2];
        } else if (p1, n1) != (p2, n2) {
          assert false;
        }
      }
    }
  }

  /**
   * The first half of Unmount: p forgets both the mount entry and the
   * child entry at `name`. The mount stays linked to its root inode but
   * is grafted nowhere any more.
   */
  lemma InvAfterUngraft(nodes: Arena, mt: map<MountId, MountRec>, handles: set<NodeId>,
                        nextId: NodeId, nextMount: MountId, rank: map<NodeId, nat>, p: NodeId, name: string)
    requires Inv(nodes, mt, handles, nextId, nextMount, rank) && p in nodes && name in nodes[p].mounts
    ensures var nodes' := nodes[p := nodes[p].(mounts := nodes[p].mounts - {name}, children := nodes[p].children - {name})];
      && Inv(nodes', mt, handles, nextId, nextMount, rank)
      && EntryLinked(nodes', mt, p, nodes[p].mounts[name])
      && forall q, n :: q in nodes' && n in nodes'[q].mounts ==> nodes'[q].mounts[n] != nodes[p].mounts[name]
  {
    var m := nodes[p].mounts[name];
    var nodes' := nodes[p := nodes[p].(mounts := nodes[p].mounts - {name}, children := nodes[p].children - {name})];
    forall y | y in nodes ensures Shrunk(nodes[y], nodes'[y].(mounts := nodes[y].mounts)) {}
    forall y | y in nodes ensures nodes'[y].mountPoint == nodes[y].mountPoint {}
    assert RankOk(nodes', rank) by {
      forall y, k | y in nodes' && k in nodes'[y].children
        ensures nodes'[y].children[k] in nodes' && rank[nodes'[y].children[k]] < rank[y]
      {
        assert k in nodes[y].children && nodes'[y].children[k] == nodes[y].children[k];
      }
    }
    assert EntryLinked(nodes, mt, p, m);
    forall q, n | q in nodes' && n in nodes'[q].mounts
      ensures EntryLinked(nodes', mt, q, nodes'[q].mounts[n]) && nodes'[q].mounts[n] != m
    {
      assert n in nodes[q].mounts && nodes'[q].mounts[n] == nodes[q].mounts[n];
      assert EntryLinked(nodes, mt, q, nodes[q].mounts[n]);
      assert (q, n) != (p, name);
    }
    assert GraftsUnique(nodes') by {
      forall p1, n1, p2, n2 |
        && p1 in nodes' && n1 in nodes'[p1].mounts && p2 in nodes' && n2 in nodes'[p2].mounts
        && nodes'[p1].mounts[n1] == nodes'[p2].mounts[n2]
        ensures p1 == p2 && n1 == n2
      {
        assert n1 in nodes[p1].mounts && nodes'[p1].mounts[n1] == nodes[p1].mounts[n1];
        assert n2 in nodes[p2].mounts && nodes'[p2].mounts[n2] == nodes[p2].mounts[n2];
      }
    }
  }

  /**
   * The second half of Unmount: a mount grafted nowhere is severed from
   * its root inode, which stops being a mount point.
   */
  lemma InvAfterRetire(nodes: Arena, mt: map<MountId, MountRec>, handles: set<NodeId>,
                       nextId: NodeId, nextMount: MountId, rank: map<NodeId, nat>, p: NodeId, m: MountId)
    requires Inv(nodes, mt, handles, nextId, nextMount, rank) && EntryLinked(nodes, mt, p, m)
    requires forall q, n :: q in nodes && n in nodes[q].mounts ==> nodes[q].mounts[n] != m
    ensures var mi := mt[m].mountInode.value;
      Inv(nodes[mi := nodes[mi].(mountPoint := None)], mt[m := mt[m].(mountInode := None)],
          handles, nextId, nextMount, rank)
  {
    var mi := mt[m].mountInode.value;
    var nodes' := nodes[mi := nodes[mi].(mountPoint := None)];
    var mt' := mt[m := mt[m].(mountInode := None)];
    forall y | y in nodes ensures nodes'[y].children == nodes[y].children && nodes'[y].mounts == nodes[y].mounts {}
    assert RankOk(nodes', rank) by {
      forall y, k | y in nodes' && k in nodes'[y].children
        ensures nodes'[y].children[k] in nodes' && rank[nodes'[y].children[k]] < rank[y]
      {
        assert k in nodes[y].children;
      }
    }
    forall q, n | q in nodes' && n in nodes'[q].mounts
      ensures EntryLinked(nodes', mt', q, nodes'[q].mounts[n])
    {
      var m2 := nodes[q].mounts[n];
      assert EntryLinked(nodes, mt, q, m2);
      assert m2 != m && mt'[m2] == mt[m2];
      assert mt[m2].mountInode.value != mi;
    }
    assert GraftsUnique(nodes');
  }
}
