/**
 * The two loops of considerDropInode, on values: what a collection below
 * a rank leaves behind, the first loop's classification of the children,
 * and the second loop that detaches the collectible ones.
 */
module Collection {
  import opened Tree

  /**
   * The second loop of considerDropInode on values: rmChild each name in
   * `del` from a child map and release the removed child's id from the
   * live handles.
   */
  method RmChildren(kids: map<string, NodeId>, del: seq<string>, handles: set<NodeId>)
    returns (kept: map<string, NodeId>, live: set<NodeId>)
    requires forall i :: 0 <= i < |del| ==> del[i] in kids
    requires forall i, j :: 0 <= i < j < |del| ==> del[i] != del[j]
    ensures kept.Keys <= kids.Keys
    ensures forall k :: k in kids ==> (k in kept <==> k !in del)
    ensures forall k :: k in kept ==> kept[k] == kids[k]
    ensures live <= handles
    ensures forall k :: k in del ==> kids[k] !in live
    ensures forall h :: h in handles && h !in live ==> exists k :: k in del && kids[k] == h
    ensures live == handles - set i | 0 <= i < |del| :: kids[del[i]]
  {
    kept, live := kids, handles;
    for i := 0 to |del|
      invariant kept.Keys <= kids.Keys
      invariant forall k :: k in kids ==> (k in kept <==> k !in del[..i])
      invariant forall k :: k in kept ==> kept[k] == kids[k]
      invariant live <= handles
      invariant forall j :: 0 <= j < i ==> kids[del[j]] !in live
      invariant forall h :: h in handles && h !in live ==> exists j :: 0 <= j < i && kids[del[j]] == h
    {
      var k := del[i];
      assert k !in del[..i];
      var ch := kept[k];
      kept := kept - {k};
      live := live - {ch};
      assert del[..i + 1] == del[..i] + [k];
    }
    assert del[..|del|] == del;
    forall h | h in handles && h !in live ensures h in set i | 0 <= i < |del| :: kids[del[i]] {
      var j :| 0 <= j < |del| && kids[del[j]] == h;
    }
  }

  /** h was the target of a child entry that a has and b no longer has. */
  ghost predicate Dropped(a: Arena, b: Arena, h: NodeId)
  {
    exists x, k :: x in a && x in b && k in a[x].children && k !in b[x].children && a[x].children[k] == h
  }

  /** b has a's ids, and each of b's records is a's with some child entries dropped. */
  ghost predicate ShrunkAll(a: Arena, b: Arena)
  {
    && b.Keys == a.Keys
    && forall x :: x in b ==> Shrunk(a[x], b[x])
  }

  /** Every node pruned in a is untouched, and still pruned, in b. */
  ghost predicate KeepsPruned(a: Arena, b: Arena, rank: map<NodeId, nat>)
  {
    forall x {:trigger Pruned(a, rank, x)} :: Pruned(a, rank, x) ==> x in b && Pruned(b, rank, x) && b[x] == a[x]
  }

  /** Every entry dropped between a and b named a node collectible in b whose id is not in hb. */
  ghost predicate DropsReleased(a: Arena, b: Arena, hb: set<NodeId>)
    requires ShrunkAll(a, b)
  {
    forall x, k :: x in b && k in a[x].children && k !in b[x].children ==>
      Collectible(b, a[x].children[k]) && a[x].children[k] !in hb
  }

  /**
   * Only ids of the region ranked below r left the handle map, each of a
   * node collectible in b that an entry dropped between a and b named.
   */
  ghost predicate ReleasesDropped(a: Arena, b: Arena, rank: map<NodeId, nat>, r: nat, region: set<NodeId>,
                                  ha: set<NodeId>, hb: set<NodeId>)
  {
    && hb <= ha
    && forall h :: h in ha && h !in hb ==>
         && h in rank && rank[h] < r && h in region
         && Collectible(b, h) && Dropped(a, b, h)
  }

  /**
   * b is what collecting, at or below rank r and inside `region`, leaves
   * of a: the same ids and child maps that only lost entries; nodes
   * ranked above r, and nodes outside the region, untouched; pruned nodes
   * untouched and still pruned; every dropped entry named a collectible
   * node whose id was released; and only ids of the region ranked below r
   * released, each of a collectible node that a dropped entry named.
   */
  ghost predicate Collected(a: Arena, b: Arena, rank: map<NodeId, nat>, r: nat, region: set<NodeId>,
                            ha: set<NodeId>, hb: set<NodeId>)
  {
    && ShrunkAll(a, b)
    && (forall x :: x in b && x in rank && rank[x] > r ==> b[x] == a[x])
    && (forall x :: x in b && x !in region ==> b[x] == a[x])
    && KeepsPruned(a, b, rank)
    && DropsReleased(a, b, hb)
    && ReleasesDropped(a, b, rank, r, region, ha, hb)
  }

  /**
   * A collection started at n leaves every other mount point, and its
   * handle, as it found them: the sweep does not cross into a mounted
   * file system.
   */
  lemma CollectedSparesMounts(a: Arena, b: Arena, rank: map<NodeId, nat>, n: NodeId,
                              ha: set<NodeId>, hb: set<NodeId>)
    requires n in rank
    requires Collected(a, b, rank, rank[n], Region(a, rank, n), ha, hb)
    ensures forall m :: m in a && m != n && a[m].mountPoint.Some? ==> m in b && b[m] == a[m]
    ensures forall m :: m in ha && m in a && m != n && a[m].mountPoint.Some? ==> m in hb
  {
    forall m | m in a && m != n && a[m].mountPoint.Some?
      ensures m !in Region(a, rank, n)
    {
      WithinNotMount(a, rank, m, n);
    }
  }

  /** A collection below rank r keeps the handle of every id ranked r or more. */
  lemma ReleasesBelow(a: Arena, b: Arena, rank: map<NodeId, nat>, r: nat, region: set<NodeId>,
                      ha: set<NodeId>, hb: set<NodeId>, x: NodeId)
    requires ReleasesDropped(a, b, rank, r, region, ha, hb)
    requires x in rank && r <= rank[x] && x in ha
    ensures x in hb
  {
  }

  /** A childless collectible node stays collectible and untouched when child maps shrink. */
  lemma CollectibleStays(b: Arena, c: Arena, t: NodeId)
    requires ShrunkAll(b, c) && Collectible(b, t)
    ensures Collectible(c, t) && c[t] == b[t]
  {
    assert Shrunk(b[t], c[t]);
  }

  lemma DropsTrans(a: Arena, b: Arena, c: Arena, hb: set<NodeId>, hc: set<NodeId>)
    requires ShrunkAll(a, b) && ShrunkAll(b, c) && hc <= hb
    requires DropsReleased(a, b, hb) && DropsReleased(b, c, hc)
    ensures ShrunkAll(a, c) && DropsReleased(a, c, hc)
  {
    forall x | x in c ensures Shrunk(a[x], c[x]) {
      assert Shrunk(a[x], b[x]) && Shrunk(b[x], c[x]);
    }
    forall x, k | x in c && k in a[x].children && k !in c[x].children
      ensures Collectible(c, a[x].children[k]) && a[x].children[k] !in hc
    {
      var t := a[x].children[k];
      assert Shrunk(a[x], b[x]);
      if k !in b[x].children {
        CollectibleStays(b, c, t);
      } else {
        assert b[x].children[k] == t;
      }
    }
  }

  lemma ReleasesTrans(a: Arena, b: Arena, c: Arena, rank: map<NodeId, nat>, r1: nat, r2: nat, r: nat,
                      region1: set<NodeId>, region2: set<NodeId>, region: set<NodeId>,
                      ha: set<NodeId>, hb: set<NodeId>, hc: set<NodeId>)
    requires ShrunkAll(a, b) && ShrunkAll(b, c)
    requires ReleasesDropped(a, b, rank, r1, region1, ha, hb) && ReleasesDropped(b, c, rank, r2, region2, hb, hc)
    requires r1 <= r && r2 <= r && region1 <= region && region2 <= region
    ensures ReleasesDropped(a, c, rank, r, region, ha, hc)
  {
    forall h | h in ha && h !in hc ensures Collectible(c, h) && Dropped(a, c, h) {
      if h in hb {
        var x, k :| x in b && x in c && k in b[x].children && k !in c[x].children && b[x].children[k] == h;
        assert Shrunk(a[x], b[x]);
        assert k in a[x].children && a[x].children[k] == h;
      } else {
        CollectibleStays(b, c, h);
        var x, k :| x in a && x in b && k in a[x].children && k !in b[x].children && a[x].children[k] == h;
        assert Shrunk(b[x], c[x]);
        assert k !in c[x].children;
      }
    }
  }

  /** Two collections in a row are one collection, below the larger bound and in the larger region. */
  lemma CollectedTrans(a: Arena, b: Arena, c: Arena, rank: map<NodeId, nat>, r1: nat, r2: nat, r: nat,
                       region1: set<NodeId>, region2: set<NodeId>, region: set<NodeId>,
                       ha: set<NodeId>, hb: set<NodeId>, hc: set<NodeId>)
    requires Collected(a, b, rank, r1, region1, ha, hb) && Collected(b, c, rank, r2, region2, hb, hc)
    requires r1 <= r && r2 <= r && region1 <= region && region2 <= region
    ensures Collected(a, c, rank, r, region, ha, hc)
  {
    DropsTrans(a, b, c, hb, hc);
    ReleasesTrans(a, b, c, rank, r1, r2, r, region1, region2, region, ha, hb, hc);
  }

  /** Moving one element from the to-do part of K to its done part. */
  lemma TakeOne<T>(K: set<T>, todo: set<T>, k: T)
    requires k in todo && todo <= K
    ensures K - (todo - {k}) == (K - todo) + {k}
  {
  }

  /**
   * The first loop's progress over n's child map `kids`: every name in
   * `done` has been asked, `del` lists (once each) exactly the asked
   * children that are collectible, and every other asked child is a mount
   * point or pruned.
   */
  ghost predicate Classified(nodes: Arena, rank: map<NodeId, nat>, kids: map<string, NodeId>,
                             done: set<string>, del: seq<string>)
  {
    && done <= kids.Keys
    && (forall i :: 0 <= i < |del| ==> del[i] in done)
    && (forall i, j :: 0 <= i < j < |del| ==> del[i] != del[j])
    && (forall k :: k in done ==> (k in del <==> Collectible(nodes, kids[k])))
    && (forall k :: k in done && k !in del ==>
          kids[k] in nodes && (nodes[kids[k]].mountPoint.Some? || Pruned(nodes, rank, kids[k])))
  }

  /**
   * One step of the first loop: child k is asked (unless it is a mount
   * point) and the collection below it leaves the earlier answers valid.
   */
  lemma ClassifyStep(cur: Arena, nxt: Arena, rank: map<NodeId, nat>, kids: map<string, NodeId>, done: set<string>, del: seq<string>,
                     k: string, d: bool)
    requires Classified(cur, rank, kids, done, del) && ShrunkAll(cur, nxt) && KeepsPruned(cur, nxt, rank)
    requires k in kids && k !in done && kids[k] in cur
    requires cur[kids[k]].mountPoint.Some? ==> nxt == cur && !d
    requires cur[kids[k]].mountPoint.None? ==> d == Collectible(nxt, kids[k]) && Pruned(nxt, rank, kids[k])
    ensures Classified(nxt, rank, kids, done + {k}, if d then del + [k] else del)
  {
    var del' := if d then del + [k] else del;
    forall j | j in done
      ensures j in del' <==> Collectible(nxt, kids[j])
      ensures j !in del' ==> kids[j] in nxt && (nxt[kids[j]].mountPoint.Some? || Pruned(nxt, rank, kids[j]))
    {
      var c := kids[j];
      assert j != k;
      if j in del {
        assert Shrunk(cur[c], nxt[c]);
        assert nxt[c] == cur[c];
      } else if cur[c].mountPoint.None? {
        assert Pruned(cur, rank, c);
      } else {
        assert Shrunk(cur[c], nxt[c]);
      }
    }
  }

  /** The second loop of considerDropInode collects below n, releasing only ids of its children. */
  /**
   * b and hb are a and ha after the second loop of considerDropInode on n
   * with the names `del`: exactly those names leave n's child map, nothing
   * else in the arena changes, n is pruned, the step is a collection in
   * n's region, and exactly the removed children's ids leave the handles.
   */
  ghost predicate Detached(a: Arena, b: Arena, rank: map<NodeId, nat>, n: NodeId, del: seq<string>,
                           ha: set<NodeId>, hb: set<NodeId>)
    requires n in a && forall i :: 0 <= i < |del| ==> del[i] in a[n].children
  {
    && n in b
    && b == a[n := a[n].(children := b[n].children)]
    && (forall k :: k in a[n].children ==> (k in b[n].children <==> k !in del))
    && Pruned(b, rank, n)
    && Collected(a, b, rank, rank[n], Region(a, rank, n), ha, hb)
    && hb == ha - set i | 0 <= i < |del| :: a[n].children[del[i]]
  }

  /** What the second loop's results amount to, once the first loop has classified every child. */
  lemma DetachDone(nodes: Arena, rank: map<NodeId, nat>, handles: set<NodeId>, n: NodeId,
                   del: seq<string>, kept: map<string, NodeId>, live: set<NodeId>)
    requires RankOk(nodes, rank) && n in nodes
    requires Classified(nodes, rank, nodes[n].children, nodes[n].children.Keys, del)
    requires kept.Keys <= nodes[n].children.Keys
    requires forall k :: k in nodes[n].children ==> (k in kept <==> k !in del)
    requires forall k :: k in kept ==> kept[k] == nodes[n].children[k]
    requires live <= handles
    requires forall k :: k in del ==> nodes[n].children[k] !in live
    requires forall h :: h in handles && h !in live ==> exists k :: k in del && nodes[n].children[k] == h
    requires live == handles - set i | 0 <= i < |del| :: nodes[n].children[del[i]]
    ensures Detached(nodes, nodes[n := nodes[n].(children := kept)], rank, n, del, handles, live)
  {
    ClassifiedKept(nodes, rank, nodes[n].children, del, kept);
    DetachPrunesSelf(nodes, rank, n, kept);
    DetachCollected(nodes, rank, handles, n, del, kept, live);
  }

  /**
   * The two loops of considerDropInode together: the first collected in
   * n's region and classified n's children, the second detached the
   * collectible ones. Afterwards a child entry is gone exactly when that
   * child is collectible, the removed children's ids are released, n is
   * pruned, and the whole run is a collection in n's region.
   */
  lemma SweepThenDetach(a: Arena, mid: Arena, b: Arena, rank: map<NodeId, nat>, n: NodeId, del: seq<string>,
                        ha: set<NodeId>, hmid: set<NodeId>, hb: set<NodeId>)
    requires RankOk(mid, rank) && n in a && n in mid && mid[n] == a[n]
    requires Collected(a, mid, rank, rank[n], Region(a, rank, n), ha, hmid)
    requires Classified(mid, rank, mid[n].children, mid[n].children.Keys, del)
    requires Detached(mid, b, rank, n, del, hmid, hb)
    ensures n in b && Pruned(b, rank, n)
    ensures forall k :: k in a[n].children ==> (k !in b[n].children <==> Collectible(b, a[n].children[k]))
    ensures forall k :: k in a[n].children && k !in b[n].children ==> a[n].children[k] !in hb
    ensures Collected(a, b, rank, rank[n], Region(a, rank, n), ha, hb)
  {
    assert Collected(a, b, rank, rank[n], Region(a, rank, n), ha, hb) by {
      RegionShrinks(a, mid, rank, n);
      CollectedTrans(a, mid, b, rank, rank[n], rank[n], rank[n],
                     Region(a, rank, n), Region(mid, rank, n), Region(a, rank, n), ha, hmid, hb);
    }
    DetachChoice(mid, b, rank, n, del, hmid, hb);
  }

  /** After the second loop a direct child is gone exactly when the first loop found it collectible. */
  lemma DetachChoice(mid: Arena, b: Arena, rank: map<NodeId, nat>, n: NodeId, del: seq<string>,
                     hmid: set<NodeId>, hb: set<NodeId>)
    requires RankOk(mid, rank) && n in mid
    requires Classified(mid, rank, mid[n].children, mid[n].children.Keys, del)
    requires Detached(mid, b, rank, n, del, hmid, hb)
    ensures n in b && Pruned(b, rank, n)
    ensures forall k :: k in mid[n].children ==> (k !in b[n].children <==> Collectible(b, mid[n].children[k]))
    ensures forall k :: k in mid[n].children && k !in b[n].children ==> mid[n].children[k] !in hb
  {
    forall k | k in mid[n].children
      ensures k !in b[n].children <==> Collectible(b, mid[n].children[k])
    {
      var c := mid[n].children[k];
      assert c != n && b[c] == mid[c];
    }
  }

  lemma DetachCollected(nodes: Arena, rank: map<NodeId, nat>, handles: set<NodeId>, n: NodeId,
                        del: seq<string>, kept: map<string, NodeId>, live: set<NodeId>)
    requires RankOk(nodes, rank) && n in nodes
    requires kept.Keys <= nodes[n].children.Keys
    requires forall k :: k in kept ==> kept[k] == nodes[n].children[k]
    requires forall k :: k in del ==> k in nodes[n].children
    requires forall k :: k in nodes[n].children ==> (k in kept <==> k !in del)
    requires forall k :: k in nodes[n].children && k !in kept ==> Collectible(nodes, nodes[n].children[k])
    requires live <= handles
    requires forall k :: k in del ==> nodes[n].children[k] !in live
    requires forall h :: h in handles && h !in live ==> exists k :: k in del && nodes[n].children[k] == h
    ensures Collected(nodes, nodes[n := nodes[n].(children := kept)], rank, rank[n], Region(nodes, rank, n),
                      handles, live)
  {
    var nodes' := nodes[n := nodes[n].(children := kept)];
    assert KeepsPruned(nodes, nodes', rank) by { DetachStable(nodes, rank, n, kept); }
    assert Within(nodes, rank, n, n);
    assert ShrunkAll(nodes, nodes') && DropsReleased(nodes, nodes', live) by {
      DetachDrops(nodes, rank, n, del, kept, live);
    }
    assert ReleasesDropped(nodes, nodes', rank, rank[n], Region(nodes, rank, n), handles, live) by {
      DetachReleases(nodes, rank, handles, n, del, kept, live);
    }
  }

  /** The entries the second loop drops name collectible children whose ids it releases. */
  lemma DetachDrops(nodes: Arena, rank: map<NodeId, nat>, n: NodeId,
                    del: seq<string>, kept: map<string, NodeId>, live: set<NodeId>)
    requires RankOk(nodes, rank) && n in nodes
    requires kept.Keys <= nodes[n].children.Keys
    requires forall k :: k in kept ==> kept[k] == nodes[n].children[k]
    requires forall k :: k in nodes[n].children ==> (k in kept <==> k !in del)
    requires forall k :: k in nodes[n].children && k !in kept ==> Collectible(nodes, nodes[n].children[k])
    requires forall k :: k in del ==> k in nodes[n].children && nodes[n].children[k] !in live
    ensures ShrunkAll(nodes, nodes[n := nodes[n].(children := kept)])
    ensures DropsReleased(nodes, nodes[n := nodes[n].(children := kept)], live)
  {
    var nodes' := nodes[n := nodes[n].(children := kept)];
    forall x | x in nodes' ensures Shrunk(nodes[x], nodes'[x]) {}
    forall x, k | x in nodes' && k in nodes[x].children && k !in nodes'[x].children
      ensures Collectible(nodes', nodes[x].children[k]) && nodes[x].children[k] !in live
    {
      assert x == n && k !in kept;
      var t := nodes[n].children[k];
      assert t != n && nodes'[t] == nodes[t];
    }
  }

  /** The ids the second loop releases are those of dropped, collectible children of n. */
  lemma DetachReleases(nodes: Arena, rank: map<NodeId, nat>, handles: set<NodeId>, n: NodeId,
                       del: seq<string>, kept: map<string, NodeId>, live: set<NodeId>)
    requires RankOk(nodes, rank) && n in nodes
    requires kept.Keys <= nodes[n].children.Keys
    requires forall k :: k in nodes[n].children ==> (k in kept <==> k !in del)
    requires forall k :: k in nodes[n].children && k !in kept ==> Collectible(nodes, nodes[n].children[k])
    requires live <= handles
    requires forall k :: k in del ==> k in nodes[n].children
    requires forall h :: h in handles && h !in live ==> exists k :: k in del && nodes[n].children[k] == h
    ensures ReleasesDropped(nodes, nodes[n := nodes[n].(children := kept)], rank, rank[n],
                            Region(nodes, rank, n), handles, live)
  {
    var nodes' := nodes[n := nodes[n].(children := kept)];
    forall h | h in handles && h !in live
      ensures && h in rank && rank[h] < rank[n] && h in Region(nodes, rank, n)
              && Collectible(nodes', h) && Dropped(nodes, nodes', h)
    {
      var k :| k in del && nodes[n].children[k] == h;
      assert k in nodes[n].children && k !in kept;
      assert h != n && nodes'[h] == nodes[h];
      assert Within(nodes, rank, h, h);
      assert Within(nodes, rank, h, n);
    }
  }

  lemma DetachStable(nodes: Arena, rank: map<NodeId, nat>, n: NodeId, kept: map<string, NodeId>)
    requires n in nodes
    requires kept.Keys <= nodes[n].children.Keys
    requires forall k :: k in kept ==> kept[k] == nodes[n].children[k]
    requires forall k :: k in nodes[n].children && k !in kept ==> Collectible(nodes, nodes[n].children[k])
    ensures forall x {:trigger Pruned(nodes, rank, x)} ::
              Pruned(nodes, rank, x) ==>
                && Pruned(nodes[n := nodes[n].(children := kept)], rank, x)
                && nodes[n := nodes[n].(children := kept)][x] == nodes[x]
  {
    forall x: NodeId | Pruned(nodes, rank, x)
      ensures Pruned(nodes[n := nodes[n].(children := kept)], rank, x)
      ensures nodes[n := nodes[n].(children := kept)][x] == nodes[x]
    {
      DetachKeepsPruned(nodes, rank, n, kept, x);
    }
  }

  /** After the first loop, the names the second loop keeps are exactly the uncollectible ones. */
  lemma ClassifiedKept(nodes: Arena, rank: map<NodeId, nat>, kids: map<string, NodeId>, del: seq<string>,
                       kept: map<string, NodeId>)
    requires Classified(nodes, rank, kids, kids.Keys, del) && kept.Keys <= kids.Keys
    requires forall k :: k in kids ==> (k in kept <==> k !in del)
    requires forall k :: k in kept ==> kept[k] == kids[k]
    ensures forall k :: k in kids && k !in kept ==> Collectible(nodes, kids[k])
    ensures forall k :: k in kept ==>
              kept[k] in nodes && (nodes[kept[k]].mountPoint.Some? ||
                                   (!Collectible(nodes, kept[k]) && Pruned(nodes, rank, kept[k])))
  {
  }

  lemma DetachPrunesSelf(nodes: Arena, rank: map<NodeId, nat>, n: NodeId, kept: map<string, NodeId>)
    requires RankOk(nodes, rank) && n in nodes
    requires kept.Keys <= nodes[n].children.Keys
    requires forall k :: k in kept ==> kept[k] == nodes[n].children[k]
    requires forall k :: k in nodes[n].children && k !in kept ==> Collectible(nodes, nodes[n].children[k])
    requires forall k :: k in kept ==>
               kept[k] in nodes && (nodes[kept[k]].mountPoint.Some? ||
                                    (!Collectible(nodes, kept[k]) && Pruned(nodes, rank, kept[k])))
    ensures Pruned(nodes[n := nodes[n].(children := kept)], rank, n)
  {
    var nodes' := nodes[n := nodes[n].(children := kept)];
    DetachStable(nodes, rank, n, kept);
    forall k | k in kept
      ensures kept[k] in nodes' && kept[k] in rank && rank[kept[k]] < rank[n]
      ensures nodes'[kept[k]].mountPoint.Some? || (!Collectible(nodes', kept[k]) && Pruned(nodes', rank, kept[k]))
    {
      var c := kept[k];
      assert c == nodes[n].children[k];
      assert c != n && nodes'[c] == nodes[c];
      if nodes[c].mountPoint.None? {
        assert Pruned(nodes, rank, c);
      }
    }
  }

}
