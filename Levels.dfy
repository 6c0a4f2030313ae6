/** What one level of the engine's `add` and `remove` loops does to the
    node on the resolved path at that level, stated against the node the
    path passed before the operation.

    The engine walks the path from the leaf up. At each level it takes the
    old node, puts the already updated child back in its place (the source
    changes that child in place, so the parent sees the change), adjusts the
    node's count, and then inserts the pending entry (`add`) or repairs the
    child that lost an entry (`remove`). */
module Levels {
  import opened Common
  import opened Nodes
  import opened Paths
  import opened BlockSpec
  import opened Rebalance

  /** Least occupancy of the node at depth `d` of a path. */
  function LevelLo<T>(n: Node<T>, d: int, cfg: Config): int
    requires ValidConfig(cfg)
  {
    if d == 0 then RootLo(n) else HalfBlockSize(n, cfg)
  }

  /** The elements of the node that moved up, if any. */
  ghost function Rest<T>(moveUp: Option<Node<T>>): seq<T>
  {
    if moveUp.Some? then Elements(moveUp.value) else []
  }

  /** `n` designates position `p` through the steps `t`. */
  ghost predicate Tracks<T>(n: Node<T>, t: seq<PathNode>, p: int)
  {
    PathOk(n, t) && PathPos(n, t) == p
  }

  /** After `add` has dealt with a level: the old node `was` became `cur`,
      plus the new sibling in `moveUp` if it was split. Without a split the
      node keeps its occupancy bound; after one both halves are at least half
      full. Together they hold one more element, the new one at `p`. */
  ghost predicate Grown<T>(was: Node<T>, cur: Node<T>, moveUp: Option<Node<T>>, p: int, e: T,
                           h: int, cfg: Config, lo: int)
  {
    && ValidConfig(cfg)
    && 0 <= p <= |Elements(was)|
    && cur.Leaf? == was.Leaf?
    && (moveUp.None? ==> Shape(cur, h, cfg, lo) && cur.count == was.count + 1)
    && (moveUp.Some? ==>
          && NonRoot(cur, h, cfg) && NonRoot(moveUp.value, h, cfg)
          && cur.count + moveUp.value.count == was.count + 1)
    && Elements(cur) + Rest(moveUp) == InsertAt(Elements(was), p, e)
  }

  /** After `remove` has dealt with a level, before the level's own count is
      decremented: `cur` holds the elements of `was` without the one at
      `p`. With its count decremented it is well formed; its block may be
      one entry short of its bound while `merge` is still set (a child of it
      was merged away, or it is the leaf that lost the value). */
  ghost predicate Shrunk<T>(was: Node<T>, cur: Node<T>, merge: bool, p: int, h: int, cfg: Config, lo: int)
  {
    && ValidConfig(cfg)
    && 0 <= p < |Elements(was)|
    && cur.Leaf? == was.Leaf? && cur.count == was.count
    && Shape(Recounted(cur, cur.count - 1), h, cfg, if merge then lo - 1 else lo)
    && Elements(cur) == RemoveAt(Elements(was), p)
  }

  /** The old node at depth `d` of a resolved path: its shape, where the
      path's position lies in it, and whether it is the leaf. */
  lemma LevelShape<T>(r: Node<T>, s: seq<PathNode>, pos: int, h: int, cfg: Config, d: int)
    requires ValidConfig(cfg) && Shape(r, h, cfg, RootLo(r))
    requires Resolves(r, s, pos) && 0 <= d < |s|
    ensures Walkable(r, s[..d])
    ensures |s| == h + 1
    ensures d == 0 ==> Reach(r, s[..d]) == r && Offset(r, s[..d]) == 0
    ensures Shape(Reach(r, s[..d]), h - d, cfg, LevelLo(Reach(r, s[..d]), d, cfg))
    ensures Reach(r, s[..d]).count == |Elements(Reach(r, s[..d]))|
    ensures d == |s| - 1 <==> Reach(r, s[..d]).Leaf?
    ensures d == |s| - 1 ==> pos - Offset(r, s[..d]) == SlotOf(s)
  {
    var k := |s| - 1;
    DepthOnPath(r, s, d);
    DepthOnPath(r, s, k);
    assert |s| == h + 1 by {
      ReachShape(r, s[..k], h, cfg, RootLo(r));
    }
    ReachShape(r, s[..d], h, cfg, RootLo(r));
    ShapeCount(Reach(r, s[..d]), h - d, cfg, 0);
    if d == 0 {
      assert s[..d] == [];
    }
  }

  /** Where the path's position lies in the old node at depth `d`: inside
      it (or at its end, for an insertion at the end of the sequence). */
  lemma LevelPos<T>(r: Node<T>, s: seq<PathNode>, pos: int, h: int, cfg: Config, d: int)
    requires ValidConfig(cfg) && Shape(r, h, cfg, RootLo(r))
    requires Resolves(r, s, pos) && 0 <= d < |s|
    ensures Walkable(r, s[..d])
    ensures 0 <= pos - Offset(r, s[..d]) <= Reach(r, s[..d]).count
    ensures pos < r.count ==> pos - Offset(r, s[..d]) < Reach(r, s[..d]).count
  {
    var k := |s| - 1;
    var t := s[..k];
    assert Walkable(r, t[..d]) && Offset(r, t[..d]) <= Offset(r, t)
        && Offset(r, t) + Reach(r, t).count <= Offset(r, t[..d]) + Reach(r, t[..d]).count by {
      ReachBound(r, t, d, h, cfg, RootLo(r));
    }
    assert t[..d] == s[..d];
    ReachCounted(r, t, h, cfg, RootLo(r));
  }

  /** One step down the resolved path: the node at depth `d + 1` is child
      `s[d].childIdx` of the node at depth `d`, and the position inside it is
      the position inside the parent less the counts of the children before
      it. */
  lemma LevelDown<T>(r: Node<T>, s: seq<PathNode>, pos: int, h: int, cfg: Config, d: int)
    requires ValidConfig(cfg) && Shape(r, h, cfg, RootLo(r))
    requires Resolves(r, s, pos) && 0 <= d < |s| - 1
    ensures Walkable(r, s[..d]) && Walkable(r, s[..d + 1])
    ensures Reach(r, s[..d]).Internal?
    ensures 0 <= s[d].childIdx < |Reach(r, s[..d]).children|
    ensures Reach(r, s[..d + 1]) == Reach(r, s[..d]).children[s[d].childIdx]
    ensures pos - Offset(r, s[..d])
         == SumCounts(Reach(r, s[..d]).children[..s[d].childIdx]) + (pos - Offset(r, s[..d + 1]))
  {
    ChildCovers(r, s, d, pos, h, cfg, RootLo(r));
    assert s[..d + 1][..d] == s[..d];
  }

  /** The steps of a path from depth `d` on are the step at `d` followed by
      the steps from `d + 1` on. */
  lemma StepsFrom(s: seq<PathNode>, d: int)
    requires 0 <= d < |s|
    ensures s[d..] == [s[d]] + s[d + 1..]
  {
  }

  /** One level of add's loop: the node's child on the path is replaced by
      its updated version, the node's count goes up by one, and if there is
      an entry to insert here (the new value at the leaf, or the sibling a
      split below produced) splitAndInsert puts it in, splitting the node
      when it is full. */
  method AddLevel<T>(node: Node<T>, pn: PathNode, cur: Node<T>, moveUp: Option<Node<T>>, e: T,
                     ghost p: int, ghost h: int, cfg: Config, ghost lo: int, ghost t: seq<PathNode>)
    returns (cur': Node<T>, moveUp': Option<Node<T>>)
    requires ValidConfig(cfg) && Shape(node, h, cfg, lo)
    requires 0 <= p <= node.count
    requires node.Leaf? ==> pn.childIdx == p && moveUp.None? && t == []
    requires node.Internal? ==>
               && 0 <= pn.childIdx < |node.children|
               && Grown(node.children[pn.childIdx], cur, moveUp, p - SumCounts(node.children[..pn.childIdx]),
                        e, h - 1, cfg, HalfBlockSize(node.children[pn.childIdx], cfg))
    ensures Grown(node, cur', moveUp', p, e, h, cfg, lo)
    ensures moveUp'.Some? ==> moveUp.Some? || node.Leaf?
    ensures node.Leaf? ==> (moveUp'.Some? <==> CSize(node) == cfg.maxLeaf())
    ensures node.Internal? ==> (moveUp'.Some? <==> moveUp.Some? && CSize(node) == MaxBlockSize(node, cfg))
    ensures moveUp.None? && moveUp'.None? &&
            (node.Internal? ==> Tracks(cur, t, p - SumCounts(node.children[..pn.childIdx])))
            ==> Tracks(cur', [pn] + t, p)
  {
    if node.Leaf? {
      cur', moveUp' := AddToLeaf(node, pn, e, p, cfg, lo);
      assert [pn] + t == [pn];
    } else if moveUp.None? {
      cur', moveUp' := Internal(node.count + 1, node.children[pn.childIdx := cur]), None;
      GraftGrown(node, pn.childIdx, cur, e, p, h, cfg, lo);
      GraftTracks(node, pn, cur, p, t);
    } else {
      cur', moveUp' := AddMovedUp(node, pn.childIdx, cur, moveUp, e, p, h, cfg, lo);
    }
  }

  /** The leaf level of add: the value enters the leaf's block at its slot,
      and the leaf splits exactly when it was full. */
  method AddToLeaf<T>(node: Node<T>, pn: PathNode, e: T, ghost p: int, cfg: Config, ghost lo: int)
    returns (cur': Node<T>, moveUp': Option<Node<T>>)
    requires ValidConfig(cfg) && Shape(node, 0, cfg, lo) && node.Leaf?
    requires pn.childIdx == p && 0 <= p <= node.count
    ensures Grown(node, cur', moveUp', p, e, 0, cfg, lo)
    ensures moveUp'.Some? <==> CSize(node) == cfg.maxLeaf()
    ensures moveUp'.None? ==> Tracks(cur', [pn], p)
  {
    var n := Recounted(node, node.count + 1);
    cur', moveUp' := SplitAndInsert(None, n, pn.childIdx, e, 0, cfg);
    SplitAddElements(n, p, None, e);
    if moveUp'.Some? {
      ShapeBlock(cur', 0, cfg, HalfBlockSize(node, cfg));
      ShapeBlock(moveUp'.value, 0, cfg, HalfBlockSize(node, cfg));
    } else {
      ShapeBlock(cur', 0, cfg, lo);
      assert [pn][..0] == [];
    }
  }

  /** An internal level of add with nothing to insert: the node takes its
      updated child back and counts one more element. */
  lemma GraftGrown<T>(node: Node<T>, c: int, cur: Node<T>, e: T, p: int, h: int, cfg: Config, lo: int)
    requires ValidConfig(cfg) && Shape(node, h, cfg, lo) && node.Internal?
    requires 0 <= c < |node.children| && 0 <= p <= node.count
    requires Grown(node.children[c], cur, None, p - SumCounts(node.children[..c]),
                   e, h - 1, cfg, HalfBlockSize(node.children[c], cfg))
    ensures Grown(node, Internal(node.count + 1, node.children[c := cur]), None, p, e, h, cfg, lo)
  {
    ShapeBlock(node, h, cfg, lo);
    ShapeCount(node, h, cfg, lo);
    GraftChild(node, c, cur, None, p, e, h, cfg);
    ShapeBlock(Internal(node.count + 1, node.children[c := cur]), h, cfg, lo);
  }

  /** With the updated child taken back, the path through it still
      designates the same position. */
  lemma GraftTracks<T>(node: Node<T>, pn: PathNode, cur: Node<T>, p: int, t: seq<PathNode>)
    requires node.Internal? && 0 <= pn.childIdx < |node.children|
    ensures Tracks(cur, t, p - SumCounts(node.children[..pn.childIdx]))
            ==> Tracks(Internal(node.count + 1, node.children[pn.childIdx := cur]), [pn] + t, p)
  {
    var ch' := node.children[pn.childIdx := cur];
    UpdateSlices(node.children, pn.childIdx, cur);
    PathCons(node.count + 1, ch', pn, t);
  }

  /** An internal level of add whose child split: the node takes its updated
      child back and the sibling that moved up after it, splitting in turn
      when it was full. */
  method AddMovedUp<T>(node: Node<T>, c: int, cur: Node<T>, moveUp: Option<Node<T>>, e: T,
                       ghost p: int, ghost h: int, cfg: Config, ghost lo: int)
    returns (cur': Node<T>, moveUp': Option<Node<T>>)
    requires ValidConfig(cfg) && Shape(node, h, cfg, lo) && node.Internal?
    requires 0 <= c < |node.children| && moveUp.Some? && 0 <= p <= node.count
    requires Grown(node.children[c], cur, moveUp, p - SumCounts(node.children[..c]),
                   e, h - 1, cfg, HalfBlockSize(node.children[c], cfg))
    ensures Grown(node, cur', moveUp', p, e, h, cfg, lo)
    ensures moveUp'.Some? <==> CSize(node) == MaxBlockSize(node, cfg)
    ensures cur'.Internal? && (moveUp'.Some? ==> moveUp'.value.Internal?)
    ensures var kids := node.children[..c] + [cur, moveUp.value] + node.children[c + 1..];
            && (moveUp'.None? ==> cur'.children == kids)
            && (moveUp'.Some? ==>
                  && cur'.children + moveUp'.value.children == kids
                  && |cur'.children| == HalfBlockSize(node, cfg) + (if c + 1 < HalfBlockSize(node, cfg) then 1 else 0))
  {
    var n := Internal(node.count + 1, node.children[c := cur]);
    MovedUpReady(node, c, cur, moveUp, p, e, h, cfg, lo);
    cur', moveUp' := SplitAndInsert(moveUp, n, c, e, h, cfg);
    InsertAfterUpdate(node.children, c, cur, moveUp.value);
    SplitGrown(node, n, cur', moveUp', p, e, h, cfg, lo);
  }

  /** The node that took back its updated child is ready for splitAndInsert
      to put the sibling that moved up after that child; doing so inserts
      the new value at the node's position. */
  lemma MovedUpReady<T>(node: Node<T>, c: int, cur: Node<T>, moveUp: Option<Node<T>>, p: int, e: T,
                        h: int, cfg: Config, lo: int)
    requires ValidConfig(cfg) && Shape(node, h, cfg, lo) && node.Internal?
    requires 0 <= c < |node.children| && moveUp.Some? && 0 <= p <= node.count
    requires Grown(node.children[c], cur, moveUp, p - SumCounts(node.children[..c]),
                   e, h - 1, cfg, HalfBlockSize(node.children[c], cfg))
    ensures var n := Internal(node.count + 1, node.children[c := cur]);
            && Block(n, h, cfg) && CSize(n) == CSize(node) && lo <= CSize(node) <= MaxBlockSize(n, cfg)
            && 0 <= InsertPos(n, c) <= CSize(n) && NonRoot(moveUp.value, h - 1, cfg) && Pending(n, moveUp)
            && 0 <= p <= |Elements(node)|
            && Elements(SplitAdd(n, InsertPos(n, c), moveUp, e)) == InsertAt(Elements(node), p, e)
  {
    ShapeBlock(node, h, cfg, lo);
    ShapeCount(node, h, cfg, lo);
    GraftChild(node, c, cur, moveUp, p, e, h, cfg);
    SplitAddGraft(node, c, cur, moveUp, e);
    InsertGraft(node.children, c, Elements(cur), Elements(moveUp.value),
                p - SumCounts(node.children[..c]), e, h, cfg);
  }

  /** What splitAndInsert returns for a node of occupancy at least `lo`
      that grew by the new value at `p` is that node grown. */
  lemma SplitGrown<T>(node: Node<T>, n: Node<T>, cur': Node<T>, moveUp': Option<Node<T>>, p: int, e: T,
                      h: int, cfg: Config, lo: int)
    requires ValidConfig(cfg) && n.Leaf? == node.Leaf? && n.count == node.count + 1
    requires lo <= CSize(n) <= MaxBlockSize(n, cfg)
    requires 0 <= p <= |Elements(node)|
    requires cur'.Leaf? == n.Leaf? && Block(cur', h, cfg) && CountsOk(cur')
    requires moveUp'.None? ==> CSize(cur') == CSize(n) + 1 && cur'.count == n.count
    requires moveUp'.Some? ==>
               && moveUp'.value.Leaf? == n.Leaf?
               && Block(moveUp'.value, h, cfg) && CountsOk(moveUp'.value)
               && HalfBlockSize(n, cfg) <= CSize(cur') <= MaxBlockSize(n, cfg)
               && HalfBlockSize(n, cfg) <= CSize(moveUp'.value) <= MaxBlockSize(n, cfg)
               && cur'.count + moveUp'.value.count == n.count
    requires moveUp'.None? ==> CSize(n) < MaxBlockSize(n, cfg)
    requires Elements(cur') + Rest(moveUp') == InsertAt(Elements(node), p, e)
    ensures Grown(node, cur', moveUp', p, e, h, cfg, lo)
  {
    if moveUp'.Some? {
      ShapeBlock(cur', h, cfg, HalfBlockSize(n, cfg));
      ShapeBlock(moveUp'.value, h, cfg, HalfBlockSize(n, cfg));
    } else {
      ShapeBlock(cur', h, cfg, lo);
    }
  }

  /** The node with its path child replaced by the child's updated version:
      the block still fits, and the counts and elements are those of the old
      node with the child's share exchanged. */
  lemma GraftChild<T>(node: Node<T>, c: int, cur: Node<T>, moveUp: Option<Node<T>>, p: int, e: T,
                      h: int, cfg: Config)
    requires ValidConfig(cfg) && node.Internal? && Block(node, h, cfg) && CountsOk(node)
    requires 0 <= c < |node.children| && 0 <= p <= |Elements(node)|
    requires Grown(node.children[c], cur, moveUp, p - SumCounts(node.children[..c]), e, h - 1, cfg,
                   HalfBlockSize(node.children[c], cfg))
    ensures Block(Internal(node.count + 1, node.children[c := cur]), h, cfg)
    ensures moveUp.None? ==> CountsOk(Internal(node.count + 1, node.children[c := cur]))
    ensures moveUp.Some? ==> Pending(Internal(node.count + 1, node.children[c := cur]), moveUp)
    ensures moveUp.None? ==> Elements(Internal(node.count + 1, node.children[c := cur])) == InsertAt(Elements(node), p, e)
  {
    var ch := node.children;
    UpdateOthers(ch, c, cur, ch[c := cur], h - 1, cfg);
    UpdateRun(ch, c, cur);
    if moveUp.None? {
      InsertGraft(ch, c, Elements(cur), [], p - SumCounts(ch[..c]), e, h, cfg);
    }
  }

  /** Where splitAndInsert puts a sibling that moved up: right after the
      updated child. */
  lemma SplitAddGraft<T>(node: Node<T>, c: int, cur: Node<T>, moveUp: Option<Node<T>>, e: T)
    requires node.Internal? && 0 <= c < |node.children| && moveUp.Some?
    ensures Elements(SplitAdd(Internal(node.count + 1, node.children[c := cur]), c + 1, moveUp, e))
         == Concat(node.children[..c]) + Elements(cur) + Elements(moveUp.value) + Concat(node.children[c + 1..])
  {
    var ch := node.children;
    var ch' := ch[c := cur];
    SplitAddElements(Internal(node.count + 1, ch'), c + 1, moveUp, e);
    UpdateSlices(ch, c, cur);
    ConcatAppend(ch[..c], [cur]);
    SumCountsOne(cur);
  }

  /** The new elements of the path child, put back among its siblings, are
      the parent's elements with the new value inserted at the parent's
      position. */
  lemma InsertGraft<T>(ch: seq<Node<T>>, c: int, mid: seq<T>, tail: seq<T>, pc: int, e: T, h: int, cfg: Config)
    requires ValidConfig(cfg) && AllNonRoot(ch, h - 1, cfg) && 0 <= c < |ch|
    requires 0 <= pc <= |Elements(ch[c])|
    requires mid + tail == InsertAt(Elements(ch[c]), pc, e)
    ensures 0 <= SumCounts(ch[..c]) + pc <= |Concat(ch)|
    ensures Concat(ch[..c]) + mid + tail + Concat(ch[c + 1..]) == InsertAt(Concat(ch), SumCounts(ch[..c]) + pc, e)
  {
    PrefixRun(ch, c, h - 1, cfg);
    ConcatAround(ch, c);
    InsertInMiddle(Concat(ch[..c]), Elements(ch[c]), Concat(ch[c + 1..]), pc, e);
    AppendAssoc(Concat(ch[..c]), mid, tail);
  }

  /** One level of remove's loop: the node takes back its child on the path
      with that child's count decremented, and, while the levels below
      reported a merge, mergeBlocksAfterDelete repairs that child if it fell
      under half full. `merge'` says whether a repair moved entries. */
  method RemoveLevel<T>(parent: Node<T>, pn: PathNode, cur: Node<T>, merge: bool,
                        ghost p: int, ghost h: int, cfg: Config, ghost lo: int, ghost t: seq<PathNode>)
    returns (cur': Node<T>, merge': bool)
    requires ValidConfig(cfg) && Shape(parent, h, cfg, lo) && parent.Internal? && lo >= 2
    requires 0 <= pn.childIdx < |parent.children| && 0 <= p < parent.count
    requires Shrunk(parent.children[pn.childIdx], cur, merge, p - SumCounts(parent.children[..pn.childIdx]),
                    h - 1, cfg, HalfBlockSize(parent.children[pn.childIdx], cfg))
    ensures Shrunk(parent, cur', merge', p, h, cfg, lo)
    ensures merge' <==> merge && CSize(cur) < HalfBlockSize(cur, cfg)
    ensures !merge' && Tracks(cur, t, p - SumCounts(parent.children[..pn.childIdx])) ==> Tracks(cur', [pn] + t, p)
  {
    var c := pn.childIdx;
    var kids := parent.children[c := Recounted(cur, cur.count - 1)];
    RemoveGraft(parent, c, cur, merge, p, h, cfg, lo);
    var kids' := kids;
    merge' := false;
    if merge {
      kids', merge' := MergeBlocksAfterDelete(kids, c, h - 1, cfg);
    }
    cur' := Internal(parent.count, kids');
    ShrunkFrom(parent, kids, kids', merge', p, h, cfg, lo);
    if !merge' && Tracks(cur, t, p - SumCounts(parent.children[..c])) {
      RemoveTracks(parent, pn, cur, t, p);
    }
  }

  /** The children of a node on remove's path once the path child is put
      back with its count decremented: the run holds the node's elements
      without the removed one and one element less in total, and only the
      path child may be one entry short of half full, and only while
      `merge` is set. */
  lemma RemoveGraft<T>(parent: Node<T>, c: int, cur: Node<T>, merge: bool, p: int, h: int, cfg: Config, lo: int)
    requires ValidConfig(cfg) && Shape(parent, h, cfg, lo) && parent.Internal? && lo >= 2
    requires 0 <= c < |parent.children| && 0 <= p < parent.count
    requires Shrunk(parent.children[c], cur, merge, p - SumCounts(parent.children[..c]),
                    h - 1, cfg, HalfBlockSize(parent.children[c], cfg))
    ensures var kids := parent.children[c := Recounted(cur, cur.count - 1)];
            && |kids| == CSize(parent) && |kids| >= 2
            && (forall i | 0 <= i < |kids| && i != c :: NonRoot(kids[i], h - 1, cfg))
            && (merge ==> Shape(kids[c], h - 1, cfg, HalfBlockSize(kids[c], cfg) - 1))
            && (!merge ==> AllNonRoot(kids, h - 1, cfg))
            && SumCounts(kids) == parent.count - 1
            && 0 <= p < |Elements(parent)|
            && Concat(kids) == RemoveAt(Elements(parent), p)
  {
    var ch := parent.children;
    var child := Recounted(cur, cur.count - 1);
    ShapeBlock(parent, h, cfg, lo);
    ShapeCount(parent, h, cfg, lo);
    UpdateOthers(ch, c, child, ch[c := child], h - 1, cfg);
    UpdateRun(ch, c, child);
    RemoveInRun(ch, c, p - SumCounts(ch[..c]), h, cfg);
  }

  /** The elements of the path child without its removed one, put back
      among its siblings, are the parent's elements without the one at the
      parent's position. */
  lemma RemoveInRun<T>(ch: seq<Node<T>>, c: int, pc: int, h: int, cfg: Config)
    requires ValidConfig(cfg) && AllNonRoot(ch, h - 1, cfg) && 0 <= c < |ch|
    requires 0 <= pc < |Elements(ch[c])|
    ensures 0 <= SumCounts(ch[..c]) + pc < |Concat(ch)|
    ensures Concat(ch[..c]) + RemoveAt(Elements(ch[c]), pc) + Concat(ch[c + 1..])
         == RemoveAt(Concat(ch), SumCounts(ch[..c]) + pc)
  {
    PrefixRun(ch, c, h - 1, cfg);
    ConcatAround(ch, c);
    RemoveInMiddle(Concat(ch[..c]), Elements(ch[c]), Concat(ch[c + 1..]), pc);
  }

  /** The node rebuilt from the repaired run of children is the old node
      shrunk by the element at `p`. */
  lemma ShrunkFrom<T>(parent: Node<T>, kids: seq<Node<T>>, kids': seq<Node<T>>, merge': bool, p: int,
                      h: int, cfg: Config, lo: int)
    requires ValidConfig(cfg) && Shape(parent, h, cfg, lo) && parent.Internal?
    requires |kids| == CSize(parent) && SumCounts(kids) == parent.count - 1
    requires 0 <= p < |Elements(parent)| && Concat(kids) == RemoveAt(Elements(parent), p)
    requires RunKept(kids, kids', h - 1, cfg) && |kids| - 1 <= |kids'| <= |kids|
    requires !merge' ==> kids' == kids
    ensures Shrunk(parent, Internal(parent.count, kids'), merge', p, h, cfg, lo)
  {
    ShapeBlock(parent, h, cfg, lo);
    ShapeBlock(Internal(parent.count - 1, kids'), h, cfg, if merge' then lo - 1 else lo);
  }

  /** Without a repair the path still designates the same position in the
      node rebuilt around the shrunk child. */
  lemma RemoveTracks<T>(parent: Node<T>, pn: PathNode, cur: Node<T>, t: seq<PathNode>, p: int)
    requires parent.Internal? && 0 <= pn.childIdx < |parent.children|
    requires Tracks(cur, t, p - SumCounts(parent.children[..pn.childIdx]))
    ensures Tracks(Internal(parent.count, parent.children[pn.childIdx := Recounted(cur, cur.count - 1)]), [pn] + t, p)
  {
    var child := Recounted(cur, cur.count - 1);
    RecountedTracks(cur, cur.count - 1, t);
    UpdateSlices(parent.children, pn.childIdx, child);
    PathCons(parent.count, parent.children[pn.childIdx := child], pn, t);
  }

  /** Changing only a node's own count changes no path below it. */
  lemma {:induction false} WalkRecounted<T>(n: Node<T>, x: int, s: seq<PathNode>)
    ensures Walkable(n, s) <==> Walkable(Recounted(n, x), s)
    ensures Walkable(n, s) ==>
              && Offset(n, s) == Offset(Recounted(n, x), s)
              && (|s| > 0 ==> Reach(n, s) == Reach(Recounted(n, x), s))
    decreases |s|
  {
    if |s| > 0 {
      WalkRecounted(n, x, s[..|s| - 1]);
    }
  }

  lemma RecountedTracks<T>(n: Node<T>, x: int, t: seq<PathNode>)
    ensures PathOk(n, t) <==> PathOk(Recounted(n, x), t)
    ensures PathOk(n, t) ==> PathPos(n, t) == PathPos(Recounted(n, x), t)
  {
    if |t| >= 1 {
      WalkRecounted(n, x, t[..|t| - 1]);
    }
  }

  /** remove at the leaf: the value at the slot leaves the block; the count
      is still the old one, and the slot still designates the position. */
  lemma LeafShrunk<T>(leaf: Node<T>, pn: PathNode, cfg: Config, lo: int)
    requires ValidConfig(cfg) && Shape(leaf, 0, cfg, lo) && leaf.Leaf?
    requires 0 <= pn.childIdx < |leaf.values|
    ensures Shrunk(leaf, Leaf(leaf.count, RemoveAt(leaf.values, pn.childIdx)), true, pn.childIdx, 0, cfg, lo)
    ensures Tracks(Leaf(leaf.count, RemoveAt(leaf.values, pn.childIdx)), [pn], pn.childIdx)
  {
    assert [pn][..0] == [];
  }

  /** add's new root when the old root split: an internal node over the
      two halves is a well-formed root one level higher holding both. */
  lemma RootGrown<T>(n1: Node<T>, n2: Node<T>, h: int, cfg: Config)
    requires ValidConfig(cfg) && NonRoot(n1, h, cfg) && NonRoot(n2, h, cfg) && h >= 0
    ensures var r := Internal(n1.count + n2.count, [n1, n2]);
            Shape(r, h + 1, cfg, RootLo(r)) && Elements(r) == Elements(n1) + Elements(n2)
  {
    var ch := [n1, n2];
    assert ch[..1] == [n1] && ch[1..] == [n2];
    SplitRun(ch, 1);
    SumCountsOne(n1);
    SumCountsOne(n2);
  }

  /** remove's depth trim: an internal root with a single child holds the
      elements of that child, which is itself a well-formed root one level
      lower. */
  lemma TrimStep<T>(r: Node<T>, h: int, cfg: Config)
    requires ValidConfig(cfg) && Shape(r, h, cfg, 1) && r.Internal? && CSize(r) == 1
    ensures h >= 1 && Shape(r.children[0], h - 1, cfg, if r.children[0].Leaf? then 0 else 1)
    ensures Elements(r.children[0]) == Elements(r)
  {
    assert r.children == [r.children[0]];
    SumCountsOne(r.children[0]);
    ShapeBlock(r.children[0], h - 1, cfg, HalfBlockSize(r.children[0], cfg));
    ShapeBlock(r.children[0], h - 1, cfg, if r.children[0].Leaf? then 0 else 1);
  }
}
