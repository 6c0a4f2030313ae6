/** The vector itself: a B+ tree whose root is replaced as the tree grows
    and shrinks, a counter of structural modifications, and a cached path
    that serves consecutive accesses near the same position without a
    descent from the root while no structural modification intervened. */
module Engine {
  import opened Common
  import opened Nodes
  import opened Paths
  import opened BlockSpec
  import opened Rebalance
  import opened Levels
  import opened Updates

  /** The cached path: the position it resolves, the structural modification
      count it was computed under, and its steps from the root to a slot. */
  datatype Path = Path(position: int, modCount: int, steps: seq<PathNode>)

  /** The block of the node at depth `d` of the path is full. */
  ghost predicate FullAt<T>(r0: Node<T>, steps: seq<PathNode>, d: int, cfg: Config)
  {
    && 0 <= d < |steps| && Walkable(r0, steps[..d])
    && CSize(Reach(r0, steps[..d])) == MaxBlockSize(Reach(r0, steps[..d]), cfg)
  }

  /** The number of full blocks, among the path's nodes at depth `k` and
      below, in an unbroken run up from the leaf: the splits an add along
      the path makes there, since a node splits exactly when it is full and
      something is inserted into it, which only a split below it (or, at the
      leaf, the new value) causes. */
  ghost function FullRun<T>(r0: Node<T>, steps: seq<PathNode>, k: int, cfg: Config): (r: nat)
    requires 0 <= k <= |steps|
    ensures r <= |steps| - k
    decreases |steps| - k
  {
    if k == |steps| then 0
    else
      var below := FullRun(r0, steps, k + 1, cfg);
      if below == |steps| - 1 - k && FullAt(r0, steps, k, cfg) then below + 1 else below
  }

  /** Every block on the path is full, so an add along it splits the root. */
  ghost predicate AllFull<T>(r0: Node<T>, steps: seq<PathNode>, cfg: Config)
  {
    FullRun(r0, steps, 0, cfg) == |steps|
  }

  /** The path's leaf holds exactly half its capacity, so removing from it
      leaves it short when it is not the root. */
  ghost predicate LeafAtHalf<T>(r0: Node<T>, steps: seq<PathNode>, cfg: Config)
  {
    PathOk(r0, steps) && CSize(LeafOf(r0, steps)) == cfg.halfLeaf
  }

  /** The state of add's loop once the levels below depth `d + 1` are done
      (all of them when `d` is the leaf's depth): the node at depth `d + 1`
      has grown by `e` into `cur` and possibly `moveUp`. While nothing has
      split (`same`), the steps below depth `d + 1` still designate the
      position in `cur`; nothing has split exactly when the leaf was not
      full or no level is done yet. */
  ghost predicate AddInv<T>(r0: Node<T>, steps: seq<PathNode>, pos: int, e: T, h0: int, cfg: Config,
                            d: int, cur: Node<T>, moveUp: Option<Node<T>>, same: bool)
  {
    && ValidConfig(cfg) && Shape(r0, h0, cfg, RootLo(r0)) && Resolves(r0, steps, pos)
    && |steps| == h0 + 1 && -1 <= d <= h0
    && (d < h0 ==>
          && Walkable(r0, steps[..d + 1])
          && Grown(Reach(r0, steps[..d + 1]), cur, moveUp, pos - Offset(r0, steps[..d + 1]), e,
                   h0 - (d + 1), cfg, LevelLo(Reach(r0, steps[..d + 1]), d + 1, cfg)))
    && (same ==> moveUp.None? && (d < h0 ==> Tracks(cur, steps[d + 1..], pos - Offset(r0, steps[..d + 1]))))
    && (same <==> d == h0 || CSize(LeafOf(r0, steps)) < cfg.maxLeaf())
  }

  /** What add's level step needs (the requirements of `AddLevel`). */
  ghost predicate AddIn<T>(node: Node<T>, pn: PathNode, cur: Node<T>, moveUp: Option<Node<T>>, e: T,
                           p: int, h: int, cfg: Config, lo: int, t: seq<PathNode>)
  {
    && ValidConfig(cfg) && Shape(node, h, cfg, lo)
    && 0 <= p <= node.count
    && (node.Leaf? ==> pn.childIdx == p && moveUp.None? && t == [])
    && (node.Internal? ==>
          && 0 <= pn.childIdx < |node.children|
          && Grown(node.children[pn.childIdx], cur, moveUp, p - SumCounts(node.children[..pn.childIdx]),
                   e, h - 1, cfg, HalfBlockSize(node.children[pn.childIdx], cfg)))
  }

  /** What add's level step provides (the guarantees of `AddLevel`). */
  ghost predicate AddOut<T>(node: Node<T>, pn: PathNode, cur: Node<T>, moveUp: Option<Node<T>>, e: T,
                            p: int, h: int, cfg: Config, lo: int, t: seq<PathNode>,
                            cur': Node<T>, moveUp': Option<Node<T>>)
    requires AddIn(node, pn, cur, moveUp, e, p, h, cfg, lo, t)
  {
    && Grown(node, cur', moveUp', p, e, h, cfg, lo)
    && (moveUp'.Some? ==> moveUp.Some? || node.Leaf?)
    && (node.Leaf? ==> (moveUp'.Some? <==> CSize(node) == cfg.maxLeaf()))
    && (node.Internal? ==> (moveUp'.Some? <==> moveUp.Some? && CSize(node) == MaxBlockSize(node, cfg)))
    && (moveUp.None? && moveUp'.None? &&
        (node.Internal? ==> Tracks(cur, t, p - SumCounts(node.children[..pn.childIdx])))
        ==> Tracks(cur', [pn] + t, p))
  }

  method StepAdd<T>(node: Node<T>, pn: PathNode, cur: Node<T>, moveUp: Option<Node<T>>, e: T,
                    ghost p: int, ghost h: int, cfg: Config, ghost lo: int, ghost t: seq<PathNode>)
    returns (cur': Node<T>, moveUp': Option<Node<T>>)
    requires AddIn(node, pn, cur, moveUp, e, p, h, cfg, lo, t)
    ensures AddOut(node, pn, cur, moveUp, e, p, h, cfg, lo, t, cur', moveUp')
  {
    cur', moveUp' := AddLevel(node, pn, cur, moveUp, e, p, h, cfg, lo, t);
  }

  /** The level step's requirements established for the node at depth `d`
      of the path, with how that node relates to its neighbours on the
      path: the child on the path is the node at depth `d + 1`, or the node
      is the leaf. */
  ghost predicate AddAt<T>(r0: Node<T>, steps: seq<PathNode>, pos: int, e: T, h0: int, cfg: Config,
                           d: int, cur: Node<T>, moveUp: Option<Node<T>>)
  {
    && ValidConfig(cfg) && 0 <= d < |steps| && |steps| == h0 + 1 && Walkable(r0, steps[..d])
    && AddIn(Reach(r0, steps[..d]), steps[d], cur, moveUp, e, pos - Offset(r0, steps[..d]), h0 - d, cfg,
             LevelLo(Reach(r0, steps[..d]), d, cfg), steps[d + 1..])
    && steps[d..] == [steps[d]] + steps[d + 1..]
    && (d < h0 <==> Reach(r0, steps[..d]).Internal?)
    && (d < h0 ==>
          && Walkable(r0, steps[..d + 1])
          && Reach(r0, steps[..d + 1]) == Reach(r0, steps[..d]).children[steps[d].childIdx]
          && pos - Offset(r0, steps[..d])
             == SumCounts(Reach(r0, steps[..d]).children[..steps[d].childIdx]) + (pos - Offset(r0, steps[..d + 1])))
    && (d == h0 ==> steps[..d] == steps[..|steps| - 1])
  }

  /** One iteration of add's loop, at depth `d`. */
  method AddStep<T>(r0: Node<T>, steps: seq<PathNode>, ghost pos: int, e: T, ghost h0: int, cfg: Config,
                    d: int, cur: Node<T>, moveUp: Option<Node<T>>, ghost same: bool)
    returns (cur': Node<T>, moveUp': Option<Node<T>>)
    requires AddInv(r0, steps, pos, e, h0, cfg, d, cur, moveUp, same) && 0 <= d
    ensures AddInv(r0, steps, pos, e, h0, cfg, d - 1, cur', moveUp', same && moveUp'.None?)
    ensures moveUp'.Some? <==> (moveUp.Some? || d == h0) && FullAt(r0, steps, d, cfg)
  {
    AddStepPre(r0, steps, pos, e, h0, cfg, d, cur, moveUp, same);
    var node := Reach(r0, steps[..d]);
    ghost var p, lo, t := pos - Offset(r0, steps[..d]), LevelLo(node, d, cfg), steps[d + 1..];
    assert AddIn(node, steps[d], cur, moveUp, e, p, h0 - d, cfg, lo, t);
    cur', moveUp' := StepAdd(node, steps[d], cur, moveUp, e, p, h0 - d, cfg, lo, t);
    AddStepPost(r0, steps, pos, e, h0, cfg, d, cur, moveUp, same, node, p, lo, t, cur', moveUp');
  }

  /** What the loop state at depth `d` gives the level step. */
  lemma AddStepPre<T>(r0: Node<T>, steps: seq<PathNode>, pos: int, e: T, h0: int, cfg: Config,
                      d: int, cur: Node<T>, moveUp: Option<Node<T>>, same: bool)
    requires AddInv(r0, steps, pos, e, h0, cfg, d, cur, moveUp, same) && 0 <= d
    ensures AddAt(r0, steps, pos, e, h0, cfg, d, cur, moveUp)
  {
    LevelShape(r0, steps, pos, h0, cfg, d);
    LevelPos(r0, steps, pos, h0, cfg, d);
    StepsFrom(steps, d);
    if d < h0 {
      LevelDown(r0, steps, pos, h0, cfg, d);
    } else {
      assert steps[..d] == steps[..|steps| - 1];
    }
  }

  /** What the level step gives the loop state at depth `d - 1`. */
  lemma AddStepPost<T>(r0: Node<T>, steps: seq<PathNode>, pos: int, e: T, h0: int, cfg: Config,
                       d: int, cur: Node<T>, moveUp: Option<Node<T>>, same: bool,
                       node: Node<T>, p: int, lo: int, t: seq<PathNode>,
                       cur': Node<T>, moveUp': Option<Node<T>>)
    requires AddInv(r0, steps, pos, e, h0, cfg, d, cur, moveUp, same)
    requires AddAt(r0, steps, pos, e, h0, cfg, d, cur, moveUp)
    requires && node == Reach(r0, steps[..d]) && p == pos - Offset(r0, steps[..d])
             && lo == LevelLo(node, d, cfg) && t == steps[d + 1..]
    requires AddIn(node, steps[d], cur, moveUp, e, p, h0 - d, cfg, lo, t)
    requires AddOut(node, steps[d], cur, moveUp, e, p, h0 - d, cfg, lo, t, cur', moveUp')
    ensures AddInv(r0, steps, pos, e, h0, cfg, d - 1, cur', moveUp', same && moveUp'.None?)
    ensures moveUp'.Some? <==> (moveUp.Some? || d == h0) && FullAt(r0, steps, d, cfg)
  {
    assert steps[d - 1 + 1..] == steps[d..] && steps[..d - 1 + 1] == steps[..d];
  }

  /** The splits of add's loop, one level further up: the node at depth
      `d + 1` splits (`up'`) exactly when something is inserted into it (a
      split below, `up`, or the new value at the leaf) and it is full, which
      extends the run of full blocks counted below it. */
  lemma SplitCounted<T>(r0: Node<T>, steps: seq<PathNode>, h0: int, cfg: Config, d: int,
                        up: bool, up': bool, below: nat, splits: nat)
    requires |steps| == h0 + 1 && -1 <= d < h0
    requires below == FullRun(r0, steps, d + 2, cfg)
    requires up <==> d + 1 < h0 && below == h0 - (d + 1)
    requires up' <==> (up || d + 1 == h0) && FullAt(r0, steps, d + 1, cfg)
    requires splits == if up' then below + 1 else below
    ensures splits == FullRun(r0, steps, d + 1, cfg)
    ensures up' <==> d < h0 && splits == h0 - d
  {
  }

  /** add's loop done: the root has grown by `e` at `pos`. */
  lemma AddDone<T>(r0: Node<T>, steps: seq<PathNode>, pos: int, e: T, h0: int, cfg: Config,
                   cur: Node<T>, moveUp: Option<Node<T>>, same: bool)
    requires AddInv(r0, steps, pos, e, h0, cfg, -1, cur, moveUp, same)
    ensures Grown(r0, cur, moveUp, pos, e, h0, cfg, RootLo(r0))
    ensures same ==> moveUp.None? && Tracks(cur, steps, pos)
  {
    LevelShape(r0, steps, pos, h0, cfg, 0);
    assert steps[..0] == [] && steps[0..] == steps;
  }

  /** The state of remove's loop at depth `d`: the node there has lost the
      value at the position into `cur`, whose count is not yet decremented,
      and while `merge` is set it may be one entry short. `moved` records
      whether a repair moved entries; until one did, the steps from depth
      `d` on still designate the position in `cur`, and `merge` can only
      still be set at the leaf. */
  ghost predicate RemoveInv<T>(r0: Node<T>, steps: seq<PathNode>, pos: int, h0: int, cfg: Config,
                               d: int, cur: Node<T>, merge: bool, moved: bool)
  {
    && ValidConfig(cfg) && Shape(r0, h0, cfg, RootLo(r0)) && Resolves(r0, steps, pos) && pos < r0.count
    && |steps| == h0 + 1 && 0 <= d <= h0
    && Walkable(r0, steps[..d])
    && Shrunk(Reach(r0, steps[..d]), cur, merge, pos - Offset(r0, steps[..d]), h0 - d, cfg,
              LevelLo(Reach(r0, steps[..d]), d, cfg))
    && (merge && d < h0 ==> moved)
    && (!moved ==> Tracks(cur, steps[d..], pos - Offset(r0, steps[..d])))
    && (d == h0 ==> merge && !moved && CSize(cur) + 1 == CSize(Reach(r0, steps[..d])))
    && (d < h0 ==> (moved <==> LeafAtHalf(r0, steps, cfg)))
  }

  /** What remove's level step needs (the requirements of `RemoveLevel`). */
  ghost predicate RemoveIn<T>(parent: Node<T>, pn: PathNode, cur: Node<T>, merge: bool,
                              p: int, h: int, cfg: Config, lo: int)
  {
    && ValidConfig(cfg) && Shape(parent, h, cfg, lo) && parent.Internal? && lo >= 2
    && 0 <= pn.childIdx < |parent.children| && 0 <= p < parent.count
    && Shrunk(parent.children[pn.childIdx], cur, merge, p - SumCounts(parent.children[..pn.childIdx]),
              h - 1, cfg, HalfBlockSize(parent.children[pn.childIdx], cfg))
  }

  /** What remove's level step provides (the guarantees of `RemoveLevel`). */
  ghost predicate RemoveOut<T>(parent: Node<T>, pn: PathNode, cur: Node<T>, merge: bool,
                               p: int, h: int, cfg: Config, lo: int, t: seq<PathNode>,
                               cur': Node<T>, merge': bool)
    requires RemoveIn(parent, pn, cur, merge, p, h, cfg, lo)
  {
    && Shrunk(parent, cur', merge', p, h, cfg, lo)
    && (merge' <==> merge && CSize(cur) < HalfBlockSize(cur, cfg))
    && (!merge' && Tracks(cur, t, p - SumCounts(parent.children[..pn.childIdx])) ==> Tracks(cur', [pn] + t, p))
  }

  method StepRemove<T>(parent: Node<T>, pn: PathNode, cur: Node<T>, merge: bool,
                       ghost p: int, ghost h: int, cfg: Config, ghost lo: int, ghost t: seq<PathNode>)
    returns (cur': Node<T>, merge': bool)
    requires RemoveIn(parent, pn, cur, merge, p, h, cfg, lo)
    ensures RemoveOut(parent, pn, cur, merge, p, h, cfg, lo, t, cur', merge')
  {
    cur', merge' := RemoveLevel(parent, pn, cur, merge, p, h, cfg, lo, t);
  }

  /** remove at the leaf: the value leaves the leaf's block. */
  method RemoveStart<T>(r0: Node<T>, steps: seq<PathNode>, ghost pos: int, ghost h0: int, cfg: Config)
    returns (cur: Node<T>)
    requires ValidConfig(cfg) && Shape(r0, h0, cfg, RootLo(r0)) && Resolves(r0, steps, pos) && pos < r0.count
    ensures RemoveInv(r0, steps, pos, h0, cfg, |steps| - 1, cur, true, false)
  {
    var k := |steps| - 1;
    LevelShape(r0, steps, pos, h0, cfg, k);
    LevelPos(r0, steps, pos, h0, cfg, k);
    var leaf := Reach(r0, steps[..k]);
    LeafShrunk(leaf, steps[k], cfg, LevelLo(leaf, k, cfg));
    cur := Leaf(leaf.count, RemoveAt(leaf.values, steps[k].childIdx));
    assert steps[k..] == [steps[k]];
  }

  /** The level step's requirements established for the parent at depth
      `d - 1` of the node at depth `d`, with how the two relate. */
  ghost predicate RemoveAtLevel<T>(r0: Node<T>, steps: seq<PathNode>, pos: int, h0: int, cfg: Config,
                                   d: int, cur: Node<T>, merge: bool)
  {
    && ValidConfig(cfg) && 0 < d < |steps| && Walkable(r0, steps[..d - 1]) && Walkable(r0, steps[..d])
    && RemoveIn(Reach(r0, steps[..d - 1]), steps[d - 1], cur, merge, pos - Offset(r0, steps[..d - 1]),
                h0 - (d - 1), cfg, LevelLo(Reach(r0, steps[..d - 1]), d - 1, cfg))
    && steps[d - 1..] == [steps[d - 1]] + steps[d..]
    && Reach(r0, steps[..d]) == Reach(r0, steps[..d - 1]).children[steps[d - 1].childIdx]
    && pos - Offset(r0, steps[..d - 1])
       == SumCounts(Reach(r0, steps[..d - 1]).children[..steps[d - 1].childIdx]) + (pos - Offset(r0, steps[..d]))
  }

  /** One iteration of remove's loop: from depth `d` to its parent. */
  method RemoveStep<T>(r0: Node<T>, steps: seq<PathNode>, ghost pos: int, ghost h0: int, cfg: Config,
                       d: int, cur: Node<T>, merge: bool, ghost moved: bool)
    returns (cur': Node<T>, merge': bool)
    requires RemoveInv(r0, steps, pos, h0, cfg, d, cur, merge, moved) && 0 < d
    ensures RemoveInv(r0, steps, pos, h0, cfg, d - 1, cur', merge', moved || merge')
  {
    RemoveStepPre(r0, steps, pos, h0, cfg, d, cur, merge, moved);
    var parent := Reach(r0, steps[..d - 1]);
    cur', merge' := StepRemove(parent, steps[d - 1], cur, merge, pos - Offset(r0, steps[..d - 1]), h0 - (d - 1),
                               cfg, LevelLo(parent, d - 1, cfg), steps[d..]);
    RemoveStepPost(r0, steps, pos, h0, cfg, d, cur, merge, moved, cur', merge');
  }

  lemma RemoveStepPre<T>(r0: Node<T>, steps: seq<PathNode>, pos: int, h0: int, cfg: Config,
                         d: int, cur: Node<T>, merge: bool, moved: bool)
    requires RemoveInv(r0, steps, pos, h0, cfg, d, cur, merge, moved) && 0 < d
    ensures RemoveAtLevel(r0, steps, pos, h0, cfg, d, cur, merge)
  {
    LevelShape(r0, steps, pos, h0, cfg, d - 1);
    LevelPos(r0, steps, pos, h0, cfg, d - 1);
    LevelDown(r0, steps, pos, h0, cfg, d - 1);
    StepsFrom(steps, d - 1);
  }

  lemma RemoveStepPost<T>(r0: Node<T>, steps: seq<PathNode>, pos: int, h0: int, cfg: Config,
                          d: int, cur: Node<T>, merge: bool, moved: bool, cur': Node<T>, merge': bool)
    requires RemoveInv(r0, steps, pos, h0, cfg, d, cur, merge, moved)
    requires RemoveAtLevel(r0, steps, pos, h0, cfg, d, cur, merge)
    requires RemoveOut(Reach(r0, steps[..d - 1]), steps[d - 1], cur, merge, pos - Offset(r0, steps[..d - 1]),
                       h0 - (d - 1), cfg, LevelLo(Reach(r0, steps[..d - 1]), d - 1, cfg), steps[d..], cur', merge')
    ensures RemoveInv(r0, steps, pos, h0, cfg, d - 1, cur', merge', moved || merge')
  {
    if d == h0 {
      LevelShape(r0, steps, pos, h0, cfg, d);
    }
  }

  /** remove's loop done: the root has lost the value at `pos`. */
  lemma RemoveDone<T>(r0: Node<T>, steps: seq<PathNode>, pos: int, h0: int, cfg: Config,
                      cur: Node<T>, merge: bool, moved: bool)
    requires RemoveInv(r0, steps, pos, h0, cfg, 0, cur, merge, moved)
    ensures Shrunk(r0, cur, merge, pos, h0, cfg, RootLo(r0))
    ensures merge && r0.Internal? ==> moved
    ensures !moved ==> Tracks(cur, steps, pos)
    ensures moved <==> r0.Internal? && LeafAtHalf(r0, steps, cfg)
  {
    LevelShape(r0, steps, pos, h0, cfg, 0);
    assert steps[..0] == [] && steps[0..] == steps;
  }

  class BTreeVectorImpl<T> {
    const cfg: Config
    var root: Node<T>
    var structModCount: int
    var cachePath: Path
    ghost var height: nat

    /** The tree is well formed, and the cache, when its stamp is current,
        designates its recorded position. */
    ghost predicate Valid()
      reads this
    {
      && ValidConfig(cfg)
      && Shape(root, height, cfg, RootLo(root))
      && cachePath.modCount <= structModCount
      && (cachePath.modCount == structModCount ==> Tracks(root, cachePath.steps, cachePath.position))
    }

    /** The sequence the vector holds. */
    ghost function Contents(): seq<T>
      reads this
    {
      Elements(root)
    }

    /** An empty vector: a single empty leaf, and a cache stamped so that it
        is never current. */
    constructor (cfg: Config)
      requires ValidConfig(cfg)
      ensures Valid() && Contents() == []
      ensures this.cfg == cfg && structModCount == 0 && cachePath.modCount == -1
    {
      this.cfg := cfg;
      root := Leaf(0, []);
      structModCount := 0;
      cachePath := Path(0, -1, []);
      height := 0;
    }

    /** size(): the number of values. */
    method Size() returns (n: int)
      requires Valid()
      ensures n == |Contents()|
    {
      ShapeCount(root, height, cfg, RootLo(root));
      n := root.count;
    }

    /** getPath: resolve `pos` (the end of the sequence included when
        `fromAdd` is 1), reusing the cached path when its stamp is current
        and the position lies in the same leaf. */
    method GetPath(pos: int, fromAdd: int) returns (ok: bool)
      requires Valid() && (fromAdd == 0 || fromAdd == 1)
      modifies this`cachePath
      ensures Valid()
      ensures ok <==> 0 <= pos < |Contents()| + fromAdd
      ensures ok ==> && cachePath.modCount == structModCount && cachePath.position == pos
                     && Resolves(root, cachePath.steps, pos)
      ensures !ok ==> cachePath == old(cachePath)
    {
      ShapeCount(root, height, cfg, RootLo(root));
      if pos >= root.count + fromAdd || pos < 0 {
        return false;
      }
      if cachePath.modCount == structModCount {
        var diff := pos - cachePath.position;
        var steps := cachePath.steps;
        var leaf := LeafOf(root, steps);
        var idx := steps[|steps| - 1].childIdx + diff;
        var csize := |leaf.values|;
        if (idx >= 0 && idx < csize) || (pos == root.count && idx == csize) {
          if diff != 0 {
            ShiftSlot(root, steps, idx);
            cachePath := Path(cachePath.position + diff, cachePath.modCount,
                              steps[|steps| - 1 := PathNode(idx, steps[|steps| - 1].countedPos)]);
          }
          return true;
        }
      }
      var steps := GetPathNodes(root, pos, height, cfg);
      cachePath := Path(pos, structModCount, steps);
      ok := true;
    }

    /** get(pos): the value at `pos`; a position outside the sequence is an
        error. */
    method Get(pos: int) returns (r: Option<T>)
      requires Valid()
      modifies this`cachePath
      ensures Valid()
      ensures r.Some? <==> 0 <= pos < |Contents()|
      ensures r.Some? ==> r.value == Contents()[pos]
    {
      var ok := GetPath(pos, 0);
      if !ok {
        return None;
      }
      var steps := cachePath.steps;
      var leaf := LeafOf(root, steps);
      ShapeCount(root, height, cfg, RootLo(root));
      ElementAtPath(root, steps, height, cfg, RootLo(root));
      r := Some(leaf.values[SlotOf(steps)]);
    }

    /** set(pos, element): overwrite the value at `pos` in its leaf. No
        count changes and it is no structural modification, so the cached
        path, now at `pos`, stays current. A position outside the sequence
        is an error. */
    method Set(pos: int, e: T) returns (ok: bool)
      requires Valid()
      modifies this`root, this`cachePath
      ensures Valid()
      ensures ok <==> 0 <= pos < old(|Contents()|)
      ensures ok ==> Contents() == old(Contents())[pos := e]
      ensures !ok ==> Contents() == old(Contents())
      ensures ok ==> cachePath.modCount == structModCount && cachePath.position == pos
    {
      ok := GetPath(pos, 0);
      if !ok {
        return;
      }
      var steps := cachePath.steps;
      ShapeCount(root, height, cfg, RootLo(root));
      ReplaceElements(root, steps, e, height, cfg, RootLo(root));
      ReplaceShape(root, steps, e, height, cfg, RootLo(root));
      ReplaceKeepsPaths(root, steps, e, steps);
      root := Replace(root, steps, e);
    }

    /** clear(): back to a single empty leaf, a structural modification. */
    method Clear()
      requires Valid()
      modifies this`root, this`height, this`structModCount
      ensures Valid() && Contents() == []
      ensures structModCount == old(structModCount) + 1
    {
      root := Leaf(0, []);
      height := 0;
      structModCount := structModCount + 1;
    }

    /** add(element): append at the end. */
    method Append(e: T)
      requires Valid()
      modifies this`root, this`height, this`structModCount, this`cachePath
      ensures Valid() && Contents() == old(Contents()) + [e]
    {
      ShapeCount(root, height, cfg, RootLo(root));
      ghost var s := Contents();
      var ok := Add(root.count, e);
      assert InsertAt(s, |s|, e) == s + [e];
    }

    /** add(pos, element): insert at `pos`, the end of the sequence
        included. The leaf takes the value; every node on the path counts
        one more; a full block splits, its upper half moving up to the
        parent, and a split root grows the tree by a level. Each split is
        two structural modifications; an insertion that splits nothing
        keeps the cached path current. */
    method Add(pos: int, e: T) returns (ok: bool)
      requires Valid()
      modifies this`root, this`height, this`structModCount, this`cachePath
      ensures Valid()
      ensures ok <==> 0 <= pos <= old(|Contents()|)
      ensures ok ==> Contents() == InsertAt(old(Contents()), pos, e)
      ensures !ok ==> Contents() == old(Contents()) && structModCount == old(structModCount)
      ensures !ok ==> root == old(root) && height == old(height) && cachePath == old(cachePath)
      ensures old(structModCount) <= structModCount && (structModCount - old(structModCount)) % 2 == 0
      ensures ok ==> structModCount == old(structModCount) + 2 * FullRun(old(root), cachePath.steps, 0, cfg)
      ensures old(height) <= height <= old(height) + 1
      ensures ok ==> (height == old(height) + 1 <==> AllFull(old(root), cachePath.steps, cfg))
      ensures ok ==> Resolves(old(root), cachePath.steps, pos)
                     && (structModCount == old(structModCount)
                         <==> CSize(LeafOf(old(root), cachePath.steps)) < cfg.maxLeaf())
      ensures ok && structModCount == old(structModCount) ==>
                cachePath.modCount == structModCount && cachePath.position == pos
    {
      ok := GetPath(pos, 1);
      if !ok {
        return;
      }
      ShapeCount(root, height, cfg, RootLo(root));
      ghost var splits := Insert(cachePath.steps, pos, e);
    }

    /** add once the path is resolved: the path's nodes are replaced by
        their grown versions, and a split root is replaced by a new root
        over its two halves. */
    method Insert(steps: seq<PathNode>, ghost pos: int, e: T) returns (ghost splits: nat)
      requires ValidConfig(cfg) && Shape(root, height, cfg, RootLo(root)) && Resolves(root, steps, pos)
      requires 0 <= pos <= |Elements(root)|
      modifies this`root, this`height, this`structModCount
      ensures Shape(root, height, cfg, RootLo(root))
      ensures Elements(root) == InsertAt(old(Elements(root)), pos, e)
      ensures structModCount == old(structModCount) + 2 * splits
      ensures old(height) <= height <= old(height) + 1
      ensures splits == 0 <==> CSize(LeafOf(old(root), steps)) < cfg.maxLeaf()
      ensures splits == 0 ==> height == old(height) && Tracks(root, steps, pos)
      ensures splits == FullRun(old(root), steps, 0, cfg)
      ensures height == old(height) + 1 <==> AllFull(old(root), steps, cfg)
      ensures height == old(height) + 1 ==>
                && root.Internal? && |root.children| == 2
                && root.count == root.children[0].count + root.children[1].count
    {
      var cur, moveUp;
      cur, moveUp, splits := AddAlong(root, steps, pos, e, height);
      if moveUp.Some? {
        RootGrown(cur, moveUp.value, height, cfg);
        root := Internal(cur.count + moveUp.value.count, [cur, moveUp.value]);
        height := height + 1;
      } else {
        root := cur;
      }
    }

    /** add's loop: from the leaf up to the root, each node on the path
        counts one more and takes what the level below passes up; each
        split (at most one per level) is two structural modifications. The
        nodes of `r0` are replaced by their new versions, the root by `cur`
        and, if it split, `moveUp`. */
    method AddAlong(r0: Node<T>, steps: seq<PathNode>, ghost pos: int, e: T, ghost h0: int)
      returns (cur: Node<T>, moveUp: Option<Node<T>>, ghost splits: nat)
      requires ValidConfig(cfg) && Shape(r0, h0, cfg, RootLo(r0)) && Resolves(r0, steps, pos)
      modifies this`structModCount
      ensures structModCount == old(structModCount) + 2 * splits
      ensures Grown(r0, cur, moveUp, pos, e, h0, cfg, RootLo(r0))
      ensures splits == 0 <==> CSize(LeafOf(r0, steps)) < cfg.maxLeaf()
      ensures splits == 0 ==> moveUp.None? && Tracks(cur, steps, pos)
      ensures splits == FullRun(r0, steps, 0, cfg)
      ensures moveUp.Some? <==> AllFull(r0, steps, cfg)
    {
      LevelShape(r0, steps, pos, h0, cfg, |steps| - 1);
      assert steps[..|steps| - 1] == steps[..h0];
      cur, moveUp, splits := r0, None, 0;
      var d := |steps| - 1;
      ghost var same := true;
      while d >= 0
        invariant structModCount == old(structModCount) + 2 * splits
        invariant same <==> splits == 0
        invariant AddInv(r0, steps, pos, e, h0, cfg, d, cur, moveUp, same)
        invariant splits == FullRun(r0, steps, d + 1, cfg)
        invariant moveUp.Some? <==> d < h0 && splits == h0 - d
      {
        ghost var up, below := moveUp.Some?, splits;
        cur, moveUp := AddStep(r0, steps, pos, e, h0, cfg, d, cur, moveUp, same);
        same := same && moveUp.None?;
        if moveUp.Some? {
          structModCount := structModCount + 2;
          splits := splits + 1;
        }
        d := d - 1;
        SplitCounted(r0, steps, h0, cfg, d, up, moveUp.Some?, below, splits);
      }
      AddDone(r0, steps, pos, e, h0, cfg, cur, moveUp, same);
    }

    /** remove(pos): the value at `pos` leaves its leaf; every node on the
        path counts one less; while a repair happened at the level below,
        mergeBlocksAfterDelete repairs the next child up (each entry move is
        a structural modification); finally an internal root left with a
        single child is replaced by that child, once per level lost. */
    method Remove(pos: int) returns (ok: bool)
      requires Valid()
      modifies this`root, this`height, this`structModCount, this`cachePath
      ensures Valid()
      ensures ok <==> 0 <= pos < old(|Contents()|)
      ensures ok ==> Contents() == RemoveAt(old(Contents()), pos)
      ensures !ok ==> Contents() == old(Contents()) && structModCount == old(structModCount)
      ensures !ok ==> root == old(root) && height == old(height) && cachePath == old(cachePath)
      ensures old(structModCount) <= structModCount && height <= old(height)
      ensures structModCount <= old(structModCount) + 2 * old(height)
      ensures ok ==> (structModCount == old(structModCount)
                      <==> !(old(root).Internal? && LeafAtHalf(old(root), cachePath.steps, cfg)))
      ensures ok && structModCount == old(structModCount) ==>
                height == old(height) && cachePath.modCount == structModCount && cachePath.position == pos
    {
      ok := GetPath(pos, 0);
      if !ok {
        return;
      }
      ShapeCount(root, height, cfg, RootLo(root));
      LevelShape(root, cachePath.steps, pos, height, cfg, 0);
      var cur, merge, moves := RemoveAlong(root, cachePath.steps, pos, height);
      ghost var h0 := height;
      root := Recounted(cur, cur.count - 1);
      ShapeBlock(root, h0, cfg, if merge then RootLo(cur) - 1 else RootLo(cur));
      ShapeBlock(root, h0, cfg, if root.Leaf? then 0 else 1);
      if moves == 0 {
        RecountedTracks(cur, cur.count - 1, cachePath.steps);
        ShapeBlock(root, h0, cfg, RootLo(root));
      }
      TrimRoot();
    }

    /** remove's loop: from the leaf up to the root, each node on the path
        counts one less, and while the level below repaired (or lost the
        value, at the leaf) mergeBlocksAfterDelete repairs the child on the
        path; each entry move is a structural modification. `cur` is the
        new root before its own count is decremented. */
    method RemoveAlong(r0: Node<T>, steps: seq<PathNode>, ghost pos: int, ghost h0: int)
      returns (cur: Node<T>, merge: bool, ghost moves: nat)
      requires ValidConfig(cfg) && Shape(r0, h0, cfg, RootLo(r0)) && Resolves(r0, steps, pos)
      requires pos < r0.count
      modifies this`structModCount
      ensures structModCount == old(structModCount) + moves
      ensures Shrunk(r0, cur, merge, pos, h0, cfg, RootLo(r0))
      ensures merge && r0.Internal? ==> moves > 0
      ensures moves == 0 ==> Tracks(cur, steps, pos)
      ensures moves <= |steps| - 1
      ensures moves > 0 <==> r0.Internal? && LeafAtHalf(r0, steps, cfg)
    {
      cur := RemoveStart(r0, steps, pos, h0, cfg);
      merge, moves := true, 0;
      var d := |steps| - 1;
      ghost var moved := false;
      while d > 0
        invariant structModCount == old(structModCount) + moves
        invariant moved <==> moves > 0
        invariant moves <= h0 - d
        invariant RemoveInv(r0, steps, pos, h0, cfg, d, cur, merge, moved)
      {
        cur, merge := RemoveStep(r0, steps, pos, h0, cfg, d, cur, merge, moved);
        moved := moved || merge;
        if merge {
          structModCount := structModCount + 1;
          moves := moves + 1;
        }
        d := d - 1;
      }
      RemoveDone(r0, steps, pos, h0, cfg, cur, merge, moved);
    }

    /** remove's depth trim: while the root is internal with a single
        child, that child becomes the root, one structural modification per
        level lost. */
    method TrimRoot()
      requires ValidConfig(cfg) && Shape(root, height, cfg, if root.Leaf? then 0 else 1)
      modifies this`root, this`height, this`structModCount
      ensures Shape(root, height, cfg, RootLo(root)) && Elements(root) == old(Elements(root))
      ensures height <= old(height) && structModCount == old(structModCount) + (old(height) - height)
      ensures old(root.Leaf? || CSize(root) != 1) ==> root == old(root) && height == old(height)
    {
      while CSize(root) == 1 && root.Internal?
        invariant Shape(root, height, cfg, if root.Leaf? then 0 else 1)
        invariant Elements(root) == old(Elements(root))
        invariant height <= old(height) && structModCount == old(structModCount) + (old(height) - height)
        invariant old(root.Leaf? || CSize(root) != 1) ==> root == old(root) && height == old(height)
        decreases height
      {
        TrimStep(root, height, cfg);
        root := root.children[0];
        height := height - 1;
        structModCount := structModCount + 1;
      }
      ShapeBlock(root, height, cfg, if root.Leaf? then 0 else 1);
      ShapeBlock(root, height, cfg, RootLo(root));
    }
  }
}
