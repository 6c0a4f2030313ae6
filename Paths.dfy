/** Position resolution: the per-level records of a root-to-leaf descent
    (`PathNode`), the child choice at one internal node (`FindChild`) and a
    full descent (`GetPathNodes`).

    A path is the sequence of the records from the root down; the node a
    prefix of it reaches is found by following the recorded child indices
    (`Reach`), and the number of elements to the left of that node is
    `Offset`. Both are defined by recursion on the last step, so that a
    path grows at its end, as the descent builds it. */
module Paths {
  import opened Common
  import opened Nodes

  /** One level of a descent: the chosen child (for a leaf, the slot) and
      the position that remains relative to it. */
  datatype PathNode = PathNode(childIdx: int, countedPos: int)

  /** Every step of `s` chooses an existing child of an internal node. */
  predicate Walkable<T>(n: Node<T>, s: seq<PathNode>)
    decreases |s|, 0
  {
    || |s| == 0
    || (&& Walkable(n, s[..|s| - 1])
        && Reach(n, s[..|s| - 1]).Internal?
        && 0 <= s[|s| - 1].childIdx < |Reach(n, s[..|s| - 1]).children|)
  }

  /** The node that the steps of `s` lead to from `n`. */
  function Reach<T>(n: Node<T>, s: seq<PathNode>): Node<T>
    requires Walkable(n, s)
    decreases |s|, 1
  {
    if |s| == 0 then n
    else Reach(n, s[..|s| - 1]).children[s[|s| - 1].childIdx]
  }

  /** Number of elements of `n` that lie left of the node `s` leads to,
      summed from the recorded counts of the siblings passed on the way. */
  ghost function Offset<T>(n: Node<T>, s: seq<PathNode>): int
    requires Walkable(n, s)
    decreases |s|
  {
    if |s| == 0 then 0
    else Offset(n, s[..|s| - 1]) + SumCounts(Reach(n, s[..|s| - 1]).children[..s[|s| - 1].childIdx])
  }

  /** A complete path: internal steps down to a leaf, then a slot of that
      leaf (its end included, for insertions). */
  predicate PathOk<T>(n: Node<T>, s: seq<PathNode>)
  {
    && |s| >= 1
    && Walkable(n, s[..|s| - 1])
    && Reach(n, s[..|s| - 1]).Leaf?
    && 0 <= s[|s| - 1].childIdx <= |Reach(n, s[..|s| - 1]).values|
  }

  function LeafOf<T>(n: Node<T>, s: seq<PathNode>): Node<T>
    requires PathOk(n, s)
  {
    Reach(n, s[..|s| - 1])
  }

  function SlotOf(s: seq<PathNode>): int
    requires |s| >= 1
  {
    s[|s| - 1].childIdx
  }

  /** The position in the whole sequence that a complete path designates. */
  ghost function PathPos<T>(n: Node<T>, s: seq<PathNode>): int
    requires PathOk(n, s)
  {
    Offset(n, s[..|s| - 1]) + SlotOf(s)
  }

  /** `s` resolves position `pos`: it designates `pos`, and its slot is an
      existing value unless `pos` is the end of the whole sequence. */
  ghost predicate Resolves<T>(n: Node<T>, s: seq<PathNode>, pos: int)
  {
    && PathOk(n, s)
    && PathPos(n, s) == pos
    && (SlotOf(s) < CSize(LeafOf(n, s)) || pos == n.count)
  }

  /** The child `pn` that an internal node with children `ch` chooses for
      position `pos`: the elements before it plus the remaining position
      make up `pos`; the remaining position lies inside the child, or at
      the end of the last child when `pos` is the end of the node. */
  ghost predicate Located<T>(ch: seq<Node<T>>, pos: int, pn: PathNode)
  {
    && 0 <= pn.childIdx < |ch|
    && 0 <= pn.countedPos
    && SumCounts(ch[..pn.childIdx]) + pn.countedPos == pos <= SumCounts(ch)
    && (pos < SumCounts(ch) ==> pn.countedPos < ch[pn.childIdx].count)
    && (pos == SumCounts(ch) ==> pn.childIdx == |ch| - 1 && pn.countedPos == ch[pn.childIdx].count)
  }

  lemma PrefixStep<T>(ch: seq<Node<T>>, i: int)
    requires 0 <= i < |ch|
    ensures SumCounts(ch[..i + 1]) == SumCounts(ch[..i]) + ch[i].count
  {
    assert ch[..i + 1][..i] == ch[..i];
  }

  /** findChild: on a leaf the slot is the position itself; on an internal
      node the children are scanned from the right, subtracting counts from
      the node's total, when `pos` lies in the upper half, and from the
      left, adding counts, otherwise. The scan fails (the source aborts)
      only on an internal node that holds no element. */
  method FindChild<T>(node: Node<T>, pos: int) returns (pn: PathNode, child: Option<Node<T>>, ok: bool)
    requires 0 <= pos <= node.count
    requires node.Internal? ==> CountsOk(node) && NonNegCounts(node.children)
    ensures node.Leaf? ==> ok && pn == PathNode(pos, pos) && child == None
    ensures node.Internal? ==> (ok <==> node.count > 0)
    ensures node.Internal? && ok ==>
              Located(node.children, pos, pn) && child == Some(node.children[pn.childIdx])
  {
    if node.Leaf? {
      return PathNode(pos, pos), None, true;
    }
    var ch := node.children;
    var size := |ch|;
    assert ch[..size] == ch;
    assert SumCounts(ch[..0]) == 0 by { assert ch[..0] == []; }
    if pos > node.count / 2 {
      var sum := node.count;
      var childIdx := size - 1;
      while childIdx >= 0
        invariant -1 <= childIdx < size
        invariant sum == SumCounts(ch[..childIdx + 1])
        invariant forall j | childIdx < j < size :: SumCounts(ch[..j]) > pos
      {
        PrefixStep(ch, childIdx);
        sum := sum - ch[childIdx].count;
        if sum <= pos {
          pn := PathNode(childIdx, pos - sum);
          if childIdx < size - 1 {
            PrefixStep(ch, childIdx + 1);
            PrefixMono(ch, size - 1, size);
          }
          return pn, Some(ch[childIdx]), true;
        }
        childIdx := childIdx - 1;
      }
    } else {
      var sum := 0;
      var childIdx := 0;
      while childIdx < size
        invariant 0 <= childIdx <= size
        invariant sum == SumCounts(ch[..childIdx])
        invariant sum <= pos
      {
        PrefixStep(ch, childIdx);
        sum := sum + ch[childIdx].count;
        if sum > pos {
          pn := PathNode(childIdx, pos - sum + ch[childIdx].count);
          PrefixMono(ch, childIdx + 1, size);
          return pn, Some(ch[childIdx]), true;
        }
        childIdx := childIdx + 1;
      }
    }
    pn, child, ok := PathNode(0, 0), None, false;
  }

  /** Both scan directions choose the same child: for a position inside the
      node, the child is determined by the counts alone. */
  lemma LocateUnique<T>(ch: seq<Node<T>>, pos: int, a: PathNode, b: PathNode)
    requires NonNegCounts(ch)
    requires pos < SumCounts(ch)
    requires Located(ch, pos, a) && Located(ch, pos, b)
    ensures a == b
  {
    PrefixStep(ch, a.childIdx);
    PrefixStep(ch, b.childIdx);
    if a.childIdx < b.childIdx {
      PrefixMono(ch, a.childIdx + 1, b.childIdx);
    } else if b.childIdx < a.childIdx {
      PrefixMono(ch, b.childIdx + 1, a.childIdx);
    }
  }

  lemma {:induction false} WalkablePrefix<T>(n: Node<T>, s: seq<PathNode>, j: int)
    requires Walkable(n, s) && 0 <= j <= |s|
    ensures Walkable(n, s[..j])
    decreases |s|
  {
    if j < |s| {
      assert s[..|s| - 1][..j] == s[..j];
      WalkablePrefix(n, s[..|s| - 1], j);
    } else {
      assert s[..j] == s;
    }
  }

  lemma WalkableSnoc<T>(n: Node<T>, s: seq<PathNode>, pn: PathNode)
    requires Walkable(n, s) && Reach(n, s).Internal?
    requires 0 <= pn.childIdx < |Reach(n, s).children|
    ensures Walkable(n, s + [pn])
    ensures Reach(n, s + [pn]) == Reach(n, s).children[pn.childIdx]
    ensures Offset(n, s + [pn]) == Offset(n, s) + SumCounts(Reach(n, s).children[..pn.childIdx])
  {
    assert (s + [pn])[..|s|] == s;
  }

  /** A walk that starts with a step into child `c` of an internal node is
      a walk of that child, shifted by the counts of the children before it. */
  lemma {:induction false} WalkCons<T>(cnt: int, ch: seq<Node<T>>, pn: PathNode, s: seq<PathNode>)
    requires 0 <= pn.childIdx < |ch|
    ensures Walkable(Internal(cnt, ch), [pn] + s) <==> Walkable(ch[pn.childIdx], s)
    ensures Walkable(ch[pn.childIdx], s) ==>
              && Reach(Internal(cnt, ch), [pn] + s) == Reach(ch[pn.childIdx], s)
              && Offset(Internal(cnt, ch), [pn] + s) == SumCounts(ch[..pn.childIdx]) + Offset(ch[pn.childIdx], s)
    decreases |s|
  {
    if |s| == 0 {
      assert ([pn] + s)[..0] == [];
    } else {
      var s0 := s[..|s| - 1];
      WalkCons(cnt, ch, pn, s0);
      assert ([pn] + s)[..|s|] == [pn] + s0;
    }
  }

  /** A complete path of child `c`, behind a step into `c`, is a complete
      path of the parent, designating the position shifted by the counts of
      the children before `c`; and the same leaf slot. */
  lemma PathCons<T>(cnt: int, ch: seq<Node<T>>, pn: PathNode, t: seq<PathNode>)
    requires 0 <= pn.childIdx < |ch|
    ensures PathOk(Internal(cnt, ch), [pn] + t) <==> PathOk(ch[pn.childIdx], t)
    ensures PathOk(ch[pn.childIdx], t) ==>
              && PathPos(Internal(cnt, ch), [pn] + t) == SumCounts(ch[..pn.childIdx]) + PathPos(ch[pn.childIdx], t)
              && LeafOf(Internal(cnt, ch), [pn] + t) == LeafOf(ch[pn.childIdx], t)
              && SlotOf([pn] + t) == SlotOf(t)
  {
    if |t| > 0 {
      WalkCons(cnt, ch, pn, t[..|t| - 1]);
      assert ([pn] + t)[..|t|] == [pn] + t[..|t| - 1];
    } else {
      assert [pn] + t == [pn];
      assert [pn][..0] == [];
    }
  }

  /** Every node a path reaches below the root keeps the invariant of a
      non-root node, at the height that matches its depth. */
  lemma {:induction false} ReachShape<T>(n: Node<T>, s: seq<PathNode>, h: int, cfg: Config, lo: int)
    requires ValidConfig(cfg) && Shape(n, h, cfg, lo)
    requires Walkable(n, s)
    ensures |s| == 0 ==> Reach(n, s) == n
    ensures |s| > 0 ==> NonRoot(Reach(n, s), h - |s|, cfg)
    ensures Shape(Reach(n, s), h - |s|, cfg, 0)
    decreases |s|
  {
    if |s| > 0 {
      ReachShape(n, s[..|s| - 1], h, cfg, lo);
    }
  }

  /** One step down: the child starts no further left than its parent and
      ends no further right. */
  lemma StepBound<T>(n: Node<T>, s: seq<PathNode>, h: int, cfg: Config, lo: int)
    requires ValidConfig(cfg) && Shape(n, h, cfg, lo)
    requires Walkable(n, s) && |s| > 0
    ensures Walkable(n, s[..|s| - 1])
    ensures Offset(n, s[..|s| - 1]) <= Offset(n, s)
    ensures Offset(n, s) + Reach(n, s).count
         <= Offset(n, s[..|s| - 1]) + Reach(n, s[..|s| - 1]).count
  {
    WalkablePrefix(n, s, |s| - 1);
    ReachCounted(n, s[..|s| - 1], h, cfg, lo);
    StepWithin(n, s);
  }

  /** Every node a walk reaches has sound, non-negative counts. */
  lemma ReachCounted<T>(n: Node<T>, p: seq<PathNode>, h: int, cfg: Config, lo: int)
    requires ValidConfig(cfg) && Shape(n, h, cfg, lo)
    requires Walkable(n, p)
    ensures CountsOk(Reach(n, p))
    ensures Reach(n, p).Internal? ==> NonNegCounts(Reach(n, p).children)
  {
    ReachShape(n, p, h, cfg, lo);
    ShapeCount(Reach(n, p), h - |p|, cfg, 0);
  }

  /** The counting part of `StepBound`: it needs only that the node the
      last step leaves has sound, non-negative counts. */
  lemma StepWithin<T>(n: Node<T>, s: seq<PathNode>)
    requires Walkable(n, s) && |s| > 0
    requires CountsOk(Reach(n, s[..|s| - 1]))
    requires NonNegCounts(Reach(n, s[..|s| - 1]).children)
    ensures Walkable(n, s[..|s| - 1])
    ensures Offset(n, s[..|s| - 1]) <= Offset(n, s)
    ensures Offset(n, s) + Reach(n, s).count
         <= Offset(n, s[..|s| - 1]) + Reach(n, s[..|s| - 1]).count
  {
    var p := s[..|s| - 1];
    var ch := Reach(n, p).children;
    var c := s[|s| - 1].childIdx;
    SumAround(ch, c);
    SumCountsBounds(ch[..c]);
    SumCountsBounds(ch[c + 1..]);
  }

  /** The subtree a path reaches covers a range of positions inside the
      range covered by any node above it on the path. */
  lemma {:induction false} ReachBound<T>(n: Node<T>, s: seq<PathNode>, j: int, h: int, cfg: Config, lo: int)
    requires ValidConfig(cfg) && Shape(n, h, cfg, lo)
    requires Walkable(n, s) && 0 <= j <= |s|
    ensures Walkable(n, s[..j])
    ensures 0 <= Offset(n, s[..j]) <= Offset(n, s)
    ensures Offset(n, s) + Reach(n, s).count <= Offset(n, s[..j]) + Reach(n, s[..j]).count
    decreases |s|, j
  {
    WalkablePrefix(n, s, j);
    if j == |s| {
      assert s[..j] == s;
      if j > 0 {
        ReachBound(n, s, 0, h, cfg, lo);
      }
      assert s[..0] == [];
    } else {
      StepBound(n, s, h, cfg, lo);
      ReachBound(n, s[..|s| - 1], j, h, cfg, lo);
      assert s[..|s| - 1][..j] == s[..j];
    }
  }

  /** The elements of the subtree a path reaches are the slice of all
      elements that starts at the path's offset. */
  lemma {:induction false} ReachElements<T>(n: Node<T>, s: seq<PathNode>, h: int, cfg: Config, lo: int)
    requires ValidConfig(cfg) && Shape(n, h, cfg, lo)
    requires Walkable(n, s)
    ensures && 0 <= Offset(n, s) && 0 <= Reach(n, s).count
            && Offset(n, s) + Reach(n, s).count <= |Elements(n)|
            && Elements(Reach(n, s)) == Elements(n)[Offset(n, s)..Offset(n, s) + Reach(n, s).count]
    decreases |s|
  {
    ShapeCount(n, h, cfg, lo);
    if |s| > 0 {
      var p := s[..|s| - 1];
      ReachElements(n, p, h, cfg, lo);
      ReachShape(n, p, h, cfg, lo);
      var node := Reach(n, p);
      var c := s[|s| - 1].childIdx;
      var ch := node.children;
      var o := Offset(n, p);
      ShapeCount(node, h - |p|, cfg, 0);
      ChildSlice(ch, c, h - |p| - 1, cfg);
      var P := SumCounts(ch[..c]);
      assert Offset(n, s) == o + P;
      assert Reach(n, s) == ch[c];
      assert Elements(node) == Elements(n)[o..o + node.count];
      Subslice(Elements(n), o, o + node.count, P, P + ch[c].count);
    }
  }

  /** Inside a well-formed run of siblings, sibling `c`'s elements start
      after the counts of the siblings before it. */
  lemma ChildSlice<T>(ch: seq<Node<T>>, c: int, h: int, cfg: Config)
    requires ValidConfig(cfg) && AllNonRoot(ch, h, cfg) && 0 <= c < |ch|
    ensures 0 <= SumCounts(ch[..c]) && SumCounts(ch[..c]) + ch[c].count <= |Concat(ch)|
    ensures ch[c].count == |Elements(ch[c])|
    ensures Elements(ch[c]) == Concat(ch)[SumCounts(ch[..c])..SumCounts(ch[..c]) + ch[c].count]
  {
    ConcatAround(ch, c);
    assert AllNonRoot(ch[..c], h, cfg);
    RunCount(ch[..c], h, cfg);
    RunCount(ch, h, cfg);
    assert ch[c] in ch;
    ShapeCount(ch[c], h, cfg, HalfBlockSize(ch[c], cfg));
  }

  /** The value a complete path designates is the element at its position. */
  lemma ElementAtPath<T>(n: Node<T>, s: seq<PathNode>, h: int, cfg: Config, lo: int)
    requires ValidConfig(cfg) && Shape(n, h, cfg, lo)
    requires PathOk(n, s) && SlotOf(s) < CSize(LeafOf(n, s))
    ensures 0 <= PathPos(n, s) < |Elements(n)|
    ensures Elements(n)[PathPos(n, s)] == LeafOf(n, s).values[SlotOf(s)]
  {
    var p := s[..|s| - 1];
    ReachElements(n, p, h, cfg, lo);
    ReachShape(n, p, h, cfg, lo);
    ShapeCount(Reach(n, p), h - |p|, cfg, 0);
  }

  /** Paths that record the same child indices lead to the same node over
      the same offset; the remaining positions they record do not matter. */
  lemma {:induction false} SameSteps<T>(n: Node<T>, a: seq<PathNode>, b: seq<PathNode>)
    requires |a| == |b| && forall e | 0 <= e < |a| :: a[e].childIdx == b[e].childIdx
    ensures Walkable(n, a) == Walkable(n, b)
    ensures Walkable(n, a) ==> Reach(n, a) == Reach(n, b) && Offset(n, a) == Offset(n, b)
    decreases |a|
  {
    if |a| > 0 {
      SameSteps(n, a[..|a| - 1], b[..|b| - 1]);
    }
  }

  /** Below a node on a complete path, the path's position lies in the part
      of the sequence that the chosen child covers (for the end position,
      at the end of the last child). */
  lemma ChildCovers<T>(n: Node<T>, s: seq<PathNode>, d: int, pos: int, h: int, cfg: Config, lo: int)
    requires ValidConfig(cfg) && Shape(n, h, cfg, lo)
    requires Resolves(n, s, pos) && 0 <= d < |s| - 1
    ensures Walkable(n, s[..d + 1]) && Walkable(n, s[..d]) && Reach(n, s[..d]).Internal?
    ensures Located(Reach(n, s[..d]).children, pos - Offset(n, s[..d]),
                    PathNode(s[d].childIdx, pos - Offset(n, s[..d + 1])))
  {
    var t := s[..|s| - 1];
    var u := s[..d + 1];
    assert Walkable(n, u) && Offset(n, u) <= Offset(n, t)
        && Offset(n, t) + Reach(n, t).count <= Offset(n, u) + Reach(n, u).count by {
      ReachBound(n, t, d + 1, h, cfg, lo);
      assert t[..d + 1] == u;
    }
    assert u[..d] == s[..d];
    var node := Reach(n, s[..d]);
    var ch := node.children;
    var c := s[d].childIdx;
    var o := Offset(n, s[..d]);
    assert o + node.count <= n.count by {
      ReachBound(n, s[..d], 0, h, cfg, lo);
      assert s[..d][..0] == [];
    }
    assert node.count == SumCounts(ch) && PositiveCounts(ch) by {
      ReachShape(n, s[..d], h, cfg, lo);
      ShapeCount(node, h - d, cfg, 0);
    }
    ReachCounted(n, t, h, cfg, lo);
    LocatedBy(ch, pos - o, c, pos - Offset(n, u));
  }

  /** The counting argument behind `ChildCovers`: a child index and a
      remaining position inside (or, at the end of the run, just past) that
      child locate the position they add up to. */
  lemma LocatedBy<T>(ch: seq<Node<T>>, q: int, c: int, r: int)
    requires PositiveCounts(ch) && 0 <= c < |ch| && 0 <= r <= ch[c].count
    requires SumCounts(ch[..c]) + r == q
    requires r < ch[c].count || q >= SumCounts(ch)
    ensures Located(ch, q, PathNode(c, r))
  {
    PrefixStep(ch, c);
    PrefixMono(ch, c + 1, |ch|);
    assert ch[..|ch|] == ch;
  }

  /** A cached resolution and a fresh one of the same position choose the
      same child at every level, hence the same leaf and slot. */
  lemma SlotUnique<T>(n: Node<T>, s1: seq<PathNode>, s2: seq<PathNode>, pos: int, h: int, cfg: Config, lo: int)
    requires ValidConfig(cfg) && Shape(n, h, cfg, lo)
    requires Resolves(n, s1, pos) && Resolves(n, s2, pos)
    ensures |s1| == |s2|
    ensures forall e | 0 <= e < |s1| :: s1[e].childIdx == s2[e].childIdx
  {
    SlotUniqueFrom(n, s1, s2, pos, 0, h, cfg, lo);
  }

  lemma {:induction false} SlotUniqueFrom<T>(n: Node<T>, s1: seq<PathNode>, s2: seq<PathNode>, pos: int, d: int,
                                             h: int, cfg: Config, lo: int)
    requires ValidConfig(cfg) && Shape(n, h, cfg, lo)
    requires Resolves(n, s1, pos) && Resolves(n, s2, pos)
    requires 0 <= d < |s1| && d < |s2|
    requires forall e | 0 <= e < d :: s1[e].childIdx == s2[e].childIdx
    ensures |s1| == |s2|
    ensures forall e | 0 <= e < |s1| :: s1[e].childIdx == s2[e].childIdx
    decreases |s1| - d
  {
    DepthOnPath(n, s1, d);
    DepthOnPath(n, s2, d);
    SameSteps(n, s1[..d], s2[..d]);
    if d < |s1| - 1 && d < |s2| - 1 {
      SameChild(n, s1, s2, pos, d, h, cfg, lo);
      SlotUniqueFrom(n, s1, s2, pos, d + 1, h, cfg, lo);
    } else {
      assert d == |s1| - 1 == |s2| - 1;
      SameLeafSlot(n, s1, s2);
    }
  }

  /** Where two resolutions of one position pass through the same node, they
      choose the same child of it. */
  lemma SameChild<T>(n: Node<T>, s1: seq<PathNode>, s2: seq<PathNode>, pos: int, d: int,
                     h: int, cfg: Config, lo: int)
    requires ValidConfig(cfg) && Shape(n, h, cfg, lo)
    requires Resolves(n, s1, pos) && Resolves(n, s2, pos)
    requires 0 <= d < |s1| - 1 && d < |s2| - 1
    requires Walkable(n, s1[..d]) && Walkable(n, s2[..d])
    requires Reach(n, s1[..d]) == Reach(n, s2[..d]) && Offset(n, s1[..d]) == Offset(n, s2[..d])
    ensures s1[d].childIdx == s2[d].childIdx
  {
    ChildCovers(n, s1, d, pos, h, cfg, lo);
    ChildCovers(n, s2, d, pos, h, cfg, lo);
    var node := Reach(n, s1[..d]);
    var q := pos - Offset(n, s1[..d]);
    ReachShape(n, s1[..d], h, cfg, lo);
    ShapeCount(node, h - d, cfg, 0);
    if q < SumCounts(node.children) {
      LocateUnique(node.children, q,
                   PathNode(s1[d].childIdx, pos - Offset(n, s1[..d + 1])),
                   PathNode(s2[d].childIdx, pos - Offset(n, s2[..d + 1])));
    }
  }

  lemma SameLeafSlot<T>(n: Node<T>, s1: seq<PathNode>, s2: seq<PathNode>)
    requires PathOk(n, s1) && PathOk(n, s2) && PathPos(n, s1) == PathPos(n, s2)
    requires |s1| == |s2| && forall e | 0 <= e < |s1| - 1 :: s1[e].childIdx == s2[e].childIdx
    ensures forall e | 0 <= e < |s1| :: s1[e].childIdx == s2[e].childIdx
  {
    SameSteps(n, s1[..|s1| - 1], s2[..|s2| - 1]);
  }

  /** A node reached on a complete path is internal above the last step and
      is the path's leaf at the last step. */
  lemma DepthOnPath<T>(n: Node<T>, s: seq<PathNode>, d: int)
    requires PathOk(n, s) && 0 <= d < |s|
    ensures Walkable(n, s[..d])
    ensures d < |s| - 1 <==> Reach(n, s[..d]).Internal?
    ensures d == |s| - 1 ==> Reach(n, s[..d]) == LeafOf(n, s)
  {
    var k := |s| - 1;
    WalkablePrefix(n, s[..k], d);
    assert s[..k][..d] == s[..d];
    if d < k {
      WalkablePrefix(n, s[..k], d + 1);
      assert s[..k][..d + 1] == s[..d + 1];
      assert s[..d + 1][..d] == s[..d];
    }
  }

  /** Moving a complete path's slot within its leaf: the path still
      reaches the same leaf, and designates a position shifted by as much. */
  lemma ShiftSlot<T>(n: Node<T>, s: seq<PathNode>, k: int)
    requires PathOk(n, s) && 0 <= k <= |LeafOf(n, s).values|
    ensures var s' := s[|s| - 1 := PathNode(k, s[|s| - 1].countedPos)];
            && PathOk(n, s') && LeafOf(n, s') == LeafOf(n, s) && SlotOf(s') == k
            && PathPos(n, s') == PathPos(n, s) + (k - SlotOf(s))
  {
    var s' := s[|s| - 1 := PathNode(k, s[|s| - 1].countedPos)];
    assert s'[..|s| - 1] == s[..|s| - 1];
  }

  /** getPathNodes: a fresh descent from the root, one `FindChild` per
      level, recording one step per level. */
  method GetPathNodes<T>(root: Node<T>, pos: int, ghost h: int, cfg: Config) returns (steps: seq<PathNode>)
    requires ValidConfig(cfg) && Shape(root, h, cfg, RootLo(root))
    requires 0 <= pos <= root.count
    ensures Resolves(root, steps, pos)
    ensures steps[|steps| - 1].countedPos == SlotOf(steps)
  {
    var child := root;
    var p := pos;
    ghost var lo := RootLo(root);
    steps := [];
    while true
      invariant Walkable(root, steps) && Reach(root, steps) == child
      invariant Offset(root, steps) + p == pos
      invariant 0 <= p <= child.count
      invariant p == child.count ==> pos == root.count
      invariant lo == (if |steps| == 0 then RootLo(root) else HalfBlockSize(child, cfg))
      invariant Shape(child, h - |steps|, cfg, lo)
      decreases child
    {
      ShapeCount(child, h - |steps|, cfg, lo);
      var pn, next, ok := FindChild(child, p);
      if next.None? {
        assert (steps + [pn])[..|steps|] == steps;
        steps := steps + [pn];
        break;
      }
      WalkableSnoc(root, steps, pn);
      steps := steps + [pn];
      child := next.value;
      p := pn.countedPos;
      lo := HalfBlockSize(child, cfg);
    }
  }
}
