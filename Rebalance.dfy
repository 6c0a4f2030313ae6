/** Block-level restructuring of the tree: moving a run of entries from one
    block to another (`Move`), inserting into a block and splitting it when
    it is full (`SplitAndInsert`), and repairing a block left under half
    capacity by a deletion, by merging it with a sibling or borrowing from
    one (`MergeBlocksAfterDelete`).

    Nodes are values here: each operation returns the rebuilt nodes, and the
    caller puts them back into the parent and counts the structural
    modifications. */
module Rebalance {
  import opened Common
  import opened Nodes
  import opened BlockSpec

  /** move: the entries [from, from + cnt) of `src` are inserted into `dst`
      at index `to`, and the count they carry passes from `src` to `dst`.
      (Summing the children's counts is a loop over the moved run.) */
  method Move<T>(src: Node<T>, from: int, dst: Node<T>, to: int, cnt: int, ghost h: int, cfg: Config)
    returns (src': Node<T>, dst': Node<T>)
    requires ValidConfig(cfg)
    requires src.Leaf? == dst.Leaf?
    requires 0 <= from && 0 <= cnt && from + cnt <= CSize(src)
    requires 0 <= to <= CSize(dst)
    ensures MovedEntries(src, from, dst, to, cnt, src', dst')
    ensures dst'.count == dst.count + Carried(src, from, cnt)
    ensures src'.count == src.count - Carried(src, from, cnt)
    ensures CountsOk(src) ==> CountsOk(src')
    ensures CountsOk(dst) ==> CountsOk(dst')
    ensures Block(src, h, cfg) && Block(dst, h, cfg) ==> Block(src', h, cfg) && Block(dst', h, cfg)
  {
    var moveCount := 0;
    match src
    case Leaf(sc, vs) =>
      var dv := Splice(dst.values, to, vs[from..from + cnt]);
      moveCount := moveCount + cnt;
      dst' := Leaf(dst.count + moveCount, dv);
      src' := Leaf(sc - moveCount, RemoveRange(vs, from, cnt));
    case Internal(sc, ch) =>
      var dc := Splice(dst.children, to, ch[from..from + cnt]);
      var i := from;
      while i < from + cnt
        invariant from <= i <= from + cnt
        invariant moveCount == SumCounts(ch[from..i])
      {
        assert ch[from..i + 1][..i - from] == ch[from..i];
        moveCount := moveCount + ch[i].count;
        i := i + 1;
      }
      dst' := Internal(dst.count + moveCount, dc);
      src' := Internal(sc - moveCount, RemoveRange(ch, from, cnt));
      MoveChildren(src, from, dst, to, cnt, src', dst', h, cfg);
  }

  /** The effect of `Move` on the counts and shape of two internal nodes,
      from the effect on their children. */
  lemma MoveChildren<T>(src: Node<T>, from: int, dst: Node<T>, to: int, cnt: int,
                        src': Node<T>, dst': Node<T>, h: int, cfg: Config)
    requires ValidConfig(cfg)
    requires src.Internal? && dst.Internal? && src'.Internal? && dst'.Internal?
    requires 0 <= from && 0 <= cnt && from + cnt <= CSize(src)
    requires 0 <= to <= CSize(dst)
    requires src'.children == RemoveRange(src.children, from, cnt)
    requires dst'.children == Splice(dst.children, to, src.children[from..from + cnt])
    requires dst'.count == dst.count + SumCounts(src.children[from..from + cnt])
    requires src'.count == src.count - SumCounts(src.children[from..from + cnt])
    ensures CountsOk(src) ==> CountsOk(src')
    ensures CountsOk(dst) ==> CountsOk(dst')
    ensures Block(src, h, cfg) && Block(dst, h, cfg) ==> Block(src', h, cfg) && Block(dst', h, cfg)
  {
    var ch, dc := src.children, dst.children;
    SpliceChildren(dc, to, ch[from..from + cnt]);
    RemoveChildren(ch, from, cnt);
    if Block(src, h, cfg) && Block(dst, h, cfg) {
      forall c | c in dst'.children ensures NonRoot(c, h - 1, cfg) {
        assert c in dc || c in ch;
      }
      forall c | c in src'.children ensures NonRoot(c, h - 1, cfg) {
        assert c in ch;
      }
    }
  }

  /** What a move does to the elements: the elements of the moved run leave
      `src` and appear in `dst` at the place of index `to`, in order. */
  lemma MoveElements<T>(src: Node<T>, from: int, dst: Node<T>, to: int, cnt: int,
                        src': Node<T>, dst': Node<T>)
    requires 0 <= from && 0 <= cnt && from + cnt <= CSize(src)
    requires 0 <= to <= CSize(dst)
    requires MovedEntries(src, from, dst, to, cnt, src', dst')
    ensures Elements(src) == Run(src, 0, from) + Run(src, from, from + cnt) + Run(src, from + cnt, CSize(src))
    ensures Elements(src') == Run(src, 0, from) + Run(src, from + cnt, CSize(src))
    ensures Elements(dst) == Run(dst, 0, to) + Run(dst, to, CSize(dst))
    ensures Elements(dst') == Run(dst, 0, to) + Run(src, from, from + cnt) + Run(dst, to, CSize(dst))
  {
    if src.Leaf? {
      var vs := src.values;
      assert vs == vs[..from] + vs[from..from + cnt] + vs[from + cnt..];
      assert dst.values == dst.values[..to] + dst.values[to..];
    } else {
      var ch, dc := src.children, dst.children;
      SpliceChildren(dc, to, ch[from..from + cnt]);
      RemoveChildren(ch, from, cnt);
      SplitRun(dc, to);
      assert ch[0..from] == ch[..from];
      assert ch[from + cnt..|ch|] == ch[from + cnt..];
      assert dc[0..to] == dc[..to];
      assert dc[to..|dc|] == dc[to..];
    }
  }

  /** The block grown by `SplitAdd` still fits its height. */
  lemma SplitAddBlock<T>(node: Node<T>, pos: int, moveUp: Option<Node<T>>, e: T, h: int, cfg: Config)
    requires ValidConfig(cfg) && Block(node, h, cfg)
    requires 0 <= pos <= CSize(node)
    requires node.Internal? ==> moveUp.Some? && NonRoot(moveUp.value, h - 1, cfg)
    ensures Block(SplitAdd(node, pos, moveUp, e), h, cfg)
  {
    if node.Internal? {
      var r := SplitAdd(node, pos, moveUp, e);
      forall c | c in r.children ensures NonRoot(c, h - 1, cfg) {
        assert c in node.children || c == moveUp.value;
      }
    }
  }

  /** splitAndInsert: a block with room takes the pending entry at
      `InsertPos`. A full block is split: its upper half moves to a new
      node of the same kind, and the pending entry goes into whichever half
      holds its index, its count moving with it. Either way the two halves
      hold, in order, exactly the elements of the block with the entry
      inserted, and each half is at least half full. */
  method SplitAndInsert<T>(moveUp: Option<Node<T>>, node: Node<T>, childIdx: int, e: T, ghost h: int, cfg: Config)
    returns (node': Node<T>, newNode: Option<Node<T>>)
    requires ValidConfig(cfg) && Block(node, h, cfg)
    requires CSize(node) <= MaxBlockSize(node, cfg)
    requires 0 <= InsertPos(node, childIdx) <= CSize(node)
    requires node.Internal? ==> moveUp.Some? && NonRoot(moveUp.value, h - 1, cfg)
    requires Pending(node, moveUp)
    ensures node'.Leaf? == node.Leaf? && Block(node', h, cfg) && CountsOk(node')
    ensures newNode.None? <==> CSize(node) < MaxBlockSize(node, cfg)
    ensures newNode.None? ==>
              && CSize(node') == CSize(node) + 1
              && node'.count == node.count
              && Elements(node') == Elements(SplitAdd(node, InsertPos(node, childIdx), moveUp, e))
    ensures newNode.Some? ==>
              && newNode.value.Leaf? == node.Leaf?
              && Block(newNode.value, h, cfg) && CountsOk(newNode.value)
              && HalfBlockSize(node, cfg) <= CSize(node') <= MaxBlockSize(node, cfg)
              && HalfBlockSize(node, cfg) <= CSize(newNode.value) <= MaxBlockSize(node, cfg)
              && node'.count + newNode.value.count == node.count
              && Elements(node') + Elements(newNode.value)
                 == Elements(SplitAdd(node, InsertPos(node, childIdx), moveUp, e))
    ensures newNode.None? ==> node' == SplitAdd(node, InsertPos(node, childIdx), moveUp, e)
    ensures newNode.Some? ==>
              && EntriesSplit(node, InsertPos(node, childIdx), moveUp, e, node', newNode.value)
              && CSize(node') == HalfBlockSize(node, cfg)
                                 + (if InsertPos(node, childIdx) < HalfBlockSize(node, cfg) then 1 else 0)
  {
    var MAXSIZE := MaxBlockSize(node, cfg);
    var pos := InsertPos(node, childIdx);
    if CSize(node) < MAXSIZE {
      node' := SplitAdd(node, pos, moveUp, e);
      newNode := None;
      SplitAddBlock(node, pos, moveUp, e, h, cfg);
      SplitAddElements(node, pos, moveUp, e);
      return;
    }
    node', newNode := SplitFull(moveUp, node, pos, e, h, cfg);
    SplitFacts(node, pos, moveUp, e, h, cfg);
    SplitPairEntries(node, pos, moveUp, e, cfg);
    assert SplitOk(node, pos, moveUp, e, cfg, node', newNode.value);
  }

  /** The two nodes of a split hold, in order, the block's entries with the
      pending entry inserted; the first keeps the lower half, plus the
      pending entry when its index falls there. */
  lemma SplitPairEntries<T>(node: Node<T>, pos: int, moveUp: Option<Node<T>>, e: T, cfg: Config)
    requires ValidConfig(cfg) && HalfBlockSize(node, cfg) < CSize(node)
    requires 0 <= pos <= CSize(node)
    requires node.Internal? ==> moveUp.Some?
    ensures EntriesSplit(node, pos, moveUp, e, SplitPair(node, pos, moveUp, e, cfg).0, SplitPair(node, pos, moveUp, e, cfg).1)
    ensures CSize(SplitPair(node, pos, moveUp, e, cfg).0)
            == HalfBlockSize(node, cfg) + (if pos < HalfBlockSize(node, cfg) then 1 else 0)
  {
    var half := HalfBlockSize(node, cfg);
    match node
    case Leaf(_, vs) =>
      InsertAcrossCut(vs, half, pos, e);
    case Internal(_, ch) =>
      InsertAcrossCut(ch, half, pos, moveUp.value);
  }

  /** The split branch of splitAndInsert, for a block that is full. */
  method SplitFull<T>(moveUp: Option<Node<T>>, node: Node<T>, pos: int, e: T, ghost h: int, cfg: Config)
    returns (node': Node<T>, newNode: Option<Node<T>>)
    requires ValidConfig(cfg)
    requires CSize(node) == MaxBlockSize(node, cfg)
    requires 0 <= pos <= CSize(node)
    requires node.Internal? ==> moveUp.Some?
    ensures newNode.Some?
    ensures node' == SplitPair(node, pos, moveUp, e, cfg).0
    ensures newNode.value == SplitPair(node, pos, moveUp, e, cfg).1
  {
    var HALFSIZE := HalfBlockSize(node, cfg);
    var n1, n2 := MoveUpperHalf(node, HALFSIZE, h, cfg);
    if pos < HALFSIZE {
      n1 := SplitAdd(n1, pos, moveUp, e);
    } else {
      var moveCount := PendingCount(node, moveUp);
      var added := SplitAdd(n2, pos - HALFSIZE, moveUp, e);
      n2 := Recounted(added, added.count + moveCount);
      n1 := Recounted(n1, n1.count - moveCount);
    }
    node', newNode := n1, Some(n2);
  }

  /** The first step of a split: a new, empty sibling of the block's kind
      receives the entries of the block from `half` on. */
  method MoveUpperHalf<T>(node: Node<T>, half: int, ghost h: int, cfg: Config) returns (n1: Node<T>, n2: Node<T>)
    requires ValidConfig(cfg) && 0 <= half <= CSize(node)
    ensures n1 == LowerPart(node, half) && n2 == UpperPart(node, half)
  {
    var sibling: Node<T> := if node.Leaf? then Leaf(0, []) else Internal(0, []);
    n1, n2 := Move(node, half, sibling, 0, CSize(node) - half, h, cfg);
    MovedHalves(node, half, sibling, n1, n2);
  }

  /** What a move of the upper entries of a block into an empty sibling
      leaves in each of them. */
  lemma MovedHalves<T>(node: Node<T>, half: int, sibling: Node<T>, m1: Node<T>, m2: Node<T>)
    requires 0 <= half <= CSize(node)
    requires sibling == if node.Leaf? then Leaf(0, []) else Internal(0, [])
    requires MovedEntries(node, half, sibling, 0, CSize(node) - half, m1, m2)
    requires m2.count == sibling.count + Carried(node, half, CSize(node) - half)
    requires m1.count == node.count - Carried(node, half, CSize(node) - half)
    ensures m1 == LowerPart(node, half) && m2 == UpperPart(node, half)
  {
    match node
    case Leaf(c, vs) =>
      assert vs[half..half + (|vs| - half)] == vs[half..];
    case Internal(c, ch) =>
      assert ch[half..half + (|ch| - half)] == ch[half..];
  }

  /** `n` with its count set to `c` fits where `n` does. */
  lemma RecountedBlock<T>(n: Node<T>, c: int, h: int, cfg: Config)
    requires ValidConfig(cfg)
    ensures Block(Recounted(n, c), h, cfg) == Block(n, h, cfg)
  {
  }

  /** Both parts of a block cut anywhere fit where the block does. */
  lemma PartsBlock<T>(n: Node<T>, k: int, h: int, cfg: Config)
    requires ValidConfig(cfg) && Block(n, h, cfg) && 0 <= k <= CSize(n)
    ensures Block(LowerPart(n, k), h, cfg) && Block(UpperPart(n, k), h, cfg)
  {
    if n.Internal? {
      forall c | c in n.children[..k] ensures NonRoot(c, h - 1, cfg) {
        assert c in n.children;
      }
      forall c | c in n.children[k..] ensures NonRoot(c, h - 1, cfg) {
        assert c in n.children;
      }
    }
  }

  /** The two nodes a full block splits into fit its level, are each at
      least half full, carry its count between them and hold, in order, the
      elements of the block with the pending entry inserted. */
  lemma SplitFacts<T>(node: Node<T>, pos: int, moveUp: Option<Node<T>>, e: T, h: int, cfg: Config)
    requires ValidConfig(cfg) && Block(node, h, cfg)
    requires CSize(node) == MaxBlockSize(node, cfg)
    requires 0 <= pos <= CSize(node)
    requires node.Internal? ==> moveUp.Some? && NonRoot(moveUp.value, h - 1, cfg)
    requires Pending(node, moveUp)
    ensures SplitDone(node, pos, moveUp, e, h, cfg,
                      SplitPair(node, pos, moveUp, e, cfg).0, SplitPair(node, pos, moveUp, e, cfg).1)
  {
    SplitBlocks(node, pos, moveUp, e, h, cfg);
    var half := HalfBlockSize(node, cfg);
    match node
    case Leaf(c, vs) =>
      SplitLeaf(c, vs, pos, e, half, cfg, moveUp);
    case Internal(c, ch) =>
      if pos < half {
        SplitInternalLow(c, ch, pos, moveUp, e, half, cfg);
      } else {
        SplitInternalHigh(c, ch, pos, moveUp, e, half, cfg);
      }
  }

  /** Both nodes a full block splits into fit its level. */
  lemma SplitBlocks<T>(node: Node<T>, pos: int, moveUp: Option<Node<T>>, e: T, h: int, cfg: Config)
    requires ValidConfig(cfg) && Block(node, h, cfg)
    requires CSize(node) == MaxBlockSize(node, cfg)
    requires 0 <= pos <= CSize(node)
    requires node.Internal? ==> moveUp.Some? && NonRoot(moveUp.value, h - 1, cfg)
    ensures Block(SplitPair(node, pos, moveUp, e, cfg).0, h, cfg)
    ensures Block(SplitPair(node, pos, moveUp, e, cfg).1, h, cfg)
  {
    var half := HalfBlockSize(node, cfg);
    var lo, hi := LowerPart(node, half), UpperPart(node, half);
    PartsBlock(node, half, h, cfg);
    if pos < half {
      SplitAddBlock(lo, pos, moveUp, e, h, cfg);
    } else {
      var added := SplitAdd(hi, pos - half, moveUp, e);
      SplitAddBlock(hi, pos - half, moveUp, e, h, cfg);
      RecountedBlock(lo, lo.count - PendingCount(node, moveUp), h, cfg);
      RecountedBlock(added, added.count + PendingCount(node, moveUp), h, cfg);
    }
  }

  /** Splitting a full leaf at `half`, with the new value at `pos`. */
  lemma SplitLeaf<T>(c: int, vs: seq<T>, pos: int, e: T, half: int, cfg: Config, moveUp: Option<Node<T>>)
    requires ValidConfig(cfg)
    requires |vs| == cfg.maxLeaf() && half == cfg.halfLeaf
    requires 0 <= pos <= |vs| && c == |vs| + 1
    ensures SplitOk(Leaf(c, vs), pos, moveUp, e, cfg,
                    SplitPair(Leaf(c, vs), pos, moveUp, e, cfg).0, SplitPair(Leaf(c, vs), pos, moveUp, e, cfg).1)
  {
    if pos < half {
      assert SplitPair(Leaf(c, vs), pos, moveUp, e, cfg)
          == (Leaf(c - (|vs| - half), InsertAt(vs[..half], pos, e)), Leaf(|vs| - half, vs[half..]));
    } else {
      assert SplitPair(Leaf(c, vs), pos, moveUp, e, cfg)
          == (Leaf(c - (|vs| - half) - 1, vs[..half]), Leaf(|vs| - half + 1, InsertAt(vs[half..], pos - half, e)));
    }
    InsertAcrossCut(vs, half, pos, e);
  }

  /** Splitting a full internal node at `half`, with the new child at
      `pos` in the lower half. */
  lemma SplitInternalLow<T>(c: int, ch: seq<Node<T>>, pos: int, moveUp: Option<Node<T>>, e: T, half: int, cfg: Config)
    requires ValidConfig(cfg) && moveUp.Some?
    requires |ch| == cfg.maxNode() && half == cfg.halfNode
    requires 0 <= pos < half && c == SumCounts(ch) + moveUp.value.count
    ensures SplitOk(Internal(c, ch), pos, moveUp, e, cfg,
                    SplitPair(Internal(c, ch), pos, moveUp, e, cfg).0,
                    SplitPair(Internal(c, ch), pos, moveUp, e, cfg).1)
  {
    var x := moveUp.value;
    var n1, n2 := Internal(c - SumCounts(ch[half..]), InsertAt(ch[..half], pos, x)),
                  Internal(SumCounts(ch[half..]), ch[half..]);
    LowPair(c, ch, pos, moveUp, e, half, cfg);
    assert CountsOk(n1) && CountsOk(n2) by {
      CountsAt(ch, half);
      InsertedCount(ch[..half], pos, x);
    }
    assert Elements(n1) + Elements(n2) == Elements(SplitAdd(Internal(c, ch), pos, moveUp, e)) by {
      InsertChild(ch, pos, x);
      InsertLow(ch, pos, x, half);
    }
  }

  lemma LowPair<T>(c: int, ch: seq<Node<T>>, pos: int, moveUp: Option<Node<T>>, e: T, half: int, cfg: Config)
    requires ValidConfig(cfg) && moveUp.Some?
    requires |ch| == cfg.maxNode() && half == cfg.halfNode && 0 <= pos < half
    ensures SplitPair(Internal(c, ch), pos, moveUp, e, cfg).0
         == Internal(c - SumCounts(ch[half..]), InsertAt(ch[..half], pos, moveUp.value))
    ensures SplitPair(Internal(c, ch), pos, moveUp, e, cfg).1 == Internal(SumCounts(ch[half..]), ch[half..])
  {
  }

  /** Splitting a full internal node at `half`, with the new child at
      `pos` in the upper half. */
  lemma SplitInternalHigh<T>(c: int, ch: seq<Node<T>>, pos: int, moveUp: Option<Node<T>>, e: T, half: int, cfg: Config)
    requires ValidConfig(cfg) && moveUp.Some?
    requires |ch| == cfg.maxNode() && half == cfg.halfNode
    requires half <= pos <= |ch| && c == SumCounts(ch) + moveUp.value.count
    ensures SplitOk(Internal(c, ch), pos, moveUp, e, cfg,
                    SplitPair(Internal(c, ch), pos, moveUp, e, cfg).0,
                    SplitPair(Internal(c, ch), pos, moveUp, e, cfg).1)
  {
    var x := moveUp.value;
    var n1, n2 := Internal(c - SumCounts(ch[half..]) - x.count, ch[..half]),
                  Internal(SumCounts(ch[half..]) + x.count, InsertAt(ch[half..], pos - half, x));
    HighPair(c, ch, pos, moveUp, e, half, cfg);
    assert CountsOk(n1) && CountsOk(n2) by {
      CountsAt(ch, half);
      InsertedCount(ch[half..], pos - half, x);
    }
    assert Elements(n1) + Elements(n2) == Elements(SplitAdd(Internal(c, ch), pos, moveUp, e)) by {
      InsertChild(ch, pos, x);
      InsertHigh(ch, pos, x, half);
    }
  }

  lemma HighPair<T>(c: int, ch: seq<Node<T>>, pos: int, moveUp: Option<Node<T>>, e: T, half: int, cfg: Config)
    requires ValidConfig(cfg) && moveUp.Some?
    requires |ch| == cfg.maxNode() && half == cfg.halfNode && half <= pos <= |ch|
    ensures SplitPair(Internal(c, ch), pos, moveUp, e, cfg).0
         == Internal(c - SumCounts(ch[half..]) - moveUp.value.count, ch[..half])
    ensures SplitPair(Internal(c, ch), pos, moveUp, e, cfg).1
         == Internal(SumCounts(ch[half..]) + moveUp.value.count, InsertAt(ch[half..], pos - half, moveUp.value))
  {
  }

  lemma CountsAt<T>(ns: seq<Node<T>>, i: int)
    requires 0 <= i <= |ns|
    ensures SumCounts(ns) == SumCounts(ns[..i]) + SumCounts(ns[i..])
  {
    SplitRun(ns, i);
  }

  lemma InsertedCount<T>(ns: seq<Node<T>>, i: int, x: Node<T>)
    requires 0 <= i <= |ns|
    ensures SumCounts(InsertAt(ns, i, x)) == SumCounts(ns) + x.count
  {
    InsertChild(ns, i, x);
  }

  lemma InsertLow<T>(ch: seq<Node<T>>, pos: int, x: Node<T>, half: int)
    requires 0 <= pos < half <= |ch|
    ensures Concat(InsertAt(ch[..half], pos, x)) + Concat(ch[half..]) == Concat(InsertAt(ch, pos, x))
  {
    InsertAcrossCut(ch, half, pos, x);
    ConcatAppend(InsertAt(ch[..half], pos, x), ch[half..]);
  }

  lemma InsertHigh<T>(ch: seq<Node<T>>, pos: int, x: Node<T>, half: int)
    requires 0 <= half <= pos <= |ch|
    ensures Concat(ch[..half]) + Concat(InsertAt(ch[half..], pos - half, x)) == Concat(InsertAt(ch, pos, x))
  {
    InsertAcrossCut(ch, half, pos, x);
    ConcatAppend(ch[..half], InsertAt(ch[half..], pos - half, x));
  }

  /** mergeBlocksAfterDelete: the child at `idx` of a parent whose children
      are `kids` has just lost one entry. If it is still at least half full
      nothing happens. Otherwise the first repair that applies is made:
      merge it into its left sibling, merge its right sibling into it,
      borrow entries from the right sibling, borrow entries from the left
      sibling (a borrow takes enough to reach half capacity, or half the
      sibling's surplus if that is more). The result reports whether a
      repair was made; with at least two children one always applies.
      The elements and counts of the run of children are unchanged, and
      afterwards every child is at least half full. */
  method MergeBlocksAfterDelete<T>(kids: seq<Node<T>>, idx: int, ghost h: int, cfg: Config)
    returns (kids': seq<Node<T>>, merged: bool)
    requires ValidConfig(cfg)
    requires 0 <= idx < |kids| && |kids| >= 2
    requires forall i | 0 <= i < |kids| && i != idx :: NonRoot(kids[i], h, cfg)
    requires Shape(kids[idx], h, cfg, HalfBlockSize(kids[idx], cfg) - 1)
    ensures merged <==> CSize(kids[idx]) < HalfBlockSize(kids[idx], cfg)
    ensures !merged ==> kids' == kids
    ensures |kids| - 1 <= |kids'| <= |kids|
    ensures RunKept(kids, kids', h, cfg)
    ensures merged ==>
      var half, max, size := HalfBlockSize(kids[idx], cfg), MaxBlockSize(kids[idx], cfg), CSize(kids[idx]);
      if idx > 0 && CSize(kids[idx - 1]) + size <= max then MergedLeft(kids, idx, kids')
      else if idx < |kids| - 1 && CSize(kids[idx + 1]) + size <= max then MergedRight(kids, idx, kids')
      else if idx < |kids| - 1 && CSize(kids[idx + 1]) > half then BorrowedRight(kids, idx, kids', cfg)
      else BorrowedLeft(kids, idx, kids', cfg)
  {
    var node := kids[idx];
    var HALFSIZE := HalfBlockSize(node, cfg);
    var size := CSize(node);
    if size >= HALFSIZE {
      forall c | c in kids ensures NonRoot(c, h, cfg) {
        var j :| 0 <= j < |kids| && kids[j] == c;
      }
      return kids, false;
    }
    var MAXSIZE := MaxBlockSize(node, cfg);
    merged := true;
    if idx > 0 && CSize(kids[idx - 1]) + size <= MAXSIZE {
      kids' := MergeLeft(kids, idx, h, cfg);
      return;
    }
    if idx < |kids| - 1 && CSize(kids[idx + 1]) + size <= MAXSIZE {
      kids' := MergeRight(kids, idx, h, cfg);
      return;
    }
    if idx < |kids| - 1 && CSize(kids[idx + 1]) > HALFSIZE {
      kids' := BorrowRight(kids, idx, h, cfg);
      return;
    }
    if idx > 0 && CSize(kids[idx - 1]) > HALFSIZE {
      kids' := BorrowLeft(kids, idx, h, cfg);
      return;
    }
    assert false;
    return kids, false;
  }

  /** Merge the underfull child into its left sibling (move with a parent). */
  method MergeLeft<T>(kids: seq<Node<T>>, idx: int, ghost h: int, cfg: Config)
    returns (kids': seq<Node<T>>)
    requires Underfull(kids, idx, h, cfg) && idx > 0
    requires CSize(kids[idx - 1]) + CSize(kids[idx]) <= MaxBlockSize(kids[idx], cfg)
    ensures MergedLeft(kids, idx, kids')
    ensures RunKept(kids, kids', h, cfg)
  {
    var node, left := kids[idx], kids[idx - 1];
    ShapeBlock(node, h, cfg, HalfBlockSize(node, cfg) - 1);
    SameHeightKind(left, node, h, cfg);
    var rest, left' := Move(node, 0, left, CSize(left), CSize(node), h, cfg);
    kids' := kids[..idx - 1] + [left'] + kids[idx + 1..];
    MergedNode(node, left, rest, left');
    SumCountsOne(left');
    ShapeBlock(left', h, cfg, HalfBlockSize(left', cfg));
    ReplacePair(kids, idx - 1, idx, [left'], h, cfg);
  }

  /** Merge the right sibling into the underfull child. */
  method MergeRight<T>(kids: seq<Node<T>>, idx: int, ghost h: int, cfg: Config)
    returns (kids': seq<Node<T>>)
    requires Underfull(kids, idx, h, cfg) && idx < |kids| - 1
    requires CSize(kids[idx + 1]) + CSize(kids[idx]) <= MaxBlockSize(kids[idx], cfg)
    ensures MergedRight(kids, idx, kids')
    ensures RunKept(kids, kids', h, cfg)
  {
    var node, right := kids[idx], kids[idx + 1];
    ShapeBlock(node, h, cfg, HalfBlockSize(node, cfg) - 1);
    SameHeightKind(right, node, h, cfg);
    var rest, node' := Move(right, 0, node, CSize(node), CSize(right), h, cfg);
    kids' := kids[..idx] + [node'] + kids[idx + 2..];
    MergedNode(right, node, rest, node');
    SumCountsOne(node');
    ShapeBlock(node', h, cfg, HalfBlockSize(node', cfg));
    ReplacePair(kids, idx, idx, [node'], h, cfg);
  }

  /** Move entries from the front of the right sibling to the end of the
      underfull child. */
  method BorrowRight<T>(kids: seq<Node<T>>, idx: int, ghost h: int, cfg: Config)
    returns (kids': seq<Node<T>>)
    requires Underfull(kids, idx, h, cfg) && idx < |kids| - 1
    requires CSize(kids[idx + 1]) + CSize(kids[idx]) > MaxBlockSize(kids[idx], cfg)
    requires CSize(kids[idx + 1]) > HalfBlockSize(kids[idx], cfg)
    ensures BorrowedRight(kids, idx, kids', cfg)
    ensures RunKept(kids, kids', h, cfg)
  {
    var node, right := kids[idx], kids[idx + 1];
    var HALFSIZE := HalfBlockSize(node, cfg);
    ShapeBlock(node, h, cfg, HALFSIZE - 1);
    SameHeightKind(right, node, h, cfg);
    var avgCount := BorrowCount(HALFSIZE, CSize(node), CSize(right));
    BorrowSizes(HALFSIZE, CSize(node), CSize(right), avgCount);
    var right', node' := TakeFromRight(right, node, avgCount, h, cfg);
    kids' := kids[..idx] + [node', right'] + kids[idx + 2..];
    RightBorrowed(kids, idx, node', right', kids', cfg);
    ReplacePair(kids, idx, idx, [node', right'], h, cfg);
  }

  /** The move of a borrow from the right: the first `cnt` entries of
      `right` go to the end of `node`, leaving both at least half full and
      the pair holding the same elements and counts. */
  method TakeFromRight<T>(right: Node<T>, node: Node<T>, cnt: int, ghost h: int, cfg: Config)
    returns (right': Node<T>, node': Node<T>)
    requires ValidConfig(cfg) && NonRoot(right, h, cfg) && CountsOk(node) && Block(node, h, cfg)
    requires right.Leaf? == node.Leaf? && 0 <= cnt <= CSize(right)
    requires HalfBlockSize(node, cfg) <= CSize(node) + cnt <= MaxBlockSize(node, cfg)
    requires HalfBlockSize(node, cfg) <= CSize(right) - cnt
    ensures AllNonRoot([node', right'], h, cfg)
    ensures Concat([node', right']) == Elements(node) + Elements(right)
    ensures SumCounts([node', right']) == node.count + right.count
    ensures Transferred(right, 0, node, CSize(node), cnt, right', node')
    ensures CSize(node') == CSize(node) + cnt && CSize(right') == CSize(right) - cnt
  {
    ShapeBlock(right, h, cfg, HalfBlockSize(right, cfg));
    right', node' := Move(right, 0, node, CSize(node), cnt, h, cfg);
    TakenFromRight(right, node, cnt, right', node', h, cfg);
  }

  /** The elements and sizes of the pair a borrow from the right leaves. */
  lemma RightPairElements<T>(right: Node<T>, node: Node<T>, cnt: int, right': Node<T>, node': Node<T>)
    requires 0 <= cnt <= CSize(right)
    requires MovedEntries(right, 0, node, CSize(node), cnt, right', node')
    ensures Concat([node', right']) == Elements(node) + Elements(right)
    ensures CSize(node') == CSize(node) + cnt && CSize(right') == CSize(right) - cnt
  {
    MovedSizes(right, 0, node, CSize(node), cnt, right', node');
    BorrowedFromRight(right, node, cnt, right', node');
    PairOf(node', right');
  }

  /** The pair a borrow from the right leaves, from the effect of the move. */
  lemma TakenFromRight<T>(right: Node<T>, node: Node<T>, cnt: int, right': Node<T>, node': Node<T>, h: int, cfg: Config)
    requires ValidConfig(cfg) && right.Leaf? == node.Leaf? && 0 <= cnt <= CSize(right)
    requires HalfBlockSize(node, cfg) <= CSize(node) + cnt <= MaxBlockSize(node, cfg)
    requires HalfBlockSize(node, cfg) <= CSize(right) - cnt <= MaxBlockSize(node, cfg)
    requires Transferred(right, 0, node, CSize(node), cnt, right', node')
    requires CountsOk(right') && CountsOk(node') && Block(right', h, cfg) && Block(node', h, cfg)
    ensures AllNonRoot([node', right'], h, cfg)
    ensures Concat([node', right']) == Elements(node) + Elements(right)
    ensures SumCounts([node', right']) == node.count + right.count
    ensures CSize(node') == CSize(node) + cnt && CSize(right') == CSize(right) - cnt
  {
    RightPairElements(right, node, cnt, right', node');
    PairOf(node', right');
    ShapeBlock(node', h, cfg, HalfBlockSize(node', cfg));
    ShapeBlock(right', h, cfg, HalfBlockSize(right', cfg));
    PairNonRoot(node', right', h, cfg);
  }

  /** Move entries from the end of the left sibling to the front of the
      underfull child. */
  method BorrowLeft<T>(kids: seq<Node<T>>, idx: int, ghost h: int, cfg: Config)
    returns (kids': seq<Node<T>>)
    requires Underfull(kids, idx, h, cfg) && idx > 0
    requires CSize(kids[idx - 1]) + CSize(kids[idx]) > MaxBlockSize(kids[idx], cfg)
    requires CSize(kids[idx - 1]) > HalfBlockSize(kids[idx], cfg)
    ensures BorrowedLeft(kids, idx, kids', cfg)
    ensures RunKept(kids, kids', h, cfg)
  {
    var node, left := kids[idx], kids[idx - 1];
    var HALFSIZE := HalfBlockSize(node, cfg);
    ShapeBlock(node, h, cfg, HALFSIZE - 1);
    SameHeightKind(left, node, h, cfg);
    var avgCount := BorrowCount(HALFSIZE, CSize(node), CSize(left));
    BorrowSizes(HALFSIZE, CSize(node), CSize(left), avgCount);
    var left', node' := TakeFromLeft(left, node, avgCount, h, cfg);
    kids' := kids[..idx - 1] + [left', node'] + kids[idx + 1..];
    LeftBorrowed(kids, idx, left', node', kids', cfg);
    ReplacePair(kids, idx - 1, idx, [left', node'], h, cfg);
  }

  /** The move of a borrow from the left: the last `cnt` entries of `left`
      go to the front of `node`, leaving both at least half full and the
      pair holding the same elements and counts. */
  method TakeFromLeft<T>(left: Node<T>, node: Node<T>, cnt: int, ghost h: int, cfg: Config)
    returns (left': Node<T>, node': Node<T>)
    requires ValidConfig(cfg) && NonRoot(left, h, cfg) && CountsOk(node) && Block(node, h, cfg)
    requires left.Leaf? == node.Leaf? && 0 <= cnt <= CSize(left)
    requires HalfBlockSize(node, cfg) <= CSize(node) + cnt <= MaxBlockSize(node, cfg)
    requires HalfBlockSize(node, cfg) <= CSize(left) - cnt
    ensures AllNonRoot([left', node'], h, cfg)
    ensures Concat([left', node']) == Elements(left) + Elements(node)
    ensures SumCounts([left', node']) == left.count + node.count
    ensures Transferred(left, CSize(left) - cnt, node, 0, cnt, left', node')
    ensures CSize(node') == CSize(node) + cnt && CSize(left') == CSize(left) - cnt
  {
    ShapeBlock(left, h, cfg, HalfBlockSize(left, cfg));
    left', node' := Move(left, CSize(left) - cnt, node, 0, cnt, h, cfg);
    TakenFromLeft(left, node, cnt, left', node', h, cfg);
  }

  /** The elements and sizes of the pair a borrow from the left leaves. */
  lemma LeftPairElements<T>(left: Node<T>, node: Node<T>, cnt: int, left': Node<T>, node': Node<T>)
    requires 0 <= cnt <= CSize(left)
    requires MovedEntries(left, CSize(left) - cnt, node, 0, cnt, left', node')
    ensures Concat([left', node']) == Elements(left) + Elements(node)
    ensures CSize(node') == CSize(node) + cnt && CSize(left') == CSize(left) - cnt
  {
    MovedSizes(left, CSize(left) - cnt, node, 0, cnt, left', node');
    BorrowedFromLeft(left, node, cnt, left', node');
    PairOf(left', node');
  }

  /** The pair a borrow from the left leaves, from the effect of the move. */
  lemma TakenFromLeft<T>(left: Node<T>, node: Node<T>, cnt: int, left': Node<T>, node': Node<T>, h: int, cfg: Config)
    requires ValidConfig(cfg) && left.Leaf? == node.Leaf? && 0 <= cnt <= CSize(left)
    requires HalfBlockSize(node, cfg) <= CSize(node) + cnt <= MaxBlockSize(node, cfg)
    requires HalfBlockSize(node, cfg) <= CSize(left) - cnt <= MaxBlockSize(node, cfg)
    requires Transferred(left, CSize(left) - cnt, node, 0, cnt, left', node')
    requires CountsOk(left') && CountsOk(node') && Block(left', h, cfg) && Block(node', h, cfg)
    ensures AllNonRoot([left', node'], h, cfg)
    ensures Concat([left', node']) == Elements(left) + Elements(node)
    ensures SumCounts([left', node']) == left.count + node.count
    ensures CSize(node') == CSize(node) + cnt && CSize(left') == CSize(left) - cnt
  {
    LeftPairElements(left, node, cnt, left', node');
    PairOf(left', node');
    ShapeBlock(node', h, cfg, HalfBlockSize(node', cfg));
    ShapeBlock(left', h, cfg, HalfBlockSize(left', cfg));
    PairNonRoot(left', node', h, cfg);
  }

  /** The pair a borrow from the right made, put back among the children. */
  lemma RightBorrowed<T>(kids: seq<Node<T>>, idx: int, node': Node<T>, right': Node<T>, kids': seq<Node<T>>, cfg: Config)
    requires ValidConfig(cfg) && 0 <= idx && idx + 1 < |kids|
    requires kids' == kids[..idx] + [node', right'] + kids[idx + 2..]
    requires var cnt := BorrowCount(HalfBlockSize(kids[idx], cfg), CSize(kids[idx]), CSize(kids[idx + 1]));
             && 0 <= cnt <= CSize(kids[idx + 1])
             && Transferred(kids[idx + 1], 0, kids[idx], CSize(kids[idx]), cnt, right', node')
    ensures BorrowedRight(kids, idx, kids', cfg)
  {
    PairPlaced(kids, idx, node', right', kids');
  }

  /** The pair a borrow from the left made, put back among the children. */
  lemma LeftBorrowed<T>(kids: seq<Node<T>>, idx: int, left': Node<T>, node': Node<T>, kids': seq<Node<T>>, cfg: Config)
    requires ValidConfig(cfg) && 0 < idx < |kids|
    requires kids' == kids[..idx - 1] + [left', node'] + kids[idx + 1..]
    requires var cnt := BorrowCount(HalfBlockSize(kids[idx], cfg), CSize(kids[idx]), CSize(kids[idx - 1]));
             && 0 <= cnt <= CSize(kids[idx - 1])
             && Transferred(kids[idx - 1], CSize(kids[idx - 1]) - cnt, kids[idx], 0, cnt, left', node')
    ensures BorrowedLeft(kids, idx, kids', cfg)
  {
    PairPlaced(kids, idx - 1, left', node', kids');
  }

  /** The neighbours at `i` and `i + 1` replaced by `a` and `b`: every
      other child keeps its place. */
  lemma PairPlaced<T>(kids: seq<Node<T>>, i: int, a: Node<T>, b: Node<T>, kids': seq<Node<T>>)
    requires 0 <= i && i + 2 <= |kids|
    requires kids' == kids[..i] + [a, b] + kids[i + 2..]
    ensures |kids'| == |kids| && kids'[i] == a && kids'[i + 1] == b
    ensures kids'[..i] == kids[..i] && kids'[i + 2..] == kids[i + 2..]
  {
    assert kids'[..i] == kids[..i];
    assert kids'[i + 2..] == kids[i + 2..];
  }

  /** Two well-formed nodes at the same height are of the same kind. */
  lemma SameHeightKind<T>(a: Node<T>, b: Node<T>, h: int, cfg: Config)
    requires ValidConfig(cfg)
    requires NonRoot(a, h, cfg) && Shape(b, h, cfg, HalfBlockSize(b, cfg) - 1)
    ensures a.Leaf? == b.Leaf?
    ensures HalfBlockSize(a, cfg) == HalfBlockSize(b, cfg)
    ensures MaxBlockSize(a, cfg) == MaxBlockSize(b, cfg)
  {
  }

  /** The two neighbours at `i` and `i + 1`, one of them the repaired child
      `idx`, replaced by the run `m` holding the same elements and counts,
      all at least half full. */
  lemma ReplacePair<T>(kids: seq<Node<T>>, i: int, idx: int, m: seq<Node<T>>, h: int, cfg: Config)
    requires ValidConfig(cfg)
    requires 0 <= i && i + 2 <= |kids| && i <= idx <= i + 1
    requires forall j | 0 <= j < |kids| && j != idx :: NonRoot(kids[j], h, cfg)
    requires AllNonRoot(m, h, cfg)
    requires Concat(m) == Elements(kids[i]) + Elements(kids[i + 1])
    requires SumCounts(m) == kids[i].count + kids[i + 1].count
    ensures AllNonRoot(kids[..i] + m + kids[i + 2..], h, cfg)
    ensures Concat(kids[..i] + m + kids[i + 2..]) == Concat(kids)
    ensures SumCounts(kids[..i] + m + kids[i + 2..]) == SumCounts(kids)
  {
    PairRuns(kids, i, m);
    var a, b := kids[..i], kids[i + 2..];
    forall c | c in a + m + b ensures NonRoot(c, h, cfg) {
      if c in a {
        var j :| 0 <= j < |a| && a[j] == c;
        assert kids[j] == c;
      } else if c in b {
        var j :| 0 <= j < |b| && b[j] == c;
        assert kids[i + 2 + j] == c;
      }
    }
  }

  /** Replacing two neighbours by a run with the same elements and counts. */
  lemma PairRuns<T>(kids: seq<Node<T>>, i: int, m: seq<Node<T>>)
    requires 0 <= i && i + 2 <= |kids|
    requires Concat(m) == Elements(kids[i]) + Elements(kids[i + 1])
    requires SumCounts(m) == kids[i].count + kids[i + 1].count
    ensures Concat(kids[..i] + m + kids[i + 2..]) == Concat(kids)
    ensures SumCounts(kids[..i] + m + kids[i + 2..]) == SumCounts(kids)
  {
    var a, p, b := kids[..i], kids[i..i + 2], kids[i + 2..];
    assert kids == a + (p + b);
    assert a + m + b == a + (m + b);
    assert p == [kids[i], kids[i + 1]];
    PairOf(kids[i], kids[i + 1]);
    ThreeRuns(a, p, b);
    ThreeRuns(a, m, b);
  }

  /** A whole node `src` moved to the end of `dst`: `dst` now holds the
      elements and the count of both. */
  lemma MergedNode<T>(src: Node<T>, dst: Node<T>, src': Node<T>, dst': Node<T>)
    requires CountsOk(src)
    requires MovedEntries(src, 0, dst, CSize(dst), CSize(src), src', dst')
    requires dst'.count == dst.count + Carried(src, 0, CSize(src))
    ensures CSize(dst') == CSize(dst) + CSize(src)
    ensures Elements(dst') == Elements(dst) + Elements(src)
    ensures dst'.count == dst.count + src.count
    ensures Absorbed(dst, src, dst')
  {
    CarriedAll(src);
    if src.Leaf? {
      RemoveEnds(src.values, |src.values|);
      SpliceAtEnd(dst.values, src.values);
    } else {
      RemoveEnds(src.children, |src.children|);
      SpliceAtEnd(dst.children, src.children);
      ConcatAppend(dst.children, src.children);
    }
  }

  /** Every entry of a well-counted block carried together is its count. */
  lemma CarriedAll<T>(n: Node<T>)
    requires CountsOk(n)
    ensures Carried(n, 0, CSize(n)) == n.count
  {
    if n.Internal? {
      assert n.children[0..|n.children|] == n.children;
    }
  }

  /** The size of a borrow: the underfull child (one short of half) reaches
      at least half and at most capacity, and the sibling, which could not
      be merged, keeps at least half. */
  lemma BorrowSizes(half: int, size: int, sib: int, avg: int)
    requires 2 <= half && half - 1 <= size < half && half < sib <= 2 * half && size + sib > 2 * half
    requires avg == BorrowCount(half, size, sib)
    ensures 1 <= avg <= sib
    ensures half <= size + avg <= 2 * half
    ensures half <= sib - avg <= 2 * half
  {
  }

  /** The sizes of the two blocks after a move. */
  lemma MovedSizes<T>(src: Node<T>, from: int, dst: Node<T>, to: int, cnt: int, src': Node<T>, dst': Node<T>)
    requires 0 <= from && 0 <= cnt && from + cnt <= CSize(src)
    requires 0 <= to <= CSize(dst)
    requires MovedEntries(src, from, dst, to, cnt, src', dst')
    ensures CSize(dst') == CSize(dst) + cnt && CSize(src') == CSize(src) - cnt
  {
  }

  /** Borrowing from the right neighbour: the first `cnt` entries of `src`
      move to the end of its left neighbour `dst`; the pair holds the same
      elements, in order. */
  lemma BorrowedFromRight<T>(src: Node<T>, dst: Node<T>, cnt: int, src': Node<T>, dst': Node<T>)
    requires 0 <= cnt <= CSize(src)
    requires MovedEntries(src, 0, dst, CSize(dst), cnt, src', dst')
    ensures Elements(dst') + Elements(src') == Elements(dst) + Elements(src)
  {
    if src.Leaf? {
      ShiftLeft(dst.values, src.values, cnt, dst'.values, src'.values);
    } else {
      ConcatShiftLeft(dst.children, src.children, cnt, dst'.children, src'.children);
    }
  }

  lemma ConcatShiftLeft<T>(d: seq<Node<T>>, v: seq<Node<T>>, cnt: int, d': seq<Node<T>>, v': seq<Node<T>>)
    requires 0 <= cnt <= |v|
    requires d' == Splice(d, |d|, v[0..0 + cnt]) && v' == RemoveRange(v, 0, cnt)
    ensures Concat(d') + Concat(v') == Concat(d) + Concat(v)
  {
    RemoveEnds(v, cnt);
    SpliceAtEnd(d, v[..cnt]);
    ConcatAppend(d, v[..cnt]);
    SplitRun(v, cnt);
    AppendAssoc(Concat(d), Concat(v[..cnt]), Concat(v[cnt..]));
  }

  /** Borrowing from the left neighbour: the last `cnt` entries of `src`
      move to the start of its right neighbour `dst`; the pair holds the
      same elements, in order. */
  lemma BorrowedFromLeft<T>(src: Node<T>, dst: Node<T>, cnt: int, src': Node<T>, dst': Node<T>)
    requires 0 <= cnt <= CSize(src)
    requires MovedEntries(src, CSize(src) - cnt, dst, 0, cnt, src', dst')
    ensures Elements(src') + Elements(dst') == Elements(src) + Elements(dst)
  {
    var k := CSize(src) - cnt;
    if src.Leaf? {
      ShiftRight(src.values, dst.values, k, src'.values, dst'.values);
    } else {
      ConcatShiftRight(src.children, dst.children, k, src'.children, dst'.children);
    }
  }

  lemma ConcatShiftRight<T>(v: seq<Node<T>>, d: seq<Node<T>>, k: int, v': seq<Node<T>>, d': seq<Node<T>>)
    requires 0 <= k <= |v|
    requires v' == RemoveRange(v, k, |v| - k) && d' == Splice(d, 0, v[k..k + (|v| - k)])
    ensures Concat(v') + Concat(d') == Concat(v) + Concat(d)
  {
    RemoveEnds(v, k);
    SpliceAtStart(d, v[k..]);
    ConcatAppend(v[k..], d);
    SplitRun(v, k);
    AppendAssoc(Concat(v[..k]), Concat(v[k..]), Concat(d));
  }

  lemma PairNonRoot<T>(a: Node<T>, b: Node<T>, h: int, cfg: Config)
    requires ValidConfig(cfg) && NonRoot(a, h, cfg) && NonRoot(b, h, cfg)
    ensures AllNonRoot([a, b], h, cfg)
  {
  }

  lemma PairOf<T>(a: Node<T>, b: Node<T>)
    ensures Concat([a, b]) == Elements(a) + Elements(b)
    ensures SumCounts([a, b]) == a.count + b.count
  {
    assert [a, b][..1] == [a];
    SumCountsOne(a);
  }
}
