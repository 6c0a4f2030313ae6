/** The specification of the block-level operations of the tree: which
    entries a move carries, what inserting a pending entry into a block
    yields, and what a split or a repair of a run of children must keep. */
module BlockSpec {
  import opened Common
  import opened Nodes

  /** The elements held by entries [i, j) of a block. */
  ghost function Run<T>(n: Node<T>, i: int, j: int): (r: seq<T>)
    requires 0 <= i <= j <= CSize(n)
    ensures i == j ==> r == []
  {
    match n
    case Leaf(_, vs) => vs[i..j]
    case Internal(_, ch) => Concat(ch[i..j])
  }

  /** The number of elements that entries [from, from + cnt) of a block
      stand for: one per value in a leaf, the child's count in an internal
      node. */
  ghost function Carried<T>(n: Node<T>, from: int, cnt: int): int
    requires 0 <= from && 0 <= cnt && from + cnt <= CSize(n)
  {
    match n
    case Leaf(_, _) => cnt
    case Internal(_, ch) => SumCounts(ch[from..from + cnt])
  }

  /** The entries [from, from + cnt) of `src` leave it and enter `dst` at
      index `to`, in order; both nodes keep their kind. */
  ghost predicate MovedEntries<T>(src: Node<T>, from: int, dst: Node<T>, to: int, cnt: int,
                                  src': Node<T>, dst': Node<T>)
    requires 0 <= from && 0 <= cnt && from + cnt <= CSize(src)
    requires 0 <= to <= CSize(dst)
  {
    && src'.Leaf? == src.Leaf? && dst'.Leaf? == dst.Leaf? && src.Leaf? == dst.Leaf?
    && (src.Leaf? ==>
          && src'.values == RemoveRange(src.values, from, cnt)
          && dst'.values == Splice(dst.values, to, src.values[from..from + cnt]))
    && (src.Internal? ==>
          && src'.children == RemoveRange(src.children, from, cnt)
          && dst'.children == Splice(dst.children, to, src.children[from..from + cnt]))
  }

  /** A move together with the count it carries: `dst` gains and `src`
      loses the number of elements the moved entries stand for. */
  ghost predicate Transferred<T>(src: Node<T>, from: int, dst: Node<T>, to: int, cnt: int,
                                 src': Node<T>, dst': Node<T>)
    requires 0 <= from && 0 <= cnt && from + cnt <= CSize(src)
    requires 0 <= to <= CSize(dst)
  {
    && MovedEntries(src, from, dst, to, cnt, src', dst')
    && dst'.count == dst.count + Carried(src, from, cnt)
    && src'.count == src.count - Carried(src, from, cnt)
  }

  /** `m` is the block `a` followed by all of the block `b`: its entries are
      those of `a` and then those of `b`, and its count is both counts. */
  ghost predicate Absorbed<T>(a: Node<T>, b: Node<T>, m: Node<T>)
  {
    && m.Leaf? == a.Leaf? && a.Leaf? == b.Leaf?
    && (a.Leaf? ==> m.values == a.values + b.values)
    && (a.Internal? ==> m.children == a.children + b.children)
    && m.count == a.count + b.count
  }

  /** The number of entries a borrow takes from a sibling holding `sib`
      entries for a child holding `size`: enough to bring the child to
      `half`, or half of the sibling's surplus over `half` when that is
      more (the surplus is positive, so halving is the source's shift). */
  function BorrowCount(half: int, size: int, sib: int): int
  {
    Max(half - size, (sib - half) / 2)
  }

  /** The child at `idx` merged into its left sibling: it is gone, its
      entries follow the sibling's, and every other child stays in place. */
  ghost predicate MergedLeft<T>(kids: seq<Node<T>>, idx: int, kids': seq<Node<T>>)
  {
    && 0 < idx < |kids| && |kids'| == |kids| - 1
    && kids'[..idx - 1] == kids[..idx - 1] && kids'[idx..] == kids[idx + 1..]
    && Absorbed(kids[idx - 1], kids[idx], kids'[idx - 1])
  }

  /** The right sibling of the child at `idx` merged into it: the sibling
      is gone, its entries follow the child's, and every other child stays
      in place. */
  ghost predicate MergedRight<T>(kids: seq<Node<T>>, idx: int, kids': seq<Node<T>>)
  {
    && 0 <= idx < |kids| - 1 && |kids'| == |kids| - 1
    && kids'[..idx] == kids[..idx] && kids'[idx + 1..] == kids[idx + 2..]
    && Absorbed(kids[idx], kids[idx + 1], kids'[idx])
  }

  /** The child at `idx` borrowed from its right sibling: the first
      `BorrowCount` entries of the sibling moved to the end of the child,
      and every other child stays in place. */
  ghost predicate BorrowedRight<T>(kids: seq<Node<T>>, idx: int, kids': seq<Node<T>>, cfg: Config)
    requires ValidConfig(cfg)
  {
    && 0 <= idx < |kids| - 1 && |kids'| == |kids|
    && kids'[..idx] == kids[..idx] && kids'[idx + 2..] == kids[idx + 2..]
    && var cnt := BorrowCount(HalfBlockSize(kids[idx], cfg), CSize(kids[idx]), CSize(kids[idx + 1]));
       && 0 <= cnt <= CSize(kids[idx + 1])
       && Transferred(kids[idx + 1], 0, kids[idx], CSize(kids[idx]), cnt, kids'[idx + 1], kids'[idx])
  }

  /** The child at `idx` borrowed from its left sibling: the last
      `BorrowCount` entries of the sibling moved to the front of the child,
      and every other child stays in place. */
  ghost predicate BorrowedLeft<T>(kids: seq<Node<T>>, idx: int, kids': seq<Node<T>>, cfg: Config)
    requires ValidConfig(cfg)
  {
    && 0 < idx < |kids| && |kids'| == |kids|
    && kids'[..idx - 1] == kids[..idx - 1] && kids'[idx + 1..] == kids[idx + 1..]
    && var cnt := BorrowCount(HalfBlockSize(kids[idx], cfg), CSize(kids[idx]), CSize(kids[idx - 1]));
       && 0 <= cnt <= CSize(kids[idx - 1])
       && Transferred(kids[idx - 1], CSize(kids[idx - 1]) - cnt, kids[idx], 0, cnt, kids'[idx - 1], kids'[idx])
  }

  /** Index in the block at which `add` places the pending entry: the slot
      itself in a leaf, just after the descended child in an internal node
      (the child that split stays left of its new sibling). */
  function InsertPos<T>(node: Node<T>, childIdx: int): int
  {
    if node.Leaf? then childIdx else childIdx + 1
  }

  /** The state `add` leaves a node in before inserting into its block: the
      count already includes the element being added, which the block does
      not yet hold (the pending value of a leaf, or the pending new child of
      an internal node). */
  ghost predicate Pending<T>(node: Node<T>, moveUp: Option<Node<T>>)
  {
    match node
    case Leaf(c, vs) => c == |vs| + 1
    case Internal(c, ch) => moveUp.Some? && c == SumCounts(ch) + moveUp.value.count
  }

  /** splitAdd: the pending value (leaf) or the pending child (internal)
      enters the block at `pos`, without touching the count. */
  function SplitAdd<T>(node: Node<T>, pos: int, moveUp: Option<Node<T>>, e: T): (r: Node<T>)
    requires 0 <= pos <= CSize(node)
    requires node.Internal? ==> moveUp.Some?
    ensures r.Leaf? == node.Leaf? && r.count == node.count && CSize(r) == CSize(node) + 1
  {
    match node
    case Leaf(c, vs) => Leaf(c, InsertAt(vs, pos, e))
    case Internal(c, ch) => Internal(c, InsertAt(ch, pos, moveUp.value))
  }

  /** The block grown by `SplitAdd` holds the pending value, or the
      elements of the pending child, at `pos`; once the entry is in, the
      count that already included it agrees with the block again. */
  lemma SplitAddElements<T>(node: Node<T>, pos: int, moveUp: Option<Node<T>>, e: T)
    requires 0 <= pos <= CSize(node)
    requires node.Internal? ==> moveUp.Some?
    ensures node.Leaf? ==> Elements(SplitAdd(node, pos, moveUp, e)) == InsertAt(Elements(node), pos, e)
    ensures node.Internal? ==>
              Elements(SplitAdd(node, pos, moveUp, e))
              == Concat(node.children[..pos]) + Elements(moveUp.value) + Concat(node.children[pos..])
    ensures Pending(node, moveUp) ==> CountsOk(SplitAdd(node, pos, moveUp, e))
  {
    if node.Internal? {
      InsertChild(node.children, pos, moveUp.value);
    }
  }

  /** The two halves of a full block after splitAndInsert: each fits its
      level, and together they are what `SplitOk` says. */
  ghost predicate SplitDone<T>(node: Node<T>, pos: int, moveUp: Option<Node<T>>, e: T, h: int, cfg: Config,
                               n1: Node<T>, n2: Node<T>)
    requires ValidConfig(cfg) && 0 <= pos <= CSize(node)
    requires node.Internal? ==> moveUp.Some?
  {
    Block(n1, h, cfg) && Block(n2, h, cfg) && SplitOk(node, pos, moveUp, e, cfg, n1, n2)
  }

  /** What splitAndInsert promises about the two halves of a full block,
      besides their shape. */
  ghost predicate SplitOk<T>(node: Node<T>, pos: int, moveUp: Option<Node<T>>, e: T, cfg: Config,
                             n1: Node<T>, n2: Node<T>)
    requires ValidConfig(cfg) && 0 <= pos <= CSize(node)
    requires node.Internal? ==> moveUp.Some?
  {
    && Halves(node, cfg, n1, n2)
    && Elements(n1) + Elements(n2) == Elements(SplitAdd(node, pos, moveUp, e))
  }

  /** `n1` followed by `n2` hold, in order, the entries of `node` with the
      pending entry inserted at `pos`. */
  ghost predicate EntriesSplit<T>(node: Node<T>, pos: int, moveUp: Option<Node<T>>, e: T, n1: Node<T>, n2: Node<T>)
    requires 0 <= pos <= CSize(node)
    requires node.Internal? ==> moveUp.Some?
  {
    && n1.Leaf? == node.Leaf? && n2.Leaf? == node.Leaf?
    && (node.Leaf? ==> n1.values + n2.values == InsertAt(node.values, pos, e))
    && (node.Internal? ==> n1.children + n2.children == InsertAt(node.children, pos, moveUp.value))
  }

  /** `n1` and `n2` are consistent nodes of the kind of `node`, each at
      least half full, together carrying the count of `node`. */
  ghost predicate Halves<T>(node: Node<T>, cfg: Config, n1: Node<T>, n2: Node<T>)
    requires ValidConfig(cfg)
  {
    && n1.Leaf? == node.Leaf? && n2.Leaf? == node.Leaf?
    && CountsOk(n1) && CountsOk(n2)
    && HalfBlockSize(node, cfg) <= CSize(n1) <= MaxBlockSize(node, cfg)
    && HalfBlockSize(node, cfg) <= CSize(n2) <= MaxBlockSize(node, cfg)
    && n1.count + n2.count == node.count
  }

  /** The number of elements the pending entry brings: one value, or all
      the elements under the pending child. */
  function PendingCount<T>(node: Node<T>, moveUp: Option<Node<T>>): int
    requires node.Internal? ==> moveUp.Some?
  {
    if node.Leaf? then 1 else moveUp.value.count
  }

  /** `n` with its count set to `c`. */
  function Recounted<T>(n: Node<T>, c: int): (r: Node<T>)
    ensures r.Leaf? == n.Leaf? && r.count == c
    ensures CSize(r) == CSize(n)
  {
    match n
    case Leaf(_, vs) => Leaf(c, vs)
    case Internal(_, ch) => Internal(c, ch)
  }

  /** The situation mergeBlocksAfterDelete repairs: the child at `idx` is
      one entry short of half full and its siblings are well formed. */
  ghost predicate Underfull<T>(kids: seq<Node<T>>, idx: int, h: int, cfg: Config)
  {
    && ValidConfig(cfg)
    && 0 <= idx < |kids|
    && (forall i | 0 <= i < |kids| && i != idx :: NonRoot(kids[i], h, cfg))
    && Shape(kids[idx], h, cfg, HalfBlockSize(kids[idx], cfg) - 1)
    && CSize(kids[idx]) < HalfBlockSize(kids[idx], cfg)
  }

  /** A run of children rebuilt from `kids` holds the same elements, in
      order, and the same total count, and each of its nodes is at least
      half full. */
  ghost predicate RunKept<T>(kids: seq<Node<T>>, kids': seq<Node<T>>, h: int, cfg: Config)
    requires ValidConfig(cfg)
  {
    && AllNonRoot(kids', h, cfg)
    && Concat(kids') == Concat(kids)
    && SumCounts(kids') == SumCounts(kids)
  }

  /** The block of `n` cut at entry `k`: the lower part keeps entries
      [0, k) and the count of what they hold; the upper part gets the rest. */
  ghost function LowerPart<T>(n: Node<T>, k: int): Node<T>
    requires 0 <= k <= CSize(n)
  {
    match n
    case Leaf(c, vs) => Leaf(c - (|vs| - k), vs[..k])
    case Internal(c, ch) => Internal(c - SumCounts(ch[k..]), ch[..k])
  }

  ghost function UpperPart<T>(n: Node<T>, k: int): Node<T>
    requires 0 <= k <= CSize(n)
  {
    match n
    case Leaf(_, vs) => Leaf(|vs| - k, vs[k..])
    case Internal(_, ch) => Internal(SumCounts(ch[k..]), ch[k..])
  }

  /** The two nodes splitAndInsert makes of a full block: the upper half of
      the entries moves to a new node, and the pending entry goes into the
      half that holds its index, its count moving with it when that is the
      new node. */
  ghost function SplitPair<T>(node: Node<T>, pos: int, moveUp: Option<Node<T>>, e: T, cfg: Config): (Node<T>, Node<T>)
    requires ValidConfig(cfg) && HalfBlockSize(node, cfg) < CSize(node)
    requires 0 <= pos <= CSize(node)
    requires node.Internal? ==> moveUp.Some?
  {
    var half := HalfBlockSize(node, cfg);
    var lo, hi := LowerPart(node, half), UpperPart(node, half);
    if pos < half then
      (SplitAdd(lo, pos, moveUp, e), hi)
    else
      var added := SplitAdd(hi, pos - half, moveUp, e);
      (Recounted(lo, lo.count - PendingCount(node, moveUp)),
       Recounted(added, added.count + PendingCount(node, moveUp)))
  }
}
