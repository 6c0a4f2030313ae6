/** Tree nodes of the B+-tree vector: a leaf holds a block of elements, an
    internal node a block of children; each node records the number of
    elements in its subtree. The element sequence the whole container
    stands for is the leaves read from left to right (`Elements`). */
module Nodes {
  import opened Common

  /** The two capacity template parameters, maximum internal fanout and
      maximum leaf block size. Both must be even, so a configuration is
      given by half of each. */
  datatype Config = Config(halfNode: int, halfLeaf: int)
  {
    function maxNode(): int { 2 * halfNode }
    function maxLeaf(): int { 2 * halfLeaf }
  }

  /** Both capacities must be even and at least 4 (the static assertions of
      the container template); evenness holds by construction. */
  predicate ValidConfig(cfg: Config)
  {
    cfg.halfNode >= 2 && cfg.halfLeaf >= 2
  }

  /** The leaf/internal tag is fixed when a node is built; `count` is the
      number of elements in the subtree. The block of a node is its live
      sequence of entries. */
  datatype Node<T> =
    | Leaf(count: int, values: seq<T>)
    | Internal(count: int, children: seq<Node<T>>)

  /** Number of entries in the node's block. */
  function CSize<T>(n: Node<T>): nat
  {
    match n
    case Leaf(_, vs) => |vs|
    case Internal(_, ch) => |ch|
  }

  /** Capacity of the node's block, taken from its kind. */
  function MaxBlockSize<T>(n: Node<T>, cfg: Config): (r: int)
    ensures r == cfg.maxLeaf() || r == cfg.maxNode()
    ensures n.Leaf? ==> r == cfg.maxLeaf()
  {
    if n.Leaf? then cfg.maxLeaf() else cfg.maxNode()
  }

  /** Half capacity: the least occupancy of a node other than the root. */
  function HalfBlockSize<T>(n: Node<T>, cfg: Config): (r: int)
    requires ValidConfig(cfg)
    ensures 2 <= r && 2 * r == MaxBlockSize(n, cfg)
  {
    if n.Leaf? then cfg.halfLeaf else cfg.halfNode
  }

  /** The elements of a subtree, leaves from left to right. */
  ghost function Elements<T>(n: Node<T>): seq<T>
    decreases n
  {
    match n
    case Leaf(_, vs) => vs
    case Internal(_, ch) => Concat(ch)
  }

  /** The elements of a run of sibling subtrees. */
  ghost function Concat<T>(ns: seq<Node<T>>): seq<T>
    decreases ns
  {
    if |ns| == 0 then [] else Concat(ns[..|ns| - 1]) + Elements(ns[|ns| - 1])
  }

  /** Sum of the recorded counts of a run of siblings. */
  ghost function SumCounts<T>(ns: seq<Node<T>>): int
  {
    if |ns| == 0 then 0 else SumCounts(ns[..|ns| - 1]) + ns[|ns| - 1].count
  }

  /** The node's own count agrees with its block: the number of values of a
      leaf, the sum of the children's counts of an internal node. */
  ghost predicate CountsOk<T>(n: Node<T>)
  {
    match n
    case Leaf(c, vs) => c == |vs|
    case Internal(c, ch) => c == SumCounts(ch)
  }

  /** Structural invariant of a subtree at height `h` (leaves at height 0)
      whose own occupancy is at least `lo`: counts agree with blocks
      everywhere, no block exceeds its capacity, every descendant holds at
      least half its capacity, and all leaves lie at the same depth. */
  ghost predicate Shape<T>(n: Node<T>, h: int, cfg: Config, lo: int)
    requires ValidConfig(cfg)
    decreases n
  {
    && CountsOk(n)
    && lo <= CSize(n) <= MaxBlockSize(n, cfg)
    && match n
       case Leaf(_, _) => h == 0
       case Internal(_, ch) =>
         && h > 0
         && forall c | c in ch :: Shape(c, h - 1, cfg, HalfBlockSize(c, cfg))
  }

  /** Least occupancy of the root between public calls: a leaf root may be
      empty, an internal root has at least two children. */
  function RootLo<T>(n: Node<T>): int
  {
    if n.Leaf? then 0 else 2
  }

  /** A node that is not the root, between public calls. */
  ghost predicate NonRoot<T>(n: Node<T>, h: int, cfg: Config)
    requires ValidConfig(cfg)
  {
    Shape(n, h, cfg, HalfBlockSize(n, cfg))
  }

  ghost predicate AllNonRoot<T>(ns: seq<Node<T>>, h: int, cfg: Config)
    requires ValidConfig(cfg)
  {
    forall c | c in ns :: NonRoot(c, h, cfg)
  }

  ghost predicate NonNegCounts<T>(ns: seq<Node<T>>)
  {
    forall i | 0 <= i < |ns| :: ns[i].count >= 0
  }

  ghost predicate PositiveCounts<T>(ns: seq<Node<T>>)
  {
    forall i | 0 <= i < |ns| :: ns[i].count > 0
  }

  lemma {:induction false} SumCountsAppend<T>(a: seq<Node<T>>, b: seq<Node<T>>)
    ensures SumCounts(a + b) == SumCounts(a) + SumCounts(b)
    decreases |b|
  {
    if |b| == 0 {
      assert a + b == a;
    } else {
      assert (a + b)[..|a + b| - 1] == a + b[..|b| - 1];
      SumCountsAppend(a, b[..|b| - 1]);
    }
  }

  lemma {:induction false} ConcatAppend<T>(a: seq<Node<T>>, b: seq<Node<T>>)
    ensures Concat(a + b) == Concat(a) + Concat(b)
    decreases |b|
  {
    if |b| == 0 {
      assert a + b == a;
    } else {
      assert (a + b)[..|a + b| - 1] == a + b[..|b| - 1];
      ConcatAppend(a, b[..|b| - 1]);
    }
  }

  lemma SumCountsOne<T>(n: Node<T>)
    ensures SumCounts([n]) == n.count
    ensures Concat([n]) == Elements(n)
  {
    assert [n][..0] == [];
  }

  /** The elements of a run of siblings split around sibling `c`. */
  lemma ConcatAround<T>(ns: seq<Node<T>>, c: int)
    requires 0 <= c < |ns|
    ensures Concat(ns) == Concat(ns[..c]) + Elements(ns[c]) + Concat(ns[c + 1..])
    ensures SumCounts(ns) == SumCounts(ns[..c]) + ns[c].count + SumCounts(ns[c + 1..])
  {
    var a, x, b := ns[..c], ns[c], ns[c + 1..];
    CutAt(ns, c);
    ConcatAppend(a, [x] + b);
    ConcatAppend([x], b);
    SumCountsOne(x);
    AppendAssoc(Concat(a), Elements(x), Concat(b));
    SumCountsAppend(a, [x] + b);
    SumCountsAppend([x], b);
  }

  lemma SumAround<T>(ns: seq<Node<T>>, c: int)
    requires 0 <= c < |ns|
    ensures SumCounts(ns) == SumCounts(ns[..c]) + ns[c].count + SumCounts(ns[c + 1..])
  {
    var a, x, b := ns[..c], ns[c], ns[c + 1..];
    CutAt(ns, c);
    SumCountsAppend(a, [x] + b);
    SumCountsAppend([x], b);
    SumCountsOne(x);
  }

  /** Replacing sibling `c` by a run `m` replaces its elements and count. */
  lemma ReplaceChild<T>(ns: seq<Node<T>>, c: int, m: seq<Node<T>>)
    requires 0 <= c < |ns|
    ensures Concat(ns[..c] + m + ns[c + 1..]) == Concat(ns[..c]) + Concat(m) + Concat(ns[c + 1..])
    ensures SumCounts(ns[..c] + m + ns[c + 1..]) == SumCounts(ns) - ns[c].count + SumCounts(m)
  {
    ConcatAppend(ns[..c] + m, ns[c + 1..]);
    ConcatAppend(ns[..c], m);
    SumCountsAppend(ns[..c] + m, ns[c + 1..]);
    SumCountsAppend(ns[..c], m);
    ConcatAround(ns, c);
  }

  /** Replacing sibling `c` by the node `x`, as an update of the run. */
  lemma UpdateRun<T>(ns: seq<Node<T>>, c: int, x: Node<T>)
    requires 0 <= c < |ns|
    ensures Concat(ns[c := x]) == Concat(ns[..c]) + Elements(x) + Concat(ns[c + 1..])
    ensures SumCounts(ns[c := x]) == SumCounts(ns) - ns[c].count + x.count
  {
    UpdateSlices(ns, c, x);
    ConcatAround(ns[c := x], c);
    SumAround(ns, c);
  }

  /** The siblings other than `c` are untouched by replacing sibling `c`
      (`ns'` is the updated run). */
  lemma UpdateOthers<T>(ns: seq<Node<T>>, c: int, x: Node<T>, ns': seq<Node<T>>, h: int, cfg: Config)
    requires ValidConfig(cfg) && AllNonRoot(ns, h, cfg) && 0 <= c < |ns| && ns' == ns[c := x]
    ensures forall i | 0 <= i < |ns'| && i != c :: NonRoot(ns'[i], h, cfg)
    ensures NonRoot(x, h, cfg) ==> AllNonRoot(ns', h, cfg)
  {
    forall i | 0 <= i < |ns'| && i != c ensures NonRoot(ns'[i], h, cfg) {
      assert ns[i] in ns;
    }
    if NonRoot(x, h, cfg) {
      forall y | y in ns' ensures NonRoot(y, h, cfg) {
        var j :| 0 <= j < |ns'| && ns'[j] == y;
      }
    }
  }

  /** The siblings before `c` carry as many elements as they count. */
  lemma PrefixRun<T>(ns: seq<Node<T>>, c: int, h: int, cfg: Config)
    requires ValidConfig(cfg) && AllNonRoot(ns, h, cfg) && 0 <= c <= |ns|
    ensures |Concat(ns[..c])| == SumCounts(ns[..c])
  {
    assert AllNonRoot(ns[..c], h, cfg) by {
      forall x | x in ns[..c] ensures NonRoot(x, h, cfg) {
        assert x in ns;
      }
    }
    RunCount(ns[..c], h, cfg);
  }

  lemma {:induction false} SumCountsBounds<T>(ns: seq<Node<T>>)
    ensures NonNegCounts(ns) ==> SumCounts(ns) >= 0
    ensures PositiveCounts(ns) ==> SumCounts(ns) >= |ns|
    decreases |ns|
  {
    if |ns| > 0 {
      SumCountsBounds(ns[..|ns| - 1]);
    }
  }

  /** With non-negative counts, the prefix sums grow with the prefix; with
      positive counts, strictly. */
  lemma PrefixMono<T>(ns: seq<Node<T>>, i: int, j: int)
    requires 0 <= i <= j <= |ns|
    ensures NonNegCounts(ns) ==> SumCounts(ns[..i]) <= SumCounts(ns[..j])
    ensures PositiveCounts(ns) ==> SumCounts(ns[..i]) + (j - i) <= SumCounts(ns[..j])
  {
    assert ns[..j] == ns[..i] + ns[i..j];
    SumCountsAppend(ns[..i], ns[i..j]);
    SumCountsBounds(ns[i..j]);
  }

  /** The counts of a well-formed run of siblings add up to the number of
      their elements. */
  lemma {:induction false} ConcatLength<T>(ns: seq<Node<T>>)
    requires forall i | 0 <= i < |ns| :: ns[i].count == |Elements(ns[i])|
    ensures |Concat(ns)| == SumCounts(ns)
    decreases |ns|
  {
    if |ns| > 0 {
      ConcatLength(ns[..|ns| - 1]);
    }
  }

  /** The recorded count of a well-formed subtree is the number of its
      elements, and a subtree with at least one entry holds an element. */
  lemma {:induction false} ShapeCount<T>(n: Node<T>, h: int, cfg: Config, lo: int)
    requires ValidConfig(cfg)
    requires Shape(n, h, cfg, lo)
    ensures n.count == |Elements(n)|
    ensures lo >= 1 ==> n.count >= 1
    ensures n.Internal? ==> PositiveCounts(n.children) && NonNegCounts(n.children)
    decreases n
  {
    match n
    case Leaf(_, _) =>
    case Internal(c, ch) =>
      forall i | 0 <= i < |ch|
        ensures ch[i].count == |Elements(ch[i])| && ch[i].count >= 1
      {
        ShapeCount(ch[i], h - 1, cfg, HalfBlockSize(ch[i], cfg));
      }
      ConcatLength(ch);
      SumCountsBounds(ch);
  }

  /** A run of well-formed siblings: their count sum is their element count. */
  lemma RunCount<T>(ns: seq<Node<T>>, h: int, cfg: Config)
    requires ValidConfig(cfg)
    requires AllNonRoot(ns, h, cfg)
    ensures |Concat(ns)| == SumCounts(ns)
    ensures PositiveCounts(ns)
  {
    forall i | 0 <= i < |ns|
      ensures ns[i].count == |Elements(ns[i])| && ns[i].count >= 1
    {
      assert ns[i] in ns;
      ShapeCount(ns[i], h, cfg, HalfBlockSize(ns[i], cfg));
    }
    ConcatLength(ns);
  }

  /** The block of `n` fits height `h`: a leaf sits at height 0, and an
      internal node above it has well-formed non-root children one level
      down. Counts and occupancy of `n` itself are not constrained. */
  ghost predicate Block<T>(n: Node<T>, h: int, cfg: Config)
    requires ValidConfig(cfg)
  {
    match n
    case Leaf(_, _) => h == 0
    case Internal(_, ch) => h > 0 && AllNonRoot(ch, h - 1, cfg)
  }

  /** A well-formed node is a fitting block with agreeing counts. */
  lemma ShapeBlock<T>(n: Node<T>, h: int, cfg: Config, lo: int)
    requires ValidConfig(cfg)
    ensures Shape(n, h, cfg, lo) <==>
              CountsOk(n) && lo <= CSize(n) <= MaxBlockSize(n, cfg) && Block(n, h, cfg)
  {
  }

  /** Splitting a run of siblings at `i`. */
  lemma SplitRun<T>(ns: seq<Node<T>>, i: int)
    requires 0 <= i <= |ns|
    ensures Concat(ns) == Concat(ns[..i]) + Concat(ns[i..])
    ensures SumCounts(ns) == SumCounts(ns[..i]) + SumCounts(ns[i..])
  {
    Cut2(ns, i);
    ConcatAppend(ns[..i], ns[i..]);
    SumCountsAppend(ns[..i], ns[i..]);
  }

  /** Inserting one sibling adds its elements in place and its count. */
  lemma InsertChild<T>(ns: seq<Node<T>>, i: int, x: Node<T>)
    requires 0 <= i <= |ns|
    ensures Concat(InsertAt(ns, i, x)) == Concat(ns[..i]) + Elements(x) + Concat(ns[i..])
    ensures SumCounts(InsertAt(ns, i, x)) == SumCounts(ns) + x.count
  {
    ConcatAppend(ns[..i] + [x], ns[i..]);
    ConcatAppend(ns[..i], [x]);
    SumCountsAppend(ns[..i] + [x], ns[i..]);
    SumCountsAppend(ns[..i], [x]);
    SumCountsOne(x);
    SplitRun(ns, i);
  }

  /** Placing a run of siblings at `to` adds its elements in place and its
      counts. */
  lemma SpliceChildren<T>(d: seq<Node<T>>, to: int, m: seq<Node<T>>)
    requires 0 <= to <= |d|
    ensures Concat(Splice(d, to, m)) == Concat(d[..to]) + Concat(m) + Concat(d[to..])
    ensures SumCounts(Splice(d, to, m)) == SumCounts(d) + SumCounts(m)
  {
    ConcatAppend(d[..to] + m, d[to..]);
    ConcatAppend(d[..to], m);
    SumCountsAppend(d[..to] + m, d[to..]);
    SumCountsAppend(d[..to], m);
    SplitRun(d, to);
  }

  /** Taking out a run of siblings removes its elements and its counts. */
  lemma RemoveChildren<T>(s: seq<Node<T>>, from: int, cnt: int)
    requires 0 <= from && 0 <= cnt && from + cnt <= |s|
    ensures Concat(s) == Concat(s[..from]) + Concat(s[from..from + cnt]) + Concat(s[from + cnt..])
    ensures Concat(RemoveRange(s, from, cnt)) == Concat(s[..from]) + Concat(s[from + cnt..])
    ensures SumCounts(s) == SumCounts(RemoveRange(s, from, cnt)) + SumCounts(s[from..from + cnt])
  {
    ThreeWay(s, from, from + cnt);
    ConcatAppend(s[..from], s[from + cnt..]);
    SumCountsAppend(s[..from], s[from + cnt..]);
  }

  lemma ThreeRuns<T>(a: seq<Node<T>>, m: seq<Node<T>>, b: seq<Node<T>>)
    ensures Concat(a + (m + b)) == Concat(a) + Concat(m) + Concat(b)
    ensures Concat(a + b) == Concat(a) + Concat(b)
    ensures SumCounts(a + (m + b)) == SumCounts(a + b) + SumCounts(m)
  {
    ConcatAppend(a, m + b);
    ConcatAppend(m, b);
    ConcatAppend(a, b);
    SumCountsAppend(a, m + b);
    SumCountsAppend(m, b);
    SumCountsAppend(a, b);
  }

  /** Cutting a run of siblings at two places splits its elements and its
      count into three. */
  lemma ThreeWay<T>(s: seq<Node<T>>, i: int, j: int)
    requires 0 <= i <= j <= |s|
    ensures Concat(s) == Concat(s[..i]) + Concat(s[i..j]) + Concat(s[j..])
    ensures SumCounts(s) == SumCounts(s[..i]) + SumCounts(s[i..j]) + SumCounts(s[j..])
  {
    var a, m, b := s[..i], s[i..j], s[j..];
    Cut3(s, i, j);
    ConcatAppend(a, m + b);
    ConcatAppend(m, b);
    AppendAssoc(Concat(a), Concat(m), Concat(b));
    SumCountsAppend(a, m + b);
    SumCountsAppend(m, b);
  }

}
