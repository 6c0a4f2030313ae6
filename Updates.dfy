/** set: overwriting the value at a position. The slot is found by the
    same descent as every access; the value is replaced in its leaf's
    block, and no count anywhere changes, so the structure of the tree,
    and every path through it, stays as it was. */
module Updates {
  import opened Common
  import opened Nodes
  import opened Paths

  /** The first step of a complete path: a leaf is reached by its slot
      alone, an internal node by a step into one of its children. */
  lemma PathHead<T>(n: Node<T>, s: seq<PathNode>)
    requires PathOk(n, s)
    ensures n.Leaf? ==> |s| == 1 && LeafOf(n, s) == n
    ensures n.Internal? ==> |s| >= 2 && 0 <= s[0].childIdx < |n.children| && s == [s[0]] + s[1..]
  {
    if |s| >= 2 {
      WalkablePrefix(n, s[..|s| - 1], 1);
      assert s[..|s| - 1][..1] == [s[0]];
      assert [s[0]][..0] == [];
    } else {
      assert s[..|s| - 1] == [];
    }
  }

  /** The tree with the value in the slot that the complete path `s`
      designates replaced by `x`: the nodes on the path are rebuilt with
      their counts and their block sizes unchanged. */
  function Replace<T>(n: Node<T>, s: seq<PathNode>, x: T): (r: Node<T>)
    requires PathOk(n, s) && SlotOf(s) < CSize(LeafOf(n, s))
    ensures r.count == n.count && r.Leaf? == n.Leaf? && CSize(r) == CSize(n)
    decreases |s|
  {
    PathHead(n, s);
    match n
    case Leaf(cnt, vs) => Leaf(cnt, vs[s[0].childIdx := x])
    case Internal(cnt, ch) =>
      var c := s[0].childIdx;
      PathCons(cnt, ch, s[0], s[1..]);
      Internal(cnt, ch[c := Replace(ch[c], s[1..], x)])
  }

  /** The siblings before `k` count as many elements after sibling `c` is
      replaced by a node with the same count. */
  lemma PrefixKept<T>(ch: seq<Node<T>>, c: int, y: Node<T>, k: int)
    requires 0 <= c < |ch| && 0 <= k <= |ch| && y.count == ch[c].count
    ensures SumCounts(ch[c := y][..k]) == SumCounts(ch[..k])
  {
    if k <= c {
      assert ch[c := y][..k] == ch[..k];
    } else {
      assert ch[c := y][..k] == ch[..k][c := y];
      UpdateRun(ch[..k], c, y);
    }
  }

  /** set's effect on the sequence: exactly the element at the path's
      position becomes `x`. */
  lemma {:induction false} ReplaceElements<T>(n: Node<T>, s: seq<PathNode>, x: T, h: int, cfg: Config, lo: int)
    requires ValidConfig(cfg) && Shape(n, h, cfg, lo)
    requires PathOk(n, s) && SlotOf(s) < CSize(LeafOf(n, s))
    ensures 0 <= PathPos(n, s) < |Elements(n)|
    ensures Elements(Replace(n, s, x)) == Elements(n)[PathPos(n, s) := x]
    decreases |s|
  {
    PathHead(n, s);
    ElementAtPath(n, s, h, cfg, lo);
    if n.Internal? {
      var ch := n.children;
      var c := s[0].childIdx;
      var t := s[1..];
      PathCons(n.count, ch, s[0], t);
      assert ch[c] in ch;
      ReplaceElements(ch[c], t, x, h - 1, cfg, HalfBlockSize(ch[c], cfg));
      var y := Replace(ch[c], t, x);
      assert Replace(n, s, x) == Internal(n.count, ch[c := y]);
      UpdateRun(ch, c, y);
      ConcatAround(ch, c);
      PrefixRun(ch, c, h - 1, cfg);
      UpdateInMiddle(Concat(ch[..c]), Elements(ch[c]), Concat(ch[c + 1..]), PathPos(ch[c], t), x);
    }
  }

  /** set keeps the structural invariant. */
  lemma {:induction false} ReplaceShape<T>(n: Node<T>, s: seq<PathNode>, x: T, h: int, cfg: Config, lo: int)
    requires ValidConfig(cfg) && Shape(n, h, cfg, lo)
    requires PathOk(n, s) && SlotOf(s) < CSize(LeafOf(n, s))
    ensures Shape(Replace(n, s, x), h, cfg, lo)
    decreases |s|
  {
    PathHead(n, s);
    if n.Internal? {
      var ch := n.children;
      var c := s[0].childIdx;
      var t := s[1..];
      PathCons(n.count, ch, s[0], t);
      assert ch[c] in ch;
      ReplaceShape(ch[c], t, x, h - 1, cfg, HalfBlockSize(ch[c], cfg));
      var y := Replace(ch[c], t, x);
      assert Replace(n, s, x) == Internal(n.count, ch[c := y]);
      UpdateRun(ch, c, y);
      UpdateOthers(ch, c, y, ch[c := y], h - 1, cfg);
    }
  }

  /** Every complete path of the tree is a complete path of the updated
      tree, designating the same position and a leaf of the same size; so a
      cached path stays valid across set. */
  lemma {:induction false} ReplaceKeepsPaths<T>(n: Node<T>, s: seq<PathNode>, x: T, u: seq<PathNode>)
    requires PathOk(n, s) && SlotOf(s) < CSize(LeafOf(n, s))
    requires PathOk(n, u)
    ensures PathOk(Replace(n, s, x), u)
    ensures PathPos(Replace(n, s, x), u) == PathPos(n, u)
    ensures CSize(LeafOf(Replace(n, s, x), u)) == CSize(LeafOf(n, u))
    decreases |s|
  {
    PathHead(n, s);
    PathHead(n, u);
    var r := Replace(n, s, x);
    if n.Leaf? {
      assert u[..0] == [];
    } else {
      var ch := n.children;
      var c := s[0].childIdx;
      var k := u[0].childIdx;
      var t := s[1..];
      var v := u[1..];
      PathCons(n.count, ch, s[0], t);
      PathCons(n.count, ch, u[0], v);
      var y := Replace(ch[c], t, x);
      var ch' := ch[c := y];
      assert r == Internal(n.count, ch');
      PathCons(n.count, ch', u[0], v);
      PrefixKept(ch, c, y, k);
      if k == c {
        ReplaceKeepsPaths(ch[c], t, x, v);
      }
    }
  }
}
