/** Small shared vocabulary: an optional value and the two sequence edits
    (insert one entry, remove one entry) in terms of which both the
    growable block and the tree engine state what they do. */
module Common {

  datatype Option<+T> = None | Some(value: T)

  function Min(a: int, b: int): int { if a <= b then a else b }

  function Max(a: int, b: int): int { if a >= b then a else b }

  /** `s` with `x` placed at index `i`, later entries shifted up by one. */
  function InsertAt<T>(s: seq<T>, i: int, x: T): (r: seq<T>)
    requires 0 <= i <= |s|
    ensures |r| == |s| + 1
  {
    s[..i] + [x] + s[i..]
  }

  /** `s` without the entry at index `i`, later entries shifted down by one. */
  function RemoveAt<T>(s: seq<T>, i: int): (r: seq<T>)
    requires 0 <= i < |s|
    ensures |r| == |s| - 1
  {
    s[..i] + s[i + 1..]
  }

  /** `d` with the run `m` placed at index `to`, the tail of `d` shifted up
      by `|m|` (the effect of a bulk insertion). */
  function Splice<T>(d: seq<T>, to: int, m: seq<T>): (r: seq<T>)
    requires 0 <= to <= |d|
    ensures |r| == |d| + |m|
  {
    d[..to] + m + d[to..]
  }

  /** `s` without the `cnt` entries starting at `start`, the tail shifted
      down by `cnt` (the effect of a bulk removal). */
  function RemoveRange<T>(s: seq<T>, start: int, cnt: int): (r: seq<T>)
    requires 0 <= start && 0 <= cnt && start + cnt <= |s|
    ensures |r| == |s| - cnt
  {
    s[..start] + s[start + cnt..]
  }

  /** Removing what was just inserted at the same index restores the sequence. */
  lemma RemoveInserted<T>(s: seq<T>, i: int, x: T)
    requires 0 <= i <= |s|
    ensures InsertAt(s, i, x)[i] == x
    ensures RemoveAt(InsertAt(s, i, x), i) == s
  {
    var t := InsertAt(s, i, x);
    assert t[..i] == s[..i];
    assert t[i + 1..] == s[i..];
  }

  /** Inserting into a concatenation at an index inside (or at the end of)
      its middle part only changes that part. */
  lemma InsertInMiddle<T>(a: seq<T>, m: seq<T>, b: seq<T>, i: int, x: T)
    requires 0 <= i <= |m|
    ensures a + InsertAt(m, i, x) + b == InsertAt(a + m + b, |a| + i, x)
  {
    var l := a + InsertAt(m, i, x) + b;
    var r := InsertAt(a + m + b, |a| + i, x);
    assert |l| == |r|;
    forall k | 0 <= k < |l| ensures l[k] == r[k] {
      if k < |a| + i {
      } else if k == |a| + i {
      } else {
      }
    }
  }

  /** Removing from a concatenation at an index inside its middle part only
      changes that part. */
  lemma RemoveInMiddle<T>(a: seq<T>, m: seq<T>, b: seq<T>, i: int)
    requires 0 <= i < |m|
    ensures a + RemoveAt(m, i) + b == RemoveAt(a + m + b, |a| + i)
  {
    var l := a + RemoveAt(m, i) + b;
    var r := RemoveAt(a + m + b, |a| + i);
    assert |l| == |r|;
    forall k | 0 <= k < |l| ensures l[k] == r[k] {
      if k < |a| + i {
      } else {
      }
    }
  }

  /** Overwriting an entry of the middle part of a concatenation only
      changes that part. */
  lemma UpdateInMiddle<T>(a: seq<T>, m: seq<T>, b: seq<T>, i: int, x: T)
    requires 0 <= i < |m|
    ensures a + m[i := x] + b == (a + m + b)[|a| + i := x]
  {
    var l := a + m[i := x] + b;
    var r := (a + m + b)[|a| + i := x];
    assert |l| == |r|;
    forall k | 0 <= k < |l| ensures l[k] == r[k] {
      if k < |a| {
      } else if k < |a| + |m| {
      } else {
      }
    }
  }

  /** Inserting into a sequence cut at `k`: the insertion lands in the part
      that holds index `i`. */
  lemma InsertAcrossCut<T>(s: seq<T>, k: int, i: int, x: T)
    requires 0 <= k <= |s| && 0 <= i <= |s|
    ensures i < k ==> InsertAt(s[..k], i, x) + s[k..] == InsertAt(s, i, x)
    ensures i >= k ==> s[..k] + InsertAt(s[k..], i - k, x) == InsertAt(s, i, x)
  {
    if i < k {
      InsertInMiddle([], s[..k], s[k..], i, x);
      assert [] + s[..k] + s[k..] == s;
      assert [] + InsertAt(s[..k], i, x) + s[k..] == InsertAt(s[..k], i, x) + s[k..];
    } else {
      InsertInMiddle(s[..k], s[k..], [], i - k, x);
      assert s[..k] + s[k..] + [] == s;
      assert s[..k] + InsertAt(s[k..], i - k, x) + [] == s[..k] + InsertAt(s[k..], i - k, x);
    }
  }

  /** Concatenation is associative. (Stated once, so that proofs about
      concatenations of larger terms can use it without unfolding them.) */
  lemma AppendAssoc<T>(x: seq<T>, y: seq<T>, z: seq<T>)
    ensures (x + y) + z == x + (y + z)
  {
  }

  /** Replacing the entry at `c` leaves the entries before and after it. */
  lemma UpdateSlices<T>(s: seq<T>, c: int, x: T)
    requires 0 <= c < |s|
    ensures s[c := x][..c] == s[..c] && s[c := x][c + 1..] == s[c + 1..]
    ensures s[c := x][..c + 1] == s[..c] + [x]
  {
  }

  /** Updating entry `c` to `x` and inserting `y` just after it. */
  lemma InsertAfterUpdate<T>(s: seq<T>, c: int, x: T, y: T)
    requires 0 <= c < |s|
    ensures InsertAt(s[c := x], c + 1, y) == s[..c] + [x, y] + s[c + 1..]
  {
    UpdateSlices(s, c, x);
    assert s[..c] + [x] + [y] + s[c + 1..] == s[..c] + [x, y] + s[c + 1..];
  }

  /** A slice of a slice is a slice of the whole. */
  lemma Subslice<T>(s: seq<T>, lo: int, hi: int, i: int, j: int)
    requires 0 <= lo <= hi <= |s| && 0 <= i <= j <= hi - lo
    ensures s[lo..hi][i..j] == s[lo + i..lo + j]
  {
    var t := s[lo..hi];
    forall k | 0 <= k < j - i
      ensures t[i..j][k] == s[lo + i..lo + j][k]
    {
      assert t[i..j][k] == t[i + k] == s[lo + (i + k)];
    }
  }

  /** A sequence is its prefix and suffix cut at `i`. */
  lemma Cut2<T>(s: seq<T>, i: int)
    requires 0 <= i <= |s|
    ensures s == s[..i] + s[i..]
  {
  }

  /** A sequence is its prefix, the element at `c` and its suffix. */
  lemma CutAt<T>(s: seq<T>, c: int)
    requires 0 <= c < |s|
    ensures s == s[..c] + ([s[c]] + s[c + 1..])
  {
  }

  /** A sequence is the concatenation of its three parts cut at `i` and `j`. */
  lemma Cut3<T>(s: seq<T>, i: int, j: int)
    requires 0 <= i <= j <= |s|
    ensures s == s[..i] + (s[i..j] + s[j..])
  {
  }

  /** A run placed at the end of a sequence is appended to it. */
  lemma SpliceAtEnd<T>(d: seq<T>, m: seq<T>)
    ensures Splice(d, |d|, m) == d + m
  {
    assert d[..|d|] == d && d[|d|..] == [];
  }

  /** A run placed at the start of a sequence is prepended to it. */
  lemma SpliceAtStart<T>(d: seq<T>, m: seq<T>)
    ensures Splice(d, 0, m) == m + d
  {
    assert d[..0] == [] && d[0..] == d;
  }

  /** Removing a leading run leaves the rest; removing a trailing run
      leaves the start. */
  lemma RemoveEnds<T>(v: seq<T>, k: int)
    requires 0 <= k <= |v|
    ensures RemoveRange(v, 0, k) == v[k..]
    ensures RemoveRange(v, k, |v| - k) == v[..k]
    ensures v[0..k] == v[..k] && v[k..k + (|v| - k)] == v[k..]
    ensures v[..|v|] == v
  {
    assert v[..0] == [] && v[0 + k..] == v[k..];
    assert v[k + (|v| - k)..] == [];
  }

  /** A leading run of `v` moved to the end of `d`: the pair, read in
      order, is unchanged. */
  lemma ShiftLeft<T>(d: seq<T>, v: seq<T>, cnt: int, d': seq<T>, v': seq<T>)
    requires 0 <= cnt <= |v|
    requires d' == Splice(d, |d|, v[0..0 + cnt]) && v' == RemoveRange(v, 0, cnt)
    ensures d' + v' == d + v
  {
    RemoveEnds(v, cnt);
    SpliceAtEnd(d, v[..cnt]);
    assert v == v[..cnt] + v[cnt..];
  }

  /** A trailing run of `v` moved to the start of `d`: the pair, read in
      order, is unchanged. */
  lemma ShiftRight<T>(v: seq<T>, d: seq<T>, k: int, v': seq<T>, d': seq<T>)
    requires 0 <= k <= |v|
    requires v' == RemoveRange(v, k, |v| - k) && d' == Splice(d, 0, v[k..k + (|v| - k)])
    ensures v' + d' == v + d
  {
    RemoveEnds(v, k);
    SpliceAtStart(d, v[k..]);
    assert v == v[..k] + v[k..];
  }
}
