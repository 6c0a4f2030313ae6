/** The growable buffer behind every tree node (`DataBlock` in
    src/BTreeVectorImpl_priv.h).  A block owns one allocation `orgBuf`; its
    live entries are the window of `count` slots starting `start` slots into
    that allocation (`buf - orgBuf` in the source), and `bufSize` is the
    room left from `buf` to the end of the allocation.  Removing the first
    entry only slides the window forward, and inserting at the front slides
    it back while there is room before it. */
module DataBlocks {
  import opened Common

  /** The capacity `ensure` asks for when `size` entries no longer fit in
      `bufSize`: the requested size or `increasePrc` percent of the current
      room, whichever is larger, but never more than `maxSize`. */
  function NewCapacity(size: int, bufSize: int, increasePrc: int, maxSize: int): (r: int)
    ensures size <= maxSize ==> size <= r <= maxSize
    ensures bufSize * increasePrc / 100 <= maxSize ==> bufSize * increasePrc / 100 <= r
    ensures 0 <= bufSize <= maxSize && 100 <= increasePrc ==> bufSize <= r
  {
    Min(maxSize, Max(size, bufSize * increasePrc / 100))
  }

  /** `d` with the run `m` written over it from index `to` on. */
  function Overwrite<T>(d: seq<T>, to: int, m: seq<T>): (r: seq<T>)
    requires 0 <= to && to + |m| <= |d|
    ensures |r| == |d|
  {
    d[..to] + m + d[to + |m|..]
  }

  /** The window `w` holds `c` with a gap of `cnt` arbitrary slots at `at`. */
  ghost predicate Gapped<T>(w: seq<T>, c: seq<T>, at: int, cnt: int)
  {
    0 <= at <= |c| && 0 <= cnt && |w| == |c| + cnt
    && w[..at] == c[..at] && w[at + cnt..] == c[at..]
  }

  /** `xmove`: copies `cnt` entries, front to back, from `src[from..]` to
      `dst[to..]`.  Either the arrays differ or the destination lies below
      the source, so no entry is overwritten before it is read. */
  method Move<T>(src: array<T>, from: int, dst: array<T>, to: int, cnt: int)
    requires 0 <= cnt && 0 <= from && from + cnt <= src.Length && 0 <= to && to + cnt <= dst.Length
    requires src != dst || to <= from
    modifies dst
    ensures dst[..] == Overwrite(old(dst[..]), to, old(src[..])[from..from + cnt])
  {
    var i := 0;
    while i < cnt
      invariant 0 <= i <= cnt
      invariant forall k :: to <= k < to + i ==> dst[k] == old(src[k - to + from])
      invariant forall k :: 0 <= k < dst.Length && !(to <= k < to + i) ==> dst[k] == old(dst[k])
      invariant forall k :: from + i <= k < from + cnt ==> src[k] == old(src[k])
    {
      dst[to + i] := src[from + i];
      i := i + 1;
    }
    ghost var r := Overwrite(old(dst[..]), to, old(src[..])[from..from + cnt]);
    assert forall k :: 0 <= k < dst.Length ==> dst[..][k] == r[k];
  }

  /** `xreversemove` within one array: copies `cnt` entries, back to front,
      from `a[from..]` to `a[to..]` with the destination above the source,
      so no entry is overwritten before it is read. */
  method ReverseMove<T>(a: array<T>, from: int, to: int, cnt: int)
    requires 0 <= cnt && 0 <= from <= to && to + cnt <= a.Length
    modifies a
    ensures a[..] == Overwrite(old(a[..]), to, old(a[..])[from..from + cnt])
  {
    var n := cnt;
    while n > 0
      invariant 0 <= n <= cnt
      invariant forall k :: to + n <= k < to + cnt ==> a[k] == old(a[k - to + from])
      invariant forall k :: 0 <= k < a.Length && !(to + n <= k < to + cnt) ==> a[k] == old(a[k])
    {
      n := n - 1;
      a[to + n] := a[from + n];
    }
    ghost var r := Overwrite(old(a[..]), to, old(a[..])[from..from + cnt]);
    assert forall k :: 0 <= k < a.Length ==> a[..][k] == r[k];
  }

  /** The guarded `xmemmove` of `expand`: in the window of `n` entries at
      `s`, the entries from `from` on move up by `cnt`, leaving a gap. */
  method OpenGap<T>(a: array<T>, s: int, n: int, from: int, cnt: int)
    requires 0 <= s && 0 <= from <= n && 0 <= cnt && s + n + cnt <= a.Length
    modifies a
    ensures Gapped(a[..][s..s + n + cnt], old(a[..][s..s + n]), from, cnt)
  {
    ghost var d := a[..];
    if from < n {
      ReverseMove(a, s + from, s + from + cnt, n - from);
      OpenedWindow(d, s, n, from, cnt, a[..], a[..][s..s + n + cnt], d[s..s + n]);
    } else {
      GapAtEnd(d, s, n, cnt, a[..][s..s + n + cnt], d[s..s + n]);
    }
  }

  /** The guarded `xmemmove` of `removeRange`: in the window of `n`
      entries at `s`, the entries after the run of `cnt` at `from` move
      down onto it. */
  method CloseGap<T>(a: array<T>, s: int, n: int, from: int, cnt: int)
    requires 0 <= s && 0 <= from && 0 <= cnt && from + cnt <= n && s + n <= a.Length
    modifies a
    ensures a[..][s..s + n - cnt] == RemoveRange(old(a[..][s..s + n]), from, cnt)
  {
    ghost var d := a[..];
    ClosedWindow(d, s, n, from, cnt);
    var end := from + cnt;
    if end < n {
      Move(a, s + end, a, s + from, n - end);
    } else {
      assert Overwrite(d, s + from, d[s + end..s + n]) == d;
    }
  }

  /** Writes `e` into the one-slot gap at `i` of the window at `s`. */
  method FillSlot<T>(a: array<T>, s: int, ghost c: seq<T>, i: int, e: T)
    requires 0 <= s && s + |c| + 1 <= a.Length && Gapped(a[..][s..s + |c| + 1], c, i, 1)
    modifies a
    ensures a[..][s..s + |c| + 1] == InsertAt(c, i, e)
  {
    FillGap(a[..], s, c, i, e);
    a[s + i] := e;
  }

  /** The `xmemmove` of `insertRange`: copies `cnt` entries of `src` from
      `from` on into the gap of the same length at `to` in the window of
      `dst` at `s`. */
  method FillRunFrom<T>(src: array<T>, from: int, dst: array<T>, s: int, ghost c: seq<T>, to: int, cnt: int)
    requires src != dst && 0 <= from && 0 <= cnt && from + cnt <= src.Length
    requires 0 <= s && s + |c| + cnt <= dst.Length && Gapped(dst[..][s..s + |c| + cnt], c, to, cnt)
    modifies dst
    ensures dst[..][s..s + |c| + cnt] == Splice(c, to, src[..][from..from + cnt])
  {
    ghost var d := dst[..];
    Move(src, from, dst, s + to, cnt);
    FillRun(d, s, c, to, src[..][from..from + cnt], dst[..], dst[..][s..s + |c| + cnt]);
  }

  /** A run written at `to` is read back at `to`. */
  lemma OverwriteRun<T>(d: seq<T>, to: int, m: seq<T>)
    requires 0 <= to && to + |m| <= |d|
    ensures Overwrite(d, to, m)[to..to + |m|] == m
  {
    var r := Overwrite(d, to, m);
    assert forall k :: 0 <= k < |m| ==> r[to..to + |m|][k] == m[k];
  }

  /** Moving the entries after a run of `cnt` down onto the run removes it
      from the window `d[s..s + n]`. */
  lemma ClosedWindow<T>(d: seq<T>, s: int, n: int, from: int, cnt: int)
    requires 0 <= s && 0 <= from && 0 <= cnt && from + cnt <= n && s + n <= |d|
    ensures Overwrite(d, s + from, d[s + from + cnt..s + n])[s..s + n - cnt]
            == RemoveRange(d[s..s + n], from, cnt)
  {
    var r := Overwrite(d, s + from, d[s + from + cnt..s + n]);
    var c := d[s..s + n];
    assert forall k :: 0 <= k < n - cnt ==> r[s..s + n - cnt][k] == RemoveRange(c, from, cnt)[k];
  }

  /** Moving the entries from `from` on up by `cnt` opens a gap of `cnt`
      slots at `from` in the window `d[s..s + n]`. */
  lemma OpenedWindow<T>(d: seq<T>, s: int, n: int, from: int, cnt: int, d': seq<T>, w: seq<T>, c: seq<T>)
    requires 0 <= s && 0 <= from <= n && 0 <= cnt && s + n + cnt <= |d|
    requires c == d[s..s + n] && d' == Overwrite(d, s + from + cnt, d[s + from..s + from + (n - from)])
    requires w == d'[s..s + n + cnt]
    ensures Gapped(w, c, from, cnt)
  {
    assert forall k :: 0 <= k < from ==> w[..from][k] == c[..from][k];
    assert forall k :: 0 <= k < n - from ==> w[from + cnt..][k] == c[from..][k];
  }

  /** A window that already ends at `n` has a gap of `cnt` at its end. */
  lemma GapAtEnd<T>(d: seq<T>, s: int, n: int, cnt: int, w: seq<T>, c: seq<T>)
    requires 0 <= s && 0 <= n && 0 <= cnt && s + n + cnt <= |d|
    requires c == d[s..s + n] && w == d[s..s + n + cnt]
    ensures Gapped(w, c, n, cnt)
  {
  }

  /** Filling a one-slot gap at `i` with `e` inserts `e` at `i`. */
  lemma FillGap<T>(d: seq<T>, s: int, c: seq<T>, i: int, e: T)
    requires 0 <= s && s + |c| + 1 <= |d| && Gapped(d[s..s + |c| + 1], c, i, 1)
    ensures d[s + i := e][s..s + |c| + 1] == InsertAt(c, i, e)
  {
    var w := d[s + i := e][s..s + |c| + 1];
    assert w[..i] == c[..i] && w[i + 1..] == c[i..];
    assert w == w[..i] + [e] + w[i + 1..];
  }

  /** Writing the run `m` into a gap of its own length splices it in. */
  lemma FillRun<T>(d: seq<T>, s: int, c: seq<T>, to: int, m: seq<T>, d': seq<T>, w: seq<T>)
    requires 0 <= s && s + |c| + |m| <= |d| && Gapped(d[s..s + |c| + |m|], c, to, |m|)
    requires d' == Overwrite(d, s + to, m) && w == d'[s..s + |c| + |m|]
    ensures w == Splice(c, to, m)
  {
    var g := d[s..s + |c| + |m|];
    forall k | 0 <= k < |w|
      ensures w[k] == Splice(c, to, m)[k]
    {
      if k < to {
        assert w[k] == g[k] == g[..to][k];
      } else if k < to + |m| {
        assert w[k] == m[k - to];
      } else {
        assert w[k] == g[k] == g[to + |m|..][k - to - |m|];
      }
    }
  }

  class DataBlock<T(0)> {
    /** `MAX_SIZE`: the most entries a block may ever hold. */
    const maxSize: int
    /** `INCREASE_PRC`: how much a full block grows, in percent. */
    const increasePrc: int
    /** The allocation (`orgBuf`). */
    var orgBuf: array<T>
    /** Where the live window begins in the allocation (`buf - orgBuf`). */
    var start: int
    /** Room from the start of the window to the end of the allocation. */
    var bufSize: int
    var count: int

    ghost predicate Valid()
      reads this
    {
      0 <= start && 0 <= count <= bufSize
      && start + bufSize == orgBuf.Length <= maxSize
      && 100 <= increasePrc
    }

    /** The live entries, in order. */
    ghost function Contents(): seq<T>
      reads this, orgBuf
      requires Valid()
    {
      orgBuf[..][start..start + count]
    }

    constructor(maxSize: int, increasePrc: int)
      requires 0 <= maxSize && 100 <= increasePrc
      ensures Valid() && Contents() == []
      ensures this.maxSize == maxSize && this.increasePrc == increasePrc
      ensures bufSize == maxSize / 2 && start == 0
    {
      this.maxSize := maxSize;
      this.increasePrc := increasePrc;
      orgBuf := new T[maxSize / 2];
      start := 0;
      bufSize := maxSize / 2;
      count := 0;
    }

    method Get(idx: int) returns (e: T)
      requires Valid() && 0 <= idx < |Contents()|
      ensures e == Contents()[idx]
    {
      e := orgBuf[start + idx];
    }

    method Size() returns (n: int)
      requires Valid()
      ensures n == |Contents()|
    {
      n := count;
    }

    /** Overwrites one entry in place. */
    method Set(idx: int, e: T)
      requires Valid() && 0 <= idx < count
      modifies orgBuf
      ensures Valid() && Contents() == old(Contents())[idx := e]
    {
      orgBuf[start + idx] := e;
      assert Contents()[idx] == e;
    }

    /** Appends at the end (`add(element)`); the source's `ensure` asserts
        that the block never grows past `maxSize`. */
    method Append(e: T)
      requires Valid() && count < maxSize
      modifies this, orgBuf
      ensures Valid() && Contents() == old(Contents()) + [e]
    {
      ghost var c := Contents();
      Ensure(count + 1);
      GapAtEnd(orgBuf[..], start, count, 1, orgBuf[..][start..start + count + 1], c);
      FillSlot(orgBuf, start, c, count, e);
      count := count + 1;
      assert Contents() == InsertAt(c, |c|, e);
    }

    /** Inserts at `idx` (`add(idx, element)`): at the front of a window
        with free room before it the window slides back one slot,
        otherwise the entries from `idx` on move up one slot. */
    method Add(idx: int, e: T)
      requires Valid() && 0 <= idx <= count && count < maxSize
      modifies this, orgBuf
      ensures Valid() && Contents() == InsertAt(old(Contents()), idx, e)
      ensures idx == 0 && old(start) > 0 ==> orgBuf == old(orgBuf) && start == old(start) - 1
    {
      ghost var c := Contents();
      if idx == 0 && start > 0 {
        SlideBack();
      } else {
        Expand(idx, 1);
      }
      FillSlot(orgBuf, start, c, idx, e);
      count := count + 1;
    }

    /** The window slides back one slot into the room before it, which
        leaves a gap in front of the live entries. */
    method SlideBack()
      requires Valid() && start > 0
      modifies this
      ensures Valid() && orgBuf == old(orgBuf) && count == old(count)
      ensures start == old(start) - 1 && bufSize == old(bufSize) + 1
      ensures Gapped(orgBuf[..][start..start + count + 1], old(Contents()), 0, 1)
    {
      start := start - 1;
      bufSize := bufSize + 1;
    }

    /** Removes entry `idx` (`remove`): the first entry is dropped by
        sliding the window forward, any other by `RemoveRange`. */
    method Remove(idx: int)
      requires Valid() && 0 <= idx < count
      modifies this, orgBuf
      ensures Valid() && Contents() == RemoveAt(old(Contents()), idx)
      ensures orgBuf == old(orgBuf)
      ensures idx == 0 ==> start == old(start) + 1 && unchanged(orgBuf)
    {
      if idx == 0 {
        start := start + 1;
        bufSize := bufSize - 1;
        count := count - 1;
      } else {
        RemoveRange(idx, 1);
      }
    }

    /** Removes the `cnt` entries starting at `from` (`removeRange`); the
        entries after them move down. */
    method RemoveRange(from: int, cnt: int)
      requires Valid() && 0 <= from && 0 <= cnt && from + cnt <= count
      modifies this, orgBuf
      ensures Valid() && Contents() == Common.RemoveRange(old(Contents()), from, cnt)
      ensures orgBuf == old(orgBuf) && start == old(start) && bufSize == old(bufSize)
    {
      CloseGap(orgBuf, start, count, from, cnt);
      count := count - cnt;
    }

    /** Moves `cnt` entries of this block, starting at `from`, into `dst`
        at `to` (`insertRange`); this block is left as it was. */
    method InsertRange(dst: DataBlock<T>, from: int, to: int, cnt: int)
      requires Valid() && dst.Valid() && dst != this && dst.orgBuf != orgBuf
      requires 0 <= from && 0 <= cnt && from + cnt <= count
      requires 0 <= to <= dst.count && dst.count + cnt <= dst.maxSize
      modifies dst, dst.orgBuf
      ensures dst.Valid() && dst.Contents() == Splice(old(dst.Contents()), to, Contents()[from..from + cnt])
      ensures Valid() && Contents() == old(Contents())
    {
      Subslice(orgBuf[..], start, start + count, from, from + cnt);
      dst.Receive(orgBuf, start + from, to, cnt);
    }

    /** The destination's half of `insertRange`: opens a gap of `cnt` at
        `to` and copies the run of `src` starting at `from` into it. */
    method Receive(src: array<T>, from: int, to: int, cnt: int)
      requires Valid() && src != orgBuf && 0 <= from && 0 <= cnt && from + cnt <= src.Length
      requires 0 <= to <= count && count + cnt <= maxSize
      modifies this, orgBuf
      ensures Valid() && Contents() == Splice(old(Contents()), to, src[..][from..from + cnt])
    {
      ghost var c := Contents();
      Expand(to, cnt);
      FillRunFrom(src, from, orgBuf, start, c, to, cnt);
      count := count + cnt;
    }

    /** Makes room for `size` entries (`ensure`).  The source asserts the
        new capacity reaches `size`, which holds because no block is ever
        asked to hold more than `maxSize` entries. */
    method Ensure(size: int)
      requires Valid() && size <= maxSize
      modifies this, orgBuf
      ensures Valid() && Contents() == old(Contents())
      ensures size <= bufSize && old(bufSize) <= bufSize && count == old(count)
      ensures old(size <= bufSize) ==> orgBuf == old(orgBuf) && start == old(start) && bufSize == old(bufSize)
      ensures old(bufSize) < size ==> start == 0 && NewCapacity(size, old(bufSize), increasePrc, maxSize) <= bufSize
      ensures orgBuf == old(orgBuf) || fresh(orgBuf)
    {
      if size <= bufSize {
        return;
      }
      var newSize := NewCapacity(size, bufSize, increasePrc, maxSize);
      Reallocate(newSize);
    }

    /** `xrealloc`: when the allocation already has `newSize` slots counted
        from its own start, the window is moved down to that start;
        otherwise a fresh allocation of `newSize` slots takes the entries. */
    method Reallocate(newSize: int)
      requires Valid() && count <= newSize <= maxSize
      modifies this, orgBuf
      ensures Valid() && Contents() == old(Contents()) && start == 0 && count == old(count)
      ensures old(start + bufSize) >= newSize ==> orgBuf == old(orgBuf) && bufSize == old(start + bufSize)
      ensures old(start + bufSize) < newSize ==> fresh(orgBuf) && bufSize == newSize
    {
      ghost var c := Contents();
      if start + bufSize >= newSize {
        OverwriteRun(orgBuf[..], 0, c);
        Move(orgBuf, start, orgBuf, 0, count);
        bufSize := bufSize + start;
        start := 0;
      } else {
        var newBuf := new T[newSize];
        OverwriteRun(newBuf[..], 0, c);
        Move(orgBuf, start, newBuf, 0, count);
        orgBuf := newBuf;
        start := 0;
        bufSize := newSize;
      }
      assert Contents() == orgBuf[..][0..count];
    }

    /** Opens a gap of `cnt` slots at `from` (`expand`): ensures room for
        `count + cnt` entries, then moves the entries from `from` on up by
        `cnt`.  `count` is unchanged; the gap holds arbitrary entries. */
    method Expand(from: int, cnt: int)
      requires Valid() && 0 <= from <= count && 0 <= cnt && count + cnt <= maxSize
      modifies this, orgBuf
      ensures Valid() && count == old(count) && count + cnt <= bufSize
      ensures Gapped(orgBuf[..][start..start + count + cnt], old(Contents()), from, cnt)
      ensures orgBuf == old(orgBuf) || fresh(orgBuf)
    {
      Ensure(count + cnt);
      OpenGap(orgBuf, start, count, from, cnt);
    }
  }
}
