# BTreeVector core, modelled in Dafny

`BTreeVectorImpl` is a sequence container indexed by position. Its
elements are stored in a B+ tree whose every node records the number of
elements in its subtree. A position is resolved by descending from the
root, subtracting the counts of the children passed on the way. Each node
keeps its entries in a `DataBlock`: a bounded, growable array whose live
window can slide inside its allocation, so that an insertion or removal at
index 0 costs nothing. The tree splits full blocks on insertion and merges
or rebalances underfull blocks on removal. It grows and shrinks at the
root. A cached path, stamped with a counter of structural modifications,
serves consecutive accesses to the same leaf without a descent.

The model follows the header `src/BTreeVectorImpl_priv.h`:

- `DataBlocks` (DataBlock.dfy) holds the `DataBlock` class.
  - The class keeps the fields of the source: the allocation `orgBuf`, the offset of the live window (`buf - orgBuf`), `bufSize` and `count`.
  - Its live entries are the ghost `Contents()`.
  - `xmove` and `xreversemove` are element-copy loops over the array.
  - `expand`, `removeRange`, `ensure` and `xrealloc` work on the array in place.
  - `xrealloc` either compacts the window to the front of the same allocation or moves it into a fresh one.
- `Nodes` (Nodes.dfy) defines the tree as a datatype.
  - A node is `Leaf(count, values)` or `Internal(count, children)`, with capacities from `Config` (the two template block sizes, as halves).
  - `Elements` gives the sequence a subtree holds, its leaves from left to right.
  - `Shape` is the structural invariant:
    - counts agree with blocks;
    - no block exceeds its capacity;
    - every non-root block is at least half full;
    - all leaves are at the same depth;
    - an internal root has at least two children.
- `Paths` (Paths.dfy) models `PathNode::findChild` and `Path::getPathNodes`.
  - A path is the sequence of `(childIdx, countedPos)` records from the root down.
  - `PathPos` is the position a path designates.
- `BlockSpec` (BlockSpec.dfy) specifies the block-level steps of `add` and `remove`.
- `Rebalance` (Rebalance.dfy) models `move`, `splitAndInsert` and `mergeBlocksAfterDelete` as operations on node values.
- `Levels` (Levels.dfy) models one iteration of the `do … while` loops of `add` and `remove`.
- `Updates` (Updates.dfy) models the in-place overwrite of `set`.
- `Engine` (Engine.dfy) holds the `BTreeVectorImpl` class.
  - Its fields are `root`, `structModCount` and `cachePath`.
  - It provides `getPath` with its cache, `clear`, `size`, `get`, `set`, both `add`s and `remove`, including the root split and the depth trim.
  - Its methods are proved against `Contents()`, the concatenation of the leaves:
    - `get` is indexing;
    - `add` is insertion;
    - `remove` is deletion;
    - `set` is update at a position.
  - The invariant `Valid()` holds between calls. It requires a well-formed tree, and a cached path that resolves its recorded position whenever its stamp is current.
- `Common` (Common.dfy) holds `Option` and the sequence operations used by every contract: `InsertAt`, `RemoveAt`, `Splice` and `RemoveRange`.

## Model

| member | source | states |
|---|---|---|
| DataBlocks.DataBlock.constructor | src/BTreeVectorImpl_priv.h:40-51 | a new block is empty, with an allocation of `MAX_SIZE / 2` entries and the window at its start; its growth percentage is at least 100, as `Valid()` keeps |
| DataBlocks.DataBlock.Get | src/BTreeVectorImpl_priv.h:62-65 | returns the live entry at `idx` |
| DataBlocks.DataBlock.Size | src/BTreeVectorImpl_priv.h:72-75 | the number of live entries |
| DataBlocks.DataBlock.Append | src/BTreeVectorImpl_priv.h:77-81 | after room is ensured, the live entries are the old ones followed by `e` |
| DataBlocks.DataBlock.Add | src/BTreeVectorImpl_priv.h:83-95 | the live entries become the old ones with `e` inserted at `idx`, on both paths; on the `idx == 0` path with room before the window, the window start moves back by one and the allocation is kept |
| DataBlocks.DataBlock.SlideBack | src/BTreeVectorImpl_priv.h:85-89 | the `idx == 0` path of `add`: the window start moves back one slot into the same allocation, the room grows by one, and the old entries follow a one-slot gap |
| DataBlocks.DataBlock.Set | src/BTreeVectorImpl_priv.h:97-100 | only the entry at `idx` changes, and it becomes `e` |
| DataBlocks.DataBlock.Remove | src/BTreeVectorImpl_priv.h:102-113 | the live entries lose the one at `idx`, on both paths; at `idx == 0` the window start moves forward by one and the array is untouched; the allocation is never replaced |
| DataBlocks.DataBlock.RemoveRange | src/BTreeVectorImpl_priv.h:123-129 | the live entries lose the run `[start, start + cnt)`, the later ones moving down; the allocation, window start and room are unchanged |
| DataBlocks.DataBlock.InsertRange | src/BTreeVectorImpl_priv.h:115-121 | `dst`'s entries become its old entries with this block's run `[from, from + cnt)` spliced in at `to`; this block is unchanged |
| DataBlocks.DataBlock.Receive | src/BTreeVectorImpl_priv.h:115-121 | the destination half of `insertRange`: the run taken from the source array is spliced into the live entries at `to` |
| DataBlocks.NewCapacity | src/BTreeVectorImpl_priv.h:136-137 | the capacity chosen is at least the requested size and at most `MAX_SIZE` (the source's assertion), at least the grown room when that fits under `MAX_SIZE`, and, with a growth of at least 100 percent (both block kinds use 200), never less than the current room |
| DataBlocks.DataBlock.Ensure | src/BTreeVectorImpl_priv.h:132-139 | afterwards `size` entries fit, the room never shrinks, and the live entries are unchanged; nothing changes when they already fit; after growth the window starts the allocation and the room is at least the chosen capacity |
| DataBlocks.DataBlock.Reallocate | src/BTreeVectorImpl_priv.h:141-174 | both branches keep the live entries in order and put the window at the front; compaction keeps the allocation and gains the slack before the window; otherwise a fresh allocation of exactly `newSize` |
| DataBlocks.DataBlock.Expand | src/BTreeVectorImpl_priv.h:186-191 | afterwards `cnt` more entries fit and the live entries are the old ones with a gap of `cnt` slots opened at `from` |
| DataBlocks.OpenGap | src/BTreeVectorImpl_priv.h:189-190 | shifting the tail of a window right by `cnt` leaves the old entries around a gap at `from` |
| DataBlocks.CloseGap | src/BTreeVectorImpl_priv.h:125-128 | shifting the tail after `from + cnt` down leaves the old entries without the run `[from, from + cnt)` |
| DataBlocks.Move | src/BTreeVectorImpl_priv.h:199-203 | the forward copy loop writes the old source run over the destination at `to`, also when both runs lie in one array and the destination is lower |
| DataBlocks.ReverseMove | src/BTreeVectorImpl_priv.h:193-197 | the backward copy loop writes the old run over the same array at a higher index, so overlapping runs move intact |
| Nodes.HalfBlockSize | src/BTreeVectorImpl_priv.h:242-250 | a node's half capacity is at least 2 and exactly half its kind's capacity |
| Nodes.ShapeCount | src/BTreeVectorImpl_priv.h:217 | in a well-formed subtree the recorded count is the number of elements it holds, and every child holds at least one |
| Paths.FindChild | src/BTreeVectorImpl_priv.h:277-315 | on a leaf the slot and the remaining position are `pos`; on an internal node the scan succeeds exactly when the node holds elements; the counts before the chosen child plus the remaining position make `pos`; the remaining position lies inside the child, or at the end of the last child for `pos == count` |
| Paths.LocateUnique | src/BTreeVectorImpl_priv.h:285-312 | the child and remaining position are determined by the counts, so the two scan directions choose the same child |
| Paths.GetPathNodes | src/BTreeVectorImpl_priv.h:334-360 | the descent yields a complete path that designates `pos` and ends on an existing slot (or the end slot when `pos` is the size) |
| Paths.ReachElements | src/BTreeVectorImpl_priv.h:284-311 | the subtree a path prefix reaches holds exactly the slice of all elements starting at the counts passed on the way |
| Paths.ElementAtPath | src/BTreeVectorImpl_priv.h:551-555 | the value in the slot a path designates is the element at the path's position |
| Paths.SlotUnique | src/BTreeVectorImpl_priv.h:509-526 | two paths that resolve the same position agree on every child index, so a cache hit finds the same leaf slot as a fresh descent |
| Paths.ShiftSlot | src/BTreeVectorImpl_priv.h:511-521 | moving the leaf index of a complete path by `diff` within its leaf moves its position by `diff` |
| BlockSpec.SplitAddElements | src/BTreeVectorImpl_priv.h:384-393 | `splitAdd` inserts the value into a leaf's block at `pos`, or the moved-up node into an internal node's children at `pos` |
| Rebalance.Move | src/BTreeVectorImpl_priv.h:470-499 | the entries `[from, from + cnt)` leave `src` and enter `dst` at `to` in order; `dst` gains and `src` loses exactly the elements those entries carry; block bounds and counts stay consistent |
| Rebalance.SplitAndInsert | src/BTreeVectorImpl_priv.h:395-417 | a split happens exactly when the block is full; without one the node is the block with the pending entry inserted at its index; with one the two nodes hold, in order, the block's entries with the pending entry inserted, the first keeping `HALF` of them plus the pending entry when its index is below `HALF`; both halves are at least half full, hold the node's elements with the entry inserted, and their counts sum to the node's |
| Rebalance.SplitFull | src/BTreeVectorImpl_priv.h:404-417 | a full block keeps its lower half, the new sibling takes the upper `csize - HALF` entries, and the pending entry goes into the half that holds its index, its count moving with it when that is the new node |
| Rebalance.MoveUpperHalf | src/BTreeVectorImpl_priv.h:407-408 | the new node gets the entries from `HALF` on, and the old node keeps the rest with its count reduced by theirs |
| Rebalance.MergeBlocksAfterDelete | src/BTreeVectorImpl_priv.h:430-468 | a repair happens exactly when the child is below half, and otherwise the children are unchanged; the repair is the first that applies, in the source's order: merge into the left sibling when both fit in one block, else merge the right sibling in when both fit, else borrow from the right sibling when it is above half, else borrow from the left; each is stated as `MergedLeft`, `MergedRight`, `BorrowedRight` or `BorrowedLeft`, which say which entries moved where and that every other child keeps its place; the children hold the same elements and total count, each at least half full |
| Rebalance.MergeLeft | src/BTreeVectorImpl_priv.h:437-443 | the child is gone, its entries follow its left sibling's in one node whose count is both counts, every other child keeps its place, and the elements, the total count and the occupancy bounds are kept |
| Rebalance.MergeRight | src/BTreeVectorImpl_priv.h:444-450 | the right sibling is gone, its entries follow the child's in one node whose count is both counts, every other child keeps its place, and the elements, the total count and the occupancy bounds are kept |
| Rebalance.BorrowRight | src/BTreeVectorImpl_priv.h:452-459 | exactly `max(HALF - size, (right - HALF) / 2)` entries move from the front of the right sibling to the end of the child, with their count; every other child keeps its place; the elements, the total count and the occupancy bounds are kept |
| Rebalance.TakeFromRight | src/BTreeVectorImpl_priv.h:456-457 | the first `cnt` entries of the right sibling move, in order, to the end of the child with the count they carry, so the child grows and the sibling shrinks by `cnt`; both stay at least half full and the pair keeps its elements and counts |
| Rebalance.BorrowLeft | src/BTreeVectorImpl_priv.h:460-466 | exactly `max(HALF - size, (left - HALF) / 2)` entries move from the end of the left sibling to the front of the child, with their count; every other child keeps its place; the elements, the total count and the occupancy bounds are kept |
| Rebalance.TakeFromLeft | src/BTreeVectorImpl_priv.h:463-464 | the last `cnt` entries of the left sibling move, in order, to the front of the child with the count they carry, so the child grows and the sibling shrinks by `cnt`; both stay at least half full and the pair keeps its elements and counts |
| Levels.AddLevel | src/BTreeVectorImpl_priv.h:579-585 | one iteration of add's loop: the node counts one more and, with what the level below passed up, holds its old elements with `e` inserted; a leaf splits exactly when it is full, an internal node exactly when it receives a moved-up sibling and is full; with no split the steps still designate the position |
| Levels.AddToLeaf | src/BTreeVectorImpl_priv.h:581-583 | at the leaf the value is inserted at its slot, with a split exactly when the leaf is full |
| Levels.AddMovedUp | src/BTreeVectorImpl_priv.h:582-583 | a node whose child split takes the updated child back and the moved-up sibling just after it, and splits exactly when its block was full; its children (both halves together, the first keeping `HALF` plus the new one if it falls there, after a split) are the old ones with the child replaced and the sibling inserted after it; the level stays well formed with the value added at its position |
| Levels.RemoveLevel | src/BTreeVectorImpl_priv.h:594-599 | one iteration of remove's loop: the parent counts one less, its child on the path is repaired exactly when repairs are still running and the child is below half, and the parent holds its old elements without the removed one |
| Levels.LeafShrunk | src/BTreeVectorImpl_priv.h:591 | removing the slot from the leaf's block removes exactly the element at that position |
| Levels.RootGrown | src/BTreeVectorImpl_priv.h:419-426 | a new root over the two halves of a split root is well formed one level higher, counts their sum and holds their elements in order |
| Levels.TrimStep | src/BTreeVectorImpl_priv.h:602-608 | an internal root with a single child can be replaced by that child: it is well formed as a root one level lower and holds the same elements |
| Updates.Replace | src/BTreeVectorImpl_priv.h:563-567 | overwriting a slot changes no count, no node kind and no block size |
| Updates.ReplaceElements | src/BTreeVectorImpl_priv.h:563-567 | the sequence after the overwrite is the old one with exactly the element at the path's position replaced |
| Updates.ReplaceShape | src/BTreeVectorImpl_priv.h:563-567 | the overwrite keeps the structural invariant |
| Updates.ReplaceKeepsPaths | src/BTreeVectorImpl_priv.h:509-523 | every complete path designates the same position, in a leaf of the same size, after the overwrite, so a current cache stays valid |
| Engine.BTreeVectorImpl.constructor | src/BTreeVectorImpl_priv.h:529-532 | a new vector is a single empty leaf with no structural modification yet and a cache that is not current |
| Engine.BTreeVectorImpl.Size | src/BTreeVectorImpl_priv.h:546-549 | the root's count is the number of elements |
| Engine.BTreeVectorImpl.GetPath | src/BTreeVectorImpl_priv.h:501-527 | fails exactly when `pos < 0` or `pos >= size + fromAdd`, leaving the cache as it was; otherwise the cache is current, at `pos`, and resolves `pos`, from a cache hit in the same leaf or from a fresh descent |
| Engine.BTreeVectorImpl.Get | src/BTreeVectorImpl_priv.h:551-555 | succeeds exactly for a position inside the sequence, with the element at that position; no structural modification |
| Engine.BTreeVectorImpl.Set | src/BTreeVectorImpl_priv.h:563-567 | succeeds exactly for a position inside the sequence; the sequence becomes the old one with the element at `pos` replaced; no structural modification, and the cache stays current at `pos` |
| Engine.BTreeVectorImpl.Clear | src/BTreeVectorImpl_priv.h:539-544 | the vector becomes empty, a single leaf, and the structural modification count grows by one |
| Engine.BTreeVectorImpl.Append | src/BTreeVectorImpl_priv.h:569-572 | the sequence becomes the old one followed by `e` |
| Engine.BTreeVectorImpl.Add | src/BTreeVectorImpl_priv.h:574-586 | succeeds exactly for `0 <= pos <= size`, inserting `e` at `pos`; a failure changes neither the elements, the tree, its height, the cache nor the counter; on success the counter grows by two for each block in the unbroken run of full blocks on the path counted up from the leaf (`FullRun`), and the tree grows by a level exactly when every block on the path was full (`AllFull`); no structural modification happens exactly when the leaf was not full, and then the cache stays current at `pos` |
| Engine.BTreeVectorImpl.Insert | src/BTreeVectorImpl_priv.h:418-426 | after the loop the splits are the run of full blocks from the leaf up (`FullRun`); the height grows by one exactly when every block on the path was full, and then the root is a new internal node with exactly two children whose counts add up to its own; the tree stays well formed and holds the old elements with `e` at `pos`; without a split the height and the path are kept |
| Engine.BTreeVectorImpl.AddAlong | src/BTreeVectorImpl_priv.h:579-585 | add's loop from the leaf to the root: the old root has grown by `e` at `pos`; the number of splits is `FullRun`, the unbroken run of full blocks on the path counted up from the leaf, and the counter grows by two per split; a sibling moves up out of the root exactly when every block on the path was full |
| Engine.BTreeVectorImpl.Remove | src/BTreeVectorImpl_priv.h:588-609 | succeeds exactly for a position inside the sequence, removing the element at `pos`; a failure changes neither the elements, the tree, its height, the cache nor the counter; the counter never decreases, grows by at most two per level of the old tree, and stays put exactly when the leaf was the root or held more than half its capacity; the height never grows; with no structural modification the height and the current cache at `pos` are kept |
| Engine.BTreeVectorImpl.RemoveAlong | src/BTreeVectorImpl_priv.h:591-600 | remove's loop from the leaf to the root: the old root has lost the element at `pos`; the counter grows by one per repair, at most one per level below the root; a repair happens at all exactly when the leaf is not the root and held exactly half its capacity; each level is repaired only while the level below was (see `Levels.RemoveLevel`) |
| Engine.BTreeVectorImpl.TrimRoot | src/BTreeVectorImpl_priv.h:601-608 | the depth trim leaves a root that is a leaf or has at least two children, with the same elements, one structural modification per level lost |
| Common.RemoveInserted | src/BTreeVectorImpl_priv.h:574-609 | sequence law behind the contents contracts of `add` (`InsertAt`) and `remove` (`RemoveAt`): removing at the position of an insertion gives back the sequence before it, so a remove at the index of an add restores the vector |

## Left out

- Memory management is not modelled: `malloc`, `realloc`, `free`, `new[]`, `delete[]`, destructors and `deleteNodes`. An allocation is a Dafny array; a reallocation is a fresh array holding the moved entries; pointer arithmetic on `buf` is the offset `start`.
- The `BT_IS_TRIVIAL` split between `memmove` and the element-wise loops is not modelled: both are the same copy loops (`Move` forward, `ReverseMove` backward). `memmove` of overlapping runs gives the same result.
- Tree nodes are datatype values, not heap objects. Each `add` and `remove` rebuilds the nodes on the path bottom-up in the same loops that the source uses to change them in place. The aliasing of nodes by pointers is therefore not captured.
- The engine's nodes hold their blocks as sequences, and the `DataBlock` class is verified on its own. The window slide at index 0, and the capacity of a block as distinct from its occupancy, are therefore not seen by the tree.
- The `PathNode` chain reused between descents (`nextDown`, `parent`, `childNode`) is not modelled. A path is a sequence of `(childIdx, countedPos)` records, rebuilt on a miss.
- `std::cerr` output and the bare `throw;` are not modelled. A position out of range gives a failure result: `ok == false` or `None`.
- `operator[]` is modelled as `Get`: the mutable reference it returns, and `getRef`, are not modelled.
- Engine.BTreeVectorImpl.Set: returns only whether the position was valid. In the source `set` returns the result of `DataBlock::set`, which is `void`, so the member cannot compile once instantiated; no returned value is modelled.
- Integer widths are not modelled: `int` overflow of counts, positions and `bufSize * INCREASE_PRC` is assumed not to happen, and `size()`'s conversion to `unsigned` is an integer.
- The template parameters are a `Config` value of two half sizes, each at least 2. The source's `static_assert` asks for even sizes of at least 4, which is the same condition. The element type's default value stands for an array slot not yet written.
- `src/BTreeVector.h`, the forwarding facade, is not part of this model. Neither is `src/Test.cpp`, the randomized timing test program.
- Engine.BTreeVectorImpl.RemoveAlong: the exact number of repairs is not stated as a function of the old tree. Above the leaf, whether a level needs a repair depends on whether the level below merged or borrowed, which depends on sibling sizes at every level. The contract bounds the number, says exactly when it is zero, and `Levels.RemoveLevel` says when each level repairs. `Engine.BTreeVectorImpl.Remove` inherits the same bound.
- DataBlocks.DataBlock.Append: requires a block holding fewer than `MAX_SIZE` entries, as the assertion in `ensure` does. What a build without assertions does with a full block (a write past the allocation) is not modelled. `Add`, `InsertRange` and `Ensure` require the same.
