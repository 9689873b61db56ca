// `shiftBlocks` of myfilesys.c: a memmove over the block device, made with two
// one-block buffers whose cursors cross block boundaries at different times.

module ShiftBlocks {
  import opened Disk

  // The specification: byte k of an image out of which the n bytes at s were
  // cut, the rest slid left and the tail zero-filled.
  function CutByte(img: Image, s: nat, n: nat, k: nat): Byte
    requires k < |img|
  {
    if k < s then img[k]
    else if k + n < |img| then img[k + n]
    else 0
  }

  function Cut(img: Image, s: nat, n: nat): (r: Image)
    ensures |r| == |img|
    ensures forall k :: 0 <= k < |r| ==> r[k] == CutByte(img, s, n, k)
  {
    seq(|img|, k requires 0 <= k < |img| => CutByte(img, s, n, k))
  }

  // The closed form of the specification: what lies before the cut, what lies
  // after it, and zeros.
  lemma CutIsSplice(img: Image, s: nat, n: nat)
    ensures s + n <= |img| ==> Cut(img, s, n) == img[..s] + img[s + n..] + seq(n, _ => 0)
    ensures s <= |img| < s + n ==> Cut(img, s, n) == img[..s] + seq(|img| - s, _ => 0)
    ensures |img| < s ==> Cut(img, s, n) == img
  {
  }

  lemma CutKeepsLowerHalf(img: Image, s: nat, n: nat)
    requires |img| == DISK_BYTES && DISK_BYTES / 2 <= s
    ensures SameLowerHalf(img, Cut(img, s, n))
  {
  }

  lemma CutNothing(img: Image, s: nat)
    ensures Cut(img, s, 0) == img
  {
  }

  // The bytes below `limit` are those of the finished image `goal`, the others
  // are still those of `img`.
  ghost predicate Progress(cur: Image, goal: Image, img: Image, limit: nat) {
    && |cur| == |goal| == |img| == DISK_BYTES
    && (forall k :: 0 <= k < limit && k < DISK_BYTES ==> cur[k] == goal[k])
    && (forall k :: limit <= k < DISK_BYTES ==> cur[k] == img[k])
  }

  // The first `len` bytes of a buffer are those of one block of `img`.
  ghost predicate Holds(buf: seq<Byte>, img: Image, block: nat, len: nat) {
    && |buf| == BLOCK_SIZE && |img| == DISK_BYTES && len <= BLOCK_SIZE
    && (block < DISK_BLOCKS ==> forall t :: 0 <= t < len ==> buf[t] == img[block * BLOCK_SIZE + t])
  }

  lemma WriteFinished(cur: Image, goal: Image, img: Image, block: nat, buf: seq<Byte>)
    requires Progress(cur, goal, img, block * BLOCK_SIZE) && block < DISK_BLOCKS
    requires Holds(buf, goal, block, BLOCK_SIZE)
    ensures Progress(Overwrite(cur, block, buf), goal, img, (block + 1) * BLOCK_SIZE)
  {
  }

  lemma WriteBack(cur: Image, goal: Image, img: Image, limit: nat, block: nat, buf: seq<Byte>)
    requires Progress(cur, goal, img, limit) && limit <= block * BLOCK_SIZE && block < DISK_BLOCKS
    requires Holds(buf, img, block, BLOCK_SIZE)
    ensures Overwrite(cur, block, buf) == cur
  {
  }

  // The inner `memcpy`.
  method CopyRun(buffer1: array<Byte>, offset1: nat, buffer2: array<Byte>, offset2: nat, numCopy: nat,
                 ghost img: Image, ghost s: nat, ghost n: nat, ghost block1: nat, ghost block2: nat)
    requires buffer1 != buffer2 && |img| == DISK_BYTES && block1 <= block2 < DISK_BLOCKS
    requires offset1 + numCopy <= BLOCK_SIZE && offset2 + numCopy <= BLOCK_SIZE
    requires s <= block1 * BLOCK_SIZE + offset1
    requires block1 * BLOCK_SIZE + offset1 + n == block2 * BLOCK_SIZE + offset2
    requires Holds(buffer1[..], Cut(img, s, n), block1, offset1) && Holds(buffer2[..], img, block2, BLOCK_SIZE)
    modifies buffer1
    ensures Holds(buffer1[..], Cut(img, s, n), block1, offset1 + numCopy)
  {
    forall t | 0 <= t < numCopy {
      buffer1[offset1 + t] := buffer2[offset2 + t];
    }
    forall t | 0 <= t < offset1 + numCopy
      ensures buffer1[t] == Cut(img, s, n)[block1 * BLOCK_SIZE + t]
    {
      if t >= offset1 {
        assert buffer1[offset1 + (t - offset1)] == buffer2[offset2 + (t - offset1)];
        assert buffer2[..][offset2 + (t - offset1)] == img[block1 * BLOCK_SIZE + t + n];
      } else {
        assert buffer1[t] == old(buffer1[..])[t];
      }
    }
  }

  // The target cursor has reached the end of its block: write the block and
  // fetch the next one.
  method NextTarget(disk: VirtualDisk, buffer1: array<Byte>, block1: nat, ghost img: Image, ghost goal: Image)
    returns (next: nat)
    requires disk.Valid() && disk.active && block1 < DISK_BLOCKS && buffer1.Length == BLOCK_SIZE
    requires Progress(disk.image, goal, img, block1 * BLOCK_SIZE) && Holds(buffer1[..], goal, block1, BLOCK_SIZE)
    modifies disk`image, buffer1
    ensures disk.Valid() && next == block1 + 1
    ensures Progress(disk.image, goal, img, next * BLOCK_SIZE)
  {
    WriteFinished(disk.image, goal, img, block1, buffer1[..]);
    var r := disk.BlockWrite(block1, buffer1);
    next := block1 + 1;
    r := disk.BlockRead(next, buffer1);
  }

  // The source cursor has reached the end of its block: write back what was
  // read (which changes nothing) and fetch the next block.
  method NextSource(disk: VirtualDisk, buffer2: array<Byte>, block2: nat, ghost limit: nat, ghost img: Image, ghost goal: Image)
    returns (next: nat)
    requires disk.Valid() && disk.active && block2 < DISK_BLOCKS && buffer2.Length == BLOCK_SIZE
    requires Progress(disk.image, goal, img, limit)
    requires limit <= block2 * BLOCK_SIZE && Holds(buffer2[..], img, block2, BLOCK_SIZE)
    modifies disk`image, buffer2
    ensures disk.Valid() && disk.image == old(disk.image) && next == block2 + 1
    ensures Holds(buffer2[..], img, next, BLOCK_SIZE)
  {
    WriteBack(disk.image, goal, img, limit, block2, buffer2[..]);
    var r := disk.BlockWrite(block2, buffer2);
    next := block2 + 1;
    if next < DISK_BLOCKS {
      r := disk.BlockRead(next, buffer2);
    }
  }

  // One round of the copying loop: move the shorter of the two runs up to a
  // block boundary, then let each cursor that reached a boundary cross it.
  method CopyRound(disk: VirtualDisk, buffer1: array<Byte>, buffer2: array<Byte>,
                   block1: nat, offset1: nat, block2: nat, offset2: nat,
                   ghost img: Image, ghost s: nat, ghost n: nat)
    returns (nextBlock1: nat, nextOffset1: nat, nextBlock2: nat, nextOffset2: nat)
    requires disk.Valid() && disk.active && buffer1 != buffer2 && n > 0 && |img| == DISK_BYTES
    requires block2 < DISK_BLOCKS && offset2 < BLOCK_SIZE
    requires Cursors(disk.image, buffer1[..], buffer2[..], block1, offset1, block2, offset2, img, s, n)
    modifies disk`image, buffer1, buffer2
    ensures disk.Valid() && nextOffset2 < BLOCK_SIZE && nextBlock2 <= DISK_BLOCKS
    ensures nextBlock2 == DISK_BLOCKS ==> nextOffset2 == 0
    ensures Cursors(disk.image, buffer1[..], buffer2[..], nextBlock1, nextOffset1, nextBlock2, nextOffset2, img, s, n)
    ensures nextOffset1 < BLOCK_SIZE
    ensures nextBlock2 * BLOCK_SIZE + nextOffset2 > block2 * BLOCK_SIZE + offset2 ||
            (offset1 == BLOCK_SIZE && nextBlock2 == block2 && nextOffset2 == offset2)
  {
    ghost var goal := Cut(img, s, n);
    var numCopy;
    if offset1 > offset2 {
      numCopy := BLOCK_SIZE - offset1;
    } else {
      numCopy := BLOCK_SIZE - offset2;
    }
    CopyRun(buffer1, offset1, buffer2, offset2, numCopy, img, s, n, block1, block2);
    nextBlock1, nextOffset1 := block1, offset1 + numCopy;
    nextBlock2, nextOffset2 := block2, offset2 + numCopy;
    if nextOffset1 == BLOCK_SIZE {
      nextBlock1 := NextTarget(disk, buffer1, block1, img, goal);
      nextOffset1 := 0;
    }
    if nextOffset2 == BLOCK_SIZE {
      nextBlock2 := NextSource(disk, buffer2, block2, nextBlock1 * BLOCK_SIZE, img, goal);
      nextOffset2 := 0;
    }
  }

  // What the copying loop maintains: the target cursor stays numShift bytes
  // behind the source cursor, the disk is finished below the target block, and
  // both buffers agree with what their cursors have passed or will need.
  ghost predicate Cursors(cur: Image, buf1: seq<Byte>, buf2: seq<Byte>,
                          block1: nat, offset1: nat, block2: nat, offset2: nat, img: Image, s: nat, n: nat)
  {
    && offset1 <= BLOCK_SIZE && s <= block1 * BLOCK_SIZE + offset1
    && block1 * BLOCK_SIZE + offset1 + n == block2 * BLOCK_SIZE + offset2
    && Progress(cur, Cut(img, s, n), img, block1 * BLOCK_SIZE)
    && Holds(buf1, Cut(img, s, n), block1, offset1)
    && Holds(buf2, img, block2, BLOCK_SIZE)
  }

  // A negative shift, which a truncation to length 0 and the deletion of a free
  // slot ask for, must not start the source cursor in front of its buffer.
  method ShiftBlocks(disk: VirtualDisk, startBlock: nat, startOffset: nat, numShift: int)
    requires disk.Valid() && disk.active && startOffset <= BLOCK_SIZE
    requires numShift + BLOCK_SIZE > 0 && startOffset + numShift >= 0
    modifies disk`image
    ensures disk.Valid()
    ensures disk.image == if numShift < 0 then old(disk.image)
                          else Cut(old(disk.image), startBlock * BLOCK_SIZE + startOffset, numShift)
  {
    if numShift == 0 {
      CutNothing(disk.image, startBlock * BLOCK_SIZE + startOffset);
      return;
    }
    var buffer1 := new Byte[BLOCK_SIZE];
    var buffer2 := new Byte[BLOCK_SIZE];
    if numShift < 0 {
      ShiftBackward(disk, buffer1, buffer2, startBlock, startOffset, -numShift);
    } else {
      ShiftForward(disk, buffer1, buffer2, startBlock, startOffset, numShift);
    }
  }

  // The rest of `shiftBlocks`, given a positive shift.
  method ShiftForward(disk: VirtualDisk, buffer1: array<Byte>, buffer2: array<Byte>, startBlock: nat, startOffset: nat, numShift: nat)
    requires disk.Valid() && disk.active && startOffset <= BLOCK_SIZE && numShift > 0
    requires buffer1 != buffer2 && buffer1.Length == buffer2.Length == BLOCK_SIZE
    modifies disk`image, buffer1, buffer2
    ensures disk.Valid()
    ensures disk.image == Cut(old(disk.image), startBlock * BLOCK_SIZE + startOffset, numShift)
  {
    ghost var img := disk.image;
    ghost var s := startBlock * BLOCK_SIZE + startOffset;
    var block1: nat, offset1: nat := startBlock, startOffset;
    var block2: nat, offset2: nat := startBlock, startOffset + numShift;

    while offset2 >= BLOCK_SIZE
      invariant block2 * BLOCK_SIZE + offset2 == s + numShift
    {
      block2 := block2 + 1;
      offset2 := offset2 - BLOCK_SIZE;
    }

    var r := disk.BlockRead(block1, buffer1);
    r := disk.BlockRead(block2, buffer2);

    while block2 < DISK_BLOCKS
      invariant disk.Valid() && disk.active && offset2 < BLOCK_SIZE
      invariant block1 * BLOCK_SIZE + offset1 == s || block2 < DISK_BLOCKS || (block2 == DISK_BLOCKS && offset2 == 0)
      invariant Cursors(disk.image, buffer1[..], buffer2[..], block1, offset1, block2, offset2, img, s, numShift)
      decreases DISK_BYTES - block2 * BLOCK_SIZE - offset2, offset1
    {
      block1, offset1, block2, offset2 :=
        CopyRound(disk, buffer1, buffer2, block1, offset1, block2, offset2, img, s, numShift);
    }
    ZeroTail(disk, buffer1, block1, offset1, img, Cut(img, s, numShift));
  }

  // What the loop maintains for a negative shift. The target cursor is ahead of
  // the source cursor, so each block is first written shifted and then, when the
  // source cursor leaves it, overwritten with what it held before: at most the
  // source block differs from `img`, and the second buffer can restore it.
  ghost predicate Ahead(cur: Image, buf2: seq<Byte>, block1: nat, offset1: nat, block2: nat, offset2: nat, img: Image, back: nat) {
    && Holds(buf2, img, block2, BLOCK_SIZE) && |cur| == DISK_BYTES
    && ((block1 == block2 && offset1 == offset2 + back <= BLOCK_SIZE && cur == img) ||
        (block1 == block2 + 1 && offset1 == 0 && offset2 + back == BLOCK_SIZE
         && forall k :: 0 <= k < DISK_BYTES && !(block2 * BLOCK_SIZE <= k < block1 * BLOCK_SIZE) ==> cur[k] == img[k]))
  }

  // The rest of `shiftBlocks`, given a negative shift: it changes nothing.
  method ShiftBackward(disk: VirtualDisk, buffer1: array<Byte>, buffer2: array<Byte>, startBlock: nat, startOffset: nat, back: nat)
    requires disk.Valid() && disk.active && 1 <= back <= startOffset <= BLOCK_SIZE && back < BLOCK_SIZE
    requires buffer1 != buffer2 && buffer1.Length == buffer2.Length == BLOCK_SIZE
    modifies disk`image, buffer1, buffer2
    ensures disk.Valid() && disk.image == old(disk.image)
  {
    ghost var img := disk.image;
    var block1: nat, offset1: nat := startBlock, startOffset;
    var block2: nat, offset2: nat := startBlock, startOffset - back;
    var r := disk.BlockRead(block1, buffer1);
    r := disk.BlockRead(block2, buffer2);
    while block2 < DISK_BLOCKS
      invariant disk.Valid() && disk.active
      invariant Ahead(disk.image, buffer2[..], block1, offset1, block2, offset2, img, back)
      decreases DISK_BLOCKS - block2, block2 + 1 - block1
    {
      if block1 == block2 {
        block1, offset1, offset2 := WriteShifted(disk, buffer1, buffer2, block1, offset1, offset2, img, back);
      } else {
        offset1, block2, offset2 := Restore(disk, buffer1, buffer2, block2, offset2, img, back);
      }
    }
    ZeroTail(disk, buffer1, block1, offset1, img, img);
  }

  // A round in which the target cursor reaches the end of the source block.
  method WriteShifted(disk: VirtualDisk, buffer1: array<Byte>, buffer2: array<Byte>, block: nat, offset1: nat, offset2: nat,
                      ghost img: Image, ghost back: nat)
    returns (nextBlock1: nat, nextOffset1: nat, nextOffset2: nat)
    requires disk.Valid() && disk.active && buffer1 != buffer2 && buffer1.Length == BLOCK_SIZE && back >= 1
    requires block < DISK_BLOCKS && Ahead(disk.image, buffer2[..], block, offset1, block, offset2, img, back)
    modifies disk`image, buffer1
    ensures disk.Valid() && nextBlock1 == block + 1
    ensures Ahead(disk.image, buffer2[..], nextBlock1, nextOffset1, block, nextOffset2, img, back)
  {
    var numCopy := BLOCK_SIZE - offset1;
    forall t | 0 <= t < numCopy {
      buffer1[offset1 + t] := buffer2[offset2 + t];
    }
    nextOffset2 := offset2 + numCopy;
    var r := disk.BlockWrite(block, buffer1);
    nextBlock1, nextOffset1 := block + 1, 0;
    r := disk.BlockRead(nextBlock1, buffer1);
  }

  // A round in which the source cursor leaves its block and writes it back.
  method Restore(disk: VirtualDisk, buffer1: array<Byte>, buffer2: array<Byte>, block2: nat, offset2: nat,
                 ghost img: Image, ghost back: nat)
    returns (nextOffset1: nat, nextBlock2: nat, nextOffset2: nat)
    requires disk.Valid() && disk.active && buffer1 != buffer2 && buffer1.Length == BLOCK_SIZE && 1 <= back < BLOCK_SIZE
    requires block2 < DISK_BLOCKS && |img| == DISK_BYTES
    requires Ahead(disk.image, buffer2[..], block2 + 1, 0, block2, offset2, img, back)
    modifies disk`image, buffer1, buffer2
    ensures disk.Valid() && nextBlock2 == block2 + 1
    ensures Ahead(disk.image, buffer2[..], block2 + 1, nextOffset1, nextBlock2, nextOffset2, img, back)
  {
    var numCopy := BLOCK_SIZE - offset2;
    forall t | 0 <= t < numCopy {
      buffer1[t] := buffer2[offset2 + t];
    }
    assert buffer2[..] == old(buffer2[..]);
    nextOffset1 := numCopy;
    var r := disk.BlockWrite(block2, buffer2);
    assert disk.image == img;
    nextBlock2, nextOffset2 := block2 + 1, 0;
    if nextBlock2 < DISK_BLOCKS {
      r := disk.BlockRead(nextBlock2, buffer2);
    }
  }

  // The end of `shiftBlocks`: the source is exhausted, so the rest of the target
  // block and every later block become zero.
  method ZeroTail(disk: VirtualDisk, buffer1: array<Byte>, start: nat, offset1: nat, ghost img: Image, ghost goal: Image)
    requires disk.Valid() && disk.active && offset1 <= BLOCK_SIZE && buffer1.Length == BLOCK_SIZE
    requires Progress(disk.image, goal, img, start * BLOCK_SIZE) && Holds(buffer1[..], goal, start, offset1)
    requires forall k :: start * BLOCK_SIZE + offset1 <= k < DISK_BYTES ==> goal[k] == 0
    modifies disk`image, buffer1
    ensures disk.Valid() && disk.image == goal
  {
    var block1 := start;
    forall t | offset1 <= t < BLOCK_SIZE {
      buffer1[t] := 0;
    }
    assert forall t :: 0 <= t < offset1 ==> buffer1[t] == old(buffer1[..])[t];
    if block1 < DISK_BLOCKS {
      assert Holds(buffer1[..], goal, block1, BLOCK_SIZE);
      WriteFinished(disk.image, goal, img, block1, buffer1[..]);
    }
    var r := disk.BlockWrite(block1, buffer1);
    block1 := block1 + 1;
    forall t | 0 <= t < BLOCK_SIZE {
      buffer1[t] := 0;
    }
    while block1 < DISK_BLOCKS
      invariant disk.Valid() && disk.active && start < block1
      invariant forall t :: 0 <= t < BLOCK_SIZE ==> buffer1[t] == 0
      invariant Progress(disk.image, goal, img, block1 * BLOCK_SIZE)
    {
      WriteFinished(disk.image, goal, img, block1, buffer1[..]);
      r := disk.BlockWrite(block1, buffer1);
      block1 := block1 + 1;
    }
  }
}
