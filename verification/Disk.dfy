// The virtual disk of disk.c: a host file of DISK_BLOCKS * BLOCK_SIZE bytes,
// reached only through whole-block reads and writes at block * BLOCK_SIZE.

module Disk {
  const BLOCK_SIZE: nat := 4096
  const DISK_BLOCKS: nat := 8192
  const DISK_BYTES: nat := DISK_BLOCKS * BLOCK_SIZE

  type Byte = x: int | 0 <= x < 256

  type Image = seq<Byte>

  // The image with the bytes of one block replaced.
  function Overwrite(img: Image, block: nat, buf: seq<Byte>): (r: Image)
    requires |img| == DISK_BYTES && block < DISK_BLOCKS && |buf| == BLOCK_SIZE
    ensures |r| == |img|
    ensures forall k :: 0 <= k < |r| ==>
              r[k] == if block * BLOCK_SIZE <= k < (block + 1) * BLOCK_SIZE then buf[k - block * BLOCK_SIZE] else img[k]
  {
    img[..block * BLOCK_SIZE] + buf + img[(block + 1) * BLOCK_SIZE..]
  }

  // The lower half of the disk is unchanged; its first block stores the file table.
  ghost predicate SameLowerHalf(img: Image, img': Image) {
    |img| == |img'| == DISK_BYTES && img[..DISK_BYTES / 2] == img'[..DISK_BYTES / 2]
  }

  class VirtualDisk {
    var active: bool
    var image: Image

    ghost predicate Valid()
      reads this
    {
      |image| == DISK_BYTES
    }

    // `make_disk` followed by `open_disk`: a zeroed disk, ready for use.
    constructor ()
      ensures Valid() && active
      ensures forall k :: 0 <= k < DISK_BYTES ==> image[k] == 0
    {
      image := seq(DISK_BYTES, _ => 0);
      active := true;
    }

    method BlockWrite(block: int, buf: array<Byte>) returns (r: int)
      requires Valid() && buf.Length == BLOCK_SIZE
      modifies this`image
      ensures Valid()
      ensures r == if active && 0 <= block < DISK_BLOCKS then 0 else -1
      ensures image == if active && 0 <= block < DISK_BLOCKS then Overwrite(old(image), block, buf[..]) else old(image)
    {
      if !active {
        return -1;
      }
      if block < 0 || block >= DISK_BLOCKS {
        return -1;
      }
      image := Overwrite(image, block, buf[..]);
      return 0;
    }

    method BlockRead(block: int, buf: array<Byte>) returns (r: int)
      requires Valid() && buf.Length == BLOCK_SIZE
      modifies buf
      ensures r == if active && 0 <= block < DISK_BLOCKS then 0 else -1
      ensures r == 0 ==> forall t :: 0 <= t < BLOCK_SIZE ==> buf[t] == image[block * BLOCK_SIZE + t]
      ensures r == -1 ==> buf[..] == old(buf[..])
    {
      if !active {
        return -1;
      }
      if block < 0 || block >= DISK_BLOCKS {
        return -1;
      }
      forall t | 0 <= t < BLOCK_SIZE {
        buf[t] := image[block * BLOCK_SIZE + t];
      }
      return 0;
    }
  }
}
