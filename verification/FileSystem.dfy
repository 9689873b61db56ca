// The file system of myfilesys.c: a table of contiguous files, a table of open
// descriptors and the disk, all updated in place.

module FileSystem {
  import opened Disk
  import opened ShiftBlocks
  import opened FileTable
  import opened FileTruncate
  import opened FileWrites

  // The first slot carrying a name, or the table length.
  function FirstNamed(t: Table, name: string): (r: nat)
    ensures r <= |t|
    ensures r < |t| ==> t[r].name == name
    ensures forall i :: 0 <= i < r ==> t[i].name != name
  {
    if t == [] then 0 else if t[0].name == name then 0 else 1 + FirstNamed(t[1..], name)
  }

  lemma FirstNamedIs(t: Table, name: string, i: nat)
    requires i <= |t| && (i < |t| ==> t[i].name == name)
    requires forall k :: 0 <= k < i ==> t[k].name != name
    ensures FirstNamed(t, name) == i
  {
  }

  // How many of the leading slots `fs_create` searches for a duplicate name.
  const DUPLICATE_SCAN: nat := 32

  ghost predicate DescriptorOk(fd: OpenFile, t: Table, n: nat)
    requires n <= |t|
  {
    fd.fileNum == -1 || (0 <= fd.fileNum < n && 0 <= fd.offset <= t[fd.fileNum].size)
  }

  ghost predicate DescriptorsOk(fds: seq<OpenFile>, t: Table, n: nat)
    requires n <= |t|
  {
    forall d :: 0 <= d < |fds| ==> DescriptorOk(fds[d], t, n)
  }

  // Where an open descriptor lands once slot i is gone.
  function Renumbered(fd: OpenFile, i: nat): OpenFile {
    if fd.fileNum > i then fd.(fileNum := fd.fileNum - 1) else fd
  }

  class FileSystem {
    const disk: VirtualDisk
    const files: array<FsMeta>
    const openFiles: array<OpenFile>
    // The int where the size of a slot one past the table would be; `fs_create`
    // writes it and `fs_write` reads it.
    var beyond: int
    ghost var used: nat  // how many slots of `files` hold a file

    ghost predicate TablesValid()
      reads this, disk, files
    {
      && disk.Valid() && disk.active
      && files.Length == MAX_FILES && openFiles.Length == MAX_OPEN
      && Layout(files[..], used) && (used == MAX_FILES ==> beyond == -1)
    }

    ghost predicate Valid()
      reads this, disk, files, openFiles
    {
      TablesValid() && DescriptorsOk(openFiles[..], files[..], used)
    }

    // The files the disk and the table stand for, in slot order.
    ghost function Files(): (r: seq<File>)
      requires TablesValid()
      reads this, disk, files
      ensures |r| == used
    {
      View(files[..], used, disk.image)
    }

    // `make_fs` followed by `mount_fs`.
    constructor ()
      ensures Valid() && fresh(disk) && fresh(files) && fresh(openFiles)
      ensures Files() == [] && forall d :: 0 <= d < MAX_OPEN ==> openFiles[d].fileNum == -1
    {
      disk := new VirtualDisk();
      files := new FsMeta[MAX_FILES](_ => FsMeta("", 0, 0, -1));
      openFiles := new OpenFile[MAX_OPEN](_ => OpenFile(-1, 0));
      used := 0;
    }

    method FsOpen(name: string) returns (r: int)
      requires Valid()
      modifies openFiles
      ensures TablesValid()
      ensures r == -1 <==> |name| > MAX_NAME || FirstNamed(files[..], name) == MAX_FILES ||
                           (forall d :: 0 <= d < MAX_OPEN ==> old(openFiles[d].fileNum) != -1)
      ensures r == -1 ==> openFiles[..] == old(openFiles[..])
      ensures r != -1 ==> 0 <= r < MAX_OPEN && old(openFiles[r].fileNum) == -1 &&
                          openFiles[..] == old(openFiles[..])[r := OpenFile(FirstNamed(files[..], name), 0)]
      ensures r != -1 ==> forall d :: 0 <= d < r ==> old(openFiles[d].fileNum) != -1
      ensures Valid() <==> r == -1 || FirstNamed(files[..], name) < used
    {
      if |name| > MAX_NAME {
        return -1;
      }
      var filedesc := 0;
      while filedesc < MAX_OPEN
        invariant 0 <= filedesc <= MAX_OPEN
        invariant forall d :: 0 <= d < filedesc ==> openFiles[d].fileNum != -1
      {
        if openFiles[filedesc].fileNum == -1 {
          break;
        } else {
          filedesc := filedesc + 1;
        }
      }
      if filedesc == MAX_OPEN {
        return -1;
      }
      var filenum := FindName(name, MAX_FILES);
      assert files[..MAX_FILES] == files[..];
      if filenum == MAX_FILES {
        return -1;
      }
      openFiles[filedesc] := OpenFile(filenum, 0);
      return filedesc;
    }

    // The loop over `files` that `fs_open`, `fs_create` and `fs_delete` share.
    method FindName(name: string, limit: nat) returns (i: nat)
      requires files.Length == MAX_FILES && limit <= MAX_FILES
      ensures i == FirstNamed(files[..limit], name)
    {
      i := 0;
      while i < limit
        invariant i <= limit
        invariant forall k :: 0 <= k < i ==> files[k].name != name
      {
        if files[i].name == name {
          break;
        } else {
          i := i + 1;
        }
      }
      FirstNamedIs(files[..limit], name, i);
    }

    method FsClose(fildes: nat) returns (r: int)
      requires Valid() && fildes < MAX_OPEN
      modifies openFiles
      ensures Valid()
      ensures r == if old(openFiles[fildes].fileNum) == -1 then -1 else 0
      ensures openFiles[..] == old(openFiles[..])[fildes := OpenFile(-1, old(openFiles[fildes].offset))]
    {
      if openFiles[fildes].fileNum == -1 {
        return -1;
      } else {
        openFiles[fildes] := openFiles[fildes].(fileNum := -1);
        return 0;
      }
    }

    method FsGetFilesize(fildes: nat) returns (r: int)
      requires Valid() && fildes < MAX_OPEN
      ensures r == if openFiles[fildes].fileNum == -1 then -1 else |Files()[openFiles[fildes].fileNum].data|
    {
      if openFiles[fildes].fileNum == -1 {
        return -1;
      } else {
        return files[openFiles[fildes].fileNum].size;
      }
    }

    // A negative offset is accepted, and is what breaks the descriptor.
    method FsLseek(fildes: nat, offset: int) returns (r: int)
      requires Valid() && fildes < MAX_OPEN
      modifies openFiles
      ensures TablesValid()
      ensures r == -1 || r == 0
      ensures r == -1 <==> old(openFiles[fildes].fileNum) == -1 || offset > |Files()[old(openFiles[fildes].fileNum)].data|
      ensures r == -1 ==> openFiles[..] == old(openFiles[..])
      ensures r == 0 ==> openFiles[..] == old(openFiles[..])[fildes := OpenFile(old(openFiles[fildes].fileNum), offset)]
      ensures Valid() <==> r == -1 || offset >= 0
    {
      if openFiles[fildes].fileNum == -1 {
        return -1;
      } else {
        if offset > files[openFiles[fildes].fileNum].size {
          return -1;
        } else {
          openFiles[fildes] := openFiles[fildes].(offset := offset);
          return 0;
        }
      }
    }

    method FsRead(fildes: nat, buf: array<Byte>, nbyte: nat) returns (r: nat)
      requires Valid() && fildes < MAX_OPEN && openFiles[fildes].fileNum != -1 && nbyte <= buf.Length
      modifies openFiles, buf
      ensures Valid() && Files() == old(Files())
      ensures var fd := old(openFiles[fildes]);
              var data := old(Files())[fd.fileNum].data;
              && r == (if nbyte > |data| - fd.offset then |data| - fd.offset else nbyte)
              && buf[..r] == data[fd.offset..fd.offset + r]
      ensures buf[r..] == old(buf[r..])
      ensures openFiles[..] == old(openFiles[..])[fildes := OpenFile(old(openFiles[fildes].fileNum), old(openFiles[fildes].offset) + r)]
    {
      var filedes := openFiles[fildes];
      var actualFile := files[filedes.fileNum];
      assert DescriptorOk(openFiles[..][fildes], files[..], used);
      var count := nbyte;
      if nbyte > actualFile.size - filedes.offset {
        count := actualFile.size - filedes.offset;
      }
      CopyFile(buf, filedes.fileNum, filedes.offset, count);
      AdvanceOffset(fildes, count);
      return count;
    }

    // The bytes of one file from an offset on.
    method CopyFile(buf: array<Byte>, fileNum: nat, offset: nat, count: nat)
      requires TablesValid() && fileNum < used && offset + count <= files[fileNum].size && count <= buf.Length
      modifies buf
      ensures buf[..count] == Files()[fileNum].data[offset..offset + count]
      ensures buf[count..] == old(buf[count..])
    {
      ExtentsOrdered(files[..], used, fileNum, used);
      CopyOut(buf, files[fileNum].block, files[fileNum].offset + offset, count);
      ContentsSlice(files[..], used, disk.image, fileNum, offset, count);
    }

    method AdvanceOffset(fildes: nat, count: nat)
      requires Valid() && fildes < MAX_OPEN && 0 <= openFiles[fildes].fileNum < used
      requires openFiles[fildes].offset + count <= files[openFiles[fildes].fileNum].size
      modifies openFiles
      ensures Valid()
      ensures openFiles[..] == old(openFiles[..])[fildes := OpenFile(old(openFiles[fildes].fileNum), old(openFiles[fildes].offset) + count)]
    {
      ghost var fds := openFiles[..];
      assert DescriptorOk(fds[fildes], files[..], used);
      openFiles[fildes] := openFiles[fildes].(offset := openFiles[fildes].offset + count);
      DescriptorsSurviveMove(fds, files[..], used, fildes, openFiles[fildes]);
    }

    // The copying loop of `fs_read`.
    method CopyOut(buf: array<Byte>, startBlock: nat, startPos: nat, nbyte: nat)
      requires disk.Valid() && disk.active && nbyte <= buf.Length
      requires startBlock * BLOCK_SIZE + startPos + nbyte <= DISK_BYTES
      modifies buf
      ensures var p := startBlock * BLOCK_SIZE + startPos; buf[..nbyte] == disk.image[p..p + nbyte]
      ensures buf[nbyte..] == old(buf[nbyte..])
    {
      ghost var p := startBlock * BLOCK_SIZE + startPos;
      var block, pos := startBlock, startPos;
      while pos > BLOCK_SIZE
        invariant 0 <= pos && block * BLOCK_SIZE + pos == p
      {
        block := block + 1;
        pos := pos - BLOCK_SIZE;
      }
      var buffer := new Byte[BLOCK_SIZE];
      var ok := disk.BlockRead(block, buffer);
      var numRead := 0;
      while numRead < nbyte
        invariant numRead <= nbyte && 0 <= pos <= BLOCK_SIZE && block * BLOCK_SIZE + pos == p + numRead
        invariant 0 <= block < DISK_BLOCKS ==> forall t :: 0 <= t < BLOCK_SIZE ==> buffer[t] == disk.image[block * BLOCK_SIZE + t]
        invariant forall k :: 0 <= k < numRead ==> buf[k] == disk.image[p + k]
        invariant forall k :: numRead <= k < buf.Length ==> buf[k] == old(buf[k])
      {
        if pos == BLOCK_SIZE {
          pos := 0;
          block := block + 1;
          ok := disk.BlockRead(block, buffer);
        }
        buf[numRead] := buffer[pos];
        numRead := numRead + 1;
        pos := pos + 1;
      }
    }

    method FsWrite(fildes: nat, data: seq<Byte>) returns (r: int, ghost residue: seq<Byte>)
      requires Valid() && fildes < MAX_OPEN && openFiles[fildes].fileNum != -1
      modifies disk`image, files, openFiles
      ensures var fd := old(openFiles[fildes]);
              var end := fd.offset + |data|;
              var p := old(files[fd.fileNum]).Start() + fd.offset;
              && (r == -1 <==> end > old(files[fd.fileNum].size) && fd.fileNum + 1 < used)
              && (r == -1 ==> disk.image == old(disk.image) && files[..] == old(files[..]) && openFiles[..] == old(openFiles[..]))
              && (r != -1 ==> r == |data| && IsResidue(residue) && 0 <= p
                              && disk.image == Written(old(disk.image), p, data, residue)
                              && SameLowerHalf(old(disk.image), disk.image)
                              && files[..] == Grown(old(files[..]), fd.fileNum, end)
                              && files[fd.fileNum] == old(files[fd.fileNum]).(size := Max(old(files[fd.fileNum]).size, end))
                              && (forall k :: 0 <= k < MAX_FILES && k != fd.fileNum ==> files[k] == old(files[k]))
                              && openFiles[..] == old(openFiles[..])[fildes := fd.(offset := end)])
              && (Valid() <==> r == -1 || p + |data| <= DISK_BYTES)
    {
      var filedes := openFiles[fildes];
      var actualFile := files[filedes.fileNum];
      ghost var t, n, fds := files[..], used, openFiles[..];
      assert DescriptorOk(fds[fildes], t, n);
      residue := [];
      if actualFile.size != -1 {
        if filedes.offset + |data| > actualFile.size {
          var nextSize := if filedes.fileNum + 1 == MAX_FILES then beyond else files[filedes.fileNum + 1].size;
          if nextSize == -1 {
            // Nothing follows: just expand.
          } else {
            r := -1;
            return;
          }
        }
      }
      var block, pos := actualFile.block, actualFile.offset + filedes.offset;
      ghost var p := actualFile.Start() + filedes.offset;
      while pos >= BLOCK_SIZE
        invariant 0 <= pos && 0 <= block && block * BLOCK_SIZE + pos == p
      {
        block := block + 1;
        pos := pos - BLOCK_SIZE;
      }
      StartsInData(t, n, filedes.fileNum);
      residue := CopyIn(data, block, pos, disk.image, p);
      WriteKeepsLowerHalf(old(disk.image), p, data, residue);
      openFiles[fildes] := filedes.(offset := filedes.offset + |data|);
      if actualFile.size < openFiles[fildes].offset {
        files[filedes.fileNum] := actualFile.(size := openFiles[fildes].offset);
      }
      assert files[..] == Grown(t, filedes.fileNum, filedes.offset + |data|);
      WriteKeepsTables(fds, t, n, fildes, |data|);
      r := |data|;
    }

    // The copying loop of `fs_write`; the buffer's first content is arbitrary.
    method CopyIn(data: seq<Byte>, startBlock: nat, startPos: nat, ghost img: Image, ghost p: nat) returns (ghost residue: seq<Byte>)
      requires disk.Valid() && disk.active && img == disk.image
      requires startBlock * BLOCK_SIZE + startPos == p && startPos < BLOCK_SIZE
      modifies disk`image
      ensures disk.Valid() && IsResidue(residue)
      ensures disk.image == Written(img, p, data, residue)
    {
      var block: nat, pos: nat := startBlock, startPos;
      var buffer := new Byte[BLOCK_SIZE];
      residue := buffer[..];
      var numWritten := 0;
      assert data[..numWritten] == [] && disk.image == img;
      WriteNothing(img, residue, block, p);
      while numWritten < |data|
        invariant disk.Valid() && disk.active && fresh(buffer) && numWritten <= |data|
        invariant AtByte(block, pos, p, numWritten)
        invariant Writing(disk.image, buffer[..], block, img, p, data[..numWritten], residue)
      {
        block, pos := CopyByte(buffer, block, pos, data, numWritten, img, p, residue);
        numWritten := numWritten + 1;
      }
      assert data[..numWritten] == data;
      StoreBlock(buffer, block, img, p, data, residue);
    }

    // The `block_write` calls of `fs_write`.
    method StoreBlock(buffer: array<Byte>, block: nat, ghost img: Image, ghost p: nat, ghost done: seq<Byte>, ghost residue: seq<Byte>)
      requires disk.Valid() && disk.active && buffer.Length == BLOCK_SIZE
      requires Writing(disk.image, buffer[..], block, img, p, done, residue)
      requires FirstBlock(p) <= block && p + |done| <= (block + 1) * BLOCK_SIZE
      modifies disk`image
      ensures disk.Valid() && disk.image == Written(img, p, done, residue)
    {
      FlushBlock(disk.image, buffer[..], block, img, p, done, residue);
      var ok := disk.BlockWrite(block, buffer);
    }

    // One round of that loop.
    method CopyByte(buffer: array<Byte>, startBlock: nat, startPos: nat, data: seq<Byte>, w: nat,
                    ghost img: Image, ghost p: nat, ghost residue: seq<Byte>)
      returns (block: nat, pos: nat)
      requires disk.Valid() && disk.active && buffer.Length == BLOCK_SIZE && w < |data|
      requires AtByte(startBlock, startPos, p, w)
      requires Writing(disk.image, buffer[..], startBlock, img, p, data[..w], residue)
      modifies disk`image, buffer
      ensures disk.Valid() && AtByte(block, pos, p, w + 1)
      ensures Writing(disk.image, buffer[..], block, img, p, data[..w + 1], residue)
    {
      block, pos := startBlock, startPos;
      if pos == BLOCK_SIZE {
        pos := 0;
        block := NextBlock(buffer, block, img, p, data[..w], residue);
      }
      WriteByte(disk.image, buffer[..], block, pos, img, p, data, w, residue);
      ghost var before := buffer[..];
      buffer[pos] := data[w];
      assert buffer[..] == before[pos := data[w]];
      pos := pos + 1;
    }

    // `fs_write` at a block boundary: store the finished block, read the next.
    method NextBlock(buffer: array<Byte>, block: nat, ghost img: Image, ghost p: nat, ghost done: seq<Byte>, ghost residue: seq<Byte>)
      returns (next: nat)
      requires disk.Valid() && disk.active && buffer.Length == BLOCK_SIZE
      requires Writing(disk.image, buffer[..], block, img, p, done, residue)
      requires FirstBlock(p) <= block && p + |done| == (block + 1) * BLOCK_SIZE
      modifies disk`image, buffer
      ensures disk.Valid() && next == block + 1
      ensures Writing(disk.image, buffer[..], next, img, p, done, residue)
    {
      StoreBlock(buffer, block, img, p, done, residue);
      next := block + 1;
      var ok := disk.BlockRead(next, buffer);
      FetchBlock(disk.image, buffer[..], next, img, p, done, residue);
    }

    // Places slot i right after slot i - 1.
    method FillBlockAndOffset(i: nat)
      requires files.Length == MAX_FILES && i < MAX_FILES
      modifies files
      ensures files[..] == old(files[..])[i := files[i]]
      ensures files[i].name == old(files[i].name) && files[i].size == old(files[i].size)
      ensures i == 0 ==> files[i].block == DATA_START && files[i].offset == 0
      ensures i > 0 ==> files[i].Start() == NextStart(old(files[i - 1]))
      // The offset is zero only if nothing precedes the file in its block.
      ensures i > 0 && old(files[i - 1]).Placeable() && old(files[i - 1]).size >= -1 ==>
                && files[i].Placeable()
                && (files[i].offset == 0 <==> NextStart(old(files[i - 1])) == old(files[i - 1]).block * BLOCK_SIZE)
    {
      if i == 0 {
        files[i] := files[i].(block := DATA_START, offset := 0);
      } else {
        var block, offset := files[i - 1].block, files[i - 1].offset;
        if files[i - 1].size == -1 {
          offset := files[i - 1].offset;
        } else {
          offset := offset + files[i - 1].size;
        }
        ghost var start := block * BLOCK_SIZE + offset;
        while offset > BLOCK_SIZE
          invariant block * BLOCK_SIZE + offset == start
          invariant files[i - 1].Placeable() && files[i - 1].size >= -1 ==>
                      block >= 0 && offset >= 0 && (offset == 0 <==> start == files[i - 1].block * BLOCK_SIZE)
        {
          offset := offset - BLOCK_SIZE;
          block := block + 1;
        }
        files[i] := files[i].(block := block, offset := offset);
      }
    }

    method FsCreate(name: string) returns (r: int)
      requires Valid()
      modifies this`used, this`beyond, files
      ensures Valid()
      ensures r == -1 || r == 0
      ensures r == -1 <==> |name| > MAX_NAME || FirstNamed(old(files[..DUPLICATE_SCAN]), name) < DUPLICATE_SCAN || old(used) == MAX_FILES
      ensures r == -1 ==> Files() == old(Files()) && files[..] == old(files[..])
      ensures r == 0 ==> Files() == old(Files()) + [File(name, [])]
    {
      if |name| > MAX_NAME {
        return -1;
      }
      var i := FindName(name, DUPLICATE_SCAN);
      if i < DUPLICATE_SCAN {
        return -1;
      }
      i := 0;
      while i < MAX_FILES
        invariant i <= used
      {
        if files[i].size == -1 {
          break;
        } else {
          i := i + 1;
        }
      }
      if i == MAX_FILES {
        return -1;
      }
      ghost var t := files[..];
      AddSlot(i, name);
      DescriptorsSurviveGrowth(openFiles[..], t, old(used), files[..], used);
      return 0;
    }

    // The end of `fs_create`, once slot i is known to be the first free one.
    method AddSlot(i: nat, name: string)
      requires TablesValid() && i == used < MAX_FILES && |name| <= MAX_NAME
      modifies this`used, this`beyond, files
      ensures TablesValid() && used == old(used) + 1
      ensures Files() == old(Files()) + [File(name, [])]
      ensures forall k :: 0 <= k < i ==> files[k] == old(files[k])
    {
      ghost var t, img, v := files[..], disk.image, Files();
      FillBlockAndOffset(i);
      files[i] := files[i].(size := 0);
      if i + 1 < MAX_FILES {
        files[i + 1] := files[i + 1].(size := -1);
      } else {
        beyond := -1;
      }
      files[i] := files[i].(name := name);
      used := used + 1;
      SlotAdded(t, i, img, v, name);
    }

    lemma SlotAdded(t: Table, n: nat, img: Image, v: seq<File>, name: string)
      requires Layout(t, n) && n < MAX_FILES && |img| == DISK_BYTES && v == View(t, n, img)
      requires disk.Valid() && disk.active && files.Length == MAX_FILES && openFiles.Length == MAX_OPEN
      requires used == n + 1 && (used == MAX_FILES ==> beyond == -1) && disk.image == img
      requires forall k :: 0 <= k < MAX_FILES && k != n ==> files[k] == t[k]
      requires Placed(files[..], n) && files[n] == FsMeta(name, files[n].block, files[n].offset, 0) && files[n].Placeable() && |name| <= MAX_NAME
      ensures TablesValid() && Files() == v + [File(name, [])]
    {
      CreateRefines(t, n, files[..], img, name);
    }

    // The empty name also matches a free slot, whose size of -1 is then shifted by:
    // that must not reach in front of the block buffer.
    method FsDelete(name: string) returns (r: int)
      requires Valid()
      requires used <= FirstNamed(files[..], name) < MAX_FILES ==> files[FirstNamed(files[..], name)].offset >= 1
      modifies this`used, disk, files, openFiles
      ensures Valid()
      ensures r == -1 || r == 0
      ensures r == -1 <==> FirstNamed(old(files[..]), name) == MAX_FILES ||
                           exists d :: 0 <= d < MAX_OPEN && old(openFiles[d].fileNum) == FirstNamed(old(files[..]), name)
      ensures r == -1 || FirstNamed(old(files[..]), name) >= old(used) ==>
                Files() == old(Files()) && openFiles[..] == old(openFiles[..]) && disk.image == old(disk.image)
      ensures r == 0 && FirstNamed(old(files[..]), name) < old(used) ==>
                var i := FirstNamed(old(files[..]), name);
                && 0 <= old(files[..])[i].Start() && 0 <= old(files[..])[i].size
                && disk.image == Cut(old(disk.image), old(files[..])[i].Start(), old(files[..])[i].size)
                && SameLowerHalf(old(disk.image), disk.image)
                && Files() == old(Files())[..i] + old(Files())[i + 1..]
                && (forall d :: 0 <= d < MAX_OPEN ==> openFiles[d] == Renumbered(old(openFiles[d]), i))
                && SameFilesOpen(old(openFiles[..]), old(Files()), openFiles[..], Files())
    {
      var i := FindName(name, MAX_FILES);
      assert files[..MAX_FILES] == files[..];
      if i == MAX_FILES {
        return -1;
      }
      var open := IsOpen(i);
      if open {
        return -1;
      }
      DeleteFile(i);
      return 0;
    }

    // `fs_delete` once the slot is known to be closed, seen on the list of files.
    method DeleteFile(i: nat)
      requires Valid() && i < MAX_FILES && forall d :: 0 <= d < MAX_OPEN ==> openFiles[d].fileNum != i
      requires i >= used ==> files[i].offset >= 1
      modifies this`used, disk, files, openFiles
      ensures Valid()
      ensures i < old(used) ==>
                && used == old(used) - 1 && 0 <= old(files[i]).Start() && 0 <= old(files[i]).size
                && disk.image == Cut(old(disk.image), old(files[i]).Start(), old(files[i]).size)
                && SameLowerHalf(old(disk.image), disk.image)
                && Files() == old(Files())[..i] + old(Files())[i + 1..]
                && (forall d :: 0 <= d < MAX_OPEN ==> openFiles[d] == Renumbered(old(openFiles[d]), i))
                && SameFilesOpen(old(openFiles[..]), old(Files()), openFiles[..], Files())
      ensures i >= old(used) ==>
                used == old(used) && Files() == old(Files()) && openFiles[..] == old(openFiles[..]) && disk.image == old(disk.image)
    {
      ghost var t, n, img, v, fds := files[..], used, disk.image, Files(), openFiles[..];
      DeleteSlot(i);
      used := if i < n then n - 1 else n;
      if i < n {
        SlotDeleted(t, n, img, v, fds, i);
      } else {
        FreeSlotDeleted(t, n, img, v, fds, i);
      }
    }

    lemma SlotDeleted(t: Table, n: nat, img: Image, v: seq<File>, fds: seq<OpenFile>, i: nat)
      requires Layout(t, n) && |img| == DISK_BYTES && i < n && 0 <= t[i].Start() && v == View(t, n, img)
      requires disk.Valid() && disk.active && files.Length == MAX_FILES && openFiles.Length == |fds| == MAX_OPEN
      requires used == n - 1 && disk.image == Cut(img, t[i].Start(), t[i].size) && SlotRemoved(t, n, i, files[..])
      requires DescriptorsOk(fds, t, n)
      requires forall d :: 0 <= d < MAX_OPEN ==> fds[d].fileNum != i && openFiles[d] == Renumbered(fds[d], i)
      ensures Valid() && Files() == v[..i] + v[i + 1..]
      ensures SameFilesOpen(fds, v, openFiles[..], Files()) && SameLowerHalf(img, disk.image)
    {
      StartsInData(t, n, i);
      CutKeepsLowerHalf(img, t[i].Start(), t[i].size);
      SameFileAfterRemoval(fds, t, n, i, v, openFiles[..]);
      DeleteRefines(t, n, img, i, files[..], t[i].Start());
      DescriptorsSurviveRemoval(fds, t, n, i, openFiles[..], files[..]);
    }

    lemma FreeSlotDeleted(t: Table, n: nat, img: Image, v: seq<File>, fds: seq<OpenFile>, i: nat)
      requires Layout(t, n) && |img| == DISK_BYTES && n <= i && v == View(t, n, img)
      requires disk.Valid() && disk.active && files.Length == MAX_FILES && openFiles.Length == |fds| == MAX_OPEN
      requires used == n && (used == MAX_FILES ==> beyond == -1) && disk.image == img && FreeSlotRemoved(t, n, files[..])
      requires DescriptorsOk(fds, t, n)
      requires forall d :: 0 <= d < MAX_OPEN ==> openFiles[d] == Renumbered(fds[d], i)
      ensures Valid() && Files() == v && openFiles[..] == fds
    {
      ViewSame(t, n, files[..], img);
      NoneRenumbered(fds, t, n, i, openFiles[..], files[..]);
    }

    // The loop of `fs_delete` that looks for an open descriptor of slot i.
    method IsOpen(i: nat) returns (open: bool)
      requires openFiles.Length == MAX_OPEN
      ensures open <==> exists d :: 0 <= d < MAX_OPEN && openFiles[d].fileNum == i
    {
      var j := 0;
      while j < MAX_OPEN
        invariant j <= MAX_OPEN && forall d :: 0 <= d < j ==> openFiles[d].fileNum != i
      {
        if openFiles[j].fileNum == i {
          return true;
        }
        j := j + 1;
      }
      return false;
    }

    // The shift by length - 1 and the layout from `fildes` on are the source's; what
    // that does to the files is in FileTruncate. For length 0 the shift is by -1,
    // which must not reach in front of the block buffer.
    method FsTruncate(fildes: nat, length: int) returns (r: int)
      requires Valid() && fildes < MAX_OPEN
      requires length == 0 && openFiles[fildes].fileNum != -1 ==> files[openFiles[fildes].fileNum].offset >= 1
      modifies disk`image, files, openFiles
      ensures r == -1 || r == 0
      ensures r == -1 <==> old(openFiles[fildes].fileNum) == -1 || length < 0 || length > |old(Files())[old(openFiles[fildes].fileNum)].data|
      ensures r == -1 ==> disk.image == old(disk.image) && files[..] == old(files[..]) && openFiles[..] == old(openFiles[..])
      ensures r == 0 ==>
                var i := old(openFiles[fildes]).fileNum;
                && 0 <= length && 0 <= old(files[i]).Start()
                && disk.image == Cut(old(disk.image), old(files[i]).Start() + length, if length == 0 then 0 else length - 1)
                && SameLowerHalf(old(disk.image), disk.image)
                && Truncated(old(files[..]), files[..], i, fildes, length)
                && openFiles[fildes] == OpenFile(i, if old(openFiles[fildes]).offset < length then old(openFiles[fildes]).offset else length)
                && (forall d :: 0 <= d < MAX_OPEN && d != fildes ==> openFiles[d] == old(openFiles[d]))
      // The invariant is kept exactly when the layout is and no other descriptor
      // of the file stands behind its new end.
      ensures r == 0 ==>
                var i := old(openFiles[fildes]).fileNum;
                Valid() <==> && KeepsLayout(used, i, fildes, old(files[i]).size, length)
                             && forall d :: 0 <= d < MAX_OPEN && d != fildes && old(openFiles[d]).fileNum == i ==>
                                  old(openFiles[d]).offset <= length
    {
      if openFiles[fildes].fileNum == -1 {
        return -1;
      }
      if files[openFiles[fildes].fileNum].size < length {
        return -1;
      }
      if length < 0 {
        return -1;
      } else {
        ghost var t, n, fds := files[..], used, openFiles[..];
        var fileNum := openFiles[fildes].fileNum;
        assert DescriptorOk(fds[fildes], t, n);
        CutTail(fileNum, length);
        Resize(fileNum, fildes, length);
        if openFiles[fildes].offset > length {
          openFiles[fildes] := openFiles[fildes].(offset := length);
        }
        assert openFiles[..] == DescriptorsTruncated(fds, fildes, length);
        TruncatedValidIff(t, n, fds, fildes, length);
        return 0;
      }
    }

    lemma TruncatedValidIff(t: Table, n: nat, fds: seq<OpenFile>, f: nat, length: nat)
      requires disk.Valid() && disk.active && files.Length == MAX_FILES && openFiles.Length == |fds| == MAX_OPEN
      requires used == n && (used == MAX_FILES ==> beyond == -1)
      requires Layout(t, n) && DescriptorsOk(fds, t, n) && f < MAX_OPEN && 0 <= fds[f].fileNum < n && length <= t[fds[f].fileNum].size
      requires Truncated(t, files[..], fds[f].fileNum, f, length) && openFiles[..] == DescriptorsTruncated(fds, f, length)
      ensures Valid() <==> && KeepsLayout(n, fds[f].fileNum, f, t[fds[f].fileNum].size, length)
                           && forall d :: 0 <= d < MAX_OPEN && d != f && fds[d].fileNum == fds[f].fileNum ==> fds[d].offset <= length
    {
      TruncatedLayoutIff(t, n, files[..], fds[f].fileNum, f, length);
      DescriptorsTruncatedIff(fds, t, n, files[..], f, length);
    }

    // `fs_truncate` on the disk.
    method CutTail(fileNum: nat, length: nat)
      requires TablesValid() && fileNum < used && length <= files[fileNum].size
      requires length == 0 ==> files[fileNum].offset >= 1
      modifies disk`image
      ensures disk.Valid() && 0 <= files[fileNum].Start()
      ensures disk.image == Cut(old(disk.image), files[fileNum].Start() + length, if length == 0 then 0 else length - 1)
      ensures SameLowerHalf(old(disk.image), disk.image)
    {
      var startBlock, startOffset := files[fileNum].block, files[fileNum].offset + length;
      ghost var s := files[fileNum].Start() + length;
      while startOffset > BLOCK_SIZE
        invariant 0 <= startBlock && (length == 0 ==> startOffset >= 1)
        invariant 0 <= startOffset && startBlock * BLOCK_SIZE + startOffset == s
      {
        startBlock := startBlock + 1;
        startOffset := startOffset - BLOCK_SIZE;
      }
      CutNothing(disk.image, s);
      StartsInData(files[..], used, fileNum);
      CutKeepsLowerHalf(disk.image, s, if length == 0 then 0 else length - 1);
      ShiftBlocks.ShiftBlocks(disk, startBlock, startOffset, length - 1);
    }

    // `fs_truncate` on the table.
    method Resize(fileNum: nat, fildes: nat, length: nat)
      requires files.Length == MAX_FILES && UsedPrefix(files[..], used) && fileNum < MAX_FILES && fildes < MAX_OPEN
      modifies files
      ensures Truncated(old(files[..]), files[..], fileNum, fildes, length)
    {
      files[fileNum] := files[fileNum].(size := length);
      var i := fildes;
      while i < MAX_FILES - 1
        invariant fildes <= i < MAX_FILES
        invariant files[fileNum].size == length
        invariant forall k :: 0 <= k < MAX_FILES ==>
                    files[k].name == old(files[k]).name && files[k].Placeable() && (k != fileNum ==> files[k].size == old(files[k]).size)
        invariant forall k :: 0 <= k < MAX_FILES && (k < fildes || i <= k) ==>
                    files[k].block == old(files[k]).block && files[k].offset == old(files[k]).offset
        invariant forall k :: fildes <= k < i ==> Placed(files[..], k)
      {
        ghost var before := files[..];
        assert i > 0 ==> files[i - 1].size >= -1;
        FillBlockAndOffset(i);
        forall k | fildes <= k <= i ensures Placed(files[..], k) {
          if k < i {
            assert Placed(before, k);
          }
        }
        i := i + 1;
      }
    }

    method RenumberDescriptors(i: nat)
      requires openFiles.Length == MAX_OPEN
      modifies openFiles
      ensures forall d :: 0 <= d < MAX_OPEN ==> openFiles[d] == Renumbered(old(openFiles[d]), i)
    {
      var j := 0;
      while j < MAX_OPEN
        invariant j <= MAX_OPEN
        invariant forall d :: 0 <= d < j ==> openFiles[d] == Renumbered(old(openFiles[d]), i)
        invariant forall d :: j <= d < MAX_OPEN ==> openFiles[d] == old(openFiles[d])
      {
        if openFiles[j].fileNum > i {
          openFiles[j] := openFiles[j].(fileNum := openFiles[j].fileNum - 1);
        }
        j := j + 1;
      }
    }

    // The loop of `fs_delete` that moves the later slots down.
    method MoveSlotsDown(i: nat)
      requires files.Length == MAX_FILES && UsedPrefix(files[..], used) && i < MAX_FILES
      modifies files
      ensures UsedPrefix(files[..], if i < used then used - 1 else used)
      ensures forall k :: 0 <= k < i ==> files[k] == old(files[k])
      ensures forall k :: i <= k < used - 1 ==> files[k] == old(files[k + 1])
    {
      var j := i;
      while j < MAX_FILES - 1
        invariant i <= j <= MAX_FILES - 1
        invariant forall k :: 0 <= k < i ==> files[k] == old(files[k])
        invariant forall k :: i <= k < j ==> files[k] == old(files[k + 1])
        invariant forall k :: j <= k < MAX_FILES ==> files[k] == old(files[k])
      {
        files[j] := files[j + 1];
        j := j + 1;
      }
      files[MAX_FILES - 1] := files[MAX_FILES - 1].(name := "", size := -1);
    }

    // The loop of `fs_delete` that lays out slot i and all later ones.
    method LayOutFrom(i: nat, ghost n: nat)
      requires files.Length == MAX_FILES && UsedPrefix(files[..], n) && Contiguous(files[..], if i < n then i else n)
      modifies files
      ensures UsedPrefix(files[..], n) && Contiguous(files[..], n)
      ensures forall k :: 0 <= k < i && k < MAX_FILES ==> files[k] == old(files[k])
      ensures forall k :: 0 <= k < MAX_FILES ==> files[k].name == old(files[k].name) && files[k].size == old(files[k].size)
    {
      var j := i;
      while j < MAX_FILES
        invariant i <= j
        invariant forall k :: 0 <= k < i && k < MAX_FILES ==> files[k] == old(files[k])
        invariant forall k :: 0 <= k < MAX_FILES ==> files[k].name == old(files[k].name) && files[k].size == old(files[k].size)
        invariant forall k :: 0 <= k < MAX_FILES ==> files[k].Placeable()
        invariant forall k :: 0 <= k < j && k < n ==> Follows(files[..], k)
      {
        ghost var before := files[..];
        FillBlockAndOffset(j);
        forall k | 0 <= k <= j && k < n ensures Follows(files[..], k) {
          if k < j {
            assert Follows(before, k);
          }
        }
        j := j + 1;
      }
    }

    // The body of `fs_delete` once the slot is known to be closed.
    method DeleteSlot(i: nat)
      requires TablesValid() && i < MAX_FILES && (i >= used ==> files[i].offset >= 1)
      modifies disk, files, openFiles
      ensures disk.Valid() && disk.active
      ensures i < used ==>
                && 0 <= old(files[i]).Start() && 0 <= old(files[i]).size
                && disk.image == Cut(old(disk.image), old(files[i]).Start(), old(files[i]).size)
                && SlotRemoved(old(files[..]), used, i, files[..])
      ensures i >= used ==> disk.image == old(disk.image) && FreeSlotRemoved(old(files[..]), used, files[..])
      ensures forall d :: 0 <= d < MAX_OPEN ==> openFiles[d] == Renumbered(old(openFiles[d]), i)
    {
      ShiftBlocks.ShiftBlocks(disk, files[i].block, files[i].offset, files[i].size);
      RenumberDescriptors(i);
      RemoveSlot(i);
    }

    method RemoveSlot(i: nat)
      requires files.Length == MAX_FILES && i < MAX_FILES && Layout(files[..], used)
      modifies files
      ensures i < used ==> SlotRemoved(old(files[..]), used, i, files[..])
      ensures i >= used ==> FreeSlotRemoved(old(files[..]), used, files[..])
    {
      ghost var t := files[..];
      MoveSlotsDown(i);
      forall k | 0 <= k < i && k < used ensures Follows(files[..], k) {
        assert Follows(t, k);
      }
      LayOutFrom(i, if i < used then used - 1 else used);
    }
  }

  // The write is accepted, and its data end on the disk.
  ghost predicate WriteFits(fs: FileSystem, fildes: nat, len: nat)
    requires fs.Valid() && fildes < MAX_OPEN
    reads fs, fs.disk, fs.files, fs.openFiles
  {
    var fd := fs.openFiles[fildes];
    && 0 <= fd.fileNum < fs.used
    && fs.files[fd.fileNum].Start() + fd.offset + len <= DISK_BYTES
    && (fd.offset + len <= fs.files[fd.fileNum].size || fd.fileNum + 1 == fs.used)
  }

  // `fs_write` seen on the list of files: the data are in place, and no file
  // clear of the first block touched has changed.
  method WriteFitting(fs: FileSystem, fildes: nat, data: seq<Byte>) returns (r: int)
    requires fs.Valid() && fildes < MAX_OPEN && WriteFits(fs, fildes, |data|)
    modifies fs.disk, fs.files, fs.openFiles
    ensures fs.Valid() && r == |data|
    ensures fs.openFiles[..] == old(fs.openFiles[..])[fildes :=
              OpenFile(old(fs.openFiles[fildes].fileNum), old(fs.openFiles[fildes].offset) + |data|)]
    ensures FilesAfterWrite(old(fs.Files()), fs.Files(), old(fs.files[..]),
                            old(fs.openFiles[fildes].fileNum), old(fs.openFiles[fildes].offset), data)
  {
    ghost var t, n, img, v, fd := fs.files[..], fs.used, fs.disk.image, fs.Files(), fs.openFiles[fildes];
    assert DescriptorOk(fd, t, n);
    ghost var residue;
    r, residue := fs.FsWrite(fildes, data);
    WriteSeen(fs, t, n, img, v, fd.fileNum, fd.offset, data, residue, t[fd.fileNum].Start() + fd.offset);
  }

  lemma WriteSeen(fs: FileSystem, t: Table, n: nat, img: Image, v: seq<File>, i: nat, offset: nat, data: seq<Byte>, residue: seq<Byte>, p: nat)
    requires Layout(t, n) && |img| == DISK_BYTES && i < n && IsResidue(residue) && v == View(t, n, img)
    requires offset <= t[i].size && (offset + |data| <= t[i].size || i + 1 == n)
    requires p == t[i].Start() + offset && p + |data| <= DISK_BYTES
    requires fs.TablesValid() && fs.used == n
    requires fs.files[..] == Grown(t, i, offset + |data|) && fs.disk.image == Written(img, p, data, residue)
    ensures FilesAfterWrite(v, fs.Files(), t, i, offset, data)
  {
    ViewAfterWrite(t, n, img, i, offset, data, residue, p);
    FilesAre(fs, Grown(t, i, offset + |data|), n, Written(img, p, data, residue));
  }

  lemma FilesAre(fs: FileSystem, t: Table, n: nat, img: Image)
    requires fs.TablesValid() && fs.files[..] == t && fs.used == n && fs.disk.image == img
    ensures Layout(t, n) && |img| == DISK_BYTES && fs.Files() == View(t, n, img)
  {
  }

  // Writing at an offset, seeking back to it and reading returns what was
  // written, across any number of block boundaries.
  method WriteSeekRead(fs: FileSystem, fildes: nat, data: seq<Byte>, buf: array<Byte>) returns (r: int)
    requires fs.Valid() && fildes < MAX_OPEN && WriteFits(fs, fildes, |data|) && |data| <= buf.Length
    modifies fs.disk, fs.files, fs.openFiles, buf
    ensures fs.Valid() && r == |data| && buf[..|data|] == data
    ensures fs.openFiles[..] == old(fs.openFiles[..])[fildes :=
              OpenFile(old(fs.openFiles[fildes].fileNum), old(fs.openFiles[fildes].offset) + |data|)]
  {
    var offset := fs.openFiles[fildes].offset;
    var w := WriteFitting(fs, fildes, data);
    r := SeekRead(fs, fildes, offset, data, buf);
  }

  method SeekRead(fs: FileSystem, fildes: nat, offset: nat, data: seq<Byte>, buf: array<Byte>) returns (r: nat)
    requires fs.Valid() && fildes < MAX_OPEN && fs.openFiles[fildes].fileNum != -1 && |data| <= buf.Length
    requires 0 <= fs.openFiles[fildes].fileNum < fs.used
    requires var bytes := fs.Files()[fs.openFiles[fildes].fileNum].data;
             offset + |data| <= |bytes| && bytes[offset..offset + |data|] == data
    modifies fs.openFiles, buf
    ensures fs.Valid() && r == |data| && buf[..|data|] == data
    ensures fs.openFiles[..] == old(fs.openFiles[..])[fildes := OpenFile(old(fs.openFiles[fildes].fileNum), offset + |data|)]
  {
    var s := fs.FsLseek(fildes, offset);
    r := fs.FsRead(fildes, buf, |data|);
  }

  lemma DescriptorsSurviveGrowth(fds: seq<OpenFile>, t: Table, n: nat, u: Table, m: nat)
    requires n <= |t| && n <= m <= |u| && DescriptorsOk(fds, t, n)
    requires forall k :: 0 <= k < n ==> t[k].size <= u[k].size
    ensures DescriptorsOk(fds, u, m)
  {
  }

  // Moving the offset of one descriptor inside its file.
  lemma DescriptorsSurviveMove(fds: seq<OpenFile>, t: Table, n: nat, f: nat, fd: OpenFile)
    requires n <= |t| && f < |fds| && DescriptorsOk(fds, t, n) && DescriptorOk(fd, t, n)
    ensures DescriptorsOk(fds[f := fd], t, n)
  {
  }

  // The invariant after a write holds exactly when the data end on the disk.
  lemma WriteKeepsTables(fds: seq<OpenFile>, t: Table, n: nat, f: nat, len: nat)
    requires Layout(t, n) && f < |fds| && DescriptorsOk(fds, t, n) && fds[f].fileNum != -1
    requires var fd := fds[f]; 0 <= fd.fileNum < n && (fd.offset + len <= t[fd.fileNum].size || fd.fileNum + 1 == n)
    ensures var fd := fds[f];
            var u := Grown(t, fd.fileNum, fd.offset + len);
            Layout(u, n) && DescriptorsOk(fds[f := fd.(offset := fd.offset + len)], u, n) <==>
            t[fd.fileNum].Start() + fd.offset + len <= DISK_BYTES
  {
    var fd := fds[f];
    assert DescriptorOk(fd, t, n);
    var u := Grown(t, fd.fileNum, fd.offset + len);
    GrownLayout(t, n, fd.fileNum, fd.offset + len);
    ExtentsOrdered(t, n, fd.fileNum, n);
    DescriptorsSurviveGrowth(fds, t, n, u, n);
    DescriptorsSurviveMove(fds, u, n, f, fd.(offset := fd.offset + len));
  }

  // Renumbering after a deletion keeps every descriptor in order, and each still
  // denotes the same name and bytes.
  lemma DescriptorsSurviveRemoval(fds: seq<OpenFile>, t: Table, n: nat, i: nat, gds: seq<OpenFile>, u: Table)
    requires UsedPrefix(t, n) && i < n && SlotRemoved(t, n, i, u) && DescriptorsOk(fds, t, n) && |gds| == |fds|
    requires forall d :: 0 <= d < |fds| ==> fds[d].fileNum != i && gds[d] == Renumbered(fds[d], i)
    ensures DescriptorsOk(gds, u, n - 1)
  {
  }

  // Removing a free slot leaves every descriptor as it is.
  lemma NoneRenumbered(fds: seq<OpenFile>, t: Table, n: nat, i: nat, gds: seq<OpenFile>, u: Table)
    requires UsedPrefix(t, n) && n <= i && FreeSlotRemoved(t, n, u) && DescriptorsOk(fds, t, n) && |gds| == |fds|
    requires forall d :: 0 <= d < |fds| ==> gds[d] == Renumbered(fds[d], i)
    ensures gds == fds && DescriptorsOk(gds, u, n)
  {
  }

  // Every descriptor denotes, in the new list of files, the entry it denoted in
  // the old one, at the same offset.
  ghost predicate SameFilesOpen(fds: seq<OpenFile>, v: seq<File>, gds: seq<OpenFile>, w: seq<File>) {
    && |gds| == |fds|
    && forall d :: 0 <= d < |fds| ==>
         && gds[d].offset == fds[d].offset && (gds[d].fileNum == -1 <==> fds[d].fileNum == -1)
         && (fds[d].fileNum != -1 ==> 0 <= fds[d].fileNum < |v| && 0 <= gds[d].fileNum < |w| && w[gds[d].fileNum] == v[fds[d].fileNum])
  }

  lemma SameFileAfterRemoval(fds: seq<OpenFile>, t: Table, n: nat, i: nat, v: seq<File>, gds: seq<OpenFile>)
    requires n <= |t| && DescriptorsOk(fds, t, n) && i < n && |v| == n && |gds| == |fds|
    requires forall d :: 0 <= d < |fds| ==> fds[d].fileNum != i && gds[d] == Renumbered(fds[d], i)
    ensures SameFilesOpen(fds, v, gds, v[..i] + v[i + 1..])
  {
  }

  // The descriptors after `fs_truncate` through descriptor f.
  function DescriptorsTruncated(fds: seq<OpenFile>, f: nat, length: int): seq<OpenFile>
    requires f < |fds|
  {
    if fds[f].offset > length then fds[f := fds[f].(offset := length)] else fds
  }

  lemma DescriptorsTruncatedIff(fds: seq<OpenFile>, t: Table, n: nat, u: Table, f: nat, length: nat)
    requires f < |fds| && n <= |t| && DescriptorsOk(fds, t, n) && 0 <= fds[f].fileNum
    requires Truncated(t, u, fds[f].fileNum, f, length)
    ensures DescriptorsOk(DescriptorsTruncated(fds, f, length), u, n) <==>
            forall d :: 0 <= d < |fds| && d != f && fds[d].fileNum == fds[f].fileNum ==> fds[d].offset <= length
  {
  }
}
