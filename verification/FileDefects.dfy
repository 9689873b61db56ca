// Promises of the file system that its code keeps only under a condition: for
// each, the exact condition and a concrete case in which it fails.

module FileDefects {
  import opened Disk
  import opened ShiftBlocks
  import opened FileTable
  import opened FileWrites
  import opened FileSystem
  import opened FileTruncate

  const FREE: FsMeta := FsMeta("", 0, 0, -1)

  // ---- Writing one file leaves the others alone ----

  // Two small files in one block, as right after creating and filling them.
  function TwoFiles(): Table {
    [FsMeta("test1", DATA_START, 0, 5), FsMeta("test2", DATA_START, 5, 8)] + seq(MAX_FILES - 2, _ => FREE)
  }

  // Overwriting all of the first file can damage the second.
  lemma OverwriteDamagesNeighbour(img: Image, data: seq<Byte>)
    requires |img| == DISK_BYTES && |data| == 5
    ensures Layout(TwoFiles(), 2)
    ensures !AlwaysKept(img, DATA_BASE, data, TwoFiles()[1].Start(), TwoFiles()[1].End())
  {
    var t := TwoFiles();
    assert Follows(t, 0) && Follows(t, 1);
    assert Layout(t, 2);
    OtherFileKeptIff(t, 2, img, 0, 0, data, 1, DATA_BASE);
  }

  // ---- File names are unique ----

  ghost predicate NamesDistinct(v: seq<File>) {
    forall i, j :: 0 <= i < j < |v| ==> v[i].name != v[j].name
  }

  // An accepted creation keeps names distinct exactly when no slot behind those
  // `fs_create` scans carries the name; with at most as many files as it scans it
  // always does.
  method CreateKeepsNames(fs: FileSystem, name: string) returns (r: int)
    requires fs.Valid() && NamesDistinct(fs.Files())
    modifies fs`used, fs`beyond, fs.files
    ensures fs.Valid()
    ensures NamesDistinct(fs.Files()) <==> r == -1 || forall k :: 32 <= k < |old(fs.Files())| ==> old(fs.Files())[k].name != name
    ensures |old(fs.Files())| <= 32 ==> NamesDistinct(fs.Files())
  {
    ghost var t, v := fs.files[..], fs.Files();
    r := fs.FsCreate(name);
    if r == 0 {
      assert forall k :: 0 <= k < DUPLICATE_SCAN && k < |v| ==> t[..DUPLICATE_SCAN][k].name == v[k].name;
      AppendKeepsNamesIff(v, name);
    }
  }

  lemma AppendKeepsNamesIff(v: seq<File>, name: string)
    requires NamesDistinct(v) && forall k :: 0 <= k < DUPLICATE_SCAN && k < |v| ==> v[k].name != name
    ensures NamesDistinct(v + [File(name, [])]) <==> forall k :: DUPLICATE_SCAN <= k < |v| ==> v[k].name != name
  {
    var w := v + [File(name, [])];
    forall k | DUPLICATE_SCAN <= k < |v| && v[k].name == name ensures !NamesDistinct(w) {
      assert w[k].name == w[|v|].name;
    }
  }

  // With more files than that, and a slot left, some accepted creation breaks it:
  // the first file beyond the scan can be created a second time.
  method CreateDuplicate(fs: FileSystem) returns (r: int)
    requires fs.Valid() && NamesDistinct(fs.Files()) && 32 < fs.used < 64
    modifies fs`used, fs`beyond, fs.files
    ensures r == 0 && fs.Valid() && !NamesDistinct(fs.Files())
    ensures fs.Files() == old(fs.Files()) + [File(old(fs.Files())[DUPLICATE_SCAN].name, [])]
  {
    ghost var t, v := fs.files[..], fs.Files();
    var name := fs.files[DUPLICATE_SCAN].name;
    assert v[DUPLICATE_SCAN].name == name;
    forall k | 0 <= k < DUPLICATE_SCAN ensures t[..DUPLICATE_SCAN][k].name != name {
      assert v[k].name == t[k].name;
    }
    r := fs.FsCreate(name);
    assert fs.Files()[DUPLICATE_SCAN].name == fs.Files()[|v|].name;
  }

  // Thirty-three creations on a fresh file system lead to such a state.
  method ThirtyThreeFiles() returns (fs: FileSystem)
    ensures fresh(fs) && fs.Valid() && NamesDistinct(fs.Files()) && fs.used == 33
  {
    fs := new FileSystem();
    var i := 0;
    while i <= DUPLICATE_SCAN
      invariant i <= DUPLICATE_SCAN + 1 && fresh(fs) && fresh(fs.disk) && fresh(fs.files) && fresh(fs.openFiles)
      invariant fs.Valid() && fs.used == i
      invariant forall k :: 0 <= k < i ==> fs.Files()[k].name == [(65 + k) as char]
    {
      ghost var t, v := fs.files[..], fs.Files();
      var name := [(65 + i) as char];
      forall k | 0 <= k < DUPLICATE_SCAN ensures t[..DUPLICATE_SCAN][k].name != name {
        assert k < i ==> v[k].name == t[k].name;
      }
      var r := fs.FsCreate(name);
      assert fs.Files() == v + [File(name, [])];
      i := i + 1;
    }
  }

  // ---- Truncating a file leaves the others alone ----

  // Truncating the first of the two files from 5 bytes to 3 through one of the
  // first two descriptors happens to cut as many bytes as the second file moves.
  method TruncateEarly(fs: FileSystem, fildes: nat) returns (r: int)
    requires fs.Valid() && fs.files[..] == TwoFiles() && fildes <= 1 && fs.openFiles[fildes].fileNum == 0
    requires forall d :: 0 <= d < MAX_OPEN && d != fildes && fs.openFiles[d].fileNum == 0 ==> fs.openFiles[d].offset <= 3
    modifies fs.disk, fs.files, fs.openFiles
    ensures r == 0 && fs.Valid() && |old(fs.Files())| == 2
    ensures |old(fs.Files())[0].data| == 5
    ensures fs.Files() == old(fs.Files())[0 := File("test1", old(fs.Files())[0].data[..3])]
  {
    ghost var t, n, img := fs.files[..], fs.used, fs.disk.image;
    TwoUsed(n);
    r := fs.FsTruncate(fildes, 3);
    TruncatesFileIff(t, n, fs.files[..], 0, fildes, 3);
    assert TruncatesFile(t, n, fs.files[..], img, 0, 3);
  }

  // The same truncation through a later descriptor: the second file stays where
  // it is while its bytes slide left by two, and the layout is broken.
  method TruncateLate(fs: FileSystem) returns (r: int)
    requires fs.Valid() && fs.files[..] == TwoFiles() && fs.openFiles[2].fileNum == 0
    modifies fs.disk, fs.files, fs.openFiles
    ensures r == 0 && !fs.Valid()
    ensures fs.files[0].size == 3 && fs.files[1] == TwoFiles()[1]
    ensures |fs.disk.image| == |old(fs.disk.image)| == DISK_BYTES
    ensures fs.disk.image[DATA_BASE + 5..DATA_BASE + 11] == old(fs.disk.image)[DATA_BASE + 7..DATA_BASE + 13]
  {
    TwoUsed(fs.used);
    r := fs.FsTruncate(2, 3);
  }

  lemma TwoUsed(n: nat)
    requires UsedPrefix(TwoFiles(), n)
    ensures n == 2 && TwoFiles()[0].Start() == DATA_BASE && TwoFiles()[0].size == 5 && TwoFiles()[1].size == 8
  {
    var t := TwoFiles();
    assert t[0].size == 5 && t[1].size == 8 && t[2].size == -1;
  }
}
