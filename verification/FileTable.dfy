// The file table of myfilesys.c as a value: which slots are used, where each
// file lies on the disk, and the list of named byte strings that both stand for.

module FileTable {
  import opened Common
  import opened Disk
  import opened ShiftBlocks

  const DATA_START: nat := DISK_BLOCKS / 2
  const DATA_BASE: nat := DATA_START * BLOCK_SIZE
  const MAX_FILES: nat := 64
  const MAX_OPEN: nat := 32
  const MAX_NAME: nat := 15

  datatype FsMeta = FsMeta(name: string, block: int, offset: int, size: int) {
    // The position of the file's first byte on the disk.
    function Start(): int {
      block * BLOCK_SIZE + offset
    }

    function End(): int {
      Start() + size
    }

    // An offset may equal the block size.
    predicate Placeable() {
      0 <= block && 0 <= offset <= BLOCK_SIZE
    }
  }

  datatype OpenFile = OpenFile(fileNum: int, offset: int)

  type Table = seq<FsMeta>

  // The used slots are the first n, and free slots carry no name.
  ghost predicate UsedPrefix(t: Table, n: nat) {
    && |t| == MAX_FILES && n <= MAX_FILES
    && (forall i :: 0 <= i < n ==> t[i].size >= 0 && |t[i].name| <= MAX_NAME)
    && (forall i :: n <= i < MAX_FILES ==> t[i].size == -1 && t[i].name == "")
    && (forall i :: 0 <= i < MAX_FILES ==> t[i].Placeable())
  }

  // Slot i starts where slot i - 1 ends; the first at the start of the data area.
  ghost predicate Follows(t: Table, i: nat)
    requires i < |t|
  {
    t[i].Start() == if i == 0 then DATA_BASE else t[i - 1].End()
  }

  ghost predicate Contiguous(t: Table, n: nat) {
    n <= |t| && forall i :: 0 <= i < n ==> Follows(t, i)
  }

  // Where the slot after m starts; a free slot takes no room.
  function NextStart(m: FsMeta): int {
    m.Start() + if m.size == -1 then 0 else m.size
  }

  // Slot k, used or free, starts where `fillBlockAndOffset` puts it.
  ghost predicate Placed(t: Table, k: nat)
    requires k < |t|
  {
    t[k].Start() == if k == 0 then DATA_BASE else NextStart(t[k - 1])
  }

  // The first byte after the last file.
  ghost function DataEnd(t: Table, n: nat): int
    requires n <= |t|
  {
    if n == 0 then DATA_BASE else t[n - 1].End()
  }

  ghost predicate Layout(t: Table, n: nat) {
    UsedPrefix(t, n) && Contiguous(t, n) && DataEnd(t, n) <= DISK_BYTES
  }

  ghost function SumSizes(t: Table, n: nat): int
    requires n <= |t|
  {
    if n == 0 then 0 else SumSizes(t, n - 1) + t[n - 1].size
  }

  // A used file starts in the middle of the disk plus the sizes of the files before it.
  lemma {:induction false} StartIsSum(t: Table, n: nat, i: nat)
    requires Layout(t, n) && i < n
    ensures t[i].Start() == DISK_BYTES / 2 + SumSizes(t, i)
  {
    assert Follows(t, i);
    if i > 0 {
      StartIsSum(t, n, i - 1);
    }
  }

  lemma {:induction false} StartsInData(t: Table, n: nat, i: nat)
    requires Layout(t, n) && i < n
    ensures DATA_BASE <= t[i].Start() <= t[i].End()
  {
    assert Follows(t, i);
    if i > 0 {
      StartsInData(t, n, i - 1);
    }
  }

  lemma {:induction false} EndsBefore(t: Table, n: nat, i: nat, j: nat)
    requires Layout(t, n) && i < j <= n
    ensures t[i].End() <= t[j - 1].End()
  {
    if i < j - 1 {
      EndsBefore(t, n, i, j - 1);
      assert Follows(t, j - 1);
    }
  }

  // Every file lies in the data area and ends before any later one starts.
  lemma ExtentsOrdered(t: Table, n: nat, i: nat, j: nat)
    requires Layout(t, n) && i < j <= n
    ensures DATA_BASE <= t[i].Start() <= t[i].End() <= DISK_BYTES
    ensures t[i].End() <= if j < n then t[j].Start() else DataEnd(t, n)
  {
    StartsInData(t, n, i);
    EndsBefore(t, n, i, j);
    EndsBefore(t, n, i, n);
    if j < n {
      assert Follows(t, j);
    }
  }

  // What the table and the disk stand for: named byte strings in slot order.
  datatype File = File(name: string, data: seq<Byte>)

  ghost function Contents(t: Table, n: nat, img: Image, i: nat): (r: seq<Byte>)
    requires Layout(t, n) && |img| == DISK_BYTES && i < n
    ensures |r| == t[i].size
  {
    ExtentsOrdered(t, n, i, i + 1);
    img[t[i].Start()..t[i].End()]
  }

  lemma ContentsSlice(t: Table, n: nat, img: Image, i: nat, offset: nat, len: nat)
    requires Layout(t, n) && |img| == DISK_BYTES && i < n && offset + len <= t[i].size
    ensures 0 <= t[i].Start() && t[i].Start() + offset + len <= DISK_BYTES
    ensures Contents(t, n, img, i)[offset..offset + len] == img[t[i].Start() + offset..t[i].Start() + offset + len]
  {
    ExtentsOrdered(t, n, i, i + 1);
    SliceOfSlice(img, t[i].Start(), t[i].End(), offset, len);
  }

  lemma SliceOfSlice<T>(s: seq<T>, lo: nat, hi: nat, offset: nat, len: nat)
    requires lo + offset + len <= hi <= |s|
    ensures s[lo..hi][offset..offset + len] == s[lo + offset..lo + offset + len]
  {
    var a, b := s[lo..hi][offset..offset + len], s[lo + offset..lo + offset + len];
    forall k | 0 <= k < len ensures a[k] == b[k] {
      assert a[k] == s[lo..hi][offset + k] == s[lo + offset + k];
    }
  }

  ghost function View(t: Table, n: nat, img: Image): (r: seq<File>)
    requires Layout(t, n) && |img| == DISK_BYTES
    ensures |r| == n
    ensures forall i :: 0 <= i < n ==> r[i] == File(t[i].name, Contents(t, n, img, i))
  {
    seq(n, i requires 0 <= i < n => File(t[i].name, Contents(t, n, img, i)))
  }

  // What deleting slot i does to the table: later slots move down one place and
  // are laid out afresh.
  ghost predicate SlotRemoved(t: Table, n: nat, i: nat, u: Table)
    requires UsedPrefix(t, n) && i < n
  {
    && UsedPrefix(u, n - 1) && Contiguous(u, n - 1)
    && (forall k :: 0 <= k < i ==> u[k] == t[k])
    && (forall k :: i <= k < n - 1 ==> u[k].name == t[k + 1].name && u[k].size == t[k + 1].size)
  }

  // The same for a free slot: all files stay where they are.
  ghost predicate FreeSlotRemoved(t: Table, n: nat, u: Table)
    requires UsedPrefix(t, n)
  {
    UsedPrefix(u, n) && forall k :: 0 <= k < n ==> u[k] == t[k]
  }

  lemma ViewSame(t: Table, n: nat, u: Table, img: Image)
    requires Layout(t, n) && FreeSlotRemoved(t, n, u) && |img| == DISK_BYTES
    ensures Layout(u, n) && View(u, n, img) == View(t, n, img)
  {
    forall k | 0 <= k < n ensures Follows(u, k) {
      assert Follows(t, k);
    }
    forall k | 0 <= k < n ensures View(u, n, img)[k] == View(t, n, img)[k] {
      ContentsSame(t, n, u, n, img, k);
    }
  }

  lemma {:induction false} RemovedStart(t: Table, n: nat, i: nat, u: Table, k: nat)
    requires Layout(t, n) && i < n && SlotRemoved(t, n, i, u) && i <= k < n - 1
    ensures u[k].Start() == t[k + 1].Start() - t[i].size
  {
    assert Follows(u, k) && Follows(t, k + 1) && Follows(t, i);
    if k > i {
      RemovedStart(t, n, i, u, k - 1);
    }
  }

  lemma LayoutAfterRemoval(t: Table, n: nat, i: nat, u: Table)
    requires Layout(t, n) && i < n && SlotRemoved(t, n, i, u)
    ensures Layout(u, n - 1)
  {
    EndsBefore(t, n, i, n);
    if n >= 2 {
      EndsBefore(t, n, n - 2, n);
      if i < n - 1 {
        RemovedStart(t, n, i, u, n - 2);
      }
    }
  }

  lemma ContentsSurviveCut(t: Table, n: nat, img: Image, i: nat, u: Table, k: nat, s: nat)
    requires Layout(t, n) && |img| == DISK_BYTES && i < n && SlotRemoved(t, n, i, u) && k < n - 1 && Layout(u, n - 1)
    requires s == t[i].Start()
    ensures Contents(u, n - 1, Cut(img, s, t[i].size), k) == Contents(t, n, img, if k < i then k else k + 1)
  {
    ExtentsOrdered(t, n, i, i + 1);
    if k < i {
      ExtentsOrdered(t, n, k, i);
    } else {
      ExtentsOrdered(t, n, k + 1, n);
      ExtentsOrdered(t, n, i, k + 1);
      RemovedStart(t, n, i, u, k);
    }
  }

  // Cutting the file's bytes out of the disk and its slot out of the table
  // removes one entry from the list of files and changes no other.
  lemma DeleteRefines(t: Table, n: nat, img: Image, i: nat, u: Table, s: nat)
    requires Layout(t, n) && |img| == DISK_BYTES && i < n && SlotRemoved(t, n, i, u)
    requires s == t[i].Start()
    ensures Layout(u, n - 1)
    ensures View(u, n - 1, Cut(img, s, t[i].size)) == View(t, n, img)[..i] + View(t, n, img)[i + 1..]
  {
    LayoutAfterRemoval(t, n, i, u);
    var v, v' := View(t, n, img), View(u, n - 1, Cut(img, s, t[i].size));
    forall k | 0 <= k < i
      ensures v'[k] == v[k]
    {
      ContentsSurviveCut(t, n, img, i, u, k, s);
    }
    forall k | i <= k < n - 1
      ensures v'[k] == v[k + 1]
    {
      ContentsSurviveCut(t, n, img, i, u, k, s);
    }
    IsSplice(v, i, v');
  }

  // Filling the first free slot as an empty file appends one entry to the list.
  lemma CreateRefines(t: Table, n: nat, u: Table, img: Image, name: string)
    requires Layout(t, n) && n < MAX_FILES && |img| == DISK_BYTES
    requires |u| == |t| && (forall k :: 0 <= k < MAX_FILES && k != n ==> u[k] == t[k])
    requires Follows(u, n) && u[n].name == name && |name| <= MAX_NAME && u[n].size == 0 && u[n].Placeable()
    ensures Layout(u, n + 1)
    ensures View(u, n + 1, img) == View(t, n, img) + [File(name, [])]
  {
    CreatedLayout(t, n, u);
    var v, w := View(t, n, img), View(u, n + 1, img);
    forall k | 0 <= k < n ensures w[k] == v[k] {
      ContentsSame(t, n, u, n + 1, img, k);
    }
    IsAppend(v, File(name, []), w);
  }

  lemma CreatedLayout(t: Table, n: nat, u: Table)
    requires Layout(t, n) && n < MAX_FILES
    requires |u| == |t| && (forall k :: 0 <= k < MAX_FILES && k != n ==> u[k] == t[k])
    requires Follows(u, n) && |u[n].name| <= MAX_NAME && u[n].size == 0 && u[n].Placeable()
    ensures Layout(u, n + 1)
  {
    forall k | 0 <= k < n ensures Follows(u, k) {
      assert Follows(t, k);
    }
  }

  // A file's bytes depend on its place and the disk only.
  lemma ContentsSame(t: Table, n: nat, u: Table, m: nat, img: Image, k: nat)
    requires Layout(t, n) && Layout(u, m) && |img| == DISK_BYTES && k < n && k < m
    requires u[k].Start() == t[k].Start() && u[k].size == t[k].size
    ensures Contents(u, m, img, k) == Contents(t, n, img, k)
  {
  }
}
