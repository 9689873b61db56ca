// What `fs_truncate` does to the table and to the files. It shifts the disk by
// length - 1 bytes instead of by the bytes cut off, and lays out the slots from
// the descriptor's number on, not from the file's: each promise it makes holds
// under an exact condition only.

module FileTruncate {
  import opened Common
  import opened Disk
  import opened ShiftBlocks
  import opened FileTable

  // How many bytes the truncation cuts out of the disk after the kept ones: a
  // shift by -1, for length 0, changes nothing.
  function BytesCut(length: nat): nat {
    if length == 0 then 0 else length - 1
  }

  // The table u after slot i of t got size `length` through descriptor f: only
  // the slots from f on, and never the last one, are laid out again.
  ghost predicate Truncated(t: Table, u: Table, i: nat, f: nat, length: nat) {
    && |u| == |t| == MAX_FILES && i < MAX_FILES && f < MAX_FILES
    && u[i].size == length
    && (forall k :: 0 <= k < MAX_FILES ==> u[k].name == t[k].name && u[k].Placeable() && (k != i ==> u[k].size == t[k].size))
    && (forall k :: 0 <= k < MAX_FILES && (k < f || k == MAX_FILES - 1) ==> u[k].block == t[k].block && u[k].offset == t[k].offset)
    && (forall k :: f <= k < MAX_FILES - 1 ==> Placed(u, k))
  }

  // Does the truncation of slot i through descriptor f move slot k?
  predicate Moves(i: nat, f: nat, k: nat) {
    f <= i + 1 && i < k < MAX_FILES - 1
  }

  // A slot that moves does so by the bytes the file lost, and no other changes
  // its place.
  lemma {:induction false} TruncatedStart(t: Table, n: nat, u: Table, i: nat, f: nat, length: nat, k: nat)
    requires Layout(t, n) && Truncated(t, u, i, f, length) && i < n && k < n
    ensures u[k].Start() == t[k].Start() - if Moves(i, f, k) then t[i].size - length else 0
  {
    assert Follows(t, k);
    if f <= k < MAX_FILES - 1 {
      assert Placed(u, k);
      if k > 0 {
        TruncatedStart(t, n, u, i, f, length, k - 1);
      }
    }
  }

  // The files still lie one after the other exactly when nothing was cut off,
  // nothing follows, or the layout began early enough and reached every file.
  predicate KeepsLayout(n: nat, i: nat, f: nat, size: nat, length: nat) {
    length == size || i + 1 >= n || (f <= i + 1 && n < MAX_FILES)
  }

  lemma TruncatedLayoutIff(t: Table, n: nat, u: Table, i: nat, f: nat, length: nat)
    requires Layout(t, n) && Truncated(t, u, i, f, length) && i < n && length <= t[i].size
    ensures Layout(u, n) <==> KeepsLayout(n, i, f, t[i].size, length)
  {
    forall k | 0 <= k < n
      ensures u[k].Start() == t[k].Start() - if Moves(i, f, k) then t[i].size - length else 0
    {
      TruncatedStart(t, n, u, i, f, length, k);
    }
    if KeepsLayout(n, i, f, t[i].size, length) {
      forall k | 0 <= k < n ensures Follows(u, k) {
        assert Follows(t, k);
      }
    } else {
      // The first slot left behind.
      var k := if f <= i + 1 && i + 1 < MAX_FILES - 1 then MAX_FILES - 1 else i + 1;
      assert Follows(t, k) && !Follows(u, k);
    }
  }

  // ---- The bytes ----

  lemma TruncatedExtent(t: Table, n: nat, u: Table, i: nat, f: nat, length: nat, j: nat)
    requires Layout(t, n) && Truncated(t, u, i, f, length) && i < n && length <= t[i].size && j < n && j != i
    ensures DATA_BASE <= t[i].Start() && 0 <= u[j].Start() <= u[j].End() <= DISK_BYTES
    ensures if j < i then u[j].End() <= t[i].Start() else t[i].Start() + length <= u[j].Start()
  {
    TruncatedStart(t, n, u, i, f, length, j);
    ExtentsOrdered(t, n, j, j + 1);
    if j < i {
      ExtentsOrdered(t, n, j, i);
    } else {
      ExtentsOrdered(t, n, i, j);
    }
  }

  // The bytes found where the table u says file j lies, after a truncation of
  // slot i that left u.
  ghost function FoundAfter(t: Table, n: nat, u: Table, img: Image, i: nat, f: nat, length: nat, j: nat): (r: seq<Byte>)
    requires Layout(t, n) && Truncated(t, u, i, f, length) && i < n && length <= t[i].size && j < n && j != i
    requires |img| == DISK_BYTES
    ensures |r| == t[j].size
  {
    TruncatedExtent(t, n, u, i, f, length, j);
    Cut(img, t[i].Start() + length, BytesCut(length))[u[j].Start()..u[j].End()]
  }

  ghost predicate OtherKept(t: Table, n: nat, u: Table, img: Image, i: nat, f: nat, length: nat, j: nat)
    requires Layout(t, n) && Truncated(t, u, i, f, length) && i < n && length <= t[i].size && j < n && j != i
  {
    |img| == DISK_BYTES ==> FoundAfter(t, n, u, img, i, f, length, j) == Contents(t, n, img, j)
  }

  // An image that is zero everywhere but at one byte.
  function Marked(p: nat): (r: Image)
    requires p < DISK_BYTES
    ensures |r| == DISK_BYTES
  {
    seq(DISK_BYTES, k => if k == p then 1 else 0)
  }

  // Where the bytes of a file behind the truncated one end up, and where it is
  // then looked for.
  predicate CutMatchesMove(i: nat, f: nat, size: nat, length: nat, j: nat) {
    BytesCut(length) == if Moves(i, f, j) then size - length else 0
  }

  lemma OtherFound(t: Table, n: nat, u: Table, img: Image, i: nat, f: nat, length: nat, j: nat)
    requires Layout(t, n) && Truncated(t, u, i, f, length) && i < n && length <= t[i].size && j < n && j != i
    requires j < i || t[j].size == 0 || CutMatchesMove(i, f, t[i].size, length, j)
    requires |img| == DISK_BYTES
    ensures FoundAfter(t, n, u, img, i, f, length, j) == Contents(t, n, img, j)
  {
    TruncatedExtent(t, n, u, i, f, length, j);
    TruncatedStart(t, n, u, i, f, length, j);
    ExtentsOrdered(t, n, j, j + 1);
  }

  // A mark on the file's first byte is not found again.
  lemma OtherLost(t: Table, n: nat, u: Table, i: nat, f: nat, length: nat, j: nat)
    requires Layout(t, n) && Truncated(t, u, i, f, length) && i < n && length <= t[i].size && i < j < n
    requires t[j].size > 0 && !CutMatchesMove(i, f, t[i].size, length, j)
    requires 0 <= t[j].Start() < DISK_BYTES
    ensures FoundAfter(t, n, u, Marked(t[j].Start()), i, f, length, j) != Contents(t, n, Marked(t[j].Start()), j)
  {
    TruncatedExtent(t, n, u, i, f, length, j);
    TruncatedStart(t, n, u, i, f, length, j);
    ExtentsOrdered(t, n, j, j + 1);
    var img := Marked(t[j].Start());
    assert Contents(t, n, img, j)[0] == 1;
    assert FoundAfter(t, n, u, img, i, f, length, j)[0] ==
           CutByte(img, t[i].Start() + length, BytesCut(length), u[j].Start()) == 0;
  }

  // Another file is found unchanged, on every disk, exactly when it comes before
  // the truncated one, is empty, or moves by the number of bytes cut.
  lemma OtherKeptIff(t: Table, n: nat, u: Table, i: nat, f: nat, length: nat, j: nat)
    requires Layout(t, n) && Truncated(t, u, i, f, length) && i < n && length <= t[i].size && j < n && j != i
    ensures (forall img: Image :: OtherKept(t, n, u, img, i, f, length, j)) <==>
            j < i || t[j].size == 0 || CutMatchesMove(i, f, t[i].size, length, j)
  {
    if j < i || t[j].size == 0 || CutMatchesMove(i, f, t[i].size, length, j) {
      forall img: Image | |img| == DISK_BYTES ensures OtherKept(t, n, u, img, i, f, length, j) {
        OtherFound(t, n, u, img, i, f, length, j);
      }
    } else {
      ExtentsOrdered(t, n, j, j + 1);
      OtherLost(t, n, u, i, f, length, j);
      assert !OtherKept(t, n, u, Marked(t[j].Start()), i, f, length, j);
    }
  }

  // The truncated file keeps its first bytes, whatever the length.
  lemma PrefixKept(t: Table, n: nat, img: Image, i: nat, length: nat, s: nat)
    requires Layout(t, n) && |img| == DISK_BYTES && i < n && length <= t[i].size && s == t[i].Start()
    ensures s + length <= DISK_BYTES
    ensures Cut(img, s + length, BytesCut(length))[s..s + length] == Contents(t, n, img, i)[..length]
  {
    ExtentsOrdered(t, n, i, i + 1);
  }

  // The promise of a truncation on the list of files: one file loses its tail
  // and nothing else changes.
  ghost predicate TruncatesFile(t: Table, n: nat, u: Table, img: Image, i: nat, length: nat)
    requires Layout(t, n) && Layout(u, n) && i < n && length <= t[i].size && t[i].Start() >= 0
  {
    |img| == DISK_BYTES ==>
      View(u, n, Cut(img, t[i].Start() + length, BytesCut(length))) ==
      View(t, n, img)[i := File(t[i].name, Contents(t, n, img, i)[..length])]
  }

  // Where the layout survives, the promise holds on every disk exactly when no
  // later file has any bytes or as many bytes were cut as the file lost.
  lemma TruncatesFileIff(t: Table, n: nat, u: Table, i: nat, f: nat, length: nat)
    requires Layout(t, n) && Truncated(t, u, i, f, length) && i < n && length <= t[i].size
    requires KeepsLayout(n, i, f, t[i].size, length)
    ensures Layout(u, n) && t[i].Start() >= 0
    ensures (forall img: Image :: TruncatesFile(t, n, u, img, i, length)) <==>
            (forall j :: i < j < n ==> t[j].size == 0) || length + BytesCut(length) == t[i].size
  {
    TruncatedLayoutIff(t, n, u, i, f, length);
    ExtentsOrdered(t, n, i, i + 1);
    if (forall j :: i < j < n ==> t[j].size == 0) || length + BytesCut(length) == t[i].size {
      forall img: Image | |img| == DISK_BYTES ensures TruncatesFile(t, n, u, img, i, length) {
        AllKept(t, n, u, img, i, f, length);
      }
    } else {
      var j :| i < j < n && t[j].size != 0;
      OtherKeptIff(t, n, u, i, f, length, j);
      var img: Image :| !OtherKept(t, n, u, img, i, f, length, j);
      var v := View(u, n, Cut(img, t[i].Start() + length, BytesCut(length)));
      assert v[j].data == FoundAfter(t, n, u, img, i, f, length, j) != View(t, n, img)[j].data;
      assert !TruncatesFile(t, n, u, img, i, length);
    }
  }

  lemma AllKept(t: Table, n: nat, u: Table, img: Image, i: nat, f: nat, length: nat)
    requires Layout(t, n) && Layout(u, n) && Truncated(t, u, i, f, length) && i < n && length <= t[i].size
    requires |img| == DISK_BYTES && t[i].Start() >= 0 && KeepsLayout(n, i, f, t[i].size, length)
    requires (forall j :: i < j < n ==> t[j].size == 0) || length + BytesCut(length) == t[i].size
    ensures TruncatesFile(t, n, u, img, i, length)
  {
    var img' := Cut(img, t[i].Start() + length, BytesCut(length));
    var v, w := View(t, n, img), View(u, n, img');
    forall j | 0 <= j < n && j != i ensures w[j] == v[j] {
      OtherFound(t, n, u, img, i, f, length, j);
      assert Contents(u, n, img', j) == FoundAfter(t, n, u, img, i, f, length, j);
    }
    PrefixKept(t, n, img, i, length, t[i].Start());
    TruncatedStart(t, n, u, i, f, length, i);
    IsUpdate(v, i, File(t[i].name, Contents(t, n, img, i)[..length]), w);
  }
}
