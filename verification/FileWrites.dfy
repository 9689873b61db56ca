// What `fs_write` leaves on the disk. Its block buffer comes straight from
// malloc and the first block it touches is never read, so that block keeps
// whatever the buffer held (the residue) around the bytes written.

module FileWrites {
  import opened Disk
  import opened FileTable

  function FirstBlock(p: nat): nat {
    p / BLOCK_SIZE
  }

  predicate IsResidue(residue: seq<Byte>) {
    |residue| == BLOCK_SIZE
  }

  function WrittenByte(img: Image, p: nat, data: seq<Byte>, residue: seq<Byte>, k: nat): Byte
    requires k < |img| && IsResidue(residue)
  {
    if p <= k < p + |data| then data[k - p]
    else if FirstBlock(p) * BLOCK_SIZE <= k < (FirstBlock(p) + 1) * BLOCK_SIZE then residue[k - FirstBlock(p) * BLOCK_SIZE]
    else img[k]
  }

  function Written(img: Image, p: nat, data: seq<Byte>, residue: seq<Byte>): (r: Image)
    requires IsResidue(residue)
    ensures |r| == |img|
    ensures forall k :: 0 <= k < |r| ==> r[k] == WrittenByte(img, p, data, residue, k)
  {
    seq(|img|, k requires 0 <= k < |img| => WrittenByte(img, p, data, residue, k))
  }

  // The bytes written are there to be read back, whatever the residue.
  lemma WrittenRange(img: Image, p: nat, data: seq<Byte>, residue: seq<Byte>)
    requires IsResidue(residue) && p + |data| <= |img|
    ensures Written(img, p, data, residue)[p..p + |data|] == data
  {
  }

  ghost predicate RangeKept(img: Image, p: nat, data: seq<Byte>, residue: seq<Byte>, lo: nat, hi: nat)
    requires lo <= hi <= |img|
  {
    IsResidue(residue) ==> Written(img, p, data, residue)[lo..hi] == img[lo..hi]
  }

  ghost predicate AlwaysKept(img: Image, p: nat, data: seq<Byte>, lo: nat, hi: nat)
    requires lo <= hi <= |img|
  {
    forall residue: seq<Byte> :: RangeKept(img, p, data, residue, lo, hi)
  }

  // Does a range of bytes stay clear of the first block touched by a write at p?
  predicate ClearOfFirstBlock(p: nat, lo: int, hi: int) {
    lo >= hi || hi <= FirstBlock(p) * BLOCK_SIZE || (FirstBlock(p) + 1) * BLOCK_SIZE <= lo
  }

  // A buffer that differs from the block about to be overwritten in every byte.
  function HostileResidue(img: Image, p: nat): (r: seq<Byte>)
    requires |img| == DISK_BYTES && p < DISK_BYTES
    ensures IsResidue(r)
    ensures forall t :: 0 <= t < BLOCK_SIZE ==> r[t] != img[FirstBlock(p) * BLOCK_SIZE + t]
  {
    seq(BLOCK_SIZE, t requires 0 <= t < BLOCK_SIZE => if img[FirstBlock(p) * BLOCK_SIZE + t] == 0 then 1 else 0)
  }

  // Bytes outside the written range survive every write there, for every initial
  // buffer, exactly when they lie outside the first block it touches.
  lemma KeptIffClear(img: Image, p: nat, data: seq<Byte>, lo: nat, hi: nat)
    requires |img| == DISK_BYTES && lo <= hi <= DISK_BYTES
    requires hi <= p || p + |data| <= lo
    ensures AlwaysKept(img, p, data, lo, hi) <==> ClearOfFirstBlock(p, lo, hi)
  {
    var base := FirstBlock(p) * BLOCK_SIZE;
    if ClearOfFirstBlock(p, lo, hi) {
      forall residue: seq<Byte> ensures RangeKept(img, p, data, residue, lo, hi) {
      }
    } else {
      var k := if lo < base then base else lo;
      var residue := HostileResidue(img, p);
      var w := Written(img, p, data, residue);
      assert w[lo..hi][k - lo] == residue[k - base] && img[lo..hi][k - lo] == img[base + (k - base)];
      assert !RangeKept(img, p, data, residue, lo, hi);
    }
  }

  // The table after a write: only the size of the written file may grow.
  function Grown(t: Table, i: nat, end: int): Table
    requires i < |t|
  {
    t[i := t[i].(size := if t[i].size < end then end else t[i].size)]
  }

  // Growing a file that nothing follows, or not growing it, keeps the layout if
  // and only if the data still end on the disk.
  lemma GrownLayout(t: Table, n: nat, i: nat, end: nat)
    requires Layout(t, n) && i < n
    requires end <= t[i].size || i + 1 == n
    ensures Layout(Grown(t, i, end), n) <==> t[i].Start() + end <= DISK_BYTES || end <= t[i].size
  {
    var u := Grown(t, i, end);
    forall k | 0 <= k < n ensures Follows(u, k) {
      assert Follows(t, k);
    }
    ExtentsOrdered(t, n, i, n);
  }

  // Another file keeps its contents, for every initial buffer, exactly when it
  // is empty or has no byte in the first block the write touches.
  lemma OtherFileKeptIff(t: Table, n: nat, img: Image, i: nat, offset: nat, data: seq<Byte>, j: nat, p: nat)
    requires Layout(t, n) && |img| == DISK_BYTES && i < n && j < n && i != j
    requires offset <= t[i].size && (offset + |data| <= t[i].size || i + 1 == n)
    requires p == t[i].Start() + offset
    ensures 0 <= t[j].Start() <= t[j].End() <= DISK_BYTES
    ensures AlwaysKept(img, p, data, t[j].Start(), t[j].End()) <==>
            ClearOfFirstBlock(p, t[j].Start(), t[j].End())
  {
    ExtentsOrdered(t, n, j, j + 1);
    ExtentsOrdered(t, n, i, i + 1);
    if j < i {
      ExtentsOrdered(t, n, j, i);
    } else {
      ExtentsOrdered(t, n, i, j);
    }
    KeptIffClear(img, p, data, t[j].Start(), t[j].End());
  }

  // The part of a file before the write offset survives, for every initial
  // buffer, exactly when it ends on a block boundary of the disk or is empty:
  // only then do successive writes append.
  lemma AppendKeepsPrefixIff(t: Table, n: nat, img: Image, i: nat, offset: nat, data: seq<Byte>, start: nat)
    requires Layout(t, n) && |img| == DISK_BYTES && i < n && offset <= t[i].size
    requires start == t[i].Start() && start + offset <= DISK_BYTES
    ensures AlwaysKept(img, start + offset, data, start, start + offset) <==> offset == 0 || (start + offset) % BLOCK_SIZE == 0
  {
    KeptIffClear(img, start + offset, data, start, start + offset);
  }

  // Byte q of file j is not overwritten by a write of len bytes at offset in file
  // i, and lies outside the first block that write touches.
  ghost predicate Spared(t: Table, i: nat, offset: nat, len: nat, j: nat, q: nat)
    requires i < |t| && j < |t| && 0 <= t[i].Start() + offset
  {
    && !(j == i && offset <= q < offset + len)
    && ClearOfFirstBlock(t[i].Start() + offset, t[j].Start() + q, t[j].Start() + q + 1)
  }

  ghost predicate SparedBytesKept(v: seq<File>, w: seq<File>, t: Table, i: nat, offset: nat, len: nat)
    requires i < |v| == |w| <= |t| && 0 <= t[i].Start() + offset
    requires forall j :: 0 <= j < |v| ==> |v[j].data| <= |w[j].data|
  {
    forall j: nat, q: nat :: j < |v| && q < |v[j].data| && Spared(t, i, offset, len, j, q) ==> w[j].data[q] == v[j].data[q]
  }

  function Max(a: int, b: int): int {
    if a < b then b else a
  }

  // Names are kept, file i ends at `end` or where it did, and no other length changes.
  ghost predicate NamesAndLengths(v: seq<File>, w: seq<File>, i: int, end: int)
    requires |v| == |w| && 0 <= i < |v|
  {
    && (forall j :: 0 <= j < |v| ==> w[j].name == v[j].name)
    && (forall j :: 0 <= j < |v| && j != i ==> |w[j].data| == |v[j].data|)
    && |w[i].data| == Max(|v[i].data|, end)
  }

  ghost predicate ClearFilesKept(v: seq<File>, w: seq<File>, t: Table, i: int, offset: int)
    requires |v| == |w| <= |t| && 0 <= i < |v| && 0 <= t[i].Start() + offset
  {
    forall j :: 0 <= j < |v| && j != i && ClearOfFirstBlock(t[i].Start() + offset, t[j].Start(), t[j].End()) ==> w[j] == v[j]
  }

  ghost predicate DataAt(f: File, offset: nat, data: seq<Byte>) {
    offset + |data| <= |f.data| && f.data[offset..offset + |data|] == data
  }

  // The files w after a write that fits, in terms of those before, v: names and
  // the lengths of the other files are kept, the written file holds the data at
  // the write offset and ends where it did or with the data, and no byte of any
  // file changes but the bytes written and those in the first block touched.
  ghost predicate FilesAfterWrite(v: seq<File>, w: seq<File>, t: Table, i: int, offset: int, data: seq<Byte>) {
    && |w| == |v| <= |t| && 0 <= i < |v| && 0 <= offset && 0 <= t[i].Start() + offset
    && NamesAndLengths(v, w, i, offset + |data|) && DataAt(w[i], offset, data)
    && SparedBytesKept(v, w, t, i, offset, |data|) && ClearFilesKept(v, w, t, i, offset)
  }

  lemma ViewAfterWrite(t: Table, n: nat, img: Image, i: nat, offset: nat, data: seq<Byte>, residue: seq<Byte>, p: nat)
    requires Layout(t, n) && |img| == DISK_BYTES && i < n && IsResidue(residue)
    requires offset <= t[i].size && (offset + |data| <= t[i].size || i + 1 == n)
    requires p == t[i].Start() + offset && p + |data| <= DISK_BYTES
    ensures Layout(Grown(t, i, offset + |data|), n)
    ensures FilesAfterWrite(View(t, n, img), View(Grown(t, i, offset + |data|), n, Written(img, p, data, residue)), t, i, offset, data)
  {
    GrownLayout(t, n, i, offset + |data|);
    ViewsAgree(t, n, img, i, offset + |data|, Written(img, p, data, residue));
    WrittenSeen(Grown(t, i, offset + |data|), n, img, i, offset, data, residue, p);
    ClearUnchanged(t, n, img, i, offset, data, residue, p);
    SparedUnchanged(t, n, img, i, offset, data, residue, p);
  }

  lemma ViewsAgree(t: Table, n: nat, img: Image, i: nat, end: nat, img': Image)
    requires Layout(t, n) && |img| == |img'| == DISK_BYTES && i < n && Layout(Grown(t, i, end), n)
    ensures NamesAndLengths(View(t, n, img), View(Grown(t, i, end), n, img'), i, end)
  {
  }

  lemma ClearUnchanged(t: Table, n: nat, img: Image, i: nat, offset: nat, data: seq<Byte>, residue: seq<Byte>, p: nat)
    requires Layout(t, n) && |img| == DISK_BYTES && i < n && IsResidue(residue)
    requires offset <= t[i].size && (offset + |data| <= t[i].size || i + 1 == n)
    requires p == t[i].Start() + offset && Layout(Grown(t, i, offset + |data|), n)
    ensures ClearFilesKept(View(t, n, img), View(Grown(t, i, offset + |data|), n, Written(img, p, data, residue)), t, i, offset)
  {
    forall j | 0 <= j < n && j != i && ClearOfFirstBlock(p, t[j].Start(), t[j].End())
      ensures Contents(Grown(t, i, offset + |data|), n, Written(img, p, data, residue), j) == Contents(t, n, img, j)
    {
      OtherUnchanged(t, n, img, i, offset, data, residue, j, p);
    }
  }

  lemma SparedUnchanged(t: Table, n: nat, img: Image, i: nat, offset: nat, data: seq<Byte>, residue: seq<Byte>, p: nat)
    requires Layout(t, n) && |img| == DISK_BYTES && i < n && IsResidue(residue)
    requires offset <= t[i].size && (offset + |data| <= t[i].size || i + 1 == n)
    requires p == t[i].Start() + offset && Layout(Grown(t, i, offset + |data|), n)
    ensures SparedBytesKept(View(t, n, img), View(Grown(t, i, offset + |data|), n, Written(img, p, data, residue)), t, i, offset, |data|)
  {
    var u, img' := Grown(t, i, offset + |data|), Written(img, p, data, residue);
    forall j: nat, q: nat | j < n && q < t[j].size && Spared(t, i, offset, |data|, j, q)
      ensures Contents(u, n, img', j)[q] == Contents(t, n, img, j)[q]
    {
      SparedByte(t, n, img, i, offset, data, residue, p, j, q);
    }
  }

  lemma SparedByte(t: Table, n: nat, img: Image, i: nat, offset: nat, data: seq<Byte>, residue: seq<Byte>, p: nat, j: nat, q: nat)
    requires Layout(t, n) && |img| == DISK_BYTES && i < n && j < n && IsResidue(residue)
    requires offset <= t[i].size && (offset + |data| <= t[i].size || i + 1 == n)
    requires p == t[i].Start() + offset && Layout(Grown(t, i, offset + |data|), n)
    requires q < t[j].size && Spared(t, i, offset, |data|, j, q)
    ensures Contents(Grown(t, i, offset + |data|), n, Written(img, p, data, residue), j)[q] == Contents(t, n, img, j)[q]
  {
    ExtentsOrdered(t, n, j, j + 1);
    if j < i {
      ExtentsOrdered(t, n, j, i);
    } else if i < j {
      ExtentsOrdered(t, n, i, j);
    }
    var k: nat := t[j].Start() + q;
    assert Contents(t, n, img, j)[q] == img[k];
    assert Written(img, p, data, residue)[k] == WrittenByte(img, p, data, residue, k) == img[k];
    ContentsByte(Grown(t, i, offset + |data|), n, Written(img, p, data, residue), j, q, k);
  }

  lemma ContentsByte(t: Table, n: nat, img: Image, j: nat, q: nat, k: nat)
    requires Layout(t, n) && |img| == DISK_BYTES && j < n && q < t[j].size && k == t[j].Start() + q
    ensures k < DISK_BYTES && Contents(t, n, img, j)[q] == img[k]
  {
    ExtentsOrdered(t, n, j, j + 1);
  }

  lemma WriteKeepsLowerHalf(img: Image, p: nat, data: seq<Byte>, residue: seq<Byte>)
    requires |img| == DISK_BYTES && IsResidue(residue) && DISK_BYTES / 2 <= p
    ensures SameLowerHalf(img, Written(img, p, data, residue))
  {
  }

  lemma WrittenSeen(u: Table, n: nat, img: Image, i: nat, offset: nat, data: seq<Byte>, residue: seq<Byte>, p: nat)
    requires Layout(u, n) && |img| == DISK_BYTES && i < n && IsResidue(residue)
    requires offset + |data| <= u[i].size && p == u[i].Start() + offset
    ensures DataAt(View(u, n, Written(img, p, data, residue))[i], offset, data)
  {
    ContentsSlice(u, n, Written(img, p, data, residue), i, offset, |data|);
    WrittenRange(img, p, data, residue);
  }

  lemma OtherUnchanged(t: Table, n: nat, img: Image, i: nat, offset: nat, data: seq<Byte>, residue: seq<Byte>, j: nat, p: nat)
    requires Layout(t, n) && |img| == DISK_BYTES && i < n && j < n && i != j && IsResidue(residue)
    requires offset <= t[i].size && (offset + |data| <= t[i].size || i + 1 == n)
    requires p == t[i].Start() + offset && ClearOfFirstBlock(p, t[j].Start(), t[j].End())
    requires Layout(Grown(t, i, offset + |data|), n)
    ensures Contents(Grown(t, i, offset + |data|), n, Written(img, p, data, residue), j) == Contents(t, n, img, j)
  {
    OtherFileKeptIff(t, n, img, i, offset, data, j, p);
    assert RangeKept(img, p, data, residue, t[j].Start(), t[j].End());
  }

  // Midway through a write of `data` at p: blocks below `block` are finished,
  // later ones untouched, and the buffer is what `block` will become.
  ghost predicate Writing(cur: Image, buf: seq<Byte>, block: nat, img: Image, p: nat, data: seq<Byte>, residue: seq<Byte>) {
    && |cur| == |img| == DISK_BYTES && IsResidue(residue) && |buf| == BLOCK_SIZE
    && (forall k :: 0 <= k < block * BLOCK_SIZE && k < DISK_BYTES ==> cur[k] == WrittenByte(img, p, data, residue, k))
    && (forall k :: block * BLOCK_SIZE <= k < DISK_BYTES ==> cur[k] == img[k])
    && (block < DISK_BLOCKS ==> forall t :: 0 <= t < BLOCK_SIZE ==>
          buf[t] == WrittenByte(img, p, data, residue, block * BLOCK_SIZE + t))
  }

  // The cursor after w bytes; it rests on a block boundary only once something
  // has been written.
  ghost predicate AtByte(block: nat, pos: nat, p: nat, w: nat) {
    && block * BLOCK_SIZE + pos == p + w && pos <= BLOCK_SIZE
    && FirstBlock(p) <= block && (w == 0 ==> pos < BLOCK_SIZE)
  }

  // Before the first byte the buffer is its own residue.
  lemma WriteNothing(img: Image, buf: seq<Byte>, block: nat, p: nat)
    requires |img| == DISK_BYTES && |buf| == BLOCK_SIZE && FirstBlock(p) == block
    ensures Writing(img, buf, block, img, p, [], buf)
  {
  }

  // Storing the next byte in the buffer.
  lemma WriteByte(cur: Image, buf: seq<Byte>, block: nat, pos: nat, img: Image, p: nat, data: seq<Byte>, w: nat, residue: seq<Byte>)
    requires w < |data| && pos < BLOCK_SIZE && p + w == block * BLOCK_SIZE + pos
    requires Writing(cur, buf, block, img, p, data[..w], residue)
    ensures Writing(cur, buf[pos := data[w]], block, img, p, data[..w + 1], residue)
  {
  }

  // Storing the buffer on the disk: with the whole of `data` in place this
  // completes the image, otherwise the next block is read before going on.
  lemma FlushBlock(cur: Image, buf: seq<Byte>, block: nat, img: Image, p: nat, data: seq<Byte>, residue: seq<Byte>)
    requires Writing(cur, buf, block, img, p, data, residue) && FirstBlock(p) <= block
    requires p + |data| <= (block + 1) * BLOCK_SIZE
    ensures block < DISK_BLOCKS ==> Overwrite(cur, block, buf) == Written(img, p, data, residue)
    ensures block >= DISK_BLOCKS ==> cur == Written(img, p, data, residue)
  {
  }

  lemma FetchBlock(cur: Image, buf: seq<Byte>, block: nat, img: Image, p: nat, data: seq<Byte>, residue: seq<Byte>)
    requires IsResidue(residue) && |img| == DISK_BYTES && |buf| == BLOCK_SIZE
    requires cur == Written(img, p, data, residue)
    requires p + |data| == block * BLOCK_SIZE && FirstBlock(p) < block
    requires block < DISK_BLOCKS ==> forall t :: 0 <= t < BLOCK_SIZE ==> buf[t] == cur[block * BLOCK_SIZE + t]
    ensures Writing(cur, buf, block, img, p, data, residue)
  {
  }
}
