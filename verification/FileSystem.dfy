// The read-only file system: block-walking reads and the file descriptor on top of them
// (student-distrib/filesys.c).
module FileSystem {
  import opened Bytes

  const BLOCK_SIZE: int := 4096
  const MAX_DENTRIES: int := 63
  const MAX_DATA_BLOCKS: int := 1023

  // length in bytes, 1023 block numbers and the memory word that follows them (index 1023 can be read).
  datatype Inode = Inode(length: word, blocks: seq<word>)

  // The memory starting at dataBlock_start, by block number and offset in the block.
  type Disk = (int, int) -> byte

  // The format has room for 1023 blocks.
  predicate Sized(ino: Inode) {
    |ino.blocks| == MAX_DATA_BLOCKS + 1 && ino.length <= MAX_DATA_BLOCKS * BLOCK_SIZE
  }

  // The file also lists no block number 0 after its first block.
  ghost predicate WellFormed(ino: Inode) {
    Sized(ino) && forall k :: 1 <= k && k * BLOCK_SIZE < ino.length ==> BlockAt(ino, k) != 0
  }

  function BlockAt(ino: Inode, k: nat): word {
    if k < |ino.blocks| then ino.blocks[k] else 0
  }

  // What the file holds: its blocks laid end to end, cut at its length.
  ghost function Flat(ino: Inode, disk: Disk): (s: seq<byte>)
    ensures |s| == ino.length
  {
    seq(ino.length, k requires 0 <= k < ino.length => disk(BlockAt(ino, k / BLOCK_SIZE), k % BLOCK_SIZE))
  }

  // The bytes a read of length bytes at offset ought to return.
  ghost function Slice(ino: Inode, disk: Disk, offset: word, length: word): (s: seq<byte>) {
    if offset >= ino.length then [] else Flat(ino, disk)[offset..offset + Wanted(ino, offset, length)]
  }

  function Wanted(ino: Inode, offset: word, length: word): nat
    requires offset < ino.length
  {
    if length < ino.length - offset then length else ino.length - offset
  }

  // A return value (-1 for a bad block) and the bytes stored in the buffer on the way.
  datatype Outcome = Outcome(ret: int, bytes: seq<byte>)

  // Bytes between the offset and the end of its block.
  function FirstPart(offset: word): (n: int)
    ensures 1 <= n <= BLOCK_SIZE
  {
    BLOCK_SIZE - offset % BLOCK_SIZE
  }

  // The loop's position counter when byte i is tested against the end of the file, before any reset.
  function Position(offset: word, i: nat): nat {
    if i <= FirstPart(offset) then i else (i - FirstPart(offset) - 1) % BLOCK_SIZE + 1
  }

  predicate AtEnd(ino: Inode, offset: word, i: nat) {
    i >= ino.length || (offset + Position(offset, i)) % WORD >= ino.length
  }

  // blockIdx restarts from 0 whatever the offset, so the second block read is always block 1 of the file.
  function BlockIndex(offset: word, i: nat): nat {
    if i < FirstPart(offset) then offset / BLOCK_SIZE else 1 + (i - FirstPart(offset)) / BLOCK_SIZE
  }

  predicate Entering(offset: word, i: nat) {
    i >= FirstPart(offset) && (i - FirstPart(offset)) % BLOCK_SIZE == 0
  }

  predicate BadBlock(ino: Inode, offset: word, i: nat) {
    Entering(offset, i) && (BlockAt(ino, BlockIndex(offset, i)) == 0 || BlockIndex(offset, i) > MAX_DATA_BLOCKS)
  }

  function OffsetInBlock(offset: word, i: nat): nat {
    if i < FirstPart(offset) then offset % BLOCK_SIZE + i else (i - FirstPart(offset)) % BLOCK_SIZE
  }

  function ByteAt(ino: Inode, disk: Disk, offset: word, i: nat): byte {
    disk(BlockAt(ino, BlockIndex(offset, i)), OffsetInBlock(offset, i))
  }

  // The loop of read_data from iteration i on.
  function Scan(ino: Inode, disk: Disk, offset: word, length: word, i: nat): (r: Outcome)
    ensures i <= length ==> i + |r.bytes| <= length
    ensures r.ret == i + |r.bytes| || r.ret == -1
    decreases length - i
  {
    if i >= length || AtEnd(ino, offset, i) then Outcome(i, [])
    else if BadBlock(ino, offset, i) then Outcome(-1, [])
    else
      var rest := Scan(ino, disk, offset, length, i + 1);
      Outcome(rest.ret, [ByteAt(ino, disk, offset, i)] + rest.bytes)
  }

  // When read_data is right for every disk content: past the end, within one block, or from the first block
  // either at offset 0 or not asking beyond the end of the file.
  predicate Exact(ino: Inode, offset: word, length: word) {
    || offset >= ino.length
    || Wanted(ino, offset, length) <= FirstPart(offset)
    || (offset < BLOCK_SIZE && (offset == 0 || offset + length <= ino.length))
  }

  lemma {:induction false} ScanExact(ino: Inode, disk: Disk, offset: word, length: word, i: nat)
    requires WellFormed(ino) && offset < ino.length && Exact(ino, offset, length)
    requires i <= Wanted(ino, offset, length)
    ensures var n := Wanted(ino, offset, length);
      Scan(ino, disk, offset, length, i) == Outcome(n, Flat(ino, disk)[offset + i..offset + n])
    decreases length - i
  {
    hide AtEnd, BadBlock, ByteAt, Exact;
    var n := Wanted(ino, offset, length);
    if i == n {
      StopsAtEnd(ino, offset, length);
    } else {
      Located(ino, disk, offset, length, i);
      ScanExact(ino, disk, offset, length, i + 1);
      CutFirst(Flat(ino, disk), offset + i, offset + n);
    }
  }

  lemma CutFirst(s: seq<byte>, a: nat, b: nat)
    requires a < b <= |s|
    ensures s[a..b] == [s[a]] + s[a + 1..b]
  {
  }

  lemma StopsAtEnd(ino: Inode, offset: word, length: word)
    requires WellFormed(ino) && offset < ino.length && Exact(ino, offset, length)
    ensures var n := Wanted(ino, offset, length); n == length || AtEnd(ino, offset, n)
  {
    var n := Wanted(ino, offset, length);
    if n <= FirstPart(offset) {
      assert Position(offset, n) == n;
    }
  }

  // In an exact read, byte i comes from the right place and does not stop the loop.
  lemma Located(ino: Inode, disk: Disk, offset: word, length: word, i: nat)
    requires WellFormed(ino) && offset < ino.length && Exact(ino, offset, length)
    requires i < Wanted(ino, offset, length)
    ensures !AtEnd(ino, offset, i) && !BadBlock(ino, offset, i)
    ensures ByteAt(ino, disk, offset, i) == Flat(ino, disk)[offset + i]
  {
    var k := offset + i;
    assert Position(offset, i) <= i;
    if i < FirstPart(offset) {
      assert k / BLOCK_SIZE == offset / BLOCK_SIZE && k % BLOCK_SIZE == offset % BLOCK_SIZE + i;
    } else {
      assert offset < BLOCK_SIZE;
      assert i - FirstPart(offset) == k - BLOCK_SIZE;
      assert BlockIndex(offset, i) == k / BLOCK_SIZE;
      assert k / BLOCK_SIZE * BLOCK_SIZE < ino.length;
    }
  }

  lemma ReadExact(ino: Inode, disk: Disk, offset: word, length: word)
    requires WellFormed(ino) && Exact(ino, offset, length)
    ensures var s := Slice(ino, disk, offset, length);
      Scan(ino, disk, offset, length, 0) == Outcome(|s|, s)
  {
    if offset < ino.length {
      ScanExact(ino, disk, offset, length, 0);
    }
  }

  // The bytes s are those of the file from an offset on: byte k of the file is in the block listed at k / 4096.
  ghost predicate BytesOf(s: seq<byte>, ino: Inode, disk: Disk, offset: nat)
    requires Sized(ino)
  {
    s != [] ==>
      && offset + |s| <= ino.length
      && forall k :: 0 <= k < |s| ==> s[k] == disk(ino.blocks[(offset + k) / 4096], (offset + k) % 4096)
  }

  lemma FlatBytes(ino: Inode, disk: Disk)
    requires |ino.blocks| == 1024 && ino.length <= 1023 * 4096
    ensures BytesOf(Flat(ino, disk), ino, disk, 0)
  {
    forall k | 0 <= k < ino.length
      ensures Flat(ino, disk)[k] == disk(ino.blocks[(0 + k) / 4096], (0 + k) % 4096)
    {
      assert BlockAt(ino, k / BLOCK_SIZE) == ino.blocks[k / BLOCK_SIZE];
    }
  }

  lemma SliceBytes(ino: Inode, disk: Disk, offset: word, length: word)
    requires Sized(ino)
    ensures var s := Slice(ino, disk, offset, length);
      && BytesOf(s, ino, disk, offset)
      && |s| == if offset >= ino.length then 0 else if length <= ino.length - offset then length
                else ino.length - offset
  {
    hide Flat;
    FlatBytes(ino, disk);
    var s, file := Slice(ino, disk, offset, length), Flat(ino, disk);
    forall k | 0 <= k < |s|
      ensures s[k] == disk(ino.blocks[(offset + k) / 4096], (offset + k) % 4096)
    {
      assert s[k] == file[offset + k];
    }
  }

  // An exact read returns how many bytes there are, and stores each from its own place in its own block.
  lemma ReadBytes(ino: Inode, disk: Disk, offset: word, length: word)
    requires |ino.blocks| == 1024 && ino.length <= 1023 * 4096 && Exact(ino, offset, length)
    requires forall k :: 1 <= k < 1023 && k * 4096 < ino.length ==> ino.blocks[k] != 0
    ensures var r := Scan(ino, disk, offset, length, 0);
      && BytesOf(r.bytes, ino, disk, offset) && r.ret == |r.bytes|
      && r.ret == if offset >= ino.length then 0 else if length <= ino.length - offset then length
                  else ino.length - offset
  {
    hide Scan, Exact, Slice, BytesOf;
    forall k | 1 <= k && k * BLOCK_SIZE < ino.length
      ensures BlockAt(ino, k) != 0
    {
      assert BlockAt(ino, k) == ino.blocks[k];
    }
    ReadExact(ino, disk, offset, length);
    SliceBytes(ino, disk, offset, length);
  }

  lemma ListsBlocks(ino: Inode)
    requires WellFormed(ino)
    ensures |ino.blocks| == 1024 && ino.length <= 1023 * 4096
    ensures forall k :: 1 <= k < 1023 && k * 4096 < ino.length ==> ino.blocks[k] != 0
  {
    forall k | 1 <= k < 1023 && k * 4096 < ino.length
      ensures ino.blocks[k] != 0
    {
      assert BlockAt(ino, k) != 0;
    }
  }

  // Block numbers of the file are pairwise distinct.
  ghost predicate Distinct(ino: Inode) {
    forall j, k :: 0 <= j < k && k * BLOCK_SIZE < ino.length ==> BlockAt(ino, j) != BlockAt(ino, k)
  }

  // A read that is not exact goes wrong in one of two ways: either it reads on beyond the end of the file ...
  lemma {:induction false} ScanOverruns(ino: Inode, disk: Disk, offset: word, length: word, i: nat)
    requires WellFormed(ino) && 0 < offset < BLOCK_SIZE < ino.length && length > ino.length - offset
    requires i <= ino.length - offset
    ensures var r := Scan(ino, disk, offset, length, i); r.ret == -1 || r.ret > ino.length - offset
    decreases length - i
  {
    hide AtEnd, BadBlock, ByteAt;
    NotAtEnd(ino, offset, i);
    if i < ino.length - offset {
      ScanOverruns(ino, disk, offset, length, i + 1);
    }
  }

  lemma NotAtEnd(ino: Inode, offset: word, i: nat)
    requires WellFormed(ino) && 0 < offset < BLOCK_SIZE < ino.length && i <= ino.length - offset
    ensures !AtEnd(ino, offset, i)
  {
    if i == ino.length - offset {
      assert FirstPart(offset) == BLOCK_SIZE - offset;
      var m := (ino.length - BLOCK_SIZE - 1) / BLOCK_SIZE;
      assert Position(offset, i) + BLOCK_SIZE * (m + 1) == ino.length;
    } else {
      assert Position(offset, i) <= i;
    }
  }

  // ... or it takes byte j from block 1 of the file instead of from the block it belongs to.
  lemma {:induction false} ScanStrays(ino: Inode, disk: Disk, offset: word, length: word, i: nat)
    requires WellFormed(ino) && BLOCK_SIZE <= offset < ino.length
    requires Wanted(ino, offset, length) > FirstPart(offset) >= i
    ensures var r := Scan(ino, disk, offset, length, i);
      && |r.bytes| > FirstPart(offset) - i
      && r.bytes[FirstPart(offset) - i] == disk(BlockAt(ino, 1), 0)
    decreases length - i
  {
    hide AtEnd, BadBlock, ByteAt, FirstPart;
    Straying(ino, disk, offset, length, i);
    if i < FirstPart(offset) {
      ScanStrays(ino, disk, offset, length, i + 1);
    }
  }

  lemma Straying(ino: Inode, disk: Disk, offset: word, length: word, i: nat)
    requires WellFormed(ino) && BLOCK_SIZE <= offset < ino.length
    requires Wanted(ino, offset, length) > FirstPart(offset) >= i
    ensures i < length && !AtEnd(ino, offset, i) && !BadBlock(ino, offset, i)
    ensures i == FirstPart(offset) ==> ByteAt(ino, disk, offset, i) == disk(BlockAt(ino, 1), 0)
  {
    assert Position(offset, i) == i;
    if i == FirstPart(offset) {
      assert BlockIndex(offset, i) == 1;
    }
  }

  // read_data is right for every disk content exactly when Exact holds of the call.
  lemma ReadExactIff(ino: Inode, offset: word, length: word)
    requires WellFormed(ino) && Distinct(ino)
    ensures Exact(ino, offset, length) <==>
      forall disk: Disk :: Scan(ino, disk, offset, length, 0)
        == Outcome(|Slice(ino, disk, offset, length)|, Slice(ino, disk, offset, length))
  {
    if Exact(ino, offset, length) {
      forall disk: Disk
        ensures Scan(ino, disk, offset, length, 0)
             == Outcome(|Slice(ino, disk, offset, length)|, Slice(ino, disk, offset, length))
      {
        ReadExact(ino, disk, offset, length);
      }
    } else {
      var marked := BlockAt(ino, 1);
      var disk: Disk := (b, o) => if b == marked then 1 else 0;
      if offset < BLOCK_SIZE {
        ScanOverruns(ino, disk, offset, length, 0);
      } else {
        var n := FirstPart(offset);
        ScanStrays(ino, disk, offset, length, 0);
        assert (offset + n) / BLOCK_SIZE == offset / BLOCK_SIZE + 1;
        assert Slice(ino, disk, offset, length)[n] == 0;
      }
      assert Scan(ino, disk, offset, length, 0)
        != Outcome(|Slice(ino, disk, offset, length)|, Slice(ino, disk, offset, length));
    }
  }

  // For instance: 1024 bytes at offset 4000 of a file of 5000 bytes. The read goes on past the end of the file.
  lemma TailMisread(ino: Inode, disk: Disk)
    requires WellFormed(ino) && ino.length == 5000
    ensures !Exact(ino, 4000, 1024)
    ensures Scan(ino, disk, 4000, 1024, 0).ret == 1024 && |Slice(ino, disk, 4000, 1024)| == 1000
  {
    RunsOn(ino, disk, 0);
  }

  lemma {:induction false} RunsOn(ino: Inode, disk: Disk, i: nat)
    requires WellFormed(ino) && ino.length == 5000 && i <= 1024
    ensures Scan(ino, disk, 4000, 1024, i).ret == 1024
    decreases 1024 - i
  {
    hide ByteAt, AtEnd, BadBlock;
    if i < 1024 {
      RunsPast(ino, i);
      RunsOn(ino, disk, i + 1);
    }
  }

  lemma RunsPast(ino: Inode, i: nat)
    requires WellFormed(ino) && ino.length == 5000 && i < 1024
    ensures !AtEnd(ino, 4000, i) && !BadBlock(ino, 4000, i)
  {
    assert Position(4000, i) <= 1000 && (i == 96 ==> BlockIndex(4000, i) == 1);
  }

  // From byte i on, a read of n bytes from the start comes to a block number 0.
  ghost predicate ZeroAhead(ino: Inode, i: nat, n: nat) {
    exists k :: 1 <= k && i <= k * BLOCK_SIZE < n && BlockAt(ino, k) == 0
  }

  lemma {:induction false} FailsAtZeroBlock(ino: Inode, disk: Disk, length: word, i: nat)
    requires Sized(ino) && ino.length > 0 && i <= Wanted(ino, 0, length)
    ensures Scan(ino, disk, 0, length, i).ret == -1 <==> ZeroAhead(ino, i, Wanted(ino, 0, length))
    decreases length - i
  {
    hide ByteAt, BadBlock, ZeroAhead;
    var n := Wanted(ino, 0, length);
    if i < n {
      assert Position(0, i) <= i;
      BadFromStart(ino, i, n);
      if !BadBlock(ino, 0, i) {
        FailsAtZeroBlock(ino, disk, length, i + 1);
      }
    } else {
      assert i == length || i == ino.length;
      NothingAhead(ino, i, n);
    }
  }

  lemma NothingAhead(ino: Inode, i: nat, n: nat)
    requires i >= n
    ensures !ZeroAhead(ino, i, n)
  {
  }

  lemma BadFromStart(ino: Inode, i: nat, n: nat)
    requires Sized(ino) && i < n <= ino.length
    ensures ZeroAhead(ino, i, n) <==> BadBlock(ino, 0, i) || ZeroAhead(ino, i + 1, n)
  {
    var q, r := i / BLOCK_SIZE, i % BLOCK_SIZE;
    assert BadBlock(ino, 0, i) <==> r == 0 && i > 0 && BlockAt(ino, q) == 0 by {
      if i >= BLOCK_SIZE {
        assert i - BLOCK_SIZE == BLOCK_SIZE * (q - 1) + r;
      }
    }
    assert r == 0 ==> i == q * BLOCK_SIZE;
    if ZeroAhead(ino, i, n) {
      var k :| 1 <= k && i <= k * BLOCK_SIZE < n && BlockAt(ino, k) == 0;
      assert i == k * BLOCK_SIZE ==> k == q;
    }
  }

  // A read from the start fails exactly when it gets as far as a block number 0 after the first.
  lemma ReadFailsIff(ino: Inode, disk: Disk, length: word)
    requires Sized(ino) && ino.length > 0
    ensures Scan(ino, disk, 0, length, 0).ret == -1 <==>
      exists k :: 1 <= k && k * BLOCK_SIZE < Wanted(ino, 0, length) && BlockAt(ino, k) == 0
  {
    hide Scan;
    FailsAtZeroBlock(ino, disk, length, 0);
  }

  // The file system image: 63 directory entries and the 64 bytes after them (read as a 64th), and 64 inodes.
  datatype Dentry = Dentry(name: seq<byte>, fileType: word, inode: word)
  datatype Image = Image(numDentries: word, slots: seq<Dentry>, inodes: seq<Inode>)

  ghost predicate ValidImage(fs: Image) {
    && |fs.slots| == 64 && |fs.inodes| == 64
    && (forall k :: 0 <= k < 64 ==> |fs.slots[k].name| == 32)
    && forall k :: 0 <= k < 64 ==> Sized(fs.inodes[k])
  }

  // buf and at are the buffer pointer.
  method ReadData(fs: Image, disk: Disk, inode: word, offset: word, buf: array?<byte>, at: nat, length: word)
      returns (ret: int)
    requires ValidImage(fs)
    requires buf != null ==> at + length <= buf.Length
    modifies buf
    ensures inode > 63 || buf == null ==> ret == -1
    ensures inode > 63 && buf != null ==> buf[..] == old(buf[..])
    ensures inode <= 63 && buf != null ==>
      var r := Scan(fs.inodes[inode], disk, offset, length, 0);
      ret == r.ret && buf[..] == Splice(old(buf[..]), at, r.bytes)
    ensures inode <= 63 && buf != null ==>
      var ino := fs.inodes[inode];
      WellFormed(ino) && Exact(ino, offset, length) ==>
        && 0 <= ret <= length && BytesOf(buf[at..at + ret], ino, disk, offset)
        && ret == if offset >= ino.length then 0 else if length <= ino.length - offset then length
                  else ino.length - offset
  {
    hide Tracks, Scan, Splice, WellFormed, Exact, BytesOf;
    if inode > MAX_DENTRIES || buf == null {
      return -1;
    }
    var ino := fs.inodes[inode];
    var tmpOffset: int := if offset < 0x8000_0000 then offset else offset - WORD;
    var block := BlockAt(ino, 0);
    TracksStart(ino, offset);
    if tmpOffset >= BLOCK_SIZE {
      block := BlockAt(ino, tmpOffset / BLOCK_SIZE);
      tmpOffset := tmpOffset % BLOCK_SIZE;
    }
    ret := CopyBytes(ino, disk, offset, buf, at, length, tmpOffset, block);
    if WellFormed(ino) && Exact(ino, offset, length) {
      ListsBlocks(ino);
      ReadBytes(ino, disk, offset, length);
      SpliceIn(old(buf[..]), at, Scan(ino, disk, offset, length, 0).bytes);
    }
  }

  lemma SpliceIn(was: seq<byte>, at: nat, s: seq<byte>)
    requires at + |s| <= |was|
    ensures Splice(was, at, s)[at..at + |s|] == s
  {
  }

  // The loop of read_data.
  method CopyBytes(ino: Inode, disk: Disk, offset: word, buf: array<byte>, at: nat, length: word,
                   startOffset: int, startBlock: word) returns (ret: int)
    requires at + length <= buf.Length && Tracks(ino, offset, 0, 0, startOffset, 0, startBlock)
    modifies buf
    ensures var r := Scan(ino, disk, offset, length, 0); ret == r.ret && buf[..] == Splice(old(buf[..]), at, r.bytes)
  {
    hide AtEnd, BadBlock, ByteAt, BlockAt, Tracks, Scan, Splice, ScannedTo;
    var tmpOffset, blockIdx: nat, block := startOffset, 0, startBlock;
    ghost var was, all := buf[..], Scan(ino, disk, offset, length, 0);
    ghost var done: seq<byte> := [];
    SpliceNothing(was, at);
    ScannedNone(all);
    var i: nat, position: nat := 0, 0;
    while i < length
      invariant i == |done| <= length
      invariant ScannedTo(all, done, Scan(ino, disk, offset, length, i))
      invariant buf[..] == Splice(was, at, done)
      invariant Tracks(ino, offset, i, position, tmpOffset, blockIdx, block)
    {
      TracksNext(ino, disk, offset, i, position, tmpOffset, blockIdx, block);
      ScanNext(ino, disk, offset, length, i);
      if i >= ino.length || (offset + position) % WORD >= ino.length {
        ScannedEnd(all, done, Scan(ino, disk, offset, length, i));
        return i;
      }
      if position + tmpOffset >= BLOCK_SIZE {
        blockIdx := blockIdx + 1;
        block := BlockAt(ino, blockIdx);
        tmpOffset := 0;
        position := 0;
        if block == 0 || blockIdx > MAX_DATA_BLOCKS {
          ScannedEnd(all, done, Scan(ino, disk, offset, length, i));
          return -1;
        }
      }
      ScannedStep(all, done, ByteAt(ino, disk, offset, i), Scan(ino, disk, offset, length, i + 1));
      SpliceOne(was, at, done, ByteAt(ino, disk, offset, i));
      buf[at + i] := disk(block, tmpOffset + position);
      done := done + [ByteAt(ino, disk, offset, i)];
      i := i + 1;
      position := position + 1;
    }
    ScanNext(ino, disk, offset, length, i);
    ScannedEnd(all, done, Scan(ino, disk, offset, length, i));
    ret := i;
  }

  lemma SpliceNothing(s: seq<byte>, at: nat)
    requires at <= |s|
    ensures Splice(s, at, []) == s
  {
  }

  // One step of the scan.
  lemma ScanNext(ino: Inode, disk: Disk, offset: word, length: word, i: nat)
    ensures Scan(ino, disk, offset, length, i) ==
      if i >= length || AtEnd(ino, offset, i) then Outcome(i, [])
      else if BadBlock(ino, offset, i) then Outcome(-1, [])
      else
        var rest := Scan(ino, disk, offset, length, i + 1);
        Outcome(rest.ret, [ByteAt(ino, disk, offset, i)] + rest.bytes)
  {
  }

  // The whole scan is what was already stored followed by the rest of the scan.
  ghost predicate ScannedTo(all: Outcome, done: seq<byte>, rest: Outcome) {
    all == Outcome(rest.ret, done + rest.bytes)
  }

  lemma ScannedNone(all: Outcome)
    ensures ScannedTo(all, [], all)
  {
  }

  lemma ScannedEnd(all: Outcome, done: seq<byte>, rest: Outcome)
    requires ScannedTo(all, done, rest) && rest.bytes == []
    ensures all == Outcome(rest.ret, done)
  {
  }

  lemma ScannedStep(all: Outcome, done: seq<byte>, b: byte, rest: Outcome)
    requires ScannedTo(all, done, Outcome(rest.ret, [b] + rest.bytes))
    ensures ScannedTo(all, done + [b], rest)
  {
    assert done + ([b] + rest.bytes) == (done + [b]) + rest.bytes;
  }

  // How the loop's counters relate to the byte number.
  ghost predicate Tracks(ino: Inode, offset: word, i: nat, position: nat, tmpOffset: int, blockIdx: nat, block: word) {
    && position == Position(offset, i)
    && (offset >= ino.length ==> i == 0)
    && (offset < ino.length && i <= FirstPart(offset) ==>
          tmpOffset == offset % BLOCK_SIZE && blockIdx == 0 && block == BlockAt(ino, offset / BLOCK_SIZE))
    && (offset < ino.length && i > FirstPart(offset) ==>
          tmpOffset == 0 && blockIdx == BlockIndex(offset, i - 1) && block == BlockAt(ino, blockIdx))
  }

  lemma TracksNext(ino: Inode, disk: Disk, offset: word, i: nat, position: nat, tmpOffset: int, blockIdx: nat,
                   block: word)
    requires Tracks(ino, offset, i, position, tmpOffset, blockIdx, block)
    ensures AtEnd(ino, offset, i) <==> i >= ino.length || (offset + position) % WORD >= ino.length
    ensures !AtEnd(ino, offset, i) ==> position + tmpOffset >= 0
    ensures !AtEnd(ino, offset, i) && position + tmpOffset >= BLOCK_SIZE ==>
      && (BadBlock(ino, offset, i) <==> BlockAt(ino, blockIdx + 1) == 0 || blockIdx + 1 > MAX_DATA_BLOCKS)
      && ByteAt(ino, disk, offset, i) == disk(BlockAt(ino, blockIdx + 1), 0)
      && Tracks(ino, offset, i + 1, 1, 0, blockIdx + 1, BlockAt(ino, blockIdx + 1))
    ensures !AtEnd(ino, offset, i) && position + tmpOffset < BLOCK_SIZE ==>
      && !BadBlock(ino, offset, i)
      && ByteAt(ino, disk, offset, i) == disk(block, tmpOffset + position)
      && Tracks(ino, offset, i + 1, position + 1, tmpOffset, blockIdx, block)
  {
  }

  lemma TracksStart(ino: Inode, offset: word)
    requires Sized(ino)
    ensures var tmp := if offset < 0x8000_0000 then offset as int else offset - WORD;
      if tmp >= BLOCK_SIZE then Tracks(ino, offset, 0, 0, tmp % BLOCK_SIZE, 0, BlockAt(ino, tmp / BLOCK_SIZE))
      else Tracks(ino, offset, 0, 0, tmp, 0, BlockAt(ino, 0))
  {
  }

  // One call of file_read at a file position: what read_data does with the request cut to the file length.
  function ReadAt(ino: Inode, disk: Disk, position: word, nbytes: nat): (r: Outcome)
    ensures |r.bytes| <= nbytes
  {
    Scan(ino, disk, position, Cut(ino, nbytes), 0)
  }

  function Cut(ino: Inode, nbytes: nat): word {
    if ino.length < nbytes then ino.length else nbytes
  }

  // An open file descriptor of a regular file; position is the descriptor's file_position.
  class OpenFile {
    const fs: Image
    const disk: Disk
    const inode: word
    var position: word

    ghost predicate Valid() {
      ValidImage(fs) && inode <= 63
    }

    function Node(): Inode
      requires Valid()
    {
      fs.inodes[inode]
    }

    // file_open: the descriptor starts at position 0.
    constructor (fs: Image, disk: Disk, inode: word)
      requires ValidImage(fs) && inode <= 63
      ensures Valid() && position == 0
      ensures this.fs == fs && this.disk == disk && this.inode == inode
    {
      this.fs, this.disk, this.inode, this.position := fs, disk, inode, 0;
    }

    method FileRead(buf: array?<byte>, at: nat, nbytes: int) returns (ret: int)
      requires Valid()
      requires buf != null ==> at + nbytes <= buf.Length && nbytes < 0x8000_0000
      modifies this`position, buf
      ensures buf == null || nbytes < 0 ==> ret == -1 && position == old(position)
      ensures buf != null && nbytes < 0 ==> buf[..] == old(buf[..])
      ensures buf != null && nbytes >= 0 ==>
        var r := ReadAt(Node(), disk, old(position), nbytes);
        && ret == r.ret
        && buf[..] == Splice(old(buf[..]), at, r.bytes)
        && position == if ret == -1 then old(position) else (old(position) + ret) % WORD
    {
      if buf == null || nbytes < 0 {
        return -1;
      }
      var n := nbytes;
      if Node().length < n {
        n := Node().length;
      }
      ret := ReadData(fs, disk, inode, position, buf, at, n);
      if ret != -1 {
        position := (position + ret) % WORD;
      }
    }
  }

  // A position reached by reading c bytes at a time from the start of the file.
  ghost predicate OnGrid(ino: Inode, c: nat, position: word)
    requires c > 0
  {
    position == ino.length || (position < ino.length && position % c == 0)
  }

  lemma MultipleBelow(d: int, q: int, c: nat)
    requires d * c < q * c
    ensures d * c + c <= q * c
  {
    assert (q - d) * c > 0;
    assert q - d >= 1 ==> (q - d) * c >= c;
    assert q - d <= 0 ==> (q - d) * c <= 0;
  }

  lemma Factored(a: int, b: int, q: int, c: nat)
    ensures a * c - b * (q * c) == (a - b * q) * c
  {
  }

  lemma GridFits(c: nat, position: nat)
    requires c > 0 && BLOCK_SIZE % c == 0 && position % c == 0
    ensures position % BLOCK_SIZE + c <= BLOCK_SIZE
  {
    var q, a, b := BLOCK_SIZE / c, position / c, position / BLOCK_SIZE;
    assert BLOCK_SIZE == q * c && position == a * c;
    Factored(a, b, q, c);
    MultipleBelow(a - b * q, q, c);
  }

  lemma GridNext(c: nat, position: nat)
    requires c > 0 && position % c == 0
    ensures (position + c) % c == 0
  {
    assert position + c == (position / c + 1) * c;
    var n := position + c;
    var k := position / c + 1 - n / c;
    assert k * c == n % c;
    assert k >= 1 ==> k * c >= c;
    assert k <= -1 ==> k * c <= 0 - c;
  }

  lemma ChunkIsExact(ino: Inode, c: nat, position: word)
    requires WellFormed(ino) && c > 0 && BLOCK_SIZE % c == 0 && OnGrid(ino, c, position)
    ensures Exact(ino, position, Cut(ino, c))
    ensures position < ino.length && ino.length < c ==> position == 0
  {
    if position < ino.length {
      GridFits(c, position);
      GridStart(c, position);
    }
  }

  lemma GridStart(c: nat, position: nat)
    requires c > 0 && position % c == 0
    ensures position < c ==> position == 0
  {
    assert position < c ==> position % c == position;
  }

  // The bytes of the file from position on, at most c of them.
  ghost function Chunk(ino: Inode, disk: Disk, c: nat, position: word): (s: seq<byte>)
    requires position <= ino.length
    ensures |s| == if c <= ino.length - position then c else ino.length - position
  {
    Flat(ino, disk)[position..position + if c <= ino.length - position then c else ino.length - position]
  }

  // A file_read of c bytes on the grid is exact and lands on the grid again.
  lemma ChunkExact(ino: Inode, disk: Disk, c: nat, position: word)
    requires WellFormed(ino) && c > 0 && BLOCK_SIZE % c == 0 && OnGrid(ino, c, position)
    ensures var s := Chunk(ino, disk, c, position);
      ReadAt(ino, disk, position, c) == Outcome(|s|, s) && OnGrid(ino, c, position + |s|)
  {
    hide Exact, Scan;
    ChunkIsExact(ino, c, position);
    ReadExact(ino, disk, position, Cut(ino, c));
    if position < ino.length {
      GridNext(c, position);
    }
  }

  // The bytes of n successive reads of c bytes from the start, and where they leave the descriptor.
  ghost function ChunkReads(ino: Inode, disk: Disk, c: nat, n: nat): (r: (word, seq<byte>)) {
    if n == 0 then (0, []) else
      var (position, bytes) := ChunkReads(ino, disk, c, n - 1);
      var r := ReadAt(ino, disk, position, c);
      (if r.ret < 0 then position else (position + r.ret) % WORD, bytes + r.bytes)
  }

  // After requests for total bytes in all, bytes is the front of the file and position its end;
  // once that is the whole file, the next read of c bytes returns 0.
  ghost predicate ReadSoFar(ino: Inode, disk: Disk, c: nat, total: nat, position: word, bytes: seq<byte>)
    requires c > 0
  {
    && position == (if total <= ino.length then total else ino.length)
    && OnGrid(ino, c, position)
    && bytes == Flat(ino, disk)[..position]
    && (total >= ino.length ==> ReadAt(ino, disk, position, c) == Outcome(0, []))
  }

  lemma ReadSoFarNext(ino: Inode, disk: Disk, c: nat, total: nat, position: word, bytes: seq<byte>)
    requires WellFormed(ino) && c > 0 && BLOCK_SIZE % c == 0 && ReadSoFar(ino, disk, c, total, position, bytes)
    ensures var r := ReadAt(ino, disk, position, c);
      r.ret >= 0 && position + r.ret < WORD && ReadSoFar(ino, disk, c, total + c, position + r.ret, bytes + r.bytes)
  {
    hide ReadAt, Flat;
    ChunkExact(ino, disk, c, position);
    var s := Chunk(ino, disk, c, position);
    assert Flat(ino, disk)[..position] + s == Flat(ino, disk)[..position + |s|];
    ChunkExact(ino, disk, c, position + |s|);
  }

  lemma ReadSoFarStart(ino: Inode, disk: Disk, c: nat)
    requires WellFormed(ino) && c > 0 && BLOCK_SIZE % c == 0
    ensures ReadSoFar(ino, disk, c, 0, 0, [])
  {
    hide ReadAt, Flat;
    ChunkExact(ino, disk, c, 0);
  }

  // For any chunk size dividing the block size, n reads return exactly the first n * c bytes of the file,
  // and once the file is exhausted every later read returns 0 and leaves the descriptor alone.
  lemma {:induction false} ChunkedReads(ino: Inode, disk: Disk, c: nat, n: nat)
    requires WellFormed(ino) && c > 0 && BLOCK_SIZE % c == 0
    ensures ReadSoFar(ino, disk, c, n * c, ChunkReads(ino, disk, c, n).0, ChunkReads(ino, disk, c, n).1)
  {
    hide ReadAt, ReadSoFar, WellFormed;
    if n == 0 {
      ReadSoFarStart(ino, disk, c);
    } else {
      ChunkedReads(ino, disk, c, n - 1);
      var r := ChunkReads(ino, disk, c, n - 1);
      var total := (n - 1) * c;
      assert total + c == n * c;
      ReadSoFarNext(ino, disk, c, total, r.0, r.1);
    }
  }

  // In a file of at most one block every read is exact, whatever its offset and length.
  lemma SmallFileExact(ino: Inode, offset: word, length: word)
    requires WellFormed(ino) && ino.length <= BLOCK_SIZE
    ensures Exact(ino, offset, length)
  {
  }

  // So on such a file file_read returns the requested bytes, or all that are left.
  lemma SmallFileReads(ino: Inode, disk: Disk, position: word, nbytes: nat)
    requires WellFormed(ino) && ino.length <= BLOCK_SIZE && position <= ino.length
    ensures ReadAt(ino, disk, position, nbytes)
      == Outcome(|Chunk(ino, disk, nbytes, position)|, Chunk(ino, disk, nbytes, position))
  {
    hide Exact, Scan;
    SmallFileExact(ino, position, Cut(ino, nbytes));
    ReadExact(ino, disk, position, Cut(ino, nbytes));
  }

  // The loader asks for the magic bytes, the entry word and the whole image, and gets what the file has of them.
  lemma LoaderExact(ino: Inode, disk: Disk)
    requires WellFormed(ino)
    ensures Scan(ino, disk, 0, 4, 0) == Outcome(|Slice(ino, disk, 0, 4)|, Slice(ino, disk, 0, 4))
    ensures Scan(ino, disk, 24, 4, 0) == Outcome(|Slice(ino, disk, 24, 4)|, Slice(ino, disk, 24, 4))
    ensures Scan(ino, disk, 0, ino.length, 0) == Outcome(ino.length, Flat(ino, disk))
    ensures ino.length >= 28 ==>
      Slice(ino, disk, 0, 4) == Flat(ino, disk)[..4] && Slice(ino, disk, 24, 4) == Flat(ino, disk)[24..28]
  {
    ReadExact(ino, disk, 0, 4);
    ReadExact(ino, disk, 24, 4);
    ReadExact(ino, disk, 0, ino.length);
    assert Flat(ino, disk)[..ino.length] == Flat(ino, disk);
  }

  // A chunk continues what precedes it, and is empty only at the end.
  lemma ChunkFollows(ino: Inode, disk: Disk, c: nat, position: word)
    requires position <= ino.length
    ensures var s := Chunk(ino, disk, c, position);
      && position + |s| <= ino.length && |s| <= c && (c > 0 && s == [] ==> position == ino.length)
      && Flat(ino, disk)[..position] + s == Flat(ino, disk)[..position + |s|]
  {
  }

  // ece391cat: copy a file to the output 1024 bytes at a time.
  method Cat(f: OpenFile) returns (out: seq<byte>)
    requires f.Valid() && f.position == 0 && WellFormed(f.Node())
    modifies f
    ensures out == Flat(f.Node(), f.disk) && f.position == f.Node().length
  {
    hide ReadAt, Flat, WellFormed, Splice, Chunk;
    var buf := new byte[1024];
    out := [];
    var cnt := -1;
    while cnt != 0
      invariant OnGrid(f.Node(), 1024, f.position)
      invariant out == Flat(f.Node(), f.disk)[..f.position]
      invariant cnt == 0 ==> f.position == f.Node().length
      decreases f.Node().length - f.position + if cnt == 0 then 0 else 1
    {
      ChunkExact(f.Node(), f.disk, 1024, f.position);
      ghost var p, s := f.position, Chunk(f.Node(), f.disk, 1024, f.position);
      ghost var was := buf[..];
      cnt := f.FileRead(buf, 0, 1024);
      SpliceIn(was, 0, s);
      ChunkFollows(f.Node(), f.disk, 1024, p);
      out := out + buf[..cnt];
    }
  }
}
