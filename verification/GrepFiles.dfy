// Which files ece391grep reads right (syscalls/ece391grep.c over student-distrib/filesys.c): its requests leave the
// multiples of the buffer size as soon as a line is carried over.
module GrepFiles {
  import opened Bytes
  import opened CStrings
  import opened FileSystem
  import opened Grep

  // Every read the program makes along the file is one that read_data gets right.
  ghost predicate ReadsExact(ino: Inode, disk: Disk, position: word, w: seq<byte>)
    requires position <= ino.length && |w| < BUFSIZE
    decreases ino.length - position
  {
    position == ino.length
    || (&& Exact(ino, position, Cut(ino, BUFSIZE - |w|))
        && var s := Chunk(ino, disk, BUFSIZE - |w|, position);
        ReadsExact(ino, disk, position + |s|, Unfinished(w + s)))
  }

  lemma ExactChunk(ino: Inode, disk: Disk, position: word, n: nat)
    requires WellFormed(ino) && position <= ino.length && Exact(ino, position, Cut(ino, n))
    ensures ReadAt(ino, disk, position, n) == Outcome(|Chunk(ino, disk, n, position)|, Chunk(ino, disk, n, position))
  {
    hide Exact, Scan;
    ReadExact(ino, disk, position, Cut(ino, n));
  }

  // Then it reads exactly the file, whatever its size.
  lemma {:induction false} ExactStream(ino: Inode, disk: Disk, position: word, w: seq<byte>)
    requires WellFormed(ino) && position <= ino.length && |w| < BUFSIZE && ReadsExact(ino, disk, position, w)
    ensures Stream(ino, disk, position, w) == Outcome(0, Flat(ino, disk)[position..])
    decreases ino.length - position
  {
    hide ReadAt, Flat, Unfinished, WellFormed, Exact;
    if position < ino.length {
      var s := Chunk(ino, disk, BUFSIZE - |w|, position);
      ExactChunk(ino, disk, position, BUFSIZE - |w|);
      ExactStream(ino, disk, position + |s|, Unfinished(w + s));
      assert Flat(ino, disk)[position..] == s + Flat(ino, disk)[position + |s|..];
    } else {
      assert Flat(ino, disk)[position..] == [];
    }
  }

  // In a file of at most two blocks only a read that runs on beyond the end is wrong.
  lemma WrongRead(ino: Inode, disk: Disk, position: word, n: nat)
    requires WellFormed(ino) && ino.length <= 2 * BLOCK_SIZE && position < ino.length && n > 0
    requires !Exact(ino, position, Cut(ino, n))
    ensures var r := ReadAt(ino, disk, position, n); r.ret == -1 || r.ret > ino.length - position
  {
    hide Scan;
    ScanOverruns(ino, disk, position, Cut(ino, n), 0);
  }

  // For such files, what the program reads is the file exactly when every read is right.
  lemma {:induction false} StreamExactIff(ino: Inode, disk: Disk, position: word, w: seq<byte>)
    requires WellFormed(ino) && ino.length <= 2 * BLOCK_SIZE && position <= ino.length && |w| < BUFSIZE
    ensures Stream(ino, disk, position, w) == Outcome(0, Flat(ino, disk)[position..])
      <==> ReadsExact(ino, disk, position, w)
    decreases ino.length - position
  {
    hide ReadAt, Flat, Unfinished, Exact;
    if ReadsExact(ino, disk, position, w) {
      ExactStream(ino, disk, position, w);
    } else if Exact(ino, position, Cut(ino, BUFSIZE - |w|)) {
      var s := Chunk(ino, disk, BUFSIZE - |w|, position);
      var rest := Stream(ino, disk, position + |s|, Unfinished(w + s));
      ExactChunk(ino, disk, position, BUFSIZE - |w|);
      StreamExactIff(ino, disk, position + |s|, Unfinished(w + s));
      assert Flat(ino, disk)[position..] == s + Flat(ino, disk)[position + |s|..];
      assert (s + rest.bytes)[|s|..] == rest.bytes;
    } else {
      ShortRead(ino, disk, position, BUFSIZE - |w|);
      WrongRead(ino, disk, position, BUFSIZE - |w|);
    }
  }

  // The lengths of files every read of which is right: one block, or so much of a second one that no read from the
  // first asks beyond the end.
  predicate RightLength(length: nat) {
    length <= BLOCK_SIZE || BLOCK_SIZE + BUFSIZE - 1 <= length <= 2 * BLOCK_SIZE
  }

  lemma RightRead(ino: Inode, position: word, n: nat)
    requires RightLength(ino.length) && position < ino.length && 0 < n <= BUFSIZE
    ensures Exact(ino, position, Cut(ino, n))
  {
  }

  lemma {:induction false} RightLengthExact(ino: Inode, disk: Disk, position: word, w: seq<byte>)
    requires RightLength(ino.length) && position <= ino.length && |w| < BUFSIZE
    ensures ReadsExact(ino, disk, position, w)
    decreases ino.length - position
  {
    hide RightLength, Exact, Flat, Unfinished;
    if position < ino.length {
      RightRead(ino, position, BUFSIZE - |w|);
      var s := Chunk(ino, disk, BUFSIZE - |w|, position);
      RightLengthExact(ino, disk, position + |s|, Unfinished(w + s));
    }
  }

  // When every read is right and no line is long, the program prints exactly the lines of the file that contain the
  // pattern.
  lemma ExactPrintsLines(ino: Inode, disk: Disk, fname: seq<byte>, pat: seq<byte>)
    requires WellFormed(ino) && ReadsExact(ino, disk, 0, []) && ShortLines(Flat(ino, disk))
    ensures Stream(ino, disk, 0, []) == Outcome(0, Flat(ino, disk))
    ensures Matches(fname, pat, Pieces(Stream(ino, disk, 0, []).bytes)) == Matches(fname, pat, Lines(Flat(ino, disk)))
  {
    hide Flat, Pieces, Lines, ShortLines, ReadsExact;
    ExactStream(ino, disk, 0, []);
    assert Flat(ino, disk)[0..] == Flat(ino, disk);
    PiecesPrintLines(fname, pat, Flat(ino, disk));
  }

  // ----- A disk that misleads the program -----

  const X: byte := 120

  // Text of short lines that brings a read to the last byte before each of the two block boundaries, with nothing
  // carried over. In the first two blocks, a newline at k; one line is carried over at 2047 on the way.
  predicate BreakAt(k: nat) {
    k == 1023 || (k > 1024 && k % 1024 == 1022)
  }

  // Behind the end of a file that ends in the second block there are other letters; a longer file has one such letter,
  // at the front of its third block.
  function Misleading(ino: Inode): Disk
    requires Sized(ino)
  {
    (b, o) =>
      if b == BlockAt(ino, 0) then (if o >= 0 && BreakAt(o) then NEWLINE else 97)
      else if b == BlockAt(ino, 1) then
        (if o >= ino.length - BLOCK_SIZE then X else if o >= 0 && BreakAt(BLOCK_SIZE + o) then NEWLINE else 97)
      else if b == BlockAt(ino, 2) && o == 0 then X
      else NEWLINE
  }

  lemma TextAt(ino: Inode, k: nat)
    requires WellFormed(ino) && FileSystem.Distinct(ino) && k < ino.length && ino.length > BLOCK_SIZE
    ensures Flat(ino, Misleading(ino))[k] ==
      if k < 2 * BLOCK_SIZE then (if BreakAt(k) then NEWLINE else 97) else if k == 2 * BLOCK_SIZE then X else NEWLINE
  {
    hide BreakAt;
    var q, o := k / BLOCK_SIZE, k % BLOCK_SIZE;
    assert k == q * BLOCK_SIZE + o;
    assert q >= 1 ==> BlockAt(ino, 0) != BlockAt(ino, q);
    assert q >= 2 ==> BlockAt(ino, 1) != BlockAt(ino, q);
    assert q >= 3 ==> BlockAt(ino, 2) != BlockAt(ino, q);
  }

  // The first newline from k on.
  function NextBreak(k: nat): (j: nat)
    ensures k <= j <= k + 1023 && BreakAt(j)
  {
    if k <= 1023 then 1023
    else
      var m := k / 1024;
      assert k == 1024 * m + k % 1024;
      if k == 1024 then 2046 else if k % 1024 <= 1022 then 1024 * m + 1022 else 1024 * (m + 1) + 1022
  }

  ghost predicate BreakSoon(f: seq<byte>, k: nat) {
    exists j :: k <= j <= k + BUFSIZE && j < |f| && f[j] == NEWLINE
  }

  lemma SoonEnds(f: seq<byte>, from: nat)
    requires from <= |f| && BreakSoon(f, from)
    ensures LineEnd(f[from..]) <= BUFSIZE
  {
    var g := f[from..];
    var j :| from <= j <= from + BUFSIZE && j < |f| && f[j] == NEWLINE;
    assert g[j - from] == NEWLINE;
  }

  lemma ShortStep(g: seq<byte>)
    requires LineEnd(g) <= BUFSIZE && (LineEnd(g) < |g| ==> ShortLines(g[LineEnd(g) + 1..]))
    ensures ShortLines(g)
  {
    forall l | l in Lines(g)
      ensures |l| <= BUFSIZE
    {
      if LineEnd(g) < |g| {
        assert l == g[..LineEnd(g)] || l in Lines(g[LineEnd(g) + 1..]);
      }
    }
  }

  // A newline among any 1025 bytes makes all lines short.
  lemma {:induction false} ShortIf(f: seq<byte>, from: nat)
    requires from <= |f| && forall k :: from <= k && k + BUFSIZE < |f| ==> BreakSoon(f, k)
    ensures ShortLines(f[from..])
    decreases |f| - from
  {
    hide LineEnd, ShortLines, BreakSoon;
    var g := f[from..];
    var n := LineEnd(g);
    if from + BUFSIZE < |f| {
      SoonEnds(f, from);
    }
    if n < |g| {
      ShortIf(f, from + n + 1);
      assert g[n + 1..] == f[from + n + 1..];
    }
    ShortStep(g);
  }

  ghost predicate WrongLength(ino: Inode) {
    WellFormed(ino) && FileSystem.Distinct(ino) && !RightLength(ino.length)
  }

  lemma MisleadingText(ino: Inode)
    requires WrongLength(ino)
    ensures var f := Flat(ino, Misleading(ino));
      ShortLines(f) && NoNul(f) && (X in f <==> ino.length > 2 * BLOCK_SIZE)
  {
    hide Flat, Misleading, ShortLines, BreakAt;
    var f := Flat(ino, Misleading(ino));
    forall k | 0 <= k < |f|
      ensures f[k] == if k < 2 * BLOCK_SIZE then (if BreakAt(k) then NEWLINE else 97)
                      else if k == 2 * BLOCK_SIZE then X else NEWLINE
    {
      TextAt(ino, k);
    }
    forall k | 0 <= k && k + BUFSIZE < |f|
      ensures BreakSoon(f, k)
    {
      TextBreaks(ino, k);
    }
    ShortIf(f, 0);
    assert f[0..] == f;
    assert ino.length > 2 * BLOCK_SIZE ==> f[2 * BLOCK_SIZE] == X;
  }

  lemma TextBreaks(ino: Inode, k: nat)
    requires WrongLength(ino) && k + BUFSIZE < ino.length
    ensures BreakSoon(Flat(ino, Misleading(ino)), k)
  {
    hide Flat, Misleading, BreakAt;
    var j := if k < 2 * BLOCK_SIZE - 1 then NextBreak(k) else if k <= 2 * BLOCK_SIZE then 2 * BLOCK_SIZE + 1 else k;
    if k < 2 * BLOCK_SIZE - 1 {
      LastBreak(k);
    }
    TextAt(ino, j);
    assert Flat(ino, Misleading(ino))[j] == NEWLINE;
  }

  lemma LastBreak(k: nat)
    requires k < 2 * BLOCK_SIZE - 1
    ensures NextBreak(k) < 2 * BLOCK_SIZE
  {
  }

  // Where the reads of the program are on their way through this text, and what has been carried over.
  function Way(j: nat): (r: (nat, seq<byte>))
    ensures |r.1| <= 1 && r.0 - |r.1| + BUFSIZE == if j == 0 then 1024 else if j == 1 then 2048 else 1024 * (j + 1) - 1
  {
    if j == 0 then (0, []) else if j == 1 then (1024, []) else if j == 2 then (2048, [97]) else (1024 * j - 1, [])
  }

  // Each of the first reads, up to the second block boundary, is right and leads to the next.
  lemma WayOn(ino: Inode, j: nat)
    requires WrongLength(ino) && j <= 7 && Way(j).0 - |Way(j).1| + BUFSIZE <= ino.length
    ensures var (p, w) := Way(j);
      var r := ReadAt(ino, Misleading(ino), p, BUFSIZE - |w|);
      && r.ret == BUFSIZE - |w| && p + r.ret == Way(j + 1).0 <= ino.length
      && r.bytes == Flat(ino, Misleading(ino))[p..p + r.ret] && Unfinished(w + r.bytes) == Way(j + 1).1
  {
    hide ReadAt, Unfinished, Flat, Misleading;
    var disk, f := Misleading(ino), Flat(ino, Misleading(ino));
    var (p, w) := Way(j);
    var n := BUFSIZE - |w|;
    WayExact(ino, p, n);
    ExactChunk(ino, disk, p, n);
    if w != [] {
      TextAt(ino, p - 1);
    }
    var from := p - |w|;
    assert w + f[p..p + n] == f[from..from + BUFSIZE];
    WayTail(ino, j);
  }

  lemma WayExact(ino: Inode, p: nat, n: nat)
    requires 0 < n <= BUFSIZE && p + n <= ino.length && p + n <= 2 * BLOCK_SIZE
    ensures Cut(ino, n) == n && Exact(ino, p, n)
  {
  }

  lemma WayTail(ino: Inode, j: nat)
    requires WrongLength(ino) && j <= 7 && Way(j).0 - |Way(j).1| + BUFSIZE <= ino.length
    ensures var from := Way(j).0 - |Way(j).1|;
      0 <= from && Unfinished(Flat(ino, Misleading(ino))[from..from + BUFSIZE]) == Way(j + 1).1
  {
    hide Unfinished, Flat, Misleading;
    var from := Way(j).0 - |Way(j).1|;
    var end := from + BUFSIZE;
    var b := Flat(ino, Misleading(ino))[from..end];
    TextAt(ino, end - 1);
    TextAt(ino, end - 2);
    UnfinishedIs(b, if j == 1 then 1 else 0);
    assert j == 1 ==> b[1023..] == [97];
  }

  // The bytes a read stores, by their number in the read.
  lemma {:induction false} ScanBytes(ino: Inode, disk: Disk, offset: word, length: word, i: nat)
    requires i <= length
    ensures var r := Scan(ino, disk, offset, length, i);
      forall m :: i <= m < i + |r.bytes| ==> r.bytes[m - i] == ByteAt(ino, disk, offset, m)
    decreases length - i
  {
    hide AtEnd, BadBlock, ByteAt;
    if i < length && !AtEnd(ino, offset, i) && !BadBlock(ino, offset, i) {
      ScanBytes(ino, disk, offset, length, i + 1);
    }
  }

  // The read from the last byte of the first block asks beyond the end of a file that ends too soon, and comes to the
  // letter behind it, if it does not fail.
  lemma RunsIntoLetter(ino: Inode)
    requires WrongLength(ino) && ino.length < 2 * BLOCK_SIZE
    ensures var r := ReadAt(ino, Misleading(ino), BLOCK_SIZE - 1, BUFSIZE); r.ret == -1 || X in r.bytes
    ensures ReadAt(ino, Misleading(ino), BLOCK_SIZE - 1, BUFSIZE).ret != 0
  {
    hide Scan;
    var p, m := BLOCK_SIZE - 1, ino.length - (BLOCK_SIZE - 1);
    ShortRead(ino, Misleading(ino), p, BUFSIZE);
    ScanOverruns(ino, Misleading(ino), p, BUFSIZE, 0);
    ScanBytes(ino, Misleading(ino), p, BUFSIZE, 0);
    var r := ReadAt(ino, Misleading(ino), p, BUFSIZE);
    if r.ret != -1 {
      LetterBehind(ino);
      assert r.bytes[m] == X;
    }
  }

  lemma LetterBehind(ino: Inode)
    requires WrongLength(ino) && ino.length < 2 * BLOCK_SIZE
    ensures ByteAt(ino, Misleading(ino), BLOCK_SIZE - 1, ino.length - (BLOCK_SIZE - 1)) == X
  {
    assert FirstPart(BLOCK_SIZE - 1) == 1 && BlockIndex(BLOCK_SIZE - 1, ino.length - (BLOCK_SIZE - 1)) == 1;
    assert BlockAt(ino, 0) != BlockAt(ino, 1);
  }

  lemma {:induction false} LetterRead(ino: Inode, j: nat)
    requires WrongLength(ino) && ino.length < 2 * BLOCK_SIZE && j <= 4
    ensures var r := Stream(ino, Misleading(ino), Way(j).0, Way(j).1); r.ret == -1 || X in r.bytes
    decreases 4 - j
  {
    hide ReadAt, Unfinished, Misleading;
    if j < 4 {
      WayOn(ino, j);
      LetterRead(ino, j + 1);
    } else {
      RunsIntoLetter(ino);
    }
  }

  // In a longer file the read from the last byte of the second block takes its second block again, and the letter at
  // the front of the third is never read.
  lemma LetterMissed(ino: Inode, p: word, n: nat, m: nat)
    requires WrongLength(ino) && ino.length > 2 * BLOCK_SIZE
    requires 2 * BLOCK_SIZE - 1 <= p < ino.length && p != 2 * BLOCK_SIZE && m < BUFSIZE
    ensures ByteAt(ino, Misleading(ino), p, m) != X
  {
    var q := p / BLOCK_SIZE;
    assert p == q * BLOCK_SIZE + p % BLOCK_SIZE;
    assert BlockAt(ino, 0) != BlockAt(ino, 1) && BlockAt(ino, 0) != BlockAt(ino, 2);
    assert BlockAt(ino, 1) != BlockAt(ino, 2);
    assert q > 2 ==> BlockAt(ino, 2) != BlockAt(ino, q);
    assert q > 1 ==> BlockAt(ino, 1) != BlockAt(ino, q);
    assert m >= FirstPart(p) ==> BlockIndex(p, m) == 1;
  }

  lemma {:induction false} LetterNeverRead(ino: Inode, p: word, w: seq<byte>)
    requires WrongLength(ino) && ino.length > 2 * BLOCK_SIZE && |w| < BUFSIZE
    requires p > 2 * BLOCK_SIZE || (p == 2 * BLOCK_SIZE - 1 && w == [])
    ensures X !in Stream(ino, Misleading(ino), p, w).bytes
    decreases if p < ino.length then ino.length - p else 0
  {
    hide ReadAt, Unfinished, Misleading;
    if p < ino.length {
      var n := BUFSIZE - |w|;
      var r := ReadAt(ino, Misleading(ino), p, n);
      ShortRead(ino, Misleading(ino), p, n);
      LetterNotIn(ino, p, n);
      if r.ret > 0 {
        LetterNeverRead(ino, p + r.ret, Unfinished(w + r.bytes));
      }
    }
  }

  lemma LetterNotIn(ino: Inode, p: word, n: nat)
    requires WrongLength(ino) && ino.length > 2 * BLOCK_SIZE && 0 < n <= BUFSIZE
    requires 2 * BLOCK_SIZE - 1 <= p < ino.length && p != 2 * BLOCK_SIZE
    ensures X !in ReadAt(ino, Misleading(ino), p, n).bytes
    ensures p == 2 * BLOCK_SIZE - 1 && n == BUFSIZE ==> ReadAt(ino, Misleading(ino), p, n).ret != 1
  {
    hide Scan, Misleading, ByteAt, BlockAt;
    var r := ReadAt(ino, Misleading(ino), p, n);
    ScanBytes(ino, Misleading(ino), p, Cut(ino, n), 0);
    forall m | 0 <= m < |r.bytes|
      ensures r.bytes[m] != X
    {
      LetterMissed(ino, p, n, m);
    }
    if p == 2 * BLOCK_SIZE - 1 {
      ShortRead(ino, Misleading(ino), p, n);
    }
  }

  lemma {:induction false} LetterSkipped(ino: Inode, j: nat)
    requires WrongLength(ino) && ino.length > 2 * BLOCK_SIZE && j <= 8
    ensures X !in Stream(ino, Misleading(ino), Way(j).0, Way(j).1).bytes
    decreases 8 - j
  {
    hide ReadAt, Unfinished, Misleading, Flat;
    if j < 8 {
      WayOn(ino, j);
      LetterSkipped(ino, j + 1);
      WayText(ino, Way(j).0, Way(j + 1).0);
    } else {
      LetterNeverRead(ino, Way(8).0, Way(8).1);
    }
  }

  lemma WayText(ino: Inode, a: nat, b: nat)
    requires WrongLength(ino) && a <= b <= ino.length && b <= 2 * BLOCK_SIZE
    ensures X !in Flat(ino, Misleading(ino))[a..b]
  {
    hide Flat, Misleading, BreakAt;
    forall k | a <= k < b
      ensures Flat(ino, Misleading(ino))[k] != X
    {
      TextAt(ino, k);
    }
  }

  // On this disk the program is wrong about the letter: it prints a line for it although it is not in the file, or
  // fails, or it prints none although it is.
  lemma Misread(ino: Inode, fname: seq<byte>)
    requires WrongLength(ino)
    ensures var stream, f := Stream(ino, Misleading(ino), 0, []), Flat(ino, Misleading(ino));
      && ShortLines(f) && NoNul(f)
      && (stream.ret == -1 || Matches(fname, [X], Pieces(stream.bytes)) != Matches(fname, [X], Lines(f)))
  {
    hide Stream, Flat, Misleading, Pieces, Lines, ShortLines, Matches;
    MisleadingText(ino);
    LetterPrinted(fname, Flat(ino, Misleading(ino)), X);
    LetterPrinted(fname, Stream(ino, Misleading(ino), 0, []).bytes, X);
    if ino.length > 2 * BLOCK_SIZE {
      LetterSkipped(ino, 0);
    } else {
      LetterRead(ino, 0);
    }
  }

  // ----- Which files are read right -----

  // The program reads the file for every disk content exactly when the file has one of the right lengths.
  lemma StreamIsFileIff(ino: Inode)
    requires WellFormed(ino) && FileSystem.Distinct(ino)
    ensures RightLength(ino.length) <==> forall disk: Disk :: Stream(ino, disk, 0, []) == Outcome(0, Flat(ino, disk))
  {
    hide Stream, Flat, RightLength, ShortLines, Pieces, Lines, Matches;
    if RightLength(ino.length) {
      forall disk: Disk
        ensures Stream(ino, disk, 0, []) == Outcome(0, Flat(ino, disk))
      {
        RightLengthExact(ino, disk, 0, []);
        ExactStream(ino, disk, 0, []);
        assert Flat(ino, disk)[0..] == Flat(ino, disk);
      }
    } else {
      Misread(ino, []);
      PiecesPrintLines([], [X], Flat(ino, Misleading(ino)));
    }
  }

  // The program does not fail, and what it prints for this pattern is the lines of the file that contain it.
  ghost predicate PrintsLines(ino: Inode, disk: Disk, fname: seq<byte>, pat: seq<byte>)
    requires Sized(ino)
  {
    var stream := Stream(ino, disk, 0, []);
    stream.ret == 0 && Matches(fname, pat, Pieces(stream.bytes)) == Matches(fname, pat, Lines(Flat(ino, disk)))
  }

  // From files without long lines it prints exactly the lines that contain the pattern, for every disk content and
  // every pattern, if and only if the file has one of the right lengths.
  lemma PrintsLinesIff(ino: Inode, fname: seq<byte>)
    requires WellFormed(ino) && FileSystem.Distinct(ino)
    ensures RightLength(ino.length) <==>
      forall disk: Disk, pat :: NoNul(pat) && NoNul(Flat(ino, disk)) && ShortLines(Flat(ino, disk)) ==>
        PrintsLines(ino, disk, fname, pat)
  {
    hide Stream, Flat, RightLength, ShortLines, Pieces, Lines, Matches;
    if RightLength(ino.length) {
      forall disk: Disk, pat | NoNul(pat) && NoNul(Flat(ino, disk)) && ShortLines(Flat(ino, disk))
        ensures PrintsLines(ino, disk, fname, pat)
      {
        RightLengthExact(ino, disk, 0, []);
        ExactPrintsLines(ino, disk, fname, pat);
      }
    } else {
      Misread(ino, fname);
      assert NoNul([X]) && !PrintsLines(ino, Misleading(ino), fname, [X]);
    }
  }

  // On such a file do_one_file succeeds, and what it prints is, line by line, the file name, a colon and the whole
  // line, for each line of the file that contains the pattern, in order.
  method GrepRightFile(s: seq<byte>, ghost pat: seq<byte>, fname: seq<byte>, f: OpenFile, data: array<byte>)
      returns (ret: int, out: seq<byte>)
    requires CStrings.Holds(s, 0, pat) && f.Valid() && f.position == 0 && 10 !in fname
    requires WellFormed(f.Node()) && RightLength(f.Node().length)
    requires ShortLines(Flat(f.Node(), f.disk)) && NoNul(Flat(f.Node(), f.disk))
    requires data.Length == BUFSIZE + 1 && data[BUFSIZE] != NEWLINE
    modifies f, data
    ensures ret == 0 && Lines(out) == Titled(fname, Found(pat, Lines(Flat(f.Node(), f.disk))))
    ensures out != [] ==> out[|out| - 1] == 10
  {
    hide Stream, Flat, RightLength, ShortLines, Pieces, Lines, Matches;
    RightLengthExact(f.Node(), f.disk, 0, []);
    ExactPrintsLines(f.Node(), f.disk, fname, pat);
    LinesHaveNoBreak(Flat(f.Node(), f.disk));
    MatchesAre(fname, pat, Lines(Flat(f.Node(), f.disk)));
    MatchesEnd(fname, pat, Lines(Flat(f.Node(), f.disk)));
    ret, out := DoOneFile(s, pat, fname, f, data);
  }

  // For instance, a file of 4200 bytes is misread.
  lemma TwoBlocksMisread(ino: Inode, fname: seq<byte>)
    requires WellFormed(ino) && FileSystem.Distinct(ino) && ino.length == 4200
    ensures !PrintsLines(ino, Misleading(ino), fname, [X])
  {
    Misread(ino, fname);
  }
}
