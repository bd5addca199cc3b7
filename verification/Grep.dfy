// ece391grep: search a file line by line through a 1024-byte buffer (syscalls/ece391grep.c, do_one_file).
module Grep {
  import opened Bytes
  import opened CStrings
  import opened FileSystem

  const BUFSIZE: int := 1024
  const NEWLINE: byte := 10
  const COLON: byte := 58

  // Position of the first newline, or the length when there is none.
  function LineEnd(f: seq<byte>): (n: nat)
    ensures n <= |f|
    ensures forall k :: 0 <= k < n ==> f[k] != NEWLINE
    ensures n < |f| ==> f[n] == NEWLINE
  {
    if f == [] || f[0] == NEWLINE then 0 else 1 + LineEnd(f[1..])
  }

  lemma LineEndIs(f: seq<byte>, n: nat)
    requires n <= |f| && (n < |f| ==> f[n] == NEWLINE)
    requires forall k :: 0 <= k < n ==> f[k] != NEWLINE
    ensures LineEnd(f) == n
  {
    var e := LineEnd(f);
    assert e < |f| ==> f[e] == NEWLINE;
  }

  // The lines of a text: newline-terminated, with a last line that may lack its newline.
  function Lines(f: seq<byte>): seq<seq<byte>> {
    if f == [] then []
    else if LineEnd(f) < |f| then [f[..LineEnd(f)]] + Lines(f[LineEnd(f) + 1..])
    else [f]
  }

  // The pieces the buffer cuts a text into: a line, or the next 1024 bytes when no newline is among them.
  function Pieces(f: seq<byte>): seq<seq<byte>> {
    if f == [] then []
    else if LineEnd(f) < |f| && LineEnd(f) < BUFSIZE then [f[..LineEnd(f)]] + Pieces(f[LineEnd(f) + 1..])
    else if |f| <= BUFSIZE then [f]
    else [f[..BUFSIZE]] + Pieces(f[BUFSIZE..])
  }

  // The pattern occurs in the text at position at.
  predicate OccursAt(text: seq<byte>, pat: seq<byte>, at: nat) {
    at + |pat| <= |text| && text[at..at + |pat|] == pat
  }

  // A non-empty pattern occurs somewhere in the text; the empty pattern is never reported.
  predicate Contains(text: seq<byte>, pat: seq<byte>) {
    pat != [] && exists at :: 0 <= at < |text| && OccursAt(text, pat, at)
  }

  // What is printed for one matching line.
  function Report(fname: seq<byte>, line: seq<byte>): seq<byte> {
    fname + [COLON] + line + [NEWLINE]
  }

  // The reports of the matching lines among ls, in order, each once.
  function Matches(fname: seq<byte>, pat: seq<byte>, ls: seq<seq<byte>>): seq<byte> {
    if ls == [] then []
    else (if Contains(ls[0], pat) then Report(fname, ls[0]) else []) + Matches(fname, pat, ls[1..])
  }

  // ----- What lines, occurrences and reports are -----

  // A newline ends a line; what follows the last one is a line if it is not empty.
  lemma LinesAre(l: seq<byte>, f: seq<byte>)
    requires 10 !in l
    ensures Lines(l + [10] + f) == [l] + Lines(f)
    ensures Lines(l) == if l == [] then [] else [l]
  {
    var t := l + [10] + f;
    assert t[..|l|] == l && l[..|l|] == l;
    LineEndIs(t, |l|);
    LineEndIs(l, |l|);
    assert t[|l| + 1..] == f;
  }

  // A pattern is reported in a text if it is not empty and the text has it somewhere in between.
  lemma ContainsIff(text: seq<byte>, pat: seq<byte>)
    ensures Contains(text, pat) <==>
      pat != [] && exists before: seq<byte>, after: seq<byte> :: text == before + pat + after
  {
    if Contains(text, pat) {
      var at :| 0 <= at < |text| && OccursAt(text, pat, at);
      assert text == text[..at] + pat + text[at + |pat|..];
    }
    if before: seq<byte>, after: seq<byte> :| pat != [] && text == before + pat + after {
      assert OccursAt(text, pat, |before|);
    }
  }

  // The lines that contain the pattern, in order.
  function Found(pat: seq<byte>, ls: seq<seq<byte>>): (r: seq<seq<byte>>)
    ensures forall l :: l in r <==> l in ls && Contains(l, pat)
  {
    if ls == [] then [] else (if Contains(ls[0], pat) then [ls[0]] else []) + Found(pat, ls[1..])
  }

  // Each of them behind the file name and a colon.
  function Titled(fname: seq<byte>, ls: seq<seq<byte>>): (r: seq<seq<byte>>)
    ensures |r| == |ls| && forall k :: 0 <= k < |ls| ==> r[k] == fname + [58] + ls[k]
  {
    seq(|ls|, k requires 0 <= k < |ls| => fname + [58] + ls[k])
  }

  lemma ReportReads(fname: seq<byte>, l: seq<byte>, rest: seq<byte>)
    requires 10 !in fname && 10 !in l
    ensures Lines(Report(fname, l) + rest) == [fname + [58] + l] + Lines(rest)
  {
    hide Lines;
    var line := fname + [58] + l;
    assert 10 !in line;
    LinesAre(line, rest);
    assert Report(fname, l) + rest == line + [10] + rest;
  }

  lemma TitledFront(fname: seq<byte>, l: seq<byte>, ls: seq<seq<byte>>)
    ensures Titled(fname, [l] + ls) == [fname + [58] + l] + Titled(fname, ls)
  {
  }

  lemma NoLines(fname: seq<byte>)
    ensures Lines([]) == [] && Titled(fname, []) == []
  {
  }

  // What is printed, read line by line: the lines that contain the pattern, whole, each behind the file name.
  lemma {:induction false} MatchesAre(fname: seq<byte>, pat: seq<byte>, ls: seq<seq<byte>>)
    requires 10 !in fname && forall l :: l in ls ==> 10 !in l
    ensures Lines(Matches(fname, pat, ls)) == Titled(fname, Found(pat, ls))
  {
    hide Lines, Contains, Titled, Report;
    if ls == [] {
      NoLines(fname);
    } else {
      var l, rest := ls[0], ls[1..];
      MatchesAre(fname, pat, rest);
      if Contains(l, pat) {
        ReportReads(fname, l, Matches(fname, pat, rest));
        TitledFront(fname, l, Found(pat, rest));
      } else {
        assert Found(pat, ls) == Found(pat, rest) && Matches(fname, pat, ls) == Matches(fname, pat, rest);
      }
    }
  }

  lemma {:induction false} MatchesEnd(fname: seq<byte>, pat: seq<byte>, ls: seq<seq<byte>>)
    ensures var out := Matches(fname, pat, ls); out != [] ==> out[|out| - 1] == 10
  {
    if ls != [] {
      MatchesEnd(fname, pat, ls[1..]);
    }
  }

  lemma {:induction false} LinesHaveNoBreak(f: seq<byte>)
    ensures forall l :: l in Lines(f) ==> 10 !in l
    decreases |f|
  {
    if f != [] && LineEnd(f) < |f| {
      LinesHaveNoBreak(f[LineEnd(f) + 1..]);
    }
  }

  // No line is longer than the buffer.
  ghost predicate ShortLines(f: seq<byte>) {
    forall l :: l in Lines(f) ==> |l| <= BUFSIZE
  }

  // ----- What the program reads -----

  // How many bytes follow the last newline; all of them when there is none.
  function TailLength(b: seq<byte>): (n: nat)
    ensures n <= |b| && forall k :: |b| - n <= k < |b| ==> b[k] != NEWLINE
    ensures n < |b| ==> b[|b| - 1 - n] == NEWLINE
  {
    if b == [] || b[|b| - 1] == NEWLINE then 0 else 1 + TailLength(b[..|b| - 1])
  }

  // The unfinished line at the end of a full buffer, which is carried over to the next one. A buffer without any
  // newline is searched as it is.
  function Unfinished(b: seq<byte>): (w: seq<byte>)
    ensures b != [] ==> |w| < |b|
  {
    if TailLength(b) == |b| then [] else b[|b| - TailLength(b)..]
  }

  lemma UnfinishedIs(b: seq<byte>, n: nat)
    requires n <= |b| && forall k :: |b| - n <= k < |b| ==> b[k] != NEWLINE
    requires n < |b| ==> b[|b| - 1 - n] == NEWLINE
    ensures Unfinished(b) == if n == |b| then [] else b[|b| - n..]
  {
    var m := TailLength(b);
    assert m < |b| ==> b[|b| - 1 - m] == NEWLINE;
    assert n < |b| ==> b[|b| - 1 - n] == NEWLINE;
  }

  // A read that returns less than was asked for has come to the end of the file.
  lemma ShortRead(ino: Inode, disk: Disk, position: word, n: nat)
    requires Sized(ino)
    ensures var r := ReadAt(ino, disk, position, n); 0 <= r.ret < n ==> position + r.ret >= ino.length
    ensures position >= ino.length ==> ReadAt(ino, disk, position, n) == Outcome(0, [])
    ensures var r := ReadAt(ino, disk, position, n); r.ret <= n && (r.ret >= 0 ==> |r.bytes| == r.ret)
    ensures position < ino.length && n > 0 ==> ReadAt(ino, disk, position, n).ret != 0
  {
    ScanEnds(ino, disk, position, Cut(ino, n), 0);
  }

  lemma {:induction false} ScanEnds(ino: Inode, disk: Disk, offset: word, length: word, i: nat)
    requires Sized(ino) && i <= length
    ensures var r := Scan(ino, disk, offset, length, i);
      i <= r.ret < length ==> r.ret >= ino.length || offset + r.ret >= ino.length
    decreases length - i
  {
    hide BadBlock, ByteAt;
    if i < length && !AtEnd(ino, offset, i) && !BadBlock(ino, offset, i) {
      ScanEnds(ino, disk, offset, length, i + 1);
    } else {
      assert Position(offset, i) <= i;
    }
  }

  // Everything the program reads from a position on, when it has carried the bytes w over: after each full buffer it
  // asks for as much as the carried line leaves room for. The result is -1 if a read fails.
  ghost function Stream(ino: Inode, disk: Disk, position: word, w: seq<byte>): (r: Outcome)
    requires Sized(ino) && |w| < BUFSIZE
    ensures r.ret == 0 || r.ret == -1
    ensures position >= ino.length ==> r == Outcome(0, [])
    decreases if position < ino.length then ino.length - position else 0
  {
    ShortRead(ino, disk, position, BUFSIZE - |w|);
    var r := ReadAt(ino, disk, position, BUFSIZE - |w|);
    if r.ret <= 0 then Outcome(r.ret, [])
    else
      var rest := Stream(ino, disk, position + r.ret, Unfinished(w + r.bytes));
      Outcome(rest.ret, r.bytes + rest.bytes)
  }

  // Does the pattern match at the front of the text? This is what the strncmp test asks.
  lemma MatchAt(text: seq<byte>, pat: seq<byte>, at: nat)
    requires NoNul(text) && NoNul(pat) && at <= |text|
    ensures Compare(text[at..], pat, 0, |pat|, false) == 0 <==> OccursAt(text, pat, at)
  {
    CompareZero(text[at..], pat, 0, |pat|, false);
    var t := text[at..];
    assert pat[..|pat|] == pat;
    if |pat| <= |t| {
      assert t[..|pat|] == text[at..at + |pat|];
    }
  }

  // The search loop over one line, which has just been NUL-terminated in the buffer.
  method SearchLine(data: seq<byte>, lineStart: nat, lineEnd: nat, s: seq<byte>, ghost pat: seq<byte>,
                    ghost line: seq<byte>)
      returns (found: bool)
    requires Holds(data, lineStart, line) && lineEnd == lineStart + |line|
    requires Holds(s, 0, pat)
    ensures found <==> Contains(line, pat)
  {
    var sLen := StrLen(s, 0, pat);
    var check := lineStart;
    while check < lineEnd
      invariant lineStart <= check <= lineEnd
      invariant forall at :: 0 <= at < check - lineStart ==> pat == [] || !OccursAt(line, pat, at)
    {
      ghost var at := check - lineStart;
      MatchAt(line, pat, at);
      assert Holds(data, check, line[at..]);
      if s[0] == data[check] {
        var c := UserStrNCmp(data, check, line[at..], s, pat, sLen);
        if c == 0 {
          return true;
        }
      } else {
        assert pat != [] && at + |pat| <= |line| ==> line[at..at + |pat|][0] != pat[0];
      }
      check := check + 1;
    }
    return false;
  }

  // The first piece of f is its first n bytes, and the next piece starts at next.
  ghost predicate FirstPiece(f: seq<byte>, n: nat, next: nat) {
    || (n == LineEnd(f) < |f| && n < BUFSIZE && next == n + 1)
    || (n == |f| == next && LineEnd(f) == |f| <= BUFSIZE)
    || (n == next == BUFSIZE < |f| && LineEnd(f) >= BUFSIZE)
    || (n == next == BUFSIZE == |f| && LineEnd(f) == |f|)
  }

  function ReportIf(fname: seq<byte>, pat: seq<byte>, line: seq<byte>): seq<byte> {
    if Contains(line, pat) then Report(fname, line) else []
  }

  // What is still to be printed for the text f.
  function Rest(fname: seq<byte>, pat: seq<byte>, f: seq<byte>): seq<byte> {
    Matches(fname, pat, Pieces(f))
  }

  lemma TakePiece(fname: seq<byte>, pat: seq<byte>, f: seq<byte>, n: nat, next: nat)
    requires FirstPiece(f, n, next)
    ensures n <= next <= |f|
    ensures Rest(fname, pat, f) == ReportIf(fname, pat, f[..n]) + Rest(fname, pat, f[next..])
  {
    hide LineEnd;
    assert n == |f| ==> f[..n] == f && f[next..] == [];
    if f != [] {
      assert Pieces(f) == [f[..n]] + Pieces(f[next..]);
      MatchesFirst(fname, pat, f[..n], Pieces(f[next..]));
    }
  }

  lemma MatchesFirst(fname: seq<byte>, pat: seq<byte>, l: seq<byte>, ls: seq<seq<byte>>)
    ensures Matches(fname, pat, [l] + ls) == ReportIf(fname, pat, l) + Matches(fname, pat, ls)
  {
    assert ([l] + ls)[1..] == ls;
  }

  // The buffer holds bytes base + from .. base + last of the file at positions from .. last.
  ghost predicate Buffered(data: seq<byte>, from: nat, last: nat, f: seq<byte>, base: nat) {
    && |data| == BUFSIZE + 1
    && from <= last <= BUFSIZE && base + last <= |f|
    && data[from..last] == f[base + from..base + last]
  }

  // Where the scan for a newline stops, in terms of the file.
  lemma ScanStops(data: seq<byte>, from: nat, last: nat, f: seq<byte>, base: nat, end: nat)
    requires Buffered(data, from, last, f, base) && from <= end <= last
    requires forall k :: from <= k < end ==> data[k] != NEWLINE
    ensures data[from..end] == f[base + from..][..end - from]
    ensures end < last && data[end] == NEWLINE ==> LineEnd(f[base + from..]) == end - from < |f[base + from..]|
    ensures end == last ==> LineEnd(f[base + from..]) >= last - from
  {
    var rest := f[base + from..];
    forall k | 0 <= k < last - from
      ensures rest[k] == data[from + k]
    {
      assert rest[k] == f[base + from..base + last][k] == data[from..last][k];
    }
    assert forall k :: 0 <= k < end - from ==> rest[k] != NEWLINE;
    if end < last && data[end] == NEWLINE {
      LineEndIs(rest, end - from);
    }
  }

  // The state of the search between two reads: last bytes of a partial line are carried at the front of the
  // buffer, and out is all that the text before them prints.
  ghost predicate Carried(data: seq<byte>, last: nat, f: seq<byte>, base: nat,
                          out: seq<byte>, fname: seq<byte>, pat: seq<byte>)
  {
    && last < BUFSIZE
    && Buffered(data, 0, last, f, base)
    && (forall k :: 0 <= k < last ==> data[k] != NEWLINE)
    && data[BUFSIZE] != NEWLINE
    && out + Rest(fname, pat, f[base..]) == Rest(fname, pat, f)
  }

  // Inside the line loop: the bytes from lineStart on are still to be searched.
  ghost predicate Searching(data: seq<byte>, lineStart: nat, last: nat, base: nat, cnt: nat,
                            f: seq<byte>, out: seq<byte>, fname: seq<byte>, pat: seq<byte>)
  {
    && Buffered(data, lineStart, last, f, base)
    && (lineStart == 0 || lineStart < last)
    && data[BUFSIZE] != NEWLINE
    && out + Rest(fname, pat, f[base + lineStart..]) == Rest(fname, pat, f)
    && (last < BUFSIZE ==> base + last == |f|)
    && (cnt == 0 ==> last < BUFSIZE && lineStart == 0 && forall k :: 0 <= k < last ==> data[k] != NEWLINE)
  }

  // Which piece the line loop is about to search when it does not carry the line over.
  lemma PieceAt(data: seq<byte>, lineStart: nat, last: nat, base: nat, cnt: nat, end: nat,
                f: seq<byte>, out: seq<byte>, fname: seq<byte>, pat: seq<byte>)
    requires Searching(data, lineStart, last, base, cnt, f, out, fname, pat)
    requires lineStart <= end <= last && (forall k :: lineStart <= k < end ==> data[k] != NEWLINE)
    requires end < last ==> data[end] == NEWLINE
    requires data[end] == NEWLINE || cnt == 0 || lineStart == 0
    ensures var next := if end < last then end + 1 else last;
      && FirstPiece(f[base + lineStart..], end - lineStart, next - lineStart)
      && f[base + lineStart..][next - lineStart..] == f[base + next..]
      && f[base + lineStart..][..end - lineStart] == data[lineStart..end]
  {
    hide LineEnd, Rest;
    ScanStops(data, lineStart, last, f, base, end);
  }

  // Terminating the line at end in the buffer leaves the line and the text after it in place.
  lemma BufferedCut(data: seq<byte>, from: nat, last: nat, f: seq<byte>, base: nat, end: nat)
    requires Buffered(data, from, last, f, base) && from <= end <= last
    ensures data[from..end] == f[base + from..base + end]
    ensures end < last ==> Buffered(data[end := NUL], end + 1, last, f, base)
    ensures data[end := NUL][from..end] == f[base + from..base + end]
  {
    assert data[from..end] == data[from..last][..end - from];
    assert f[base + from..base + end] == f[base + from..base + last][..end - from];
    if end < last {
      assert data[end + 1..last] == data[from..last][end + 1 - from..];
      assert f[base + end + 1..base + last] == f[base + from..base + last][end + 1 - from..];
    }
  }

  // The scan of the line loop stopped at end.
  ghost predicate ScannedTo(data: seq<byte>, lineStart: nat, last: nat, end: nat) {
    && lineStart <= end <= last < |data|
    && (forall k :: lineStart <= k < end ==> data[k] != NEWLINE)
    && (end < last ==> data[end] == NEWLINE)
  }

  // Searching the line that ends at end brings the loop to the next line, or uses the buffer up.
  lemma SearchStep(data: seq<byte>, lineStart: nat, last: nat, base: nat, cnt: nat, end: nat,
                   f: seq<byte>, out: seq<byte>, fname: seq<byte>, pat: seq<byte>)
    requires Searching(data, lineStart, last, base, cnt, f, out, fname, pat) && NoNul(f)
    requires ScannedTo(data, lineStart, last, end)
    requires data[end] == NEWLINE || cnt == 0 || lineStart == 0
    ensures var line, data' := f[base + lineStart..base + end], data[end := NUL];
      var out' := out + ReportIf(fname, pat, line);
      && Holds(data', lineStart, line) && data'[lineStart..end] == line
      && data'[BUFSIZE] != NEWLINE
      && (end + 1 < last ==> Searching(data', end + 1, last, base, cnt, f, out', fname, pat))
      && (end + 1 >= last ==> out' + Rest(fname, pat, f[base + last..]) == Rest(fname, pat, f))
  {
    hide LineEnd, Rest, ReportIf, FirstPiece;
    var line := f[base + lineStart..base + end];
    BufferedCut(data, lineStart, last, f, base, end);
    PieceAt(data, lineStart, last, base, cnt, end, f, out, fname, pat);
    var next := if end < last then end + 1 else last;
    TakePiece(fname, pat, f[base + lineStart..], end - lineStart, next - lineStart);
    assert out + (ReportIf(fname, pat, line) + Rest(fname, pat, f[base + next..]))
      == (out + ReportIf(fname, pat, line)) + Rest(fname, pat, f[base + next..]);
  }

  // Moving the unfinished line to the front leaves exactly its bytes there.
  lemma CarryStep(data: seq<byte>, lineStart: nat, last: nat, base: nat, f: seq<byte>)
    requires Buffered(data, lineStart, last, f, base) && NoNul(f) && 0 < lineStart
    requires ScannedTo(data, lineStart, last, last)
    ensures var line, data' := f[base + lineStart..base + last], data[last := NUL];
      && Holds(data', lineStart, line)
      && var moved := Splice(data', 0, line + [NUL]);
      && Buffered(moved, 0, last - lineStart, f, base + lineStart)
      && (forall k :: 0 <= k < last - lineStart ==> moved[k] != NEWLINE)
      && (data[BUFSIZE] != NEWLINE ==> moved[BUFSIZE] != NEWLINE)
  {
    BufferedCut(data, lineStart, last, f, base, last);
    var line, data' := f[base + lineStart..base + last], data[last := NUL];
    assert data[lineStart..last] == line;
    var moved := Splice(data', 0, line + [NUL]);
    assert moved[0..last - lineStart] == line;
    forall k | 0 <= k < last - lineStart
      ensures moved[k] != NEWLINE
    {
      assert moved[k] == data[lineStart..last][k];
    }
  }

  lemma CarryOver(data: seq<byte>, lineStart: nat, last: nat, base: nat, cnt: nat,
                  f: seq<byte>, out: seq<byte>, fname: seq<byte>, pat: seq<byte>)
    requires Searching(data, lineStart, last, base, cnt, f, out, fname, pat) && NoNul(f) && 0 < lineStart
    requires ScannedTo(data, lineStart, last, last)
    ensures var line := f[base + lineStart..base + last];
      var moved := Splice(data[last := NUL], 0, line + [NUL]);
      && Holds(data[last := NUL], lineStart, line) && moved[..last - lineStart] == line
      && Carried(moved, last - lineStart, f, base + lineStart, out, fname, pat)
  {
    hide Rest, Holds;
    CarryStep(data, lineStart, last, base, f);
  }

  lemma CarriedNone(data: seq<byte>, f: seq<byte>, base: nat, out: seq<byte>, fname: seq<byte>, pat: seq<byte>)
    requires |data| == BUFSIZE + 1 && data[BUFSIZE] != NEWLINE && base <= |f|
    requires out + Rest(fname, pat, f[base..]) == Rest(fname, pat, f)
    ensures Carried(data, 0, f, base, out, fname, pat)
  {
    hide Rest;
    assert data[0..0] == [] == f[base..base];
  }

  // The line loop is at the start of the buffer or just behind a newline.
  ghost predicate AtLine(f: seq<byte>, base: nat, lineStart: nat) {
    lineStart == 0 || (base + lineStart <= |f| && f[base + lineStart - 1] == NEWLINE)
  }

  // What the loop leaves of a full buffer, when it has come to its last line.
  lemma LeftOver(data: seq<byte>, lineStart: nat, last: nat, f: seq<byte>, base: nat, end: nat)
    requires Buffered(data, lineStart, last, f, base) && AtLine(f, base, lineStart)
    requires ScannedTo(data, lineStart, last, end)
    requires end + 1 >= last
    ensures Unfinished(f[base..base + last])
      == if end == last && lineStart > 0 then f[base + lineStart..base + last] else []
  {
    var b := f[base..base + last];
    forall k | lineStart <= k < last
      ensures b[k] == data[k]
    {
      assert data[lineStart..last][k - lineStart] == f[base + lineStart..base + last][k - lineStart];
    }
    UnfinishedIs(b, if end < last then 0 else last - lineStart);
  }

  // The scan for the end of a line.
  method FindLineEnd(data: array<byte>, lineStart: nat, last: nat) returns (lineEnd: nat)
    requires lineStart <= last < data.Length
    ensures ScannedTo(data[..], lineStart, last, lineEnd)
  {
    lineEnd := lineStart;
    while lineEnd < last && data[lineEnd] != NEWLINE
      invariant lineStart <= lineEnd <= last
      invariant forall k :: lineStart <= k < lineEnd ==> data[..][k] != NEWLINE
    {
      lineEnd := lineEnd + 1;
    }
  }

  // Terminate one line in the buffer, search it and print it if it matches.
  method SearchOne(s: seq<byte>, ghost pat: seq<byte>, fname: seq<byte>, data: array<byte>, lineStart: nat,
                   lineEnd: nat, ghost line: seq<byte>, outIn: seq<byte>) returns (out: seq<byte>)
    requires Holds(s, 0, pat) && lineEnd < data.Length && lineStart <= lineEnd
    requires Holds(data[..][lineEnd := NUL], lineStart, line) && lineEnd == lineStart + |line|
    modifies data
    ensures data[..] == old(data[..])[lineEnd := NUL] && out == outIn + ReportIf(fname, pat, line)
  {
    hide Contains;
    data[lineEnd] := NUL;
    out := outIn;
    var found := SearchLine(data[..], lineStart, lineEnd, s, pat, line);
    if found {
      assert data[lineStart..lineEnd] == line;
      out := out + Report(fname, data[lineStart..lineEnd]);
    } else {
      assert out + [] == out;
    }
  }

  // Move an unfinished line to the front of the buffer.
  method CarryLine(data: array<byte>, lineStart: nat, lineEnd: nat, ghost line: seq<byte>)
    requires lineEnd < data.Length && 0 < lineStart <= lineEnd
    requires Holds(data[..][lineEnd := NUL], lineStart, line)
    modifies data
    ensures data[..] == Splice(old(data[..])[lineEnd := NUL], 0, line + [NUL])
  {
    data[lineEnd] := NUL;
    StrCpy(data, 0, lineStart, line);
  }

  // The line loop over one buffer. It returns how many bytes it carried over.
  method SearchBuffer(s: seq<byte>, ghost pat: seq<byte>, fname: seq<byte>, data: array<byte>, lastIn: nat, cnt: nat,
                      ghost f: seq<byte>, ghost base: nat, outIn: seq<byte>) returns (last: nat, out: seq<byte>)
    requires NoNul(f) && Holds(s, 0, pat)
    requires lastIn <= BUFSIZE < data.Length
    requires Searching(data[..], 0, lastIn, base, cnt, f, outIn, fname, pat)
    modifies data
    ensures last <= lastIn && (cnt == 0 ==> last == 0)
    ensures Carried(data[..], last, f, base + lastIn - last, out, fname, pat)
    ensures lastIn == BUFSIZE ==> data[..last] == Unfinished(f[base..base + lastIn])
  {
    hide Rest, ReportIf, Unfinished, Holds, Splice, Searching, ScannedTo;
    last, out := lastIn, outIn;
    var lineStart := 0;
    SearchBounds(data[..], 0, lastIn, base, cnt, f, out, fname, pat);
    while true
      invariant last == lastIn && lineStart <= last <= BUFSIZE < data.Length && AtLine(f, base, lineStart)
      invariant Searching(data[..], lineStart, last, base, cnt, f, out, fname, pat)
      decreases last - lineStart
    {
      SearchBounds(data[..], lineStart, last, base, cnt, f, out, fname, pat);
      ghost var was := data[..];
      var lineEnd := FindLineEnd(data, lineStart, last);
      ScanBounds(was, lineStart, last, lineEnd);
      ghost var line := f[base + lineStart..base + lineEnd];
      if data[lineEnd] != NEWLINE && cnt != 0 && lineStart != 0 {
        LeftOver(was, lineStart, last, f, base, lineEnd);
        CarryOver(was, lineStart, last, base, cnt, f, out, fname, pat);
        CarryLine(data, lineStart, lineEnd, line);
        last := last - lineStart;
        return;
      }
      SearchStep(was, lineStart, last, base, cnt, lineEnd, f, out, fname, pat);
      out := SearchOne(s, pat, fname, data, lineStart, lineEnd, line, out);
      if lineEnd + 1 >= last {
        LeftOver(was, lineStart, last, f, base, lineEnd);
        CarriedNone(data[..], f, base + last, out, fname, pat);
        last := 0;
        return;
      }
      lineStart := lineEnd + 1;
    }
  }

  lemma SearchBounds(data: seq<byte>, lineStart: nat, last: nat, base: nat, cnt: nat,
                     f: seq<byte>, out: seq<byte>, fname: seq<byte>, pat: seq<byte>)
    requires Searching(data, lineStart, last, base, cnt, f, out, fname, pat)
    ensures Buffered(data, lineStart, last, f, base) && (cnt == 0 ==> last < BUFSIZE && lineStart == 0)
    ensures data[BUFSIZE] != NEWLINE && (lineStart == 0 || lineStart < last)
  {
  }

  lemma ScanBounds(data: seq<byte>, lineStart: nat, last: nat, end: nat)
    requires ScannedTo(data, lineStart, last, end)
    ensures lineStart <= end <= last < |data| && (end < last ==> data[end] == NEWLINE)
  {
  }

  // do_one_file, once the file is open, whatever its reads return: if none fails, everything it prints is what the
  // pieces of the bytes it read call for. The messages for failures are not modelled.
  method DoOneFile(s: seq<byte>, ghost pat: seq<byte>, fname: seq<byte>, f: OpenFile, data: array<byte>)
      returns (ret: int, out: seq<byte>)
    requires Holds(s, 0, pat) && f.Valid() && f.position == 0 && NoNul(Stream(f.Node(), f.disk, 0, []).bytes)
    requires data.Length == BUFSIZE + 1 && data[BUFSIZE] != NEWLINE
    modifies f, data
    ensures ret == Stream(f.Node(), f.disk, 0, []).ret
    ensures ret == 0 ==> out == Matches(fname, pat, Pieces(Stream(f.Node(), f.disk, 0, []).bytes))
  {
    hide Carried, Searching, Reading, Stream, Unfinished, ReadAt, Splice, Matches, Pieces, Holds;
    ghost var ino, disk, all := f.Node(), f.disk, Stream(f.Node(), f.disk, 0, []);
    ghost var w: seq<byte>, got: nat := [], 0;
    var last: nat := 0;
    out := [];
    ReadingStart(ino, disk, all, data[..], fname, pat);
    while true
      invariant f.Valid() && last < BUFSIZE
      invariant Reading(ino, disk, all, got, f.position, w, data[..], last, out, fname, pat)
      decreases ino.length - f.position
    {
      ghost var was, last0, p, out0 := data[..], last, f.position, out;
      ghost var r := ReadAt(ino, disk, p, BUFSIZE - last);
      Filling(ino, disk, all, got, p, w, was, last, r, out, fname, pat);
      var cnt := f.FileRead(data, last, BUFSIZE - last);
      if cnt == -1 {
        return -1, out;
      }
      last, out := SearchBuffer(s, pat, fname, data, last + cnt, cnt, all.bytes, got - last, out);
      Searched(ino, disk, all, got, p, w, was, last0, r, out0, data[..], last, out, fname, pat);
      if cnt == 0 {
        return 0, out;
      }
      got, w := got + cnt, Unfinished(w + r.bytes);
    }
  }

  // The state of the search between two reads: got bytes of all have been received, the last of them are carried, and
  // the reads still to come return the rest.
  ghost predicate Reading(ino: Inode, disk: Disk, all: Outcome, got: nat, position: word, w: seq<byte>,
                          data: seq<byte>, last: nat, out: seq<byte>, fname: seq<byte>, pat: seq<byte>)
  {
    && Sized(ino) && last <= got && last <= |data| && |w| < BUFSIZE
    && Carried(data, last, all.bytes, got - last, out, fname, pat)
    && ToCome(all, got, Stream(ino, disk, position, w))
    && (position < ino.length ==> data[..last] == w)
  }

  lemma ReadingStart(ino: Inode, disk: Disk, all: Outcome, data: seq<byte>, fname: seq<byte>, pat: seq<byte>)
    requires Sized(ino) && all == Stream(ino, disk, 0, []) && |data| == BUFSIZE + 1 && data[BUFSIZE] != NEWLINE
    ensures Reading(ino, disk, all, 0, 0, [], data, 0, [], fname, pat)
  {
    hide Stream, Carried;
    CarriedStart(data, all.bytes, fname, pat);
  }

  // The next read fills the buffer behind the carried bytes.
  lemma Filling(ino: Inode, disk: Disk, all: Outcome, got: nat, position: word, w: seq<byte>, data: seq<byte>,
                last: nat, r: Outcome, out: seq<byte>, fname: seq<byte>, pat: seq<byte>)
    requires Reading(ino, disk, all, got, position, w, data, last, out, fname, pat)
    requires last < BUFSIZE && r == ReadAt(ino, disk, position, BUFSIZE - last)
    ensures last <= got && |data| == BUFSIZE + 1 && -1 <= r.ret && (r.ret == -1 ==> all.ret == -1)
    ensures r.ret >= 0 ==>
      && last + r.ret <= BUFSIZE && position + r.ret < WORD && r.ret == |r.bytes| && got + r.ret <= |all.bytes|
      && Searching(Splice(data, last, r.bytes), 0, last + r.ret, got - last, r.ret, all.bytes, out, fname, pat)
  {
    hide Stream, ReadAt, Carried, Searching, Splice, Unfinished;
    CarriedText(data, last, all.bytes, got - last, out, fname, pat);
    NextRead(ino, disk, all, got, position, w, last);
    if r.ret >= 0 {
      FillStep(data, last, all.bytes, got - last, r.ret, Splice(data, last, r.bytes), out, fname, pat);
    }
  }

  // When the buffer has been searched, either everything has been read or the state is as before the next read.
  lemma Searched(ino: Inode, disk: Disk, all: Outcome, got: nat, position: word, w: seq<byte>, data: seq<byte>,
                 last: nat, r: Outcome, out: seq<byte>, data': seq<byte>, last': nat, out': seq<byte>,
                 fname: seq<byte>, pat: seq<byte>)
    requires Reading(ino, disk, all, got, position, w, data, last, out, fname, pat)
    requires last < BUFSIZE && r == ReadAt(ino, disk, position, BUFSIZE - last) && r.ret >= 0
    requires last' <= last + r.ret && (r.ret == 0 ==> last' == 0)
    requires Carried(data', last', all.bytes, got + r.ret - last', out', fname, pat)
    requires last <= got && got + r.ret <= |all.bytes| && last' <= |data'|
    requires last + r.ret == BUFSIZE ==> data'[..last'] == Unfinished(all.bytes[got - last..got + r.ret])
    ensures last' < BUFSIZE
    ensures r.ret == 0 ==> all.ret == 0 && out' == Matches(fname, pat, Pieces(all.bytes))
    ensures r.ret > 0 ==>
      && position < ino.length && position + r.ret < WORD
      && Reading(ino, disk, all, got + r.ret, position + r.ret, Unfinished(w + r.bytes),
                 data', last', out', fname, pat)
  {
    hide Stream, ReadAt, Carried, Unfinished;
    NextRead(ino, disk, all, got, position, w, last);
    CarriedText(data, last, all.bytes, got - last, out, fname, pat);
    CarriedSmall(data', last', all.bytes, got + r.ret - last', out', fname, pat);
    Joined(all.bytes, got - last, got, got + r.ret);
  }

  lemma CarriedText(data: seq<byte>, last: nat, f: seq<byte>, base: nat, out: seq<byte>, fname: seq<byte>,
                    pat: seq<byte>)
    requires Carried(data, last, f, base, out, fname, pat)
    ensures |data| == BUFSIZE + 1 && last < BUFSIZE && base + last <= |f| && data[..last] == f[base..base + last]
  {
  }

  lemma Joined(f: seq<byte>, a: nat, b: nat, c: nat)
    requires a <= b <= c <= |f|
    ensures f[a..c] == f[a..b] + f[b..c]
  {
  }

  // all is what has been received so far followed by rest.
  ghost predicate ToCome(all: Outcome, got: nat, rest: Outcome) {
    got <= |all.bytes| && all.ret == rest.ret && all.bytes[got..] == rest.bytes
  }

  // What the next read returns, in terms of the whole stream.
  lemma NextRead(ino: Inode, disk: Disk, all: Outcome, got: nat, position: word, w: seq<byte>, last: nat)
    requires Sized(ino) && |w| < BUFSIZE && last < BUFSIZE && (position < ino.length ==> |w| == last)
    requires ToCome(all, got, Stream(ino, disk, position, w))
    ensures var r := ReadAt(ino, disk, position, BUFSIZE - last);
      && -1 <= r.ret && (r.ret == -1 ==> all.ret == -1)
      && (r.ret >= 0 ==>
            && r.ret == Min(BUFSIZE - last, |all.bytes| - got) && r.bytes == all.bytes[got..got + r.ret]
            && (r.ret == 0 ==> all.ret == 0 && got == |all.bytes|)
            && (r.ret > 0 ==>
                  && position < ino.length && position + r.ret < WORD && |Unfinished(w + r.bytes)| < BUFSIZE
                  && ToCome(all, got + r.ret, Stream(ino, disk, position + r.ret, Unfinished(w + r.bytes)))
                  && (position + r.ret < ino.length ==> r.ret == BUFSIZE - last)))
  {
    hide ReadAt, Unfinished;
    ShortRead(ino, disk, position, BUFSIZE - last);
  }

  lemma CarriedStart(data: seq<byte>, f: seq<byte>, fname: seq<byte>, pat: seq<byte>)
    requires |data| == BUFSIZE + 1 && data[BUFSIZE] != NEWLINE
    ensures Carried(data, 0, f, 0, [], fname, pat)
  {
    hide Rest;
    assert f[0..] == f && data[0..0] == [] == f[0..0];
    assert [] + Rest(fname, pat, f) == Rest(fname, pat, f);
  }

  lemma CarriedSmall(data: seq<byte>, last: nat, f: seq<byte>, base: nat,
                     out: seq<byte>, fname: seq<byte>, pat: seq<byte>)
    requires Carried(data, last, f, base, out, fname, pat)
    ensures last < BUFSIZE
    ensures base == |f| ==> out == Matches(fname, pat, Pieces(f))
  {
    if base == |f| {
      assert f[base..] == [] && Rest(fname, pat, []) == [];
      assert out + [] == out;
    }
  }

  // A read behind the carried bytes makes the buffer show the file again from the carried line on.
  lemma FillStep(was: seq<byte>, last: nat, f: seq<byte>, base: nat, cnt: nat, data: seq<byte>,
                 out: seq<byte>, fname: seq<byte>, pat: seq<byte>)
    requires base + last <= |f| && Carried(was, last, f, base, out, fname, pat)
    requires cnt == Min(BUFSIZE - last, |f| - base - last)
    requires data == Splice(was, last, f[base + last..base + last + cnt])
    ensures Searching(data, 0, last + cnt, base, cnt, f, out, fname, pat)
  {
    hide Rest;
    assert data[0..last] == was[0..last];
    assert data[0..last + cnt] == was[0..last] + f[base + last..base + last + cnt];
    assert f[base..base + last + cnt] == f[base..base + last] + f[base + last..base + last + cnt];
  }

  // With no line longer than the buffer, the pieces print what the lines print.
  lemma {:induction false} PiecesPrintLines(fname: seq<byte>, pat: seq<byte>, f: seq<byte>)
    requires ShortLines(f)
    ensures Matches(fname, pat, Pieces(f)) == Matches(fname, pat, Lines(f))
    decreases |f|
  {
    hide Contains, Report;
    if f != [] {
      var n := LineEnd(f);
      assert Lines(f)[0] == f[..n];
      if n < |f| {
        assert forall l :: l in Lines(f[n + 1..]) ==> l in Lines(f);
        PiecesPrintLines(fname, pat, f[n + 1..]);
        if n == BUFSIZE {
          FullLine(fname, pat, f);
        }
      }
    }
  }

  // A line that fills the buffer leaves its newline to start an extra, empty piece, which prints nothing.
  lemma FullLine(fname: seq<byte>, pat: seq<byte>, f: seq<byte>)
    requires LineEnd(f) == BUFSIZE < |f|
    ensures Rest(fname, pat, f) == ReportIf(fname, pat, f[..BUFSIZE]) + Rest(fname, pat, f[BUFSIZE + 1..])
  {
    hide Rest, ReportIf, LineEnd;
    var g := f[BUFSIZE..];
    LineEndIs(g, 0);
    TakePiece(fname, pat, f, BUFSIZE, BUFSIZE);
    TakePiece(fname, pat, g, 0, 1);
    assert g[1..] == f[BUFSIZE + 1..] && g[..0] == [];
    NoReport(fname, pat);
  }

  lemma NoReport(fname: seq<byte>, pat: seq<byte>)
    ensures ReportIf(fname, pat, []) == []
  {
  }

  lemma {:induction false} PieceLengths(f: seq<byte>)
    ensures forall p :: p in Pieces(f) ==> |p| <= BUFSIZE
    decreases |f|
  {
    if f == [] {
    } else if LineEnd(f) < |f| && LineEnd(f) < BUFSIZE {
      PieceLengths(f[LineEnd(f) + 1..]);
    } else if |f| > BUFSIZE {
      PieceLengths(f[BUFSIZE..]);
    }
  }

  lemma {:induction false} NothingPrinted(fname: seq<byte>, pat: seq<byte>, ls: seq<seq<byte>>)
    requires forall l :: l in ls ==> |l| < |pat|
    ensures Matches(fname, pat, ls) == []
  {
    if ls != [] {
      assert ls[0] in ls;
      NothingPrinted(fname, pat, ls[1..]);
    }
  }

  lemma {:induction false} SomethingPrinted(fname: seq<byte>, pat: seq<byte>, ls: seq<seq<byte>>, l: seq<byte>)
    requires l in ls && Contains(l, pat)
    ensures Matches(fname, pat, ls) != []
  {
    if ls[0] != l {
      SomethingPrinted(fname, pat, ls[1..], l);
    }
  }

  lemma {:induction false} LinesNoNul(f: seq<byte>)
    requires NoNul(f)
    ensures forall l :: l in Lines(f) ==> NoNul(l)
    decreases |f|
  {
    if f != [] && LineEnd(f) < |f| {
      LinesNoNul(f[LineEnd(f) + 1..]);
    }
  }

  // grep prints exactly the lines that contain the pattern, for every pattern, exactly when no line of the
  // text is longer than the buffer.
  lemma GrepPrintsLines(fname: seq<byte>, f: seq<byte>)
    requires NoNul(f)
    ensures ShortLines(f) <==>
      forall pat :: NoNul(pat) ==> Matches(fname, pat, Pieces(f)) == Matches(fname, pat, Lines(f))
  {
    if ShortLines(f) {
      forall pat | NoNul(pat)
        ensures Matches(fname, pat, Pieces(f)) == Matches(fname, pat, Lines(f))
      {
        PiecesPrintLines(fname, pat, f);
      }
    } else {
      var long :| long in Lines(f) && |long| > BUFSIZE;
      LinesNoNul(f);
      PieceLengths(f);
      NothingPrinted(fname, long, Pieces(f));
      assert OccursAt(long, long, 0);
      SomethingPrinted(fname, long, Lines(f), long);
    }
  }

  // For instance: a file of one line of 1025 letters. The line itself, as the pattern, is not found.
  lemma LongLineMissed(fname: seq<byte>, f: seq<byte>)
    requires f == seq(1025, _ => 97)
    ensures Matches(fname, f, Lines(f)) != [] && Matches(fname, f, Pieces(f)) == []
  {
    assert LineEnd(f) == |f|;
    assert Lines(f) == [f] && OccursAt(f, f, 0);
    SomethingPrinted(fname, f, Lines(f), f);
    PieceLengths(f);
    NothingPrinted(fname, f, Pieces(f));
  }

  // ----- Patterns of one letter -----

  // Every byte of a text but its newlines is in one of its pieces.
  lemma {:induction false} ByteInPiece(f: seq<byte>, c: byte) returns (p: seq<byte>)
    requires c in f && c != NEWLINE
    ensures p in Pieces(f) && c in p
    decreases |f|
  {
    hide Pieces, LineEnd;
    var n, next := FirstOf(f);
    p := f[..n];
    assert Pieces(f)[0] == p;
    if c !in p {
      assert f == f[..n] + f[n..next] + f[next..];
      p := ByteInPiece(f[next..], c);
    }
  }

  lemma FirstOf(f: seq<byte>) returns (n: nat, next: nat)
    requires f != []
    ensures n <= next <= |f| && 0 < next && Pieces(f) == [f[..n]] + Pieces(f[next..])
    ensures next == n || (next == n + 1 && f[n] == NEWLINE)
  {
    if LineEnd(f) < |f| && LineEnd(f) < BUFSIZE {
      n, next := LineEnd(f), LineEnd(f) + 1;
    } else if |f| <= BUFSIZE {
      n, next := |f|, |f|;
      assert f[..|f|] == f && f[|f|..] == [];
    } else {
      n, next := BUFSIZE, BUFSIZE;
    }
  }

  lemma {:induction false} NotInPieces(f: seq<byte>, c: byte)
    requires c !in f
    ensures forall p :: p in Pieces(f) ==> c !in p
    decreases |f|
  {
    hide Pieces, LineEnd;
    if f != [] {
      var n, next := FirstOf(f);
      NotInPieces(f[next..], c);
    } else {
      assert Pieces([]) == [] by {
        NoPieces();
      }
    }
  }

  lemma NoPieces()
    ensures Pieces([]) == []
  {
  }

  lemma {:induction false} NotInLines(f: seq<byte>, c: byte)
    requires c !in f
    ensures forall l :: l in Lines(f) ==> c !in l
    decreases |f|
  {
    if f != [] && LineEnd(f) < |f| {
      NotInLines(f[LineEnd(f) + 1..], c);
    }
  }

  lemma {:induction false} NoMatch(fname: seq<byte>, c: byte, ls: seq<seq<byte>>)
    requires forall l :: l in ls ==> c !in l
    ensures Matches(fname, [c], ls) == []
  {
    if ls != [] {
      assert ls[0] in ls;
      forall at | 0 <= at < |ls[0]|
        ensures !OccursAt(ls[0], [c], at)
      {
        assert ls[0][at..at + 1][0] in ls[0];
      }
      NoMatch(fname, c, ls[1..]);
    }
  }

  // A line is printed for a letter exactly when it is in the text, whether the text is cut into pieces or into lines.
  lemma LetterPrinted(fname: seq<byte>, f: seq<byte>, c: byte)
    requires c != NEWLINE
    ensures Matches(fname, [c], Pieces(f)) != [] <==> c in f
    ensures ShortLines(f) ==> (Matches(fname, [c], Lines(f)) != [] <==> c in f)
  {
    hide Pieces, Lines, ShortLines;
    if c in f {
      var p := ByteInPiece(f, c);
      var at :| 0 <= at < |p| && p[at] == c;
      assert OccursAt(p, [c], at);
      SomethingPrinted(fname, [c], Pieces(f), p);
    } else {
      NotInPieces(f, c);
      NoMatch(fname, c, Pieces(f));
    }
    if ShortLines(f) {
      PiecesPrintLines(fname, [c], f);
    }
  }
}
