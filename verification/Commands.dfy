// What execute makes of a command line: a name, arguments, and the program the file system holds under the name
// (student-distrib/system_call.c).
module Commands {
  import opened Bytes
  import opened CStrings
  import opened Directory
  import opened FileSystem
  import opened Options
  import Processes

  const SPACE: byte := 32
  const MAX_CMD_CHARS: int := 128

  // The first four bytes of a program.
  const MAGIC: seq<byte> := [0x7F, 0x45, 0x4C, 0x46]

  // How many spaces a text starts with.
  function Leading(t: seq<byte>): (n: nat)
    ensures n <= |t| && (forall k :: 0 <= k < n ==> t[k] == SPACE) && (n < |t| ==> t[n] != SPACE)
  {
    if t == [] || t[0] != SPACE then 0 else 1 + Leading(t[1..])
  }

  // How many other characters it starts with.
  function WordEnd(t: seq<byte>): (n: nat)
    ensures n <= |t| && (forall k :: 0 <= k < n ==> t[k] != SPACE) && (n < |t| ==> t[n] == SPACE)
  {
    if t == [] || t[0] == SPACE then 0 else 1 + WordEnd(t[1..])
  }

  function Trimmed(t: seq<byte>): seq<byte> {
    t[Leading(t)..]
  }

  // The first word of a command, and what follows it.
  function NameIn(t: seq<byte>): seq<byte> {
    Trimmed(t)[..WordEnd(Trimmed(t))]
  }

  function ArgsIn(t: seq<byte>): seq<byte> {
    Trimmed(Trimmed(t)[WordEnd(Trimmed(t))..])
  }

  function Spaces(n: nat): (s: seq<byte>)
    ensures |s| == n
  {
    seq(n, _ => SPACE)
  }

  lemma TrimmedSpaces(n: nat, rest: seq<byte>)
    requires rest != [] ==> rest[0] != SPACE
    ensures Trimmed(Spaces(n) + rest) == rest
  {
    var t := Spaces(n) + rest;
    assert rest != [] ==> t[n] == rest[0];
    assert Leading(t) == n;
  }

  lemma WordThenSpaces(name: seq<byte>, rest: seq<byte>)
    requires SPACE !in name && (rest != [] ==> rest[0] == SPACE)
    ensures WordEnd(name + rest) == |name|
  {
    var t := name + rest;
    assert rest != [] ==> t[|name|] == rest[0];
    assert forall k :: 0 <= k < |name| ==> t[k] == name[k];
  }

  // A command written with any number of spaces before its name and before its arguments is read back.
  lemma CommandReadBack(a: nat, name: seq<byte>, b: nat, args: seq<byte>)
    requires 32 !in name && name != [] && (args != [] ==> b > 0 && args[0] != 32)
    ensures var t := seq(a, _ => 32) + (name + (seq(b, _ => 32) + args)); NameIn(t) == name && ArgsIn(t) == args
  {
    hide Trimmed, WordEnd;
    assert Spaces(a) == seq(a, _ => 32) && Spaces(b) == seq(b, _ => 32);
    TrimmedSpaces(a, name + (Spaces(b) + args));
    WordThenSpaces(name, Spaces(b) + args);
    TrimmedSpaces(b, args);
    assert (name + (Spaces(b) + args))[|name|..] == Spaces(b) + args;
  }

  // The parsing loops of execute. Neither buffer is checked, so the name and the arguments have to fit.
  method ParseCommand(command: seq<byte>, ghost t: seq<byte>, parsedCommand: array<byte>, parsedArgs: array<byte>)
    requires Holds(command, 0, t) && |NameIn(t)| < parsedCommand.Length && |ArgsIn(t)| < parsedArgs.Length
    requires parsedCommand != parsedArgs
    modifies parsedCommand, parsedArgs
    ensures Holds(parsedCommand[..], 0, NameIn(t)) && Holds(parsedArgs[..], 0, ArgsIn(t))
  {
    hide Leading, WordEnd, Trimmed, NameIn, ArgsIn;
    CommandParts(t);
    assert t[0..] == t;
    var start := SkipSpaces(command, t, 0);
    var curChar := CopyWord(command, t, start, parsedCommand);
    if command[curChar] == NUL {
      NothingLeft(command, t, curChar);
      parsedArgs[0] := NUL;
    } else {
      var rest := SkipSpaces(command, t, curChar);
      CopyText(command, t, rest, parsedArgs);
    }
  }

  // Where the name and the arguments are in the text.
  lemma CommandParts(t: seq<byte>)
    ensures var start := Leading(t);
      start <= |t| && var end := start + WordEnd(t[start..]);
      end <= |t| && t[start..end] == NameIn(t) && t[end..][Leading(t[end..])..] == ArgsIn(t)
      && |NameIn(t)| == WordEnd(t[start..])
      && var rest := end + Leading(t[end..]);
      rest <= |t| && t[rest..] == ArgsIn(t)
  {
    hide Leading, WordEnd;
    var start := Leading(t);
    var end := start + WordEnd(t[start..]);
    assert t[start..][WordEnd(t[start..])..] == t[end..];
  }

  lemma NothingLeft(command: seq<byte>, t: seq<byte>, i: nat)
    requires Holds(command, 0, t) && i <= |t| && command[i] == NUL
    ensures i == |t| && t[i..] == [] && Leading(t[i..]) == 0
  {
  }

  method CopyWord(command: seq<byte>, ghost t: seq<byte>, from: nat, dest: array<byte>) returns (i: nat)
    requires Holds(command, 0, t) && from <= |t| && WordEnd(t[from..]) < dest.Length
    modifies dest
    ensures i == from + WordEnd(t[from..]) <= |t| && Holds(dest[..], 0, t[from..i])
  {
    i := from;
    while command[i] != NUL && command[i] != SPACE
      invariant from <= i <= from + WordEnd(t[from..]) && dest[..i - from] == t[from..i]
      decreases |t| - i
    {
      assert t[from..][i - from] == command[i];
      dest[i - from] := command[i];
      i := i + 1;
    }
    assert i < |t| ==> t[from..][i - from] == SPACE;
    dest[i - from] := NUL;
    assert forall k :: 0 <= k < i - from ==> dest[..i - from][k] == t[from..i][k];
  }

  method SkipSpaces(command: seq<byte>, ghost t: seq<byte>, from: nat) returns (i: nat)
    requires Holds(command, 0, t) && from <= |t|
    ensures i == from + Leading(t[from..])
  {
    i := from;
    while command[i] == SPACE
      invariant from <= i <= from + Leading(t[from..])
      decreases |t| - i
    {
      assert t[from..][i - from] == SPACE;
      i := i + 1;
    }
    assert i < |t| ==> t[from..][i - from] != SPACE;
  }

  // strcpy from the command to the argument buffer.
  method CopyText(src: seq<byte>, ghost t: seq<byte>, from: nat, dest: array<byte>)
    requires Holds(src, 0, t) && from <= |t| && |t| - from < dest.Length
    modifies dest
    ensures Holds(dest[..], 0, t[from..])
  {
    var i := 0;
    while src[from + i] != NUL
      invariant i <= |t| - from && dest[..i] == t[from..from + i]
      decreases |t| - from - i
    {
      dest[i] := src[from + i];
      i := i + 1;
    }
    dest[i] := NUL;
    assert forall k :: 0 <= k < i ==> dest[..i][k] == t[from..from + i][k];
  }

  // ----- The program under a name -----

  // The first slot from i on that holds the name, or 64.
  function SlotNamed(fs: Image, name: seq<byte>, i: nat): (r: nat)
    requires |fs.slots| == NUM_DENTRIES && (forall k :: 0 <= k < NUM_DENTRIES ==> |fs.slots[k].name| == NAME_LEN)
    requires i <= NUM_DENTRIES
    ensures i <= r <= NUM_DENTRIES && (forall j :: i <= j < r ==> NameOf(fs.slots[j]) != name)
    ensures r < NUM_DENTRIES ==> NameOf(fs.slots[r]) == name
    decreases NUM_DENTRIES - i
  {
    if i == NUM_DENTRIES || NameOf(fs.slots[i]) == name then i else SlotNamed(fs, name, i + 1)
  }

  // The bytes read_data stores when it reads length bytes from the start of a file, whatever it returns.
  function Stored(fs: Image, disk: Disk, inode: word, length: word): (s: seq<byte>)
    requires |fs.inodes| == 64
    ensures |s| <= length
  {
    if inode > MAX_DENTRIES then [] else Scan(fs.inodes[inode], disk, 0, length, 0).bytes
  }

  function LengthOf(fs: Image, inode: word): word
    requires |fs.inodes| == 64
  {
    if inode > MAX_DENTRIES then 0 else fs.inodes[inode].length
  }

  // What execute finds under a name. The buffer for the magic bytes is not initialised: junk is what it holds.
  ghost function ProgramOf(fs: Image, disk: Disk, name: seq<byte>, junk: seq<byte>): Processes.Program
    requires ValidImage(fs) && |junk| == 4
  {
    var i := SlotNamed(fs, name, 0);
    if name == [] || |name| > NAME_LEN || i == NUM_DENTRIES then Processes.Absent
    else
      var inode := fs.slots[i].inode % 256;
      if Splice(junk, 0, Stored(fs, disk, inode, 4)) != MAGIC then Processes.NotElf
      else Processes.Elf(Stored(fs, disk, inode, LengthOf(fs, inode)))
  }

  lemma SlotIs(fs: Image, name: seq<byte>)
    requires ValidImage(fs)
    ensures var i := SlotNamed(fs, name, 0);
      && (i == NUM_DENTRIES <==> !Named(fs, name))
      && forall j: nat :: FirstNamed(fs, name, j) ==> j == i
  {
    hide NameOf;
    var i := SlotNamed(fs, name, 0);
    forall j: nat | FirstNamed(fs, name, j)
      ensures j == i
    {
      assert i < NUM_DENTRIES ==> NameOf(fs.slots[i]) == name;
    }
  }

  // From the command line to the program.
  method FindProgram(fs: Image, disk: Disk, command: seq<byte>, ghost t: seq<byte>, junk: seq<byte>)
      returns (prog: Processes.Program, args: array<byte>)
    requires ValidImage(fs) && Holds(command, 0, t) && |junk| == 4
    requires |NameIn(t)| < MAX_CMD_CHARS && |ArgsIn(t)| < MAX_CMD_CHARS
    ensures prog == ProgramOf(fs, disk, NameIn(t), junk)
    ensures fresh(args) && args.Length == 128 && Holds(args[..], 0, ArgsIn(t))
  {
    hide NameOf, NameIn, ArgsIn, Scan;
    var parsedCommand := new byte[MAX_CMD_CHARS];
    args := new byte[MAX_CMD_CHARS];
    ParseCommand(command, t, parsedCommand, args);
    SlotIs(fs, NameIn(t));
    var dentry := ReadDentryByName(fs, Some(parsedCommand[..]), NameIn(t));
    if dentry == None {
      return Processes.Absent, args;
    }
    var inode := dentry.value.inode;
    var buf := new byte[4](i requires 0 <= i < 4 => junk[i]);
    assert buf[..] == junk;
    var _ := ReadData(fs, disk, inode, 0, buf, 0, 4);
    MagicIs(buf[..]);
    if buf[0] != 0x7F || buf[1] != 0x45 || buf[2] != 0x4C || buf[3] != 0x46 {
      return Processes.NotElf, args;
    }
    // the bytes the last read_data stores at the load address, one by one (Kernels.Kernel.Load)
    prog := Processes.Elf(Stored(fs, disk, inode, LengthOf(fs, inode)));
  }

  lemma MagicIs(s: seq<byte>)
    requires |s| == 4
    ensures s == MAGIC <==> s[0] == 0x7F && s[1] == 0x45 && s[2] == 0x4C && s[3] == 0x46
    ensures Splice(s, 0, []) == s
  {
  }

  // The four bytes that are compared: a shorter file leaves what was in the buffer.
  function FirstFour(file: seq<byte>, junk: seq<byte>): (s: seq<byte>)
    requires |junk| == 4
    ensures |s| == 4
  {
    if |file| >= 4 then file[..4] else file + junk[|file|..]
  }

  // Nothing is found exactly when no entry has the name.
  lemma AbsentIff(fs: Image, disk: Disk, name: seq<byte>, junk: seq<byte>)
    requires ValidImage(fs) && |junk| == 4
    ensures ProgramOf(fs, disk, name, junk).Absent? <==> name == [] || |name| > NAME_LEN || !Named(fs, name)
  {
    hide NameOf, Scan;
    SlotIs(fs, name);
  }

  // The file of the first entry with the name, whole and nothing else, is the program if its first bytes are the magic.
  lemma ProgramIs(fs: Image, disk: Disk, name: seq<byte>, junk: seq<byte>, i: nat)
    requires ValidImage(fs) && |junk| == 4 && 0 < |name| <= NAME_LEN && FirstNamed(fs, name, i)
    requires fs.slots[i].inode % 256 <= MAX_DENTRIES && WellFormed(fs.inodes[fs.slots[i].inode % 256])
    ensures var file := Flat(fs.inodes[fs.slots[i].inode % 256], disk);
      ProgramOf(fs, disk, name, junk)
      == if FirstFour(file, junk) == MAGIC then Processes.Elf(file) else Processes.NotElf
  {
    hide NameOf, Scan, Flat, WellFormed;
    SlotIs(fs, name);
    var ino := fs.inodes[fs.slots[i].inode % 256];
    LoaderExact(ino, disk);
    MagicRead(ino, disk, junk);
  }

  lemma MagicRead(ino: Inode, disk: Disk, junk: seq<byte>)
    requires |junk| == 4
    ensures var s := Slice(ino, disk, 0, 4); |s| <= 4 && Splice(junk, 0, s) == FirstFour(Flat(ino, disk), junk)
  {
    var s, file := Slice(ino, disk, 0, 4), Flat(ino, disk);
    assert s == if |file| >= 4 then file[..4] else file;
  }

  // So a file is loaded whatever the buffer held before exactly when it has four bytes and they are the magic.
  lemma LoadedIff(fs: Image, disk: Disk, name: seq<byte>, i: nat)
    requires ValidImage(fs) && 0 < |name| <= NAME_LEN && FirstNamed(fs, name, i)
    requires fs.slots[i].inode % 256 <= MAX_DENTRIES && WellFormed(fs.inodes[fs.slots[i].inode % 256])
    ensures var file := Flat(fs.inodes[fs.slots[i].inode % 256], disk);
      (forall junk: seq<byte> :: |junk| == 4 ==> ProgramOf(fs, disk, name, junk) == Processes.Elf(file))
      <==> |file| >= 4 && file[..4] == [0x7F, 0x45, 0x4C, 0x46]
  {
    hide ProgramOf, NameOf, Flat, WellFormed;
    var file := Flat(fs.inodes[fs.slots[i].inode % 256], disk);
    forall junk: seq<byte> | |junk| == 4
      ensures ProgramOf(fs, disk, name, junk)
           == if FirstFour(file, junk) == MAGIC then Processes.Elf(file) else Processes.NotElf
    {
      ProgramIs(fs, disk, name, junk, i);
    }
    var zeros: seq<byte> := [0, 0, 0, 0];
    assert |file| < 4 ==> FirstFour(file, zeros)[3] == 0;
    assert ProgramOf(fs, disk, name, zeros) == ProgramOf(fs, disk, name, zeros);
  }

  // What a name lookup hands to open.
  ghost function LookupOf(fs: Image, name: seq<byte>): Processes.Lookup
    requires ValidImage(fs)
  {
    var i := SlotNamed(fs, name, 0);
    if name == [] || |name| > NAME_LEN || i == NUM_DENTRIES then Processes.Missing
    else Processes.Lookup.Entry(fs.slots[i].fileType % 256, fs.slots[i].inode % 256)
  }
}

// The two system calls that take a name, from the text to the kernel's state.
module NamedCalls {
  import opened Bytes
  import opened Commands
  import opened Directory
  import opened FileSystem
  import opened Kernels
  import opened Layout
  import opened Options
  import CStrings
  import Processes

  // execute(command). Nothing else in the file system matters than the file found under the command's name.
  method ExecuteLine(k: Kernel, fs: Image, disk: Disk, command: Option<seq<byte>>, ghost t: seq<byte>, junk: seq<byte>,
                     pushed: seq<int>, params: int, between: set<nat>) returns (ret: int)
    requires k.Valid() && Processes.Booted(k.spec) && |pushed| <= k.esp - Processes.LowOf(k.spec)
    requires ValidImage(fs) && |junk| == 4
    requires command.Some? ==> CStrings.Holds(command.value, 0, t)
    requires |NameIn(t)| < MAX_CMD_CHARS && |ArgsIn(t)| < MAX_CMD_CHARS
    requires var prog := ProgramOf(fs, disk, NameIn(t), junk); prog.Elf? ==> Processes.Loadable(prog)
    modifies k`pid, k`esp0, k`esp, k`spec, k.mem, k.depth, k.mmu`tlb, k.mmu.pd
    ensures k.Valid()
    ensures command == None ==> ret == -1 && k.spec == old(k.spec) && k.mem[..] == old(k.mem[..])
    ensures command.Some? ==>
      var prog := ProgramOf(fs, disk, NameIn(t), junk);
      && k.spec == Processes.Execute(old(k.spec), prog)
      && ret == if old(k.pid) == MAX_PID then 0 else if !prog.Elf? then -1 else 1
  {
    hide Processes.Execute, NameIn, ArgsIn, ProgramOf, NameOf, Agrees;
    if command == None {
      return -1;
    }
    var prog, _ := FindProgram(fs, disk, command.value, t, junk);
    ret := k.Execute(prog, pushed, params, between);
  }

  // open(filename).
  method OpenNamed(k: Kernel, fs: Image, filename: Option<seq<byte>>, ghost t: seq<byte>) returns (ret: int)
    requires k.Valid() && k.spec.depth[k.exec] >= 0 && ValidImage(fs)
    requires filename.Some? ==> CStrings.Holds(filename.value, 0, t)
    modifies k`spec, k.mem
    ensures k.Valid()
    ensures var found := if filename == None then Processes.Missing else LookupOf(fs, t);
      var fds := old(k.spec.fds[Processes.Top(k.spec)]);
      var free := Processes.FreeFd(fds, 2);
      && k.spec == Processes.SetFds(old(k.spec), Processes.OpenFds(fds, found))
      && ret == (if found.Missing? || free == 8 then -1 else free)
      && (ret >= 0 ==>
            Processes.Opened(fds, found.fileType, found.inode, ret, k.spec.fds[Processes.Top(k.spec)]))
  {
    hide Processes.OpenFds, Processes.Opened, NameOf, Agrees;
    SlotIs(fs, t);
    var r := ReadDentryByName(fs, filename, t);
    if r == None {
      ret := k.Open(Processes.Missing);
    } else {
      ret := k.Open(Processes.Lookup.Entry(r.value.fileType, r.value.inode));
    }
  }
}
