// Directory entries: lookup by name, lookup by index and listing (student-distrib/filesys.c).
module Directory {
  import opened Bytes
  import opened CStrings
  import opened FileSystem
  import opened Options

  const NAME_LEN: int := 32
  const NUM_DENTRIES: int := 64

  // What a lookup hands back: the low bytes of the type and inode words of the entry.
  datatype Found = Found(fileType: byte, inode: byte)

  // The name stored in the 32-byte field: up to its first NUL, or the whole field.
  function NameOf(d: Dentry): (t: seq<byte>)
    requires |d.name| == NAME_LEN
    ensures |t| <= NAME_LEN && NoNul(t)
    ensures forall k :: 0 <= k < NAME_LEN && k <= |t| ==> d.name[k] == At(t, k)
  {
    NamePrefix(d.name)
  }

  function NamePrefix(s: seq<byte>): (t: seq<byte>)
    ensures |t| <= |s| && NoNul(t)
    ensures forall k :: 0 <= k < |s| && k <= |t| ==> s[k] == At(t, k)
  {
    if s == [] || s[0] == NUL then [] else [s[0]] + NamePrefix(s[1..])
  }

  // No other text without NULs is what the field shows, so it has one name.
  lemma {:induction false} NamePrefixOf(s: seq<byte>, t: seq<byte>)
    requires |t| <= |s| && NoNul(t)
    requires forall k :: 0 <= k < |s| && k <= |t| ==> s[k] == At(t, k)
    ensures NamePrefix(s) == t
  {
    if t != [] {
      assert s[0] == At(t, 0);
      forall k | 0 <= k < |s[1..]| && k <= |t[1..]|
        ensures s[1..][k] == At(t[1..], k)
      {
        assert s[k + 1] == At(t, k + 1);
      }
      NamePrefixOf(s[1..], t[1..]);
    } else if s != [] {
      assert s[0] == At(t, 0);
    }
  }

  // Entry i is the first of the 64 slots searched whose name is t.
  ghost predicate FirstNamed(fs: Image, t: seq<byte>, i: nat)
    requires ValidImage(fs)
  {
    i < NUM_DENTRIES && NameOf(fs.slots[i]) == t && forall j :: 0 <= j < i ==> NameOf(fs.slots[j]) != t
  }

  ghost predicate Named(fs: Image, t: seq<byte>)
    requires ValidImage(fs)
  {
    exists i :: 0 <= i < NUM_DENTRIES && NameOf(fs.slots[i]) == t
  }

  function Entry(d: Dentry): Found {
    Found(d.fileType % 256, d.inode % 256)
  }

  // fname is the memory at the name pointer, or None for NULL; t is the text it holds.
  // The write of filename[33], one past the array, is not part of the model.
  method ReadDentryByName(fs: Image, fname: Option<seq<byte>>, ghost t: seq<byte>) returns (r: Option<Found>)
    requires ValidImage(fs)
    requires fname.Some? ==> Holds(fname.value, 0, t)
    ensures r == None <==> fname == None || |t| == 0 || |t| > NAME_LEN || !Named(fs, t)
    ensures r.Some? ==> exists i: nat :: FirstNamed(fs, t, i) && r.value == Entry(fs.slots[i])
  {
    if fname == None {
      return None;
    }
    var len := StrLen(fname.value, 0, t);
    if len == 0 || len > NAME_LEN {
      return None;
    }
    var filename := new byte[NAME_LEN + 1];
    StrNCpy(filename, fname.value, t, NAME_LEN);
    for i := 0 to NUM_DENTRIES
      invariant Shows(filename[..], 0, t, NAME_LEN)
      invariant forall j :: 0 <= j < i ==> NameOf(fs.slots[j]) != t
    {
      var d := fs.slots[i];
      var c := StrNCmp(d.name, 0, NameOf(d), filename[..], t, NAME_LEN);
      CompareZero(NameOf(d), t, 0, NAME_LEN, true);
      assert NameOf(d)[..|NameOf(d)|] == NameOf(d) && t[..|t|] == t;
      if c == 0 {
        assert FirstNamed(fs, t, i);
        return Some(Entry(d));
      }
    }
    return None;
  }

  // An open directory descriptor.
  class OpenDir {
    const fs: Image
    var position: word

    // The image has at most 63 entries in use.
    ghost predicate Valid()
      reads this
    {
      ValidImage(fs) && fs.numDentries <= MAX_DENTRIES && position <= fs.numDentries
    }

    constructor (fs: Image)
      requires ValidImage(fs) && fs.numDentries <= MAX_DENTRIES
      ensures Valid() && this.fs == fs && position == 0
    {
      this.fs, this.position := fs, 0;
    }

    // dir_read ignores nbytes and stores the name without a terminator.
    method DirRead(buf: array<byte>) returns (len: nat)
      requires Valid() && buf.Length >= NAME_LEN
      modifies this`position, buf
      ensures Valid()
      ensures old(position) >= fs.numDentries ==>
        len == 0 && position == old(position) && buf[..] == old(buf[..])
      ensures old(position) < fs.numDentries ==>
        var name := NameOf(fs.slots[old(position)]);
        && len == |name| && position == old(position) + 1
        && buf[..] == Splice(old(buf[..]), 0, name)
    {
      if position >= fs.numDentries {
        return 0;
      }
      // read_dentry_by_index copies the 32 bytes of the name; strlen runs past them only for a full-width name
      var d := fs.slots[position];
      len := 0;
      while len < NAME_LEN && d.name[len] != NUL
        invariant len <= |NameOf(d)|
      {
        len := len + 1;
      }
      ghost var was := buf[..];
      for i := 0 to len
        invariant position == old(position)
        invariant buf[..] == Splice(was, 0, NameOf(d)[..i])
      {
        SpliceOne(was, 0, NameOf(d)[..i], d.name[i]);
        assert NameOf(d)[..i] + [d.name[i]] == NameOf(d)[..i + 1];
        buf[i] := d.name[i];
      }
      assert NameOf(d)[..len] == NameOf(d);
      position := position + 1;
    }
  }

  ghost function Names(fs: Image, n: nat): (s: seq<seq<byte>>)
    requires ValidImage(fs) && n <= NUM_DENTRIES
  {
    seq(n, k requires 0 <= k < n => NameOf(fs.slots[k]))
  }

  // The listing loop of ece391grep's main: read names until dir_read returns 0.
  method List(dir: OpenDir) returns (names: seq<seq<byte>>)
    requires dir.Valid() && dir.position == 0
    requires forall k :: 0 <= k < dir.fs.numDentries ==> NameOf(dir.fs.slots[k]) != []
    modifies dir
    ensures dir.Valid() && dir.position == dir.fs.numDentries
    ensures names == Names(dir.fs, dir.fs.numDentries)
  {
    var buf := new byte[33];
    names := [];
    var cnt := dir.DirRead(buf);
    while cnt != 0
      invariant dir.Valid()
      invariant cnt == 0 ==> dir.position == dir.fs.numDentries && names == Names(dir.fs, dir.position)
      invariant cnt != 0 ==> 0 < dir.position && names == Names(dir.fs, dir.position - 1)
      invariant cnt != 0 ==> cnt <= 32 && buf[..cnt] == NameOf(dir.fs.slots[dir.position - 1])
      decreases dir.fs.numDentries - dir.position + if cnt == 0 then 0 else 1
    {
      names := names + [buf[..cnt]];
      cnt := dir.DirRead(buf);
    }
  }

  ghost predicate DistinctNames(fs: Image)
    requires ValidImage(fs) && fs.numDentries <= MAX_DENTRIES
  {
    && (forall k :: 0 <= k < fs.numDentries ==> NameOf(fs.slots[k]) != [])
    && forall j, k :: 0 <= j < k < fs.numDentries ==> NameOf(fs.slots[j]) != NameOf(fs.slots[k])
  }

  predicate IsOwn(f: Found, d: Dentry) {
    f.fileType == d.fileType && f.inode == d.inode
  }

  method LookUpOwn(fs: Image, k: nat, name: seq<byte>) returns (found: Found)
    requires ValidImage(fs) && fs.numDentries <= MAX_DENTRIES && DistinctNames(fs)
    requires k < fs.numDentries && name == NameOf(fs.slots[k])
    requires fs.slots[k].fileType < 256 && fs.slots[k].inode < 256
    ensures IsOwn(found, fs.slots[k])
  {
    hide NameOf;
    var r := ReadDentryByName(fs, Some(name + [NUL]), name);
    assert Named(fs, name);
    found := r.value;
  }

  // List the directory and look every name up again: each lookup returns that entry's own type and inode,
  // as long as those fit in the one byte the lookup reads of each.
  method ListAndLookUp(dir: OpenDir) returns (found: seq<Found>)
    requires dir.Valid() && dir.position == 0 && DistinctNames(dir.fs)
    requires forall k :: 0 <= k < dir.fs.numDentries ==> dir.fs.slots[k].fileType < 256 && dir.fs.slots[k].inode < 256
    modifies dir
    ensures |found| == dir.fs.numDentries
    ensures forall k :: 0 <= k < |found| ==> IsOwn(found[k], dir.fs.slots[k])
  {
    hide NameOf;
    var names := List(dir);
    found := [];
    for k := 0 to |names|
      invariant |found| == k
      invariant forall j :: 0 <= j < k ==> IsOwn(found[j], dir.fs.slots[j])
    {
      var f := LookUpOwn(dir.fs, k, names[k]);
      found := found + [f];
    }
  }
}
