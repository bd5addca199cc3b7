// lib.c memcpy over a flat physical memory, indexed by address.
module Memory {
  import opened Bytes

  // mem after n bytes were copied from src to dst, the source read as it was.
  function Copied(mem: seq<byte>, dst: nat, src: nat, n: nat): (r: seq<byte>)
    requires dst + n <= |mem| && src + n <= |mem|
    ensures |r| == |mem|
  {
    Splice(mem, dst, mem[src..src + n])
  }

  // The regions are disjoint, or the copy moves bytes towards lower addresses.
  predicate Copyable(dst: nat, src: nat, n: nat) {
    dst <= src || src + n <= dst
  }

  lemma CopyNext(mem: seq<byte>, dst: nat, src: nat, k: nat)
    requires dst + k < |mem| && src + k < |mem|
    ensures Copied(mem, dst, src, k + 1) == Copied(mem, dst, src, k)[dst + k := mem[src + k]]
  {
    SpliceOne(mem, dst, mem[src..src + k], mem[src + k]);
    assert mem[src..src + k] + [mem[src + k]] == mem[src..src + k + 1];
  }

  // The bytes still to be copied have not been overwritten.
  lemma Unread(mem: seq<byte>, dst: nat, src: nat, n: nat, k: nat)
    requires dst + n <= |mem| && src + n <= |mem| && Copyable(dst, src, n) && k <= n
    ensures forall i :: src + k <= i < src + n ==> Copied(mem, dst, src, k)[i] == mem[i]
  {
  }

  lemma CopyWord(mem: seq<byte>, dst: nat, src: nat, n: nat, k: nat)
    requires dst + n <= |mem| && src + n <= |mem| && Copyable(dst, src, n) && k + 4 <= n
    ensures Copied(mem, dst, src, k + 4) == WordMoved(Copied(mem, dst, src, k), dst + k, src + k)
  {
    hide Copied;
    Unread(mem, dst, src, n, k);
    CopyNext(mem, dst, src, k);
    CopyNext(mem, dst, src, k + 1);
    CopyNext(mem, dst, src, k + 2);
    CopyNext(mem, dst, src, k + 3);
  }

  lemma CopyByte(mem: seq<byte>, dst: nat, src: nat, n: nat, k: nat)
    requires dst + n <= |mem| && src + n <= |mem| && Copyable(dst, src, n) && k < n
    ensures var m := Copied(mem, dst, src, k); Copied(mem, dst, src, k + 1) == m[dst + k := m[src + k]]
  {
    hide Copied;
    Unread(mem, dst, src, n, k);
    CopyNext(mem, dst, src, k);
  }

  // movsl: one word, read whole before it is written.
  method MoveWord(mem: array<byte>, d: nat, s: nat)
    requires d + 4 <= mem.Length && s + 4 <= mem.Length
    modifies mem
    ensures mem[..] == WordMoved(old(mem[..]), d, s)
  {
    var b0, b1, b2, b3 := mem[s], mem[s + 1], mem[s + 2], mem[s + 3];
    mem[d], mem[d + 1], mem[d + 2], mem[d + 3] := b0, b1, b2, b3;
  }

  function WordMoved(m: seq<byte>, d: nat, s: nat): (r: seq<byte>)
    requires d + 4 <= |m| && s + 4 <= |m|
    ensures |r| == |m|
  {
    m[d := m[s]][d + 1 := m[s + 1]][d + 2 := m[s + 2]][d + 3 := m[s + 3]]
  }

  // Bytes up to an aligned destination, then whole words, then the rest.
  method Memcpy(mem: array<byte>, dst: nat, src: nat, n: nat)
    requires dst + n <= mem.Length && src + n <= mem.Length && Copyable(dst, src, n)
    modifies mem
    ensures mem[..] == Copied(old(mem[..]), dst, src, n)
  {
    hide Copied, WordMoved, Copyable;
    ghost var was := mem[..];
    CopyNone(was, dst, src);
    var done: nat := 0;
    while done < n && (dst + done) % 4 != 0
      invariant done <= n && mem[..] == Copied(was, dst, src, done)
    {
      CopyByte(was, dst, src, n, done);
      mem[dst + done] := mem[src + done];
      done := done + 1;
    }
    var words: nat, tail: nat := (n - done) / 4, (n - done) % 4;
    while words > 0
      invariant done + 4 * words + tail == n && mem[..] == Copied(was, dst, src, done)
    {
      CopyWord(was, dst, src, n, done);
      MoveWord(mem, dst + done, src + done);
      done, words := done + 4, words - 1;
    }
    while tail > 0
      invariant done + tail == n && mem[..] == Copied(was, dst, src, done)
    {
      CopyByte(was, dst, src, n, done);
      mem[dst + done] := mem[src + done];
      done, tail := done + 1, tail - 1;
    }
  }

  lemma CopyNone(mem: seq<byte>, dst: nat, src: nat)
    requires dst <= |mem| && src <= |mem|
    ensures Copied(mem, dst, src, 0) == mem
  {
  }
}
