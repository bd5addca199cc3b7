// Bytes, C strings and the kernel's number formatting
// (student-distrib/lib.c and its user-level copy syscalls/ece391support.c).
module Bytes {
  type byte = b: int | 0 <= b < 256

  const WORD: int := 0x1_0000_0000
  type word = w: int | 0 <= w < 0x1_0000_0000

  function Reversed(s: seq<byte>): (r: seq<byte>)
    ensures |r| == |s|
    ensures forall k :: 0 <= k < |s| ==> r[k] == s[|s| - 1 - k]
  {
    seq(|s|, k requires 0 <= k < |s| => s[|s| - 1 - k])
  }

  // s with the bytes from position at onwards replaced by w.
  function Splice(s: seq<byte>, at: nat, w: seq<byte>): (r: seq<byte>)
    requires at + |w| <= |s|
    ensures |r| == |s|
    ensures forall k :: 0 <= k < |s| ==> r[k] == if at <= k < at + |w| then w[k - at] else s[k]
  {
    seq(|s|, k requires 0 <= k < |s| => if at <= k < at + |w| then w[k - at] else s[k])
  }

  lemma SpliceOne(s: seq<byte>, at: nat, w: seq<byte>, c: byte)
    requires at + |w| < |s|
    ensures Splice(s, at, w)[at + |w| := c] == Splice(s, at, w + [c])
  {
  }
}

module CStrings {
  import opened Bytes

  const NUL: byte := 0

  predicate NoNul(t: seq<byte>) {
    forall k :: 0 <= k < |t| ==> t[k] != NUL
  }

  // The memory s holds the C string t at offset from.
  predicate Holds(s: seq<byte>, from: nat, t: seq<byte>) {
    && from + |t| < |s|
    && NoNul(t)
    && s[from + |t|] == NUL
    && forall k :: from <= k < from + |t| ==> s[k] == t[k - from]
  }

  // The read-only string routines take the memory they look at as a value.
  method StrLen(a: seq<byte>, from: nat, ghost t: seq<byte>) returns (n: nat)
    requires Holds(a, from, t)
    ensures n == |t| && from + n < |a| && a[from + n] == 0 && forall k :: from <= k < from + n ==> a[k] != 0
  {
    n := 0;
    while a[from + n] != NUL
      invariant n <= |t|
      decreases |t| - n
    {
      n := n + 1;
    }
  }

  // The i-th byte of a C string, its terminator included.
  function At(t: seq<byte>, i: nat): byte {
    if i < |t| then t[i] else NUL
  }

  // A byte read as an int8_t or as a uint8_t.
  function Value(b: byte, signed: bool): int {
    if signed && b >= 128 then b - 256 else b
  }

  // What strncmp computes on two C strings: the first difference within n bytes, stopping at a common NUL.
  // The kernel's strncmp compares signed characters, the user library's unsigned ones.
  function Compare(s: seq<byte>, t: seq<byte>, i: nat, n: nat, signed: bool): int
    decreases n - i
  {
    if i >= n then 0
    else if At(s, i) != At(t, i) then Value(At(s, i), signed) - Value(At(t, i), signed)
    else if At(s, i) == NUL then 0
    else Compare(s, t, i + 1, n, signed)
  }

  function Min(a: int, b: int): int { if a < b then a else b }

  // The answer is 0 exactly when the two texts agree on their first n bytes.
  lemma {:induction false} CompareZero(s: seq<byte>, t: seq<byte>, i: nat, n: nat, signed: bool)
    requires NoNul(s) && NoNul(t)
    requires i <= |s| && i <= |t| && s[..i] == t[..i]
    ensures i <= n ==> (Compare(s, t, i, n, signed) == 0 <==> s[..Min(n, |s|)] == t[..Min(n, |t|)])
    decreases n - i
  {
    if i < n && At(s, i) == At(t, i) {
      if i < |s| {
        assert s[..i + 1] == s[..i] + [s[i]] && t[..i + 1] == t[..i] + [t[i]];
        CompareZero(s, t, i + 1, n, signed);
      }
    } else if i < n {
      var a, b := s[..Min(n, |s|)], t[..Min(n, |t|)];
      assert |a| == |b| ==> a[i] != b[i];
    } else if i == n {
      assert s[..Min(n, |s|)] == s[..i] && t[..Min(n, |t|)] == t[..i];
    }
  }

  // Otherwise it is the difference of the first bytes that differ, a byte from 128 on counting as negative if signed.
  lemma {:induction false} CompareSign(s: seq<byte>, t: seq<byte>, i: nat, n: nat, k: nat, signed: bool)
    requires NoNul(s) && NoNul(t) && i <= k < n && k <= |s| && k <= |t|
    requires s[..k] == t[..k] && At(s, k) != At(t, k)
    ensures var a: int, b: int := At(s, k), At(t, k);
      Compare(s, t, i, n, signed)
      == if signed then (if a < 128 then a else a - 256) - (if b < 128 then b else b - 256) else a - b
    decreases k - i
  {
    if i < k {
      assert s[i] == s[..k][i] == t[..k][i] == t[i];
      CompareSign(s, t, i + 1, n, k, signed);
    }
  }

  // As far as a comparison of n bytes looks, the memory s shows the text t at offset from.
  predicate Shows(s: seq<byte>, from: nat, t: seq<byte>, n: nat) {
    forall i :: 0 <= i < n && i <= |t| ==> from + i < |s| && s[from + i] == At(t, i)
  }

  lemma ShowsAt(s: seq<byte>, from: nat, t: seq<byte>, n: nat, i: nat)
    requires Shows(s, from, t, n) && i < n && i <= |t|
    ensures from + i < |s| && s[from + i] == At(t, i)
  {
  }

  method StrNCmp(a: seq<byte>, from: nat, ghost s: seq<byte>, b: seq<byte>, ghost t: seq<byte>, n: nat)
      returns (r: int)
    requires NoNul(s) && Shows(a, from, s, n) && NoNul(t) && Shows(b, 0, t, n)
    ensures r == Compare(s, t, 0, n, true)
  {
    for i := 0 to n
      invariant i <= |s| && i <= |t|
      invariant Compare(s, t, 0, n, true) == Compare(s, t, i, n, true)
    {
      assert a[from + i] == At(s, i) && b[0 + i] == At(t, i);
      if a[from + i] != b[i] || a[from + i] == NUL {
        r := Value(a[from + i], true) - Value(b[i], true);
        return;
      }
    }
    return 0;
  }

  // ece391_strncmp walks two pointers and counts n down.
  method UserStrNCmp(a: seq<byte>, from: nat, ghost s: seq<byte>, b: seq<byte>, ghost t: seq<byte>, n: nat)
      returns (r: int)
    requires NoNul(s) && Shows(a, from, s, n) && NoNul(t) && Shows(b, 0, t, n)
    ensures r == Compare(s, t, 0, n, false)
  {
    if n == 0 {
      return 0;
    }
    var i, left := 0, n;
    while a[from + i] == b[i]
      invariant i <= |s| && i <= |t| && left == n - i > 0
      invariant Compare(s, t, 0, n, false) == Compare(s, t, i, n, false)
      decreases left
    {
      assert a[from + i] == At(s, i) && b[0 + i] == At(t, i);
      left := left - 1;
      if a[from + i] == NUL || left == 0 {
        assert Compare(s, t, i + 1, i + 1, false) == 0;
        return 0;
      }
      i := i + 1;
    }
    assert a[from + i] == At(s, i) && b[0 + i] == At(t, i);
    r := Value(a[from + i], false) - Value(b[i], false);
  }

  // ece391_strcpy and strcpy within one memory, apart or towards lower addresses.
  method StrCpy(a: array<byte>, dst: nat, src: nat, ghost t: seq<byte>)
    requires Holds(a[..], src, t) && dst + |t| < a.Length && (dst <= src || src + |t| < dst)
    modifies a
    ensures a[..] == Splice(old(a[..]), dst, t + [NUL])
  {
    var i := 0;
    while a[src + i] != NUL
      invariant i <= |t|
      invariant forall k :: dst <= k < dst + i ==> a[k] == t[k - dst]
      invariant forall k :: 0 <= k < a.Length && !(dst <= k < dst + i) ==> a[k] == old(a[k])
      invariant dst <= src ==> forall k :: src + i <= k <= src + |t| ==> a[k] == At(t, k - src)
      decreases |t| - i
    {
      a[dst + i] := a[src + i];
      i := i + 1;
    }
    a[dst + i] := NUL;
  }

  // The n bytes strncpy stores: the text, cut at n bytes or padded with NULs.
  function Padded(t: seq<byte>, n: nat): (s: seq<byte>)
    ensures |s| == n
  {
    seq(n, i requires 0 <= i < n => At(t, i))
  }

  // The loop looks at one byte more than it copies, so n + 1 bytes of a source without terminator must be there.
  method StrNCpy(dest: array<byte>, src: seq<byte>, ghost t: seq<byte>, n: nat)
    requires NoNul(t) && Shows(src, 0, t, n + 1) && n <= dest.Length
    modifies dest
    ensures dest[..] == Splice(old(dest[..]), 0, Padded(t, n))
  {
    var i := 0;
    ShowsAt(src, 0, t, n + 1, i);
    while src[i] != NUL && i < n
      invariant i <= |t| && i <= n && i < |src| && src[i] == At(t, i)
      invariant forall k :: 0 <= k < i ==> dest[k] == t[k]
      invariant forall k :: i <= k < dest.Length ==> dest[k] == old(dest[k])
      decreases n - i
    {
      dest[i] := src[i];
      i := i + 1;
      ShowsAt(src, 0, t, n + 1, i);
    }
    while i < n
      invariant i <= n && (i < n ==> i >= |t|)
      invariant forall k :: 0 <= k < i ==> dest[k] == At(t, k)
      invariant forall k :: n <= k < dest.Length ==> dest[k] == old(dest[k])
    {
      dest[i] := NUL;
      i := i + 1;
    }
  }

  // strrev: reverse the C string stored at from, in place.
  method StrRev(a: array<byte>, from: nat, ghost t: seq<byte>)
    requires Holds(a[..], from, t)
    modifies a
    ensures a[..] == Splice(old(a[..]), from, Reversed(t))
  {
    var n := StrLen(a[..], from, t);
    var beg: nat, end: int := 0, n as int - 1;
    while beg < end
      invariant beg <= n && beg <= end + 2 && beg + end + 1 == n
      invariant forall k :: from <= k < from + beg ==> a[k] == Reversed(t)[k - from]
      invariant forall k :: from + n - beg <= k < from + n ==> a[k] == Reversed(t)[k - from]
      invariant forall k :: from + beg <= k < from + n - beg ==> a[k] == t[k - from]
      invariant forall k :: 0 <= k < from || from + n <= k < a.Length ==> a[k] == old(a[k])
    {
      a[from + end], a[from + beg] := a[from + beg], a[from + end];
      beg, end := beg + 1, end - 1;
    }
  }
}

module Numerals {
  import opened Bytes
  import opened CStrings

  // "0123456789ABCDEFGHIJKLMNOPQRSTUVWXYZ"
  function DigitChar(d: nat): (c: byte)
    requires d < 36
    ensures c != NUL
  {
    if d < 10 then 48 + d else 55 + d
  }

  lemma DigitGlyph(d: nat)
    requires d < 36
    ensures DigitChar(d) as char == "0123456789ABCDEFGHIJKLMNOPQRSTUVWXYZ"[d]
  {
  }

  function DigitValue(c: byte): int {
    if 48 <= c <= 57 then c - 48 else if 65 <= c <= 90 then c - 55 else -1
  }

  lemma DivBounds(v: nat, radix: nat)
    requires 2 <= radix
    ensures v / radix >= 0 && 0 <= v % radix < radix && v / radix * radix + v % radix == v
    ensures v > 0 ==> v / radix < v
    ensures v / radix <= v / 2
  {
    var q := v / radix;
    assert q * radix >= q * 2;
  }

  // Digits of v, most significant first; [] for zero.
  function Digits(v: nat, radix: nat): (s: seq<byte>)
    requires 2 <= radix <= 36
    ensures NoNul(s)
    decreases v
  {
    if v == 0 then [] else
      DivBounds(v, radix);
      Digits(v / radix, radix) + [DigitChar(v % radix)]
  }

  function Numeral(v: nat, radix: nat): (s: seq<byte>)
    requires 2 <= radix <= 36
    ensures NoNul(s)
  {
    if v == 0 then [48] else Digits(v, radix)
  }

  // An independent reading of a numeral: Horner's rule from the left.
  function Parse(s: seq<byte>, radix: nat): int
    requires 2 <= radix <= 36
  {
    if s == [] then 0 else Parse(s[..|s| - 1], radix) * radix + DigitValue(s[|s| - 1])
  }

  predicate IsNumeral(s: seq<byte>, radix: nat) {
    s != [] && (|s| > 1 ==> s[0] != 48) && forall k :: 0 <= k < |s| ==> 0 <= DigitValue(s[k]) < radix
  }

  function Pow(b: nat, e: nat): nat { if e == 0 then 1 else b * Pow(b, e - 1) }

  lemma {:induction false} DigitsParse(v: nat, radix: nat)
    requires 2 <= radix <= 36
    ensures Parse(Digits(v, radix), radix) == v
    decreases v
  {
    if v > 0 {
      DivBounds(v, radix);
      DigitsParse(v / radix, radix);
      var s := Digits(v, radix);
      assert s[..|s| - 1] == Digits(v / radix, radix);
      assert DigitValue(s[|s| - 1]) == v % radix;
    }
  }

  lemma {:induction false} DigitsShape(v: nat, radix: nat)
    requires 2 <= radix <= 36 && v > 0
    ensures IsNumeral(Digits(v, radix), radix) && Digits(v, radix)[0] != 48
    decreases v
  {
    DivBounds(v, radix);
    var s, d := Digits(v / radix, radix), v % radix;
    assert DigitValue(DigitChar(d)) == d;
    if v / radix > 0 {
      DigitsShape(v / radix, radix);
    } else {
      assert d == v && s == [];
    }
  }

  // itoa followed by parsing is the identity, and the numeral has no leading zero.
  lemma NumeralParse(v: nat, radix: nat)
    requires 2 <= radix <= 36
    ensures Parse(Numeral(v, radix), radix) == v && IsNumeral(Numeral(v, radix), radix)
  {
    DigitsParse(v, radix);
    if v == 0 {
      assert Parse([48], radix) == Parse([48][..0], radix) * radix;
    } else {
      DigitsShape(v, radix);
    }
  }

  lemma {:induction false} ParseNonNegative(s: seq<byte>, radix: nat)
    requires 2 <= radix <= 36
    requires forall k :: 0 <= k < |s| ==> 0 <= DigitValue(s[k]) < radix
    ensures Parse(s, radix) >= 0
    ensures s != [] && s[0] != 48 ==> Parse(s, radix) > 0
  {
    if |s| > 0 {
      var t, d := s[..|s| - 1], DigitValue(s[|s| - 1]);
      ParseNonNegative(t, radix);
      var p := Parse(t, radix);
      MulGrows(p, radix);
      if s[0] != 48 && t == [] {
        assert d > 0;
      }
    }
  }

  lemma MulGrows(p: nat, radix: nat)
    requires radix >= 2
    ensures p <= p * radix
  {
  }

  // Any numeral without leading zero that denotes v is the one itoa produces: the notation is canonical.
  lemma {:induction false} NumeralUnique(s: seq<byte>, radix: nat)
    requires 2 <= radix <= 36 && IsNumeral(s, radix)
    ensures Parse(s, radix) >= 0 && Numeral(Parse(s, radix), radix) == s
  {
    var t, d := s[..|s| - 1], DigitValue(s[|s| - 1]);
    ParseNonNegative(s, radix);
    ParseNonNegative(t, radix);
    var p := Parse(t, radix);
    assert Parse(s, radix) == p * radix + d;
    DivMod(p, d, radix);
    assert DigitChar(d) == s[|s| - 1];
    assert s == t + [s[|s| - 1]];
    if t != [] {
      assert t[0] == s[0];
      NumeralUnique(t, radix);
      assert p > 0;
    } else {
      assert p == 0;
      assert Digits(0, radix) == [];
    }
  }

  lemma QuotientUnique(p: int, d: int, q: int, r: int, radix: nat)
    requires 0 <= d < radix && 0 <= r < radix
    requires p * radix + d == q * radix + r
    ensures p == q && d == r
  {
    var k := p - q;
    assert k * radix == r - d;
    assert k >= 1 ==> k * radix >= radix;
    assert k <= -1 ==> k * radix + radix <= 0;
  }

  lemma DivMod(p: nat, d: nat, radix: nat)
    requires d < radix && radix >= 2
    ensures (p * radix + d) / radix == p && (p * radix + d) % radix == d
  {
    var n := p * radix + d;
    DivBounds(n, radix);
    QuotientUnique(p, d, n / radix, n % radix, radix);
  }

  lemma {:induction false} DigitsLength(v: nat, radix: nat, bits: nat)
    requires 2 <= radix <= 36 && v < Pow(2, bits)
    ensures |Digits(v, radix)| <= bits
    decreases bits
  {
    if v > 0 {
      DivBounds(v, radix);
      DigitsLength(v / radix, radix, bits - 1);
    }
  }

  lemma Pow2_32()
    ensures Pow(2, 32) == WORD
  {
    assert Pow(2, 8) == 256;
    assert Pow(2, 16) == 256 * Pow(2, 8);
    assert Pow(2, 24) == 256 * Pow(2, 16);
    assert Pow(2, 32) == 256 * Pow(2, 24);
  }

  // Every 32-bit value fits in 32 characters in every radix, and in 8 characters in hexadecimal.
  lemma NumeralLength(v: word, radix: nat)
    requires 2 <= radix <= 36
    ensures 1 <= |Numeral(v, radix)| <= 32
    ensures radix == 16 ==> |Numeral(v, radix)| <= 8
  {
    Pow2_32();
    DigitsLength(v, radix, 32);
    if v > 0 {
      DigitsShape(v, radix);
    }
    if radix == 16 {
      HexLength(v, 8);
    }
  }

  lemma {:induction false} HexLength(v: nat, n: nat)
    requires v < Pow(2, 4 * n)
    ensures |Digits(v, 16)| <= n
    decreases n
  {
    if v > 0 {
      var m := 4 * n - 4;
      assert Pow(2, m + 1) == 2 * Pow(2, m);
      assert Pow(2, m + 2) == 2 * Pow(2, m + 1);
      assert Pow(2, m + 3) == 2 * Pow(2, m + 2);
      HexLength(v / 16, n - 1);
    }
  }

  // The digits in the order the loop produces them, lowest place first.
  function LowDigits(v: nat, radix: nat): (s: seq<byte>)
    requires 2 <= radix <= 36
    decreases v
  {
    if v == 0 then [] else
      DivBounds(v, radix);
      [DigitChar(v % radix)] + LowDigits(v / radix, radix)
  }

  lemma {:induction false} LowDigitsReversed(v: nat, radix: nat)
    requires 2 <= radix <= 36
    ensures Reversed(LowDigits(v, radix)) == Digits(v, radix) && NoNul(LowDigits(v, radix))
    decreases v
  {
    if v > 0 {
      LowDigitsReversed(v / radix, radix);
      var low := LowDigits(v / radix, radix);
      assert Reversed([DigitChar(v % radix)] + low) == Reversed(low) + [DigitChar(v % radix)];
    }
  }

  // itoa (lib.c 389-419, ece391support.c 49-80): digits from the lowest place up, then an in-place reversal.
  method Itoa(value: word, buf: array<byte>, from: nat, radix: nat)
    requires 2 <= radix <= 36 && from + 33 <= buf.Length
    modifies buf
    ensures |Numeral(value, radix)| <= 32
    ensures buf[..] == Splice(old(buf[..]), from, Numeral(value, radix) + [NUL])
  {
    ghost var was := buf[..];
    NumeralLength(value, radix);
    if value == 0 {
      SplicePair(was, from, 48, NUL);
      buf[from] := 48;
      buf[from + 1] := NUL;
      return;
    }
    ghost var low := LowDigits(value, radix);
    LowDigitsReversed(value, radix);
    SpliceOver(was, from, low + [NUL], Reversed(low));
    SpliceHolds(was, from, low);
    PutLowDigits(value, buf, from, radix);
    StrRev(buf, from, low);
  }

  method PutLowDigits(value: word, buf: array<byte>, from: nat, radix: nat)
    requires 2 <= radix <= 36 && from + |LowDigits(value, radix)| < buf.Length
    modifies buf
    ensures buf[..] == Splice(old(buf[..]), from, LowDigits(value, radix) + [NUL])
  {
    ghost var was := buf[..];
    ghost var low := [];
    var newval: nat, len: nat := value, 0;
    while newval > 0
      invariant |low| == len <= |LowDigits(value, radix)|
      invariant low + LowDigits(newval, radix) == LowDigits(value, radix)
      invariant buf[..] == Splice(was, from, low)
    {
      DivBounds(newval, radix);
      var i := newval % radix;
      SpliceOne(was, from, low, DigitChar(i));
      assert low + ([DigitChar(i)] + LowDigits(newval / radix, radix))
        == (low + [DigitChar(i)]) + LowDigits(newval / radix, radix);
      buf[from + len] := DigitChar(i);
      low := low + [DigitChar(i)];
      len := len + 1;
      newval := newval / radix;
    }
    SpliceOne(was, from, low, NUL);
    buf[from + len] := NUL;
  }

  lemma SpliceHolds(s: seq<byte>, from: nat, t: seq<byte>)
    requires from + |t| < |s| && NoNul(t)
    ensures Holds(Splice(s, from, t + [NUL]), from, t)
  {
  }

  lemma SplicePair(s: seq<byte>, from: nat, b: byte, c: byte)
    requires from + 2 <= |s|
    ensures s[from := b][from + 1 := c] == Splice(s, from, [b] + [c])
  {
  }

  lemma SpliceOver(s: seq<byte>, from: nat, w: seq<byte>, r: seq<byte>)
    requires from + |w| <= |s| && |w| == |r| + 1
    ensures Splice(Splice(s, from, w), from, r) == Splice(s, from, r + [w[|r|]])
  {
  }

  function Zeros(n: nat): (z: seq<byte>)
    ensures |z| == n && forall k :: 0 <= k < n ==> z[k] == 48
  {
    if n == 0 then [] else [48] + Zeros(n - 1)
  }

  lemma {:induction false} ParseZeros(n: nat, s: seq<byte>, radix: nat)
    requires 2 <= radix <= 36
    ensures Parse(Zeros(n) + s, radix) == Parse(s, radix)
    decreases |s| + n
  {
    var z := Zeros(n) + s;
    if s != [] {
      assert z[..|z| - 1] == Zeros(n) + s[..|s| - 1];
      ParseZeros(n, s[..|s| - 1], radix);
    } else if n > 0 {
      assert z[..|z| - 1] == Zeros(n - 1) + [];
      ParseZeros(n - 1, [], radix);
      assert z[|z| - 1] == 48;
    }
  }

  // printf("%#x"): the zeros go between the printed start and the numeral at offset 8.
  method AlternateHex(value: word, conv: array<byte>) returns (shown: seq<byte>)
    requires conv.Length == 64
    modifies conv
    ensures |Numeral(value, 16)| <= 8 && shown == Zeros(8 - |Numeral(value, 16)|) + Numeral(value, 16)
  {
    ghost var digits := Numeral(value, 16);
    NumeralLength(value, 16);
    Itoa(value, conv, 8, 16);
    ghost var was := conv[..];
    assert Holds(was, 8, digits);
    var start := StrLen(conv[..], 8, digits);
    var i := start;
    while i < 8
      invariant start <= i <= 8
      invariant conv[..] == Splice(was, start, Zeros(i - start))
    {
      SpliceOne(was, start, Zeros(i - start), 48);
      ZerosOne(i - start);
      conv[i] := 48;
      i := i + 1;
    }
    AlternateLayout(was, digits);
    var n := StrLen(conv[..], start, Zeros(8 - start) + digits);
    shown := conv[start..start + n];
  }

  lemma {:induction false} ZerosOne(n: nat)
    ensures Zeros(n) + [48] == Zeros(n + 1)
  {
    assert forall k :: 0 <= k <= n ==> (Zeros(n) + [48])[k] == 48;
  }

  lemma AlternateLayout(s: seq<byte>, digits: seq<byte>)
    requires |s| == 64 && |digits| <= 8 && Holds(s, 8, digits)
    ensures Holds(Splice(s, |digits|, Zeros(8 - |digits|)), |digits|, Zeros(8 - |digits|) + digits)
  {
  }

  // Eight hexadecimal digits denoting v.
  predicate EightDigits(s: seq<byte>, v: word) {
    |s| == 8 && Parse(s, 16) == v && forall k :: 0 <= k < 8 ==> 0 <= DigitValue(s[k]) < 16
  }

  lemma PaddedDigits(digits: seq<byte>, v: word)
    requires IsNumeral(digits, 16) && |digits| <= 8 && Parse(digits, 16) == v
    ensures EightDigits(Zeros(8 - |digits|) + digits, v)
  {
    ParseZeros(8 - |digits|, digits, 16);
  }

  // ... and what it shows is eight digits that denote the value.
  lemma AlternateHexDenotes(value: word)
    ensures |Numeral(value, 16)| <= 8
    ensures EightDigits(Zeros(8 - |Numeral(value, 16)|) + Numeral(value, 16), value)
  {
    NumeralLength(value, 16);
    NumeralParse(value, 16);
    PaddedDigits(Numeral(value, 16), value);
  }
}
