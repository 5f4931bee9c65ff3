/** Bytes, little-endian words and C strings held in byte buffers. */
module Bytes {

  newtype Byte = x: int | 0 <= x < 256

  const U32: nat := 0x1_0000_0000

  /** A 32-bit word as it lies in memory on i386. */
  function LE32(n: nat): (b: seq<Byte>)
    ensures |b| == 4
  {
    [(n % 256) as Byte, (n / 256 % 256) as Byte, (n / 65536 % 256) as Byte, (n / 16777216 % 256) as Byte]
  }

  /** Byte `k` is worth 256^k. */
  lemma LE32Bytes(n: nat, k: nat)
    requires k < 4
    ensures LE32(n)[k] as nat == n / [1, 256, 65536, 16777216][k] % 256
  {
  }

  function FromLE32(b: seq<Byte>): nat
    requires |b| == 4
  {
    b[0] as nat + 256 * (b[1] as nat) + 65536 * (b[2] as nat) + 16777216 * (b[3] as nat)
  }

  lemma LE32RoundTrip(n: nat)
    requires n < U32
    ensures FromLE32(LE32(n)) == n
  {
    var a, b := n / 65536, n % 65536;
    SplitBytes(b);
    SplitBytes(a);
    assert n == 65536 * a + b;
    assert n / 256 == 256 * a + b / 256;
    assert n / 256 % 256 == b / 256 && n % 256 == b % 256;
    assert n / 16777216 == a / 256;
  }

  lemma SplitBytes(n: nat)
    requires n < 65536
    ensures n == 256 * (n / 256) + n % 256 && n / 256 < 256 && n / 256 % 256 == n / 256
  {
  }

  /** The C string at the front of a buffer. */
  function CStr(raw: seq<Byte>): (s: seq<Byte>)
    ensures 0 !in s && s <= raw
    ensures 0 in raw ==> |s| < |raw| && raw[|s|] == 0
  {
    if raw == [] || raw[0] == 0 then [] else [raw[0]] + CStr(raw[1..])
  }

  lemma {:induction false} CStrOf(s: seq<Byte>, rest: seq<Byte>)
    requires 0 !in s
    ensures CStr(s + [0] + rest) == s
  {
    if s == [] {
      assert (s + [0] + rest)[0] == 0;
    } else {
      assert (s + [0] + rest)[1..] == s[1..] + [0] + rest;
      CStrOf(s[1..], rest);
    }
  }

  /** `buf` with `data` written over it from `at`. */
  function Splice(buf: seq<Byte>, at: nat, data: seq<Byte>): (r: seq<Byte>)
    requires at + |data| <= |buf|
    ensures |r| == |buf|
  {
    buf[..at] + data + buf[at + |data|..]
  }

  lemma SpliceOnward(buf: seq<Byte>, at: nat, a: seq<Byte>, b: seq<Byte>)
    requires at + |a| + |b| <= |buf|
    ensures Splice(Splice(buf, at, a), at + |a|, b) == Splice(buf, at, a + b)
  {
  }

  /** memset from the start of a buffer. */
  method FillBytes(dest: array<Byte>, value: Byte, n: nat)
    requires n <= dest.Length
    modifies dest
    ensures dest[..] == seq(n, _ => value) + old(dest[n..])
  {
    for i := 0 to n
      invariant forall k :: 0 <= k < i ==> dest[k] == value
      invariant forall k :: i <= k < dest.Length ==> dest[k] == old(dest[k])
    {
      dest[i] := value;
    }
  }

  /** strcpy: the string at the front of `src` and its terminator. */
  method CopyString(dest: array<Byte>, at: nat, src: seq<Byte>)
    requires 0 in src && at + |CStr(src)| < dest.Length
    modifies dest
    ensures dest[..] == Splice(old(dest[..]), at, CStr(src) + [0])
  {
    CopyUntilNul(dest, at, src, CStr(src));
  }

  method CopyUntilNul(dest: array<Byte>, at: nat, src: seq<Byte>, ghost s: seq<Byte>)
    requires |s| < |src| && src[|s|] == 0 && forall k :: 0 <= k < |s| ==> src[k] == s[k] != 0
    requires at + |s| < dest.Length
    modifies dest
    ensures dest[..] == Splice(old(dest[..]), at, s + [0])
  {
    var i := 0;
    while src[i] != 0
      invariant i <= |s|
      invariant forall k :: 0 <= k < dest.Length ==>
                  dest[k] == if at <= k < at + i then s[k - at] else old(dest[k])
      decreases |s| - i
    {
      dest[at + i] := src[i];
      i := i + 1;
    }
    dest[at + i] := 0;
  }

  /** memcpy into a buffer. */
  method CopyBytes(dest: array<Byte>, at: nat, data: seq<Byte>)
    requires at + |data| <= dest.Length
    modifies dest
    ensures dest[..] == Splice(old(dest[..]), at, data)
  {
    for i := 0 to |data|
      invariant forall k :: 0 <= k < dest.Length ==>
                  dest[k] == if at <= k < at + i then data[k - at] else old(dest[k])
    {
      dest[at + i] := data[i];
    }
  }

  /** memmove within one buffer: right for overlapping regions in both
      directions, because the copy runs away from the overlap. */
  method MoveBytes(a: array<Byte>, dest: nat, src: nat, count: nat)
    requires dest + count <= a.Length && src + count <= a.Length
    modifies a
    ensures a[..] == Splice(old(a[..]), dest, old(a[..])[src..src + count])
  {
    if dest < src {
      MoveDown(a, dest, src, count);
    } else {
      MoveUp(a, dest, src, count);
    }
  }

  method MoveDown(a: array<Byte>, dest: nat, src: nat, count: nat)
    requires dest < src && src + count <= a.Length
    modifies a
    ensures a[..] == Splice(old(a[..]), dest, old(a[..])[src..src + count])
  {
    ghost var before, moved := a[..], a[src..src + count];
    for i := 0 to count
      invariant forall k :: 0 <= k < a.Length ==>
                  a[k] == if dest <= k < dest + i then moved[k - dest] else before[k]
    {
      assert a[src + i] == before[src + i] == moved[i];
      a[dest + i] := a[src + i];
    }
    assert a[..] == Splice(before, dest, moved);
  }

  method MoveUp(a: array<Byte>, dest: nat, src: nat, count: nat)
    requires src <= dest && dest + count <= a.Length
    modifies a
    ensures a[..] == Splice(old(a[..]), dest, old(a[..])[src..src + count])
  {
    ghost var before, moved := a[..], a[src..src + count];
    for i := count downto 0
      invariant forall k :: 0 <= k < a.Length ==>
                  a[k] == if dest + i <= k < dest + count then moved[k - dest] else before[k]
    {
      assert a[src + i] == before[src + i] == moved[i];
      a[dest + i] := a[src + i];
    }
    assert a[..] == Splice(before, dest, moved);
  }
}
