/** Bytes, fixed-width integers, and writing a run of bytes into a buffer in place. */
module Bytes {

  type byte = b: int | 0 <= b < 0x100
  type u16 = n: int | 0 <= n < 0x1_0000
  type u32 = n: int | 0 <= n < 0x1_0000_0000

  const U32_MAX: u32 := 0xFFFF_FFFF

  datatype Option<+T> = None | Some(value: T)

  datatype Result<+T, +E> = Ok(value: T) | Err(error: E)

  /** Rust's `u32::saturating_add`. */
  function SaturatingAdd(a: u32, b: u32): u32 {
    if a + b > U32_MAX then U32_MAX else a + b
  }

  function Min(a: nat, b: nat): nat {
    if a < b then a else b
  }

  function Be16(n: u16): (s: seq<byte>)
    ensures |s| == 2
  {
    [n / 0x100, n % 0x100]
  }

  function Be32(n: u32): (s: seq<byte>)
    ensures |s| == 4
  {
    Be16(n / 0x1_0000) + Be16(n % 0x1_0000)
  }

  /** The big-endian value of the first two bytes. */
  function Read16(s: seq<byte>): u16
    requires |s| >= 2
  {
    s[0] as int * 0x100 + s[1]
  }

  /** The big-endian value of the first four bytes. */
  function Read32(s: seq<byte>): u32
    requires |s| >= 4
  {
    Read16(s) as int * 0x1_0000 + Read16(s[2..])
  }

  lemma Read16OfBe16(n: u16, rest: seq<byte>)
    ensures Read16(Be16(n) + rest) == n && (Be16(n) + rest)[2..] == rest
  {
    var s := Be16(n) + rest;
    assert s[0] == n / 0x100 && s[1] == n % 0x100;
  }

  lemma Read32OfBe32(n: u32, rest: seq<byte>)
    ensures Read32(Be32(n) + rest) == n
  {
    var hi, lo := n / 0x1_0000, n % 0x1_0000;
    Read16OfBe16(hi, Be16(lo) + rest);
    Read16OfBe16(lo, rest);
    assert Be32(n) + rest == Be16(hi) + (Be16(lo) + rest);
  }

  lemma Be16OfRead16(s: seq<byte>)
    requires |s| >= 2
    ensures Be16(Read16(s)) == s[..2]
  {
    var hi: int, lo: int := s[0], s[1];
    assert (hi * 0x100 + lo) / 0x100 == hi;
  }

  lemma Be32OfRead32(s: seq<byte>)
    requires |s| >= 4
    ensures Be32(Read32(s)) == s[..4]
  {
    var hi, lo := Read16(s), Read16(s[2..]);
    assert Read32(s) / 0x1_0000 == hi && Read32(s) % 0x1_0000 == lo;
    Be16OfRead16(s);
    Be16OfRead16(s[2..]);
    assert s[..4] == s[..2] + s[2..][..2];
  }

  /** A length-prefixed string: two big-endian bytes and then the bytes themselves. */
  function Str(s: seq<byte>): (r: seq<byte>)
    requires |s| <= 0xFFFF
    ensures |r| == 2 + |s|
  {
    Be16(|s|) + s
  }

  /** The bytes of a list of slices, end to end. */
  function Flatten(parts: seq<seq<byte>>): seq<byte> {
    if parts == [] then [] else parts[0] + Flatten(parts[1..])
  }

  lemma FlattenCons(head: seq<byte>, tail: seq<seq<byte>>)
    ensures Flatten([head] + tail) == head + Flatten(tail)
  {
    assert ([head] + tail)[1..] == tail;
  }

  lemma Associate(a: seq<byte>, b: seq<byte>, c: seq<byte>)
    ensures a + (b + c) == a + b + c
  {
  }

  lemma OneSlice(s: seq<byte>)
    ensures Flatten([s]) == s
  {
    assert [s][1..] == [];
  }

  lemma {:induction false} FlattenAppend(a: seq<seq<byte>>, b: seq<seq<byte>>)
    ensures Flatten(a + b) == Flatten(a) + Flatten(b)
  {
    if a == [] {
      assert a + b == b;
    } else {
      hide Flatten;
      var head, tail := a[0], a[1..];
      assert a == [head] + tail;
      assert a + b == [head] + (tail + b);
      FlattenCons(head, tail);
      FlattenCons(head, tail + b);
      FlattenAppend(tail, b);
      Associate(head, Flatten(tail), Flatten(b));
    }
  }

  /** `d` with the bytes from `at` on replaced by `b`, everything else untouched. */
  function Splice(d: seq<byte>, at: nat, b: seq<byte>): (r: seq<byte>)
    requires at + |b| <= |d|
    ensures |r| == |d|
    ensures r[..at] == d[..at] && r[at..at + |b|] == b && r[at + |b|..] == d[at + |b|..]
  {
    d[..at] + b + d[at + |b|..]
  }

  /** Two writes that meet are one write. */
  lemma SpliceJoin(d: seq<byte>, at: nat, a: seq<byte>, b: seq<byte>)
    requires at + |a| + |b| <= |d|
    ensures Splice(Splice(d, at, a), at + |a|, b) == Splice(d, at, a + b)
  {
  }

  /** `copy_from_slice` into a sub-slice: the buffer changes there and nowhere else. */
  method CopyInto(dest: array<byte>, at: nat, source: seq<byte>)
    requires at + |source| <= dest.Length
    modifies dest
    ensures dest[..] == Splice(old(dest[..]), at, source)
  {
    forall i | 0 <= i < |source| {
      dest[at + i] := source[i];
    }
  }

  /** `CopyInto` where a write that began at `start` has got as far as `done`. */
  method Continue(dest: array<byte>, ghost before: seq<byte>, ghost start: nat, ghost done: seq<byte>,
                  at: nat, source: seq<byte>)
    requires |before| == dest.Length && start + |done| == at && at + |source| <= dest.Length
    requires dest[..] == Splice(before, start, done)
    modifies dest
    ensures dest[..] == Splice(before, start, done + source)
  {
    CopyInto(dest, at, source);
    SpliceJoin(before, start, done, source);
  }
}
