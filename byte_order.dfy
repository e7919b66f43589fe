/**
 * Bytes, Java ints, and the big-endian packing used for every PNG integer
 * field (chunk lengths, image width and height, payload length, CRCs).
 */
module ByteOrder {

  /** An unsigned byte, as `b & 0xff` yields it in Java. */
  type Byte = x: int | 0 <= x < 256

  type Bytes = seq<Byte>

  const TwoTo31: int := 0x8000_0000
  const TwoTo32: int := 0x1_0000_0000

  /** A Java `int`. */
  type Int32 = x: int | -0x8000_0000 <= x < 0x8000_0000

  /** An unsigned 32-bit quantity (a CRC value, or an `int` read as unsigned). */
  type UInt32 = x: int | 0 <= x < 0x1_0000_0000

  const Int32Max: Int32 := 0x7FFF_FFFF

  /** Java `int` arithmetic: the two's-complement wrap-around of an exact result. */
  function Wrap32(x: int): (r: Int32)
    ensures -TwoTo31 <= x < TwoTo31 ==> r == x
  {
    if -TwoTo31 <= x < TwoTo31 then x
    else
      var u := x % TwoTo32;
      if u < TwoTo31 then u else u - TwoTo32
  }

  /** The wrapped value differs from the exact one by a multiple of 2^32. */
  lemma Wrap32Congruent(x: int)
    ensures (Wrap32(x) - x) % TwoTo32 == 0
  {
  }

  /** Java `a + b` on two ints: at most one wrap either way. */
  function Add32(a: Int32, b: Int32): Int32
  {
    if a + b >= TwoTo31 then a + b - TwoTo32
    else if a + b < -TwoTo31 then a + b + TwoTo32
    else a + b
  }

  /** Java `a - b` on two ints. */
  function Sub32(a: Int32, b: Int32): Int32
  {
    if a - b >= TwoTo31 then a - b - TwoTo32
    else if a - b < -TwoTo31 then a - b + TwoTo32
    else a - b
  }

  /** The one-wrap sums agree with the general wrap-around. */
  lemma {:induction false} Add32Sub32Wrap(a: Int32, b: Int32)
    ensures Add32(a, b) == Wrap32(a + b) && Sub32(a, b) == Wrap32(a - b)
  {
    if a + b >= TwoTo31 {
      assert (a + b) % TwoTo32 == a + b;
    } else if a + b < -TwoTo31 {
      assert (a + b) % TwoTo32 == a + b + TwoTo32;
    }
    if a - b >= TwoTo31 {
      assert (a - b) % TwoTo32 == a - b;
    } else if a - b < -TwoTo31 {
      assert (a - b) % TwoTo32 == a - b + TwoTo32;
    }
  }

  function Zeros(n: nat): (r: Bytes)
    ensures |r| == n
  {
    seq(n, _ => 0)
  }

  /** The four bytes of an unsigned 32-bit value, most significant first. */
  function BE32(u: UInt32): (r: Bytes)
    ensures |r| == 4
  {
    [u / 0x100_0000, (u / 0x1_0000) % 256, (u / 0x100) % 256, u % 256]
  }

  /** The value of four bytes read most significant first. */
  function Unsigned(b0: Byte, b1: Byte, b2: Byte, b3: Byte): (u: UInt32)
  {
    b0 * 0x100_0000 + b1 * 0x1_0000 + b2 * 0x100 + b3
  }

  /**
   * The bytes `writeIntBE` stores for an int: `(byte)(v >>> 24)`, `(byte)(v >>> 16)`,
   * `(byte)(v >>> 8)`, `(byte)v`, i.e. the two's-complement pattern of `v`,
   * most significant byte first (the source's doc comment says little endian;
   * the code is big endian).
   */
  function IntBytesBE(v: Int32): (r: Bytes)
    ensures |r| == 4
  {
    BE32(v % TwoTo32)
  }

  /**
   * `toIntBE(value, offset)`: the four bytes at `offset` assembled most
   * significant first; a top byte of 0x80 or more gives a negative int.
   */
  function ToIntBE(s: Bytes, off: nat): (v: Int32)
    requires off + 4 <= |s|
    ensures v % TwoTo32 == Unsigned(s[off], s[off + 1], s[off + 2], s[off + 3])
    ensures v >= 0 <==> s[off] < 0x80
  {
    Wrap32(Unsigned(s[off], s[off + 1], s[off + 2], s[off + 3]))
  }

  lemma {:induction false} UnsignedOfBE32(u: UInt32)
    ensures var b := BE32(u); Unsigned(b[0], b[1], b[2], b[3]) == u
  {
    var b := BE32(u);
    var q1 := u / 0x100;
    var q2 := u / 0x1_0000;
    assert u == q1 * 0x100 + b[3];
    assert q2 == q1 / 0x100;
    assert q1 == q2 * 0x100 + b[2];
    assert u / 0x100_0000 == q2 / 0x100;
    assert q2 == (b[0] as int) * 0x100 + b[1];
  }

  lemma {:induction false} BE32OfUnsigned(b0: Byte, b1: Byte, b2: Byte, b3: Byte)
    ensures BE32(Unsigned(b0, b1, b2, b3)) == [b0, b1, b2, b3]
  {
    var u := Unsigned(b0, b1, b2, b3);
    var q1 := b0 * 0x1_0000 + b1 * 0x100 + b2;
    var q2 := b0 * 0x100 + b1;
    assert u == q1 * 0x100 + b3;
    assert u / 0x100 == q1 && u % 0x100 == b3;
    assert q1 == q2 * 0x100 + b2;
    assert q1 / 0x100 == q2 && q1 % 0x100 == b2;
    assert u / 0x1_0000 == q2 by {
      assert u == q2 * 0x1_0000 + (b2 * 0x100 + b3);
    }
    assert u / 0x100_0000 == b0 by {
      assert u == b0 * 0x100_0000 + (b1 * 0x1_0000 + b2 * 0x100 + b3);
    }
  }

  /** `toIntBE` inverts `writeIntBE`: the int written is the int read back. */
  lemma {:induction false} ToIntBEOfIntBytes(v: Int32, prefix: Bytes, suffix: Bytes)
    ensures ToIntBE(prefix + IntBytesBE(v) + suffix, |prefix|) == v
  {
    var s := prefix + IntBytesBE(v) + suffix;
    var b := IntBytesBE(v);
    var k := |prefix|;
    assert s[k] == b[0] && s[k + 1] == b[1] && s[k + 2] == b[2] && s[k + 3] == b[3];
    UnsignedOfBE32(v % TwoTo32);
    WrapOfMod(v);
  }

  lemma WrapOfMod(v: Int32)
    ensures Wrap32(v % TwoTo32) == v
  {
  }

  /** Reading four bytes as an int and writing the int back restores the bytes. */
  lemma {:induction false} IntBytesOfToIntBE(s: Bytes, off: nat)
    requires off + 4 <= |s|
    ensures IntBytesBE(ToIntBE(s, off)) == s[off..off + 4]
  {
    BE32OfUnsigned(s[off], s[off + 1], s[off + 2], s[off + 3]);
  }

  /** An unsigned value wrapped to a Java int packs to the same four bytes. */
  lemma {:induction false} IntBytesOfWrapped(u: UInt32)
    ensures IntBytesBE(Wrap32(u)) == BE32(u)
  {
    assert Wrap32(u) % TwoTo32 == u;
  }

  /** `s` with the bytes from `off` on replaced by `p`. */
  function Overwrite(s: Bytes, off: nat, p: Bytes): (r: Bytes)
    requires off + |p| <= |s|
    ensures |r| == |s|
  {
    s[..off] + p + s[off + |p|..]
  }

  /**
   * `writeIntBE(bytes, startoffset, value)`: patches the four bytes at
   * `off` with the big-endian pattern of `v` and leaves every other byte alone.
   */
  method WriteIntBE(a: array<Byte>, off: nat, v: Int32)
    requires off + 4 <= a.Length
    modifies a
    ensures a[..] == Overwrite(old(a[..]), off, IntBytesBE(v))
  {
    var u := v % TwoTo32;
    a[off] := u / 0x100_0000;
    a[off + 1] := (u / 0x1_0000) % 256;
    a[off + 2] := (u / 0x100) % 256;
    a[off + 3] := u % 256;
    assert a[..] == old(a[..off]) + IntBytesBE(v) + old(a[off + 4..]);
  }

  /** A small non-negative int packs to three zero bytes and itself. */
  lemma IntBytesOfByte(v: Int32)
    requires 0 <= v < 256
    ensures IntBytesBE(v) == [0, 0, 0, v]
  {
  }

  /**
   * Overwriting the bytes after `x` in `x + y + z` with `p`, as long as `y`,
   * gives `x + p + z`: the shape of every patch of a template.
   */
  lemma Patched(x: Bytes, y: Bytes, z: Bytes, p: Bytes)
    requires |y| == |p|
    ensures Overwrite(x + y + z, |x|, p) == x + p + z
  {
    assert (x + y + z)[..|x|] == x;
    assert (x + y + z)[|x| + |p|..] == z;
  }

  lemma NoMore(a: Bytes)
    ensures a + [] == a && [] + a == a
  {
  }

  lemma Assoc(a: Bytes, b: Bytes, c: Bytes)
    ensures a + b + c == a + (b + c)
  {
  }

  lemma Regroup(a: Bytes, b: Bytes, c: Bytes, d: Bytes)
    ensures a + (b + c) + d == a + b + (c + d) == (a + b) + c + d
  {
  }

  lemma Append3(a: Bytes, b: Bytes, c: Bytes, d: Bytes)
    ensures a + b + c + d == a + (b + c + d)
  {
  }

  /** Copies a template into a fresh array, as `template.clone()` does. */
  method CloneBytes(t: Bytes) returns (a: array<Byte>)
    ensures fresh(a) && a[..] == t
  {
    a := new Byte[|t|](i requires 0 <= i < |t| => t[i]);
  }

  /** All pieces of a sequence of byte strings, joined in order. */
  function Flatten(ps: seq<Bytes>): (r: Bytes)
    ensures ps == [] ==> r == []
  {
    if ps == [] then [] else Flatten(ps[..|ps| - 1]) + ps[|ps| - 1]
  }

  lemma {:induction false} FlattenAppend(ps: seq<Bytes>, qs: seq<Bytes>)
    ensures Flatten(ps + qs) == Flatten(ps) + Flatten(qs)
    decreases |qs|
  {
    if qs == [] {
      assert ps + qs == ps;
    } else {
      var qs' := qs[..|qs| - 1];
      assert (ps + qs)[..|ps + qs| - 1] == ps + qs';
      FlattenAppend(ps, qs');
    }
  }
}
