/**
 Bytes, fixed-width integers, their little-endian memory images, and the two
 primitive buffer operations the wire layer is written with: a `resize` that
 leaves new bytes unspecified, and `memcpy` into the middle of a buffer.
 */
module Bytes {
  import opened Arithmetic

  type byte = x: int | 0 <= x < 0x100
  type u16 = x: int | 0 <= x < 0x1_0000
  type u32 = x: int | 0 <= x < 0x1_0000_0000
  type i32 = x: int | -0x8000_0000 <= x < 0x8000_0000

  // ---------- Little-endian memory images ----------

  /** 256 to the power `n`. */
  function Pow256(n: nat): (p: nat)
    ensures p > 0
  {
    if n == 0 then 1 else 0x100 * Pow256(n - 1)
  }

  /** The low `width` bytes of `v`, least significant first. */
  function ToLE(v: nat, width: nat): (bs: seq<byte>)
    ensures |bs| == width
  {
    if width == 0 then [] else [v % 0x100] + ToLE(v / 0x100, width - 1)
  }

  /** The number whose base-256 digits are `bs`, least significant first. */
  function FromLE(bs: seq<byte>): (v: nat)
    ensures v < Pow256(|bs|)
  {
    if bs == [] then 0 else bs[0] + 0x100 * FromLE(bs[1..])
  }

  lemma {:induction false} FromToLE(v: nat, width: nat)
    requires v < Pow256(width)
    ensures FromLE(ToLE(v, width)) == v
  {
    if width > 0 {
      FromToLE(v / 0x100, width - 1);
      assert ToLE(v, width)[1..] == ToLE(v / 0x100, width - 1);
    }
  }

  lemma {:induction false} ToFromLE(bs: seq<byte>)
    ensures ToLE(FromLE(bs), |bs|) == bs
  {
    hide Pow256;
    if bs != [] {
      ToFromLE(bs[1..]);
      DigitAndRest(bs[0], FromLE(bs[1..]));
      assert bs == [bs[0]] + bs[1..];
    }
  }

  lemma {:induction false} FromLEConcat(a: seq<byte>, b: seq<byte>)
    ensures FromLE(a + b) == FromLE(a) + Pow256(|a|) * FromLE(b)
  {
    if a == [] {
      assert a + b == b;
    } else {
      FromLEConcat(a[1..], b);
      assert (a + b)[1..] == a[1..] + b;
      MulAssociative(0x100, Pow256(|a| - 1), FromLE(b));
    }
  }

  function U16(bs: seq<byte>): u16
    requires |bs| == 2
  {
    assert Pow256(2) == 0x1_0000;
    FromLE(bs)
  }

  function U32(bs: seq<byte>): u32
    requires |bs| == 4
  {
    assert Pow256(4) == 0x1_0000_0000;
    FromLE(bs)
  }

  function LE16(v: u16): (bs: seq<byte>)
    ensures |bs| == 2 && U16(bs) == v
  {
    assert Pow256(2) == 0x1_0000;
    FromToLE(v, 2);
    ToLE(v, 2)
  }

  function LE32(v: u32): (bs: seq<byte>)
    ensures |bs| == 4 && U32(bs) == v
  {
    assert Pow256(4) == 0x1_0000_0000;
    FromToLE(v, 4);
    ToLE(v, 4)
  }

  lemma LE16OfU16(bs: seq<byte>)
    requires |bs| == 2
    ensures LE16(U16(bs)) == bs
  {
    ToFromLE(bs);
  }

  lemma LE32OfU32(bs: seq<byte>)
    requires |bs| == 4
    ensures LE32(U32(bs)) == bs
  {
    ToFromLE(bs);
  }

  /** Least significant byte first. */
  lemma LittleEndian(bs: seq<byte>)
    ensures |bs| == 2 ==> U16(bs) as int == bs[0] as int + 0x100 * bs[1] as int
    ensures |bs| == 4 ==>
              U32(bs) as int ==
              bs[0] as int + 0x100 * bs[1] as int + 0x1_0000 * bs[2] as int + 0x100_0000 * bs[3] as int
  {
    hide FromLE;
    if |bs| == 2 {
      FirstDigit(bs);
      FirstDigit(bs[1..]);
      assert bs[1..][1..] == [];
    } else if |bs| == 4 {
      FirstDigit(bs);
      FirstDigit(bs[1..]);
      FirstDigit(bs[2..]);
      FirstDigit(bs[3..]);
      assert bs[1..][1..] == bs[2..] && bs[2..][1..] == bs[3..] && bs[3..][1..] == [];
    }
  }

  lemma FirstDigit(bs: seq<byte>)
    requires bs != []
    ensures FromLE(bs) as int == bs[0] as int + 0x100 * FromLE(bs[1..])
    ensures FromLE([]) == 0
  {
  }

  // ---------- Narrowing ----------

  /** `static_cast<std::uint16_t>`. */
  function Narrow16(v: nat): u16 { v % 0x1_0000 }

  /** `static_cast<std::uint32_t>`. */
  function Narrow32(v: nat): u32 { v % 0x1_0000_0000 }

  // ---------- Buffers ----------

  /** `buf` after `memcpy`ing `data` to position `at`. */
  function Overwrite(buf: seq<byte>, at: nat, data: seq<byte>): (r: seq<byte>)
    requires at + |data| <= |buf|
    ensures |r| == |buf|
  {
    buf[..at] + data + buf[at + |data|..]
  }

  /** Storage obtained from the default-init allocator: callers know its size, nothing else. */
  method Uninitialized(n: nat) returns (bytes: seq<byte>)
    ensures |bytes| == n
  {
    bytes := [];
    while |bytes| < n
      invariant |bytes| <= n
    {
      var b: byte := *;
      bytes := bytes + [b];
    }
  }

  /** `resize`: truncates, or keeps the old bytes and adds unspecified ones. */
  method Resize(buf: seq<byte>, n: nat) returns (r: seq<byte>)
    ensures |r| == n
    ensures n <= |buf| ==> r == buf[..n]
    ensures n >= |buf| ==> r[..|buf|] == buf
  {
    if n <= |buf| {
      r := buf[..n];
    } else {
      var added := Uninitialized(n - |buf|);
      r := buf + added;
    }
  }
}
