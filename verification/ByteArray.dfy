/**
 `sstd::byte_array`: packs a list of unsigned integers of different widths into
 one array, each in native (little-endian) byte order, one after the other.
 */
module ByteArrays {
  import opened Arithmetic
  import opened Bytes
  import opened Chunks

  /** An argument of the constructor: `value` of an unsigned type `width` bytes wide. */
  datatype Unsigned = Unsigned(value: nat, width: nat) {
    ghost predicate Valid() { value < Pow256(width) }
  }

  ghost predicate AllValid(xs: seq<Unsigned>) {
    forall x <- xs :: x.Valid()
  }

  /** `(0 + ... + sizeof(I))` */
  function TotalWidth(xs: seq<Unsigned>): nat {
    if xs == [] then 0 else xs[0].width + TotalWidth(xs[1..])
  }

  /** The list read as one mixed-radix number, first element least significant. */
  function MixedValue(xs: seq<Unsigned>): nat {
    if xs == [] then 0 else xs[0].value + Pow256(xs[0].width) * MixedValue(xs[1..])
  }

  /** `static_cast<std::byte>(x >> 8 * b)` */
  function ByteAt(x: nat, b: nat): byte {
    (x / Pow256(b)) % 0x100
  }

  lemma {:induction false} ByteAtIsDigit(x: nat, width: nat, b: nat)
    requires b < width
    ensures ToLE(x, width)[b] == ByteAt(x, b)
  {
    if b > 0 {
      ByteAtIsDigit(x / 0x100, width - 1, b - 1);
      DivDiv(x, Pow256(b - 1));
    }
  }

  function Packed(xs: seq<Unsigned>): (bs: seq<byte>)
    ensures |bs| == TotalWidth(xs)
  {
    if xs == [] then [] else ToLE(xs[0].value, xs[0].width) + Packed(xs[1..])
  }

  /** The packed bytes are the base-256 digits of the mixed-radix value. */
  lemma {:induction false} PackedIsMixedValue(xs: seq<Unsigned>)
    requires AllValid(xs)
    ensures FromLE(Packed(xs)) == MixedValue(xs)
    ensures Packed(xs) == ToLE(MixedValue(xs), TotalWidth(xs))
  {
    if xs != [] {
      assert xs[0].Valid();
      PackedIsMixedValue(xs[1..]);
      FromToLE(xs[0].value, xs[0].width);
      FromLEConcat(ToLE(xs[0].value, xs[0].width), Packed(xs[1..]));
    }
    ToFromLE(Packed(xs));
  }

  /** Two lists of the same total width, however split, pack equally iff their values agree. */
  lemma PackedEqualIff(xs: seq<Unsigned>, ys: seq<Unsigned>)
    requires AllValid(xs) && AllValid(ys)
    requires TotalWidth(xs) == TotalWidth(ys)
    ensures Packed(xs) == Packed(ys) <==> MixedValue(xs) == MixedValue(ys)
  {
    PackedIsMixedValue(xs);
    PackedIsMixedValue(ys);
  }

  lemma PackedSnoc(xs: seq<Unsigned>, x: Unsigned)
    ensures TotalWidth(xs + [x]) == TotalWidth(xs) + x.width
    ensures Packed(xs + [x]) == Packed(xs) + ToLE(x.value, x.width)
  {
    hide ToLE;
    PackedConcat(xs, [x]);
    assert [x][1..] == [];
    assert Packed([x]) == ToLE(x.value, x.width) + Packed([]);
    assert |Packed(xs + [x])| == |Packed(xs)| + x.width;
  }

  lemma {:induction false} TotalWidthPrefix(xs: seq<Unsigned>, i: nat)
    requires i < |xs|
    ensures TotalWidth(xs[..i]) + xs[i].width <= TotalWidth(xs)
  {
    if i > 0 {
      TotalWidthPrefix(xs[1..], i - 1);
      assert xs[..i][1..] == xs[1..][..i - 1];
    }
  }

  /** Byte `b` of element `i` lies behind all elements before it, and is that base-256 digit of it. */
  lemma PackedAt(xs: seq<Unsigned>, i: nat, b: nat)
    requires i < |xs| && b < xs[i].width
    ensures TotalWidth(xs[..i]) + b < |Packed(xs)|
    ensures Packed(xs)[TotalWidth(xs[..i]) + b] == xs[i].value / Pow256(b) % 0x100
  {
    hide ToLE, Pow256;
    PackedSnoc(xs[..i], xs[i]);
    assert xs[..i] + [xs[i]] == xs[..i + 1] && xs[..i + 1] + xs[i + 1..] == xs;
    PackedConcat(xs[..i + 1], xs[i + 1..]);
    ByteAtIsDigit(xs[i].value, xs[i].width, b);
  }

  lemma {:induction false} PackedConcat(xs: seq<Unsigned>, ys: seq<Unsigned>)
    ensures Packed(xs + ys) == Packed(xs) + Packed(ys)
    decreases |xs|
  {
    hide ToLE;
    if xs == [] {
      assert xs + ys == ys;
    } else {
      PackedConcat(xs[1..], ys);
      assert (xs + ys)[1..] == xs[1..] + ys;
      Associative(ToLE(xs[0].value, xs[0].width), Packed(xs[1..]), Packed(ys));
    }
  }

  class ByteArray {
    const data: array<byte>

    constructor (message: seq<Unsigned>)
      ensures fresh(data)
      ensures data[..] == Packed(message)
    {
      data := new byte[TotalWidth(message)](_ => 0);
      new;
      var pos := 0;
      for i := 0 to |message|
        invariant pos == TotalWidth(message[..i]) <= data.Length
        invariant data[..pos] == Packed(message[..i])
      {
        TotalWidthPrefix(message, i);
        PackedSnoc(message[..i], message[i]);
        assert message[..i + 1] == message[..i] + [message[i]];
        WriteBytesToPos(pos, message[i]);
        pos := pos + message[i].width;
      }
      assert message[..|message|] == message;
    }

    method WriteBytesToPos(pos: nat, x: Unsigned)
      requires pos + x.width <= data.Length
      modifies data
      ensures data[..pos] == old(data[..pos])
      ensures data[pos..pos + x.width] == ToLE(x.value, x.width)
      ensures data[..pos + x.width] == old(data[..pos]) + ToLE(x.value, x.width)
    {
      for b := 0 to x.width
        invariant data[..pos] == old(data[..pos])
        invariant data[pos..pos + b] == ToLE(x.value, x.width)[..b]
      {
        ByteAtIsDigit(x.value, x.width, b);
        data[pos + b] := ByteAt(x.value, b);
      }
    }
  }
}
