// The MSB-first bitstream of the public suffix generator.
module BitStream {
  import opened Wrappers

  /** The bit at a position of a byte string, most significant bit of every byte first. */
  function BitAt(data: seq<bv8>, position: nat): bool
    requires position < 8 * |data|
  {
    Bit(data[position / 8], position % 8)
  }

  function Bit(byte: bv8, offset: nat): bool
    requires offset < 8
  {
    (byte >> (7 - offset)) & 1 == 1
  }

  /** The first n bits of a byte string. */
  function BitsOf(data: seq<bv8>, n: nat): (r: seq<bool>)
    requires n <= 8 * |data|
  {
    seq(n, i requires 0 <= i < n => BitAt(data, i))
  }

  /** The low bits of a code, most significant bit first. */
  function CodeBits(code: nat, length: nat): (r: seq<bool>)
    ensures |r| == length
  {
    if length == 0 then [] else CodeBits(code / 2, length - 1) + [code % 2 == 1]
  }

  function ShiftRight(code: nat, shift: nat): nat {
    if shift == 0 then code else ShiftRight(code / 2, shift - 1)
  }

  /** Shifting right and masking reads the bit that CodeBits puts at the mirrored place. */
  lemma {:induction false} CodeBitAt(code: nat, length: nat, shift: nat)
    requires shift < length
    ensures (ShiftRight(code, shift) % 2 == 1) == CodeBits(code, length)[length - 1 - shift]
  {
    if shift > 0 {
      CodeBitAt(code / 2, length - 1, shift - 1);
    }
  }

  lemma OrBits(x: bv8, y: bv8, k: nat)
    requires k < 8
    ensures ((x | y) >> k) & 1 == ((x >> k) & 1) | ((y >> k) & 1)
  {}

  lemma OneBit(a: nat, b: nat)
    requires a < 8 && b < 8
    ensures (((1 as bv8) << a) >> b) & 1 == if a == b then 1 else 0
  {}

  lemma SetBit(byte: bv8, offset: nat, other: nat)
    requires offset < 8 && other < 8
    ensures Bit(byte | ((1 as bv8) << (7 - offset)), other) == (other == offset || Bit(byte, other))
  {
    OrBits(byte, (1 as bv8) << (7 - offset), 7 - other);
    OneBit(7 - offset, 7 - other);
  }

  /** A byte string that holds n bits and nothing else: no spare byte, and unused bits are zero. */
  ghost predicate Holds(data: seq<bv8>, n: nat) {
    && |data| == (n + 7) / 8
    && forall i {:trigger BitAt(data, i)} :: n <= i < 8 * |data| ==> !BitAt(data, i)
  }

  lemma HoldsSize(data: seq<bv8>, n: nat)
    requires Holds(data, n)
    ensures |data| == (n + 7) / 8
  {}

  /** One step of the writer on its two fields. */
  function Appended(data: seq<bv8>, n: nat, bit: bool): (r: seq<bv8>)
    requires |data| == (n + 7) / 8
  {
    var d := if n % 8 == 0 then data + [0] else data;
    if bit then d[|d| - 1 := d[|d| - 1] | ((1 as bv8) << (7 - n % 8))] else d
  }

  lemma AppendedAt(data: seq<bv8>, n: nat, bit: bool, i: nat)
    requires Holds(data, n)
    requires i < 8 * |Appended(data, n, bit)|
    ensures BitAt(Appended(data, n, bit), i) == if i < n then BitAt(data, i) else i == n && bit
  {
    var r := Appended(data, n, bit);
    var d := if n % 8 == 0 then data + [0] else data;
    assert 8 * |d| > n && |d| - 1 == n / 8;
    assert BitAt(d, i) == (i < n && BitAt(data, i)) by {
      if i < 8 * |data| {
        hide Bit;
        assert d[i / 8] == data[i / 8];
        assert i < n || !BitAt(data, i);
      } else {
        assert d[i / 8] == 0;
      }
    }
    hide Bit;
    if bit {
      SetBit(d[|d| - 1], n % 8, i % 8);
      assert i == n <==> i / 8 == |d| - 1 && i % 8 == n % 8;
    }
  }

  lemma AppendedBits(data: seq<bv8>, n: nat, bit: bool)
    requires Holds(data, n)
    ensures var r := Appended(data, n, bit); Holds(r, n + 1) && BitsOf(r, n + 1) == BitsOf(data, n) + [bit]
  {
    var r := Appended(data, n, bit);
    assert |r| == (n + 8) / 8;
    forall i: nat | i < 8 * |r|
      ensures BitAt(r, i) == if i < n then BitAt(data, i) else i == n && bit
    {
      AppendedAt(data, n, bit, i);
    }
    assert BitsOf(r, n + 1) == BitsOf(data, n) + [bit];
  }

  class BitWriter {
    var data: seq<bv8>
    var bitLength: nat

    ghost predicate Valid()
      reads this
    {
      Holds(data, bitLength)
    }

    /** The bits written so far. */
    ghost function Bits(): seq<bool>
      reads this
      requires Valid()
    {
      BitsOf(data, bitLength)
    }

    constructor ()
      ensures Valid() && Bits() == []
    {
      data := [];
      bitLength := 0;
    }

    /** One round of the loop in Write. */
    method WriteBit(bit: bool)
      requires Valid()
      modifies this
      ensures Valid() && bitLength == old(bitLength) + 1
      ensures Bits() == old(Bits()) + [bit]
    {
      hide Holds, BitsOf, BitAt;
      HoldsSize(data, bitLength);
      AppendedBits(data, bitLength, bit);
      if bitLength % 8 == 0 {
        data := data + [0];
      }
      if bit {
        data := data[|data| - 1 := data[|data| - 1] | ((1 as bv8) << (7 - bitLength % 8))];
      }
      bitLength := bitLength + 1;
    }

    /** Append the low bits of a code, the most significant of them first. */
    method Write(code: nat, length: nat)
      requires Valid()
      modifies this
      ensures Valid() && bitLength == old(bitLength) + length
      ensures Bits() == old(Bits()) + CodeBits(code, length)
    {
      ghost var bits := CodeBits(code, length);
      for shift := length downto 0
        invariant Valid() && bitLength == old(bitLength) + length - shift
        invariant Bits() == old(Bits()) + bits[..length - shift]
      {
        CodeBitAt(code, length, shift);
        hide *;
        WriteBit(ShiftRight(code, shift) % 2 == 1);
        assert bits[..length - shift] == bits[..length - 1 - shift] + [bits[length - 1 - shift]];
      }
      assert bits[..length] == bits;
    }
  }

  /** Reading past the end of the bytes raises an IndexError. */
  class BitReader {
    const data: seq<bv8>
    var bitPosition: nat

    constructor (data: seq<bv8>, bitPosition: nat)
      ensures this.data == data && this.bitPosition == bitPosition
    {
      this.data := data;
      this.bitPosition := bitPosition;
    }

    method Read() returns (bit: Option<bool>)
      modifies this
      ensures old(bitPosition) < 8 * |data| ==>
                bit == Some(BitsOf(data, 8 * |data|)[old(bitPosition)]) && bitPosition == old(bitPosition) + 1
      ensures old(bitPosition) >= 8 * |data| ==> bit == None && bitPosition == old(bitPosition)
    {
      if bitPosition / 8 >= |data| {
        return None;
      }
      var byte := data[bitPosition / 8];
      bit := Some((byte >> (7 - bitPosition % 8)) & 1 == 1);
      bitPosition := bitPosition + 1;
    }
  }
}
