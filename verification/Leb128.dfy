// Unsigned LEB128 integers of the Unicode normalization tables: writer, reader, canonical form.
module Leb128 {
  import opened Bytes
  import opened Wrappers

  datatype EncodeError = NegativeValue

  /** The encoding: seven bits a byte, least significant first, high bit set on all but the last byte. */
  function Uleb(v: nat): (r: seq<Byte>) {
    if v < 128 then [v] else [v % 128 + 128] + Uleb(v / 128)
  }

  /** A byte string that ends exactly where its first byte without continuation bit is. */
  predicate Complete(bytes: seq<Byte>) {
    bytes != [] && if |bytes| == 1 then bytes[0] < 128 else bytes[0] >= 128 && Complete(bytes[1..])
  }

  /** What a complete byte string stands for. */
  function Meaning(bytes: seq<Byte>): (v: nat) {
    if bytes == [] then 0 else bytes[0] % 128 + 128 * Meaning(bytes[1..])
  }

  method EncodeUnsigned(value: int) returns (r: Result<seq<Byte>, EncodeError>)
    ensures r == if value < 0 then Failure(NegativeValue) else Success(Uleb(value))
  {
    if value < 0 {
      return Failure(NegativeValue);
    }
    var result: seq<Byte> := [];
    var rest: nat := value;
    while true
      invariant Uleb(value) == result + Uleb(rest)
      decreases rest
    {
      var byte := rest % 128;
      rest := rest / 128;
      if rest != 0 {
        byte := byte + 128;
      }
      result := result + [byte];
      if rest == 0 {
        return Success(result);
      }
    }
  }

  // ---------------------------------------------------------------------------------------------
  // Canonical form

  lemma {:induction false} UlebComplete(v: nat)
    ensures Complete(Uleb(v)) && Meaning(Uleb(v)) == v
    ensures |Uleb(v)| > 1 ==> Uleb(v)[|Uleb(v)| - 1] != 0
    ensures v > 0 ==> Uleb(v) != [0]
  {
    if v >= 128 {
      UlebComplete(v / 128);
      assert Uleb(v)[1..] == Uleb(v / 128);
    }
  }

  lemma {:induction false} MeaningPositive(bytes: seq<Byte>)
    requires bytes != [] && bytes[|bytes| - 1] % 128 != 0
    ensures Meaning(bytes) > 0
  {
    if |bytes| > 1 {
      MeaningPositive(bytes[1..]);
    }
  }

  lemma UlebCons(low: nat, rest: nat)
    requires low < 128
    ensures rest > 0 ==> Uleb(low + 128 * rest) == [low + 128] + Uleb(rest)
    ensures Uleb(low) == [low]
  {
    assert (low + 128 * rest) / 128 == rest && (low + 128 * rest) % 128 == low;
  }

  /** A complete string whose last byte is not a needless zero is the encoding of its value. */
  lemma {:induction false} OnlyCanonical(bytes: seq<Byte>)
    requires Complete(bytes) && (|bytes| > 1 ==> bytes[|bytes| - 1] != 0)
    ensures bytes == Uleb(Meaning(bytes))
  {
    hide Uleb;
    UlebCons(bytes[0] % 128, Meaning(bytes[1..]));
    if |bytes| > 1 {
      var rest := bytes[1..];
      OnlyCanonical(rest);
      LastComplete(rest);
      MeaningPositive(rest);
      assert bytes == [bytes[0]] + rest;
    }
  }

  lemma {:induction false} LastComplete(bytes: seq<Byte>)
    requires Complete(bytes)
    ensures bytes[|bytes| - 1] < 128
  {
    if |bytes| > 1 {
      LastComplete(bytes[1..]);
    }
  }

  /** No complete byte string with the same value is shorter, and only the encoding itself is as short. */
  lemma {:induction false} UlebIsShortest(bytes: seq<Byte>)
    requires Complete(bytes)
    ensures |Uleb(Meaning(bytes))| <= |bytes|
    ensures |Uleb(Meaning(bytes))| == |bytes| ==> Uleb(Meaning(bytes)) == bytes
  {
    hide Uleb;
    UlebCons(bytes[0] % 128, Meaning(bytes[1..]));
    if |bytes| > 1 {
      var rest := bytes[1..];
      UlebIsShortest(rest);
      assert bytes == [bytes[0]] + rest;
    }
  }

  /** Complete strings are prefix free, so a stream of them can be cut in one way only. */
  lemma {:induction false} CompletePrefixFree(a: seq<Byte>, b: seq<Byte>)
    requires Complete(a) && Complete(b) && a <= b
    ensures a == b
  {
    if |a| > 1 {
      assert a[1..] <= b[1..];
      CompletePrefixFree(a[1..], b[1..]);
      assert a == [a[0]] + a[1..] && b == [b[0]] + b[1..];
    } else {
      assert a[0] == b[0];
    }
  }

  lemma UlebPrefixFree(v: nat, w: nat)
    requires Uleb(v) <= Uleb(w)
    ensures v == w
  {
    UlebComplete(v);
    UlebComplete(w);
    CompletePrefixFree(Uleb(v), Uleb(w));
  }

  // ---------------------------------------------------------------------------------------------
  // Reader

  /** The value and the end of the encoded integer at an offset, or nothing when the data ends first. */
  function Read(data: seq<Byte>, offset: nat): (r: Option<(nat, nat)>)
    ensures r.Some? ==> offset < r.value.1 <= |data|
    decreases |data| - offset
  {
    if offset >= |data| then None
    else if data[offset] < 128 then Some((data[offset], offset + 1))
    else match Read(data, offset + 1)
      case None => None
      case Some((value, next)) => Some((data[offset] - 128 + 128 * value, next))
  }

  ghost predicate At(data: seq<Byte>, offset: nat, bytes: seq<Byte>) {
    offset + |bytes| <= |data| && data[offset..offset + |bytes|] == bytes
  }

  lemma {:induction false} ReadUleb(data: seq<Byte>, offset: nat, v: nat)
    requires At(data, offset, Uleb(v))
    ensures Read(data, offset) == Some((v, offset + |Uleb(v)|))
    decreases v
  {
    if v < 128 {
      assert data[offset] == Uleb(v)[0];
    } else {
      UlebHead(data, offset, v);
      ReadUleb(data, offset + 1, v / 128);
    }
  }

  lemma UlebHead(data: seq<Byte>, offset: nat, v: nat)
    requires At(data, offset, Uleb(v))
    ensures offset < |data| && data[offset] == if v < 128 then v else v % 128 + 128
    ensures v >= 128 ==> At(data, offset + 1, Uleb(v / 128)) && |Uleb(v)| == 1 + |Uleb(v / 128)|
  {
    assert data[offset] == data[offset..offset + |Uleb(v)|][0];
    if v >= 128 {
      assert Uleb(v / 128) == Uleb(v)[1..];
      assert data[offset + 1..offset + |Uleb(v)|] == data[offset..offset + |Uleb(v)|][1..];
    }
  }

  // ---------------------------------------------------------------------------------------------
  // Reader of the library, on 32-bit words

  const WORD := 0x1_0000_0000

  /** A shift to the left, before it is cut to the width of a word. */
  function ShiftLeft(x: nat, shift: nat): nat
    decreases shift
  {
    if shift == 0 then x else ShiftLeft(2 * x, shift - 1)
  }

  lemma {:induction false} ShiftSum(x: nat, y: nat, shift: nat)
    ensures ShiftLeft(x + y, shift) == ShiftLeft(x, shift) + ShiftLeft(y, shift)
    decreases shift
  {
    if shift > 0 {
      ShiftSum(2 * x, 2 * y, shift - 1);
      assert 2 * (x + y) == 2 * x + 2 * y;
    }
  }

  lemma ShiftSeven(x: nat, shift: nat)
    ensures ShiftLeft(128 * x, shift) == ShiftLeft(x, shift + 7)
  {
    assert ShiftLeft(x, shift + 7) == ShiftLeft(4 * x, shift + 5) == ShiftLeft(16 * x, shift + 3) == ShiftLeft(64 * x, shift + 1);
  }

  /** A word needs at most five bytes. */
  lemma WordLength(v: nat)
    requires v < WORD
    ensures |Uleb(v)| <= 5
  {
    var (a, b, c, d) := (v / 128, v / 128 / 128, v / 128 / 128 / 128, v / 128 / 128 / 128 / 128);
    assert d < 128;
    assert |Uleb(d)| == 1 && |Uleb(c)| <= 2 && |Uleb(b)| <= 3 && |Uleb(a)| <= 4;
  }

  /** One round: the byte adds its seven bits at the current shift. */
  lemma ReadRound(data: seq<Byte>, position: nat, result: nat, shift: nat, value: nat, next: nat)
    requires Read(data, position).Some? && Read(data, position).value.1 == next
    requires value == result + ShiftLeft(Read(data, position).value.0, shift) < WORD
    ensures position < |data|
    ensures (result + ShiftLeft(data[position] % 128, shift)) % WORD == result + ShiftLeft(data[position] % 128, shift)
    ensures data[position] < 128 ==> value == result + ShiftLeft(data[position] % 128, shift) && next == position + 1
    ensures data[position] >= 128 ==>
      && Read(data, position + 1).Some? && Read(data, position + 1).value.1 == next
      && value == result + ShiftLeft(data[position] % 128, shift) + ShiftLeft(Read(data, position + 1).value.0, shift + 7)
  {
    var low := data[position] % 128;
    if data[position] >= 128 {
      var rest := Read(data, position + 1).value.0;
      ShiftSum(low, 128 * rest, shift);
      ShiftSeven(rest, shift);
    }
  }

  /** The reader stops after five bytes and keeps 32 bits; every integer of a word is read back. */
  method ReadUnsigned(data: seq<Byte>, position: nat) returns (value: nat, next: nat)
    ensures next <= |data| || next == position
    ensures Read(data, position).Some? && Read(data, position).value.0 < WORD && Read(data, position).value.1 <= position + 5 ==>
      Read(data, position) == Some((value, next))
  {
    value, next := 0, position;
    var shift: nat := 0;
    ghost var fits := Read(data, position).Some? && Read(data, position).value.0 < WORD && Read(data, position).value.1 <= position + 5;
    while next < |data| && shift < 32
      invariant next <= |data| || next == position
      invariant fits ==> shift == 7 * (next - position)
      invariant fits ==> Read(data, next).Some? && Read(data, next).value.1 == Read(data, position).value.1
      invariant fits ==> Read(data, position).value.0 == value + ShiftLeft(Read(data, next).value.0, shift)
      decreases |data| - next
    {
      if fits {
        ReadRound(data, next, value, shift, Read(data, position).value.0, Read(data, position).value.1);
      }
      hide Read, ShiftLeft;
      var byte := data[next];
      next := next + 1;
      value := (value + ShiftLeft(byte % 128, shift)) % WORD;
      if byte < 128 {
        return;
      }
      shift := shift + 7;
    }
    assert !fits;
  }
}
