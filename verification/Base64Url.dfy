// Base64url without padding (section 5 of RFC 4648), as the authentication records use it.
module Base64Url {
  import opened Powers
  import opened Bytes
  import opened Wrappers
  import opened BitStream

  function CharacterFor(value: nat): char
    requires value < 64
  {
    if value < 26 then 'A' + value as char
    else if value < 52 then 'a' + (value - 26) as char
    else if value < 62 then '0' + (value - 52) as char
    else if value == 62 then '-' else '_'
  }

  function ValueFor(c: char): (r: Option<nat>)
    ensures r.Some? ==> r.value < 64 && CharacterFor(r.value) == c
  {
    if 'A' <= c <= 'Z' then Some((c - 'A') as nat)
    else if 'a' <= c <= 'z' then Some((c - 'a') as nat + 26)
    else if '0' <= c <= '9' then Some((c - '0') as nat + 52)
    else if c == '-' then Some(62)
    else if c == '_' then Some(63)
    else None
  }

  lemma ValueBack(value: nat)
    requires value < 64
    ensures ValueFor(CharacterFor(value)) == Some(value)
  {}

  /** The alphabet as the format lists it. */
  function Capitals(): string {
    "ABCDEFGHIJKLMNOPQRSTUVWXYZ"
  }

  function Smalls(): string {
    "abcdefghijklmnopqrstuvwxyz"
  }

  function Others(): string {
    "0123456789-_"
  }

  lemma CapitalAt(value: nat)
    ensures |Capitals()| == 26
    ensures value < 26 ==> CharacterFor(value) == Capitals()[value]
  {}

  lemma SmallAt(value: nat)
    ensures |Smalls()| == 26
    ensures 26 <= value < 52 ==> CharacterFor(value) == Smalls()[value - 26]
  {}

  lemma OtherAt(value: nat)
    ensures |Others()| == 12
    ensures 52 <= value < 64 ==> CharacterFor(value) == Others()[value - 52]
  {}

  /** The character of a value is the one at its place in the alphabet. */
  lemma AlphabetIs(value: nat)
    requires value < 64
    ensures |Capitals() + Smalls() + Others()| == 64
    ensures CharacterFor(value) == (Capitals() + Smalls() + Others())[value]
  {
    hide Capitals, Smalls, Others, CharacterFor;
    CapitalAt(value);
    SmallAt(value);
    OtherAt(value);
  }

  // ---------------------------------------------------------------------------------------------
  // Numbers and their bits

  /** The number that bits stand for, most significant first. */
  function Value(bits: seq<bool>): nat {
    if bits == [] then 0 else 2 * Value(bits[..|bits| - 1]) + (if bits[|bits| - 1] then 1 else 0)
  }

  function Zeros(n: nat): (r: seq<bool>)
    ensures |r| == n
  {
    seq(n, i => false)
  }

  lemma {:induction false} ValueOfCode(code: nat, length: nat)
    ensures Value(CodeBits(code, length)) == code % Pow2(length)
    ensures code < Pow2(length) ==> Value(CodeBits(code, length)) == code
  {
    if length > 0 {
      ValueOfCode(code / 2, length - 1);
      var (front, p) := (CodeBits(code / 2, length - 1), Pow2(length - 1));
      assert CodeBits(code, length)[..length - 1] == front;
      HalfModulo(code, p);
    }
  }

  lemma HalfModulo(code: nat, p: nat)
    requires p > 0
    ensures code % (2 * p) == 2 * ((code / 2) % p) + code % 2
    ensures code < 2 * p <==> code / 2 < p
  {
    var (h, q) := (code / 2, code / 2 / p);
    assert h == q * p + h % p;
    assert code == q * (2 * p) + (2 * (h % p) + code % 2);
    ModuloIs(code, 2 * p, q, 2 * (h % p) + code % 2);
  }

  lemma Multiple(d: int, m: nat)
    requires m > 0
    ensures d >= 1 ==> d * m >= m
    ensures d <= -1 ==> d * m + m <= 0
  {
    if d >= 1 {
      assert d * m == (d - 1) * m + m;
    } else if d <= -1 {
      assert d * m == (d + 1) * m - m;
    }
  }

  lemma OneQuotient(a: int, q: int, b: nat, r: nat, m: nat)
    requires b < m && r < m && a * m + b == q * m + r
    ensures b == r
  {
    assert (a - q) * m == r - b;
    Multiple(a - q, m);
  }

  lemma ModuloIs(x: nat, m: nat, q: nat, r: nat)
    requires m > 0 && x == q * m + r && r < m
    ensures x % m == r
  {
    assert x == (x / m) * m + x % m;
    OneQuotient(x / m, q, x % m, r, m);
  }

  lemma {:induction false} ValueBelow(bits: seq<bool>)
    ensures Value(bits) < Pow2(|bits|)
  {
    if bits != [] {
      ValueBelow(bits[..|bits| - 1]);
    }
  }

  lemma {:induction false} CodeOfValue(bits: seq<bool>)
    ensures CodeBits(Value(bits), |bits|) == bits
  {
    if bits != [] {
      CodeOfValue(bits[..|bits| - 1]);
      assert bits == bits[..|bits| - 1] + [bits[|bits| - 1]];
    }
  }

  /** Low bits after a shift: the accumulator of both loops. */
  lemma {:induction false} CodeSplit(code: nat, high: nat, low: nat)
    ensures CodeBits(code, high + low) == CodeBits(ShiftRight(code, low), high) + CodeBits(code, low)
  {
    if low > 0 {
      CodeSplit(code / 2, high, low - 1);
    } else {
      assert CodeBits(code, high) + [] == CodeBits(code, high);
    }
  }

  lemma {:induction false} CodeMasked(code: nat, length: nat)
    ensures CodeBits(code % Pow2(length), length) == CodeBits(code, length)
  {
    if length > 0 {
      HalfModulo(code, Pow2(length - 1));
      CodeMasked(code / 2, length - 1);
      var m := code % Pow2(length);
      assert m / 2 == (code / 2) % Pow2(length - 1) && m % 2 == code % 2;
    }
  }

  lemma {:induction false} ShiftedIn(accumulator: nat, value: nat, width: nat)
    requires value < Pow2(width)
    ensures ShiftRight(accumulator * Pow2(width) + value, width) == accumulator
    decreases width
  {
    if width > 0 {
      var p := Pow2(width - 1);
      assert accumulator * (2 * p) == 2 * (accumulator * p);
      assert (accumulator * Pow2(width) + value) / 2 == accumulator * p + value / 2;
      ShiftedIn(accumulator, value / 2, width - 1);
    }
  }

  /** Appending a group of bits to an accumulator. */
  lemma Accumulated(accumulator: nat, available: nat, value: nat, width: nat)
    requires value < Pow2(width)
    ensures CodeBits(accumulator * Pow2(width) + value, available + width) == CodeBits(accumulator, available) + CodeBits(value, width)
  {
    var code := accumulator * Pow2(width) + value;
    CodeSplit(code, available, width);
    ShiftedIn(accumulator, value, width);
    CodeMasked(code, width);
    ModuloIs(code, Pow2(width), accumulator, value);
  }

  // ---------------------------------------------------------------------------------------------
  // Groups of bits

  ghost predicate Below(values: seq<nat>, bound: nat) {
    forall i :: 0 <= i < |values| ==> values[i] < bound
  }

  function GroupBits(values: seq<nat>, width: nat): seq<bool> {
    if values == [] then [] else CodeBits(values[0], width) + GroupBits(values[1..], width)
  }

  /** The numbers of the complete groups. */
  function Groups(bits: seq<bool>, width: nat): seq<nat>
    requires width > 0
  {
    if |bits| < width then [] else [Value(bits[..width])] + Groups(bits[width..], width)
  }

  lemma {:induction false} GroupBitsAppend(values: seq<nat>, v: nat, width: nat)
    ensures GroupBits(values + [v], width) == GroupBits(values, width) + CodeBits(v, width)
  {
    hide CodeBits;
    if values == [] {
      assert values + [v] == [v] && [v][1..] == [];
    } else {
      GroupBitsAppend(values[1..], v, width);
      assert (values + [v])[1..] == values[1..] + [v];
    }
  }

  lemma {:induction false} GroupBitsLength(values: seq<nat>, width: nat)
    ensures width == 6 ==> |GroupBits(values, width)| == 6 * |values|
    ensures width == 8 ==> |GroupBits(values, width)| == 8 * |values|
  {
    hide CodeBits;
    if values != [] {
      GroupBitsLength(values[1..], width);
    }
  }

  /** Cutting bits into groups finds the numbers they were made of. */
  lemma {:induction false} GroupsBack(values: seq<nat>, width: nat, rest: seq<bool>)
    requires width > |rest| && Below(values, Pow2(width))
    ensures Groups(GroupBits(values, width) + rest, width) == values
  {
    hide CodeBits, Pow2, Value;
    if values == [] {
      assert [] + rest == rest;
    } else {
      var bits := GroupBits(values, width) + rest;
      var (head, tail) := (CodeBits(values[0], width), GroupBits(values[1..], width) + rest);
      assert bits == head + tail;
      assert bits[..width] == head && bits[width..] == tail;
      ValueOfCode(values[0], width);
      GroupsBack(values[1..], width, rest);
      assert values == [values[0]] + values[1..];
    }
  }

  // ---------------------------------------------------------------------------------------------
  // The encoding and its inverse

  function Padding(n: nat): nat {
    (6 - n % 6) % 6
  }

  function Characters(values: seq<nat>): (r: string)
    requires Below(values, 64)
    ensures |r| == |values|
  {
    if values == [] then [] else [CharacterFor(values[0])] + Characters(values[1..])
  }

  function Values(text: string): (r: Option<seq<nat>>)
    ensures r.Some? ==> |r.value| == |text| && Below(r.value, 64)
  {
    if text == [] then Some([])
    else match ValueFor(text[0])
      case None => None
      case Some(v) =>
        match Values(text[1..])
        case None => None
        case Some(rest) => Some([v] + rest)
  }

  lemma {:induction false} GroupsBelow(bits: seq<bool>, width: nat)
    requires width > 0
    ensures Below(Groups(bits, width), Pow2(width))
  {
    if |bits| >= width {
      ValueBelow(bits[..width]);
      GroupsBelow(bits[width..], width);
    }
  }

  lemma PowersAre()
    ensures Pow2(6) == 64 && Pow2(8) == 256
  {
    assert Pow2(2) == 4 && Pow2(4) == 16;
  }

  /** Six-bit groups of the bits of the data, the last one filled with zeros. */
  function Symbols(data: seq<Byte>): (r: seq<nat>)
    ensures Below(r, 64)
  {
    var bits := GroupBits(data, 8);
    var padded := bits + Zeros(Padding(|bits|));
    GroupsBelow(padded, 6);
    PowersAre();
    Groups(padded, 6)
  }

  function Base64(data: seq<Byte>): string {
    Characters(Symbols(data))
  }

  function AsBytes(values: seq<nat>): (r: seq<Byte>)
    requires Below(values, 256)
    ensures r == values
  {
    seq(|values|, i requires 0 <= i < |values| => values[i])
  }

  datatype DecodeError = OutsideAlphabet | FinalGroup | TooLong | TrailingBits | NotCanonical

  /** The whole bytes of the bits of the text; what is left over must be fewer than six zeros. */
  function Decoded(text: string, maximum: nat): Result<seq<Byte>, DecodeError> {
    match Values(text)
    case None => Failure(OutsideAlphabet)
    case Some(values) =>
      var bits := GroupBits(values, 6);
      if |text| % 4 == 1 then Failure(FinalGroup)
      else if 6 * |text| / 8 > maximum then Failure(TooLong)
      else
        var bytes := Groups(bits, 8);
        GroupsBelow(bits, 8);
        PowersAre();
        if bits == GroupBits(bytes, 8) + Zeros(6 * |text| % 8) then Success(AsBytes(bytes)) else Failure(TrailingBits)
  }

  lemma {:induction false} ValuesOfCharacters(values: seq<nat>)
    requires Below(values, 64)
    ensures Values(Characters(values)) == Some(values)
  {
    hide CharacterFor, ValueFor;
    if values != [] {
      ValueBack(values[0]);
      ValuesOfCharacters(values[1..]);
      assert values == [values[0]] + values[1..];
    }
  }

  lemma {:induction false} CharactersOfValues(text: string)
    requires Values(text).Some?
    ensures Characters(Values(text).value) == text
  {
    hide CharacterFor, ValueFor;
    if text != [] {
      CharactersOfValues(text[1..]);
      assert text == [text[0]] + text[1..];
    }
  }

  lemma {:induction false} GroupsLength(bits: seq<bool>, width: nat)
    requires width == 6 || width == 8
    ensures |Groups(bits, width)| == |bits| / width
  {
    hide Value;
    if |bits| >= width {
      GroupsLength(bits[width..], width);
    }
  }

  /** Bits that fill their groups are the bits of the numbers of the groups. */
  lemma {:induction false} BitsBack(bits: seq<bool>, width: nat)
    requires (width == 6 || width == 8) && |bits| % width == 0
    ensures GroupBits(Groups(bits, width), width) == bits
  {
    hide CodeBits, Value;
    if |bits| >= width {
      CodeOfValue(bits[..width]);
      BitsBack(bits[width..], width);
      assert bits == bits[..width] + bits[width..];
    }
  }

  lemma PaddingOf(q: nat, r: nat)
    requires r < 3
    ensures Padding(24 * q + 8 * r) == if r == 0 then 0 else if r == 1 then 4 else 2
  {
    var n := 24 * q + 8 * r;
    assert n % 6 == if r == 0 then 0 else if r == 1 then 2 else 4;
  }

  lemma Quotients(q: nat, r: nat)
    requires r < 4 && r != 1
    ensures (24 * q + 6 * r) / 6 == 4 * q + r && (4 * q + r) % 4 == r
    ensures (24 * q + 6 * r) % 8 == if r == 0 then 0 else if r == 2 then 4 else 2
  {}

  /** The padded bits of whole bytes fill groups of six; a last group of a single symbol never occurs. */
  lemma PaddedFits(n: nat)
    requires n % 8 == 0
    ensures (n + Padding(n)) % 6 == 0 && Padding(n) < 6
    ensures n + Padding(n) == 6 * ((n + Padding(n)) / 6)
    ensures (n + Padding(n)) % 8 == Padding(n) && (n + Padding(n)) / 6 % 4 != 1
  {
    var (q, r) := (n / 24, n % 24 / 8);
    assert n == 24 * q + 8 * r;
    PaddingOf(q, r);
    Quotients(q, if r == 0 then 0 else r + 1);
  }

  lemma SymbolBits(data: seq<Byte>)
    ensures var n := |GroupBits(data, 8)|;
      && n == 8 * |data| && |Symbols(data)| == (n + Padding(n)) / 6
      && GroupBits(Symbols(data), 6) == GroupBits(data, 8) + Zeros(Padding(n))
  {
    hide CodeBits, Groups, GroupBits, Padding, Pow2;
    var bits := GroupBits(data, 8);
    GroupBitsLength(data, 8);
    PaddedFits(|bits|);
    BitsBack(bits + Zeros(Padding(|bits|)), 6);
    GroupsLength(bits + Zeros(Padding(|bits|)), 6);
  }

  lemma BytesBelow(data: seq<Byte>)
    ensures Below(data, Pow2(8))
  {
    PowersAre();
  }

  /** Decoding undoes encoding, for all data within the limit. */
  lemma Base64RoundTrip(data: seq<Byte>, maximum: nat)
    requires |data| <= maximum
    ensures Decoded(Base64(data), maximum) == Success(data)
  {
    var (symbols, n) := (Symbols(data), 8 * |data|);
    hide CodeBits, Groups, GroupBits, CharacterFor, Characters, Values, Symbols, Pow2, Zeros, Padding;
    ValuesOfCharacters(symbols);
    SymbolBits(data);
    PaddedFits(n);
    BytesBelow(data);
    GroupsBack(data, 8, Zeros(Padding(n)));
    assert 6 * |symbols| % 8 == Padding(n) && 6 * |symbols| / 8 == |data|;
  }

  /** Only canonical text is decoded: encoding the result gives the text back. */
  lemma DecodedIsCanonical(text: string, maximum: nat)
    requires Decoded(text, maximum).Success?
    ensures Base64(Decoded(text, maximum).value) == text && |Decoded(text, maximum).value| <= maximum
  {
    var values := Values(text).value;
    var data := Decoded(text, maximum).value;
    var n := |GroupBits(data, 8)|;
    hide CodeBits, Groups, CharacterFor, Characters, Values, Pow2, Value, Symbols, Padding;
    GroupBitsLength(values, 6);
    GroupBitsLength(data, 8);
    LeftOver(|text|, |data|);
    PowersAre();
    GroupsBack(values, 6, []);
    assert GroupBits(values, 6) + [] == GroupBits(values, 6);
    SymbolsIs(data, values);
    CharactersOfValues(text);
  }

  lemma LeftOver(symbols: nat, bytes: nat)
    requires symbols % 4 != 1 && 6 * symbols == 8 * bytes + 6 * symbols % 8
    ensures 6 * symbols % 8 == Padding(8 * bytes) && bytes == 6 * symbols / 8
  {
    hide Padding;
    var (q, r) := (symbols / 4, symbols % 4);
    assert 6 * symbols == 8 * (3 * q) + 6 * r;
    WholeBytes(3 * q, 6 * r);
    PaddingOf(q, if r == 0 then 0 else r - 1);
  }

  lemma WholeBytes(k: nat, x: nat)
    ensures (8 * k + x) % 8 == x % 8 && (8 * k + x) / 8 == k + x / 8
  {}

  lemma SymbolsIs(data: seq<Byte>, values: seq<nat>)
    requires GroupBits(values, 6) == GroupBits(data, 8) + Zeros(Padding(|GroupBits(data, 8)|))
    requires Groups(GroupBits(values, 6), 6) == values
    ensures Symbols(data) == values
  {}

  // ---------------------------------------------------------------------------------------------
  // Bits left over between two groups

  lemma Associative(a: seq<bool>, b: seq<bool>, c: seq<bool>)
    ensures (a + b) + c == a + (b + c)
  {}

  lemma NothingAdded(a: seq<bool>)
    ensures a + [] == a && Zeros(0) == []
  {}

  /** Groups of one width on the left are groups of the other on the right, and a few low bits of a number. */
  ghost predicate Pending(from: seq<nat>, wide: nat, to: seq<nat>, narrow: nat, accumulator: nat, available: nat) {
    GroupBits(from, wide) == GroupBits(to, narrow) + CodeBits(accumulator, available)
  }

  lemma PendingFirst(wide: nat, narrow: nat)
    ensures Pending([], wide, [], narrow, 0, 0)
  {}

  lemma TakeIn(from: seq<nat>, wide: nat, to: seq<nat>, narrow: nat, accumulator: nat, available: nat, value: nat)
    requires Pending(from, wide, to, narrow, accumulator, available) && value < Pow2(wide)
    ensures Pending(from + [value], wide, to, narrow, accumulator * Pow2(wide) + value, available + wide)
  {
    hide GroupBits, CodeBits, Pow2;
    GroupBitsAppend(from, value, wide);
    Accumulated(accumulator, available, value, wide);
    Associative(GroupBits(to, narrow), CodeBits(accumulator, available), CodeBits(value, wide));
  }

  lemma GiveOut(from: seq<nat>, wide: nat, to: seq<nat>, narrow: nat, accumulator: nat, available: nat)
    requires Pending(from, wide, to, narrow, accumulator, available) && available >= narrow
    ensures Pending(from, wide, to + [ShiftRight(accumulator, available - narrow) % Pow2(narrow)], narrow, accumulator, available - narrow)
  {
    hide GroupBits, CodeBits, Pow2, ShiftRight;
    var (high, rest) := (ShiftRight(accumulator, available - narrow), available - narrow);
    CodeSplit(accumulator, narrow, rest);
    CodeMasked(high, narrow);
    GroupBitsAppend(to, high % Pow2(narrow), narrow);
    Associative(GroupBits(to, narrow), CodeBits(high, narrow), CodeBits(accumulator, rest));
  }

  lemma MaskLow(from: seq<nat>, wide: nat, to: seq<nat>, narrow: nat, accumulator: nat, available: nat)
    requires Pending(from, wide, to, narrow, accumulator, available)
    ensures Pending(from, wide, to, narrow, accumulator % Pow2(available), available)
  {
    hide GroupBits, CodeBits, Pow2;
    CodeMasked(accumulator, available);
  }

  lemma {:induction false} ZeroCode(n: nat)
    ensures CodeBits(0, n) == Zeros(n)
  {
    if n > 0 {
      ZeroCode(n - 1);
      assert Zeros(n) == Zeros(n - 1) + [false];
    }
  }

  lemma PendingLength(from: seq<nat>, to: seq<nat>, accumulator: nat, available: nat)
    ensures Pending(from, 8, to, 6, accumulator, available) ==> 8 * |from| == 6 * |to| + available
    ensures Pending(from, 6, to, 8, accumulator, available) ==> 6 * |from| == 8 * |to| + available
  {
    GroupBitsLength(from, 8);
    GroupBitsLength(to, 6);
    GroupBitsLength(from, 6);
    GroupBitsLength(to, 8);
    hide GroupBits, CodeBits;
  }

  // ---------------------------------------------------------------------------------------------
  // The encoding loop

  lemma PaddingLeft(n: nat, available: nat)
    requires available < 6 && 8 * n % 6 == available
    ensures Padding(8 * n) == if available == 0 then 0 else 6 - available
  {}

  lemma LengthLeft(n: nat, m: nat, available: nat)
    requires 8 * n == 6 * m + available && available < 6
    ensures 8 * n % 6 == available
  {}

  lemma SymbolsFrom(data: seq<Byte>, symbols: seq<nat>)
    requires Below(symbols, 64) && GroupBits(symbols, 6) == GroupBits(data, 8) + Zeros(Padding(8 * |data|))
    ensures Symbols(data) == symbols
  {
    hide GroupBits, CodeBits, Zeros, Padding, Pow2, Groups;
    GroupBitsLength(data, 8);
    PowersAre();
    GroupsBack(symbols, 6, []);
    NothingAdded(GroupBits(symbols, 6));
    SymbolsIs(data, symbols);
  }

  lemma EvenEnd(data: seq<Byte>, symbols: seq<nat>, accumulator: nat)
    requires Pending(data, 8, symbols, 6, accumulator, 0) && Below(symbols, 64)
    ensures Symbols(data) == symbols
  {
    hide GroupBits, Zeros, Padding;
    PendingLength(data, symbols, accumulator, 0);
    LengthLeft(|data|, |symbols|, 0);
    PaddingLeft(|data|, 0);
    NothingAdded(GroupBits(symbols, 6));
    NothingAdded(GroupBits(data, 8));
    SymbolsFrom(data, symbols);
  }

  lemma FilledEnd(data: seq<Byte>, symbols: seq<nat>, accumulator: nat, available: nat)
    requires Pending(data, 8, symbols, 6, accumulator, available) && 0 < available < 6 && Below(symbols, 64)
    ensures Symbols(data) == symbols + [accumulator * Pow2(6 - available) % 64]
  {
    hide GroupBits, Zeros, Padding, CodeBits, Pow2, Symbols;
    var (k, last) := (6 - available, accumulator * Pow2(6 - available) % 64);
    PendingLength(data, symbols, accumulator, available);
    LengthLeft(|data|, |symbols|, available);
    PaddingLeft(|data|, available);
    Accumulated(accumulator, available, 0, k);
    ZeroCode(k);
    PowersAre();
    CodeMasked(accumulator * Pow2(k), 6);
    GroupBitsAppend(symbols, last, 6);
    Associative(GroupBits(symbols, 6), CodeBits(accumulator, available), Zeros(k));
    SymbolsFrom(data, symbols + [last]);
  }

  lemma {:induction false} CharactersAppend(symbols: seq<nat>, v: nat)
    requires Below(symbols, 64) && v < 64
    ensures Below(symbols + [v], 64) && Characters(symbols + [v]) == Characters(symbols) + [CharacterFor(v)]
  {
    if symbols == [] {
      assert symbols + [v] == [v] && [v][1..] == [];
    } else {
      CharactersAppend(symbols[1..], v);
      assert (symbols + [v])[1..] == symbols[1..] + [v];
    }
  }

  lemma Begin(data: seq<Byte>)
    ensures Characters([]) == [] && data[..0] == [] && Below([], 64)
  {}

  lemma Base64Is(data: seq<Byte>)
    ensures Below(Symbols(data), 64) && Base64(data) == Characters(Symbols(data))
  {}

  method Encode(data: seq<Byte>) returns (text: string)
    ensures text == Base64(data)
  {
    hide *;
    text := "";
    ghost var symbols: seq<nat> := [];
    var accumulator: nat, available: nat := 0, 0;
    PendingFirst(8, 6);
    Begin(data);
    PowersAre();
    for i := 0 to |data|
      invariant Pending(data[..i], 8, symbols, 6, accumulator, available) && available < 6
      invariant Below(symbols, 64) && text == Characters(symbols)
    {
      TakeIn(data[..i], 8, symbols, 6, accumulator, available, data[i]);
      assert data[..i + 1] == data[..i] + [data[i]];
      accumulator, available := accumulator * 256 + data[i], available + 8;
      while available >= 6
        invariant Pending(data[..i + 1], 8, symbols, 6, accumulator, available)
        invariant Below(symbols, 64) && text == Characters(symbols)
      {
        GiveOut(data[..i + 1], 8, symbols, 6, accumulator, available);
        available := available - 6;
        var value := ShiftRight(accumulator, available) % 64;
        CharactersAppend(symbols, value);
        text := text + [CharacterFor(value)];
        symbols := symbols + [value];
      }
      MaskLow(data[..i + 1], 8, symbols, 6, accumulator, available);
      accumulator := accumulator % Pow2(available);
    }
    assert data[..|data|] == data;
    if available != 0 {
      FilledEnd(data, symbols, accumulator, available);
      var value := accumulator * Pow2(6 - available) % 64;
      CharactersAppend(symbols, value);
      text := text + [CharacterFor(value)];
    } else {
      EvenEnd(data, symbols, accumulator);
    }
    Base64Is(data);
  }

  // ---------------------------------------------------------------------------------------------
  // The decoding loops

  lemma {:induction false} ValuesAt(text: string, i: nat)
    requires i <= |text|
    ensures Values(text).Some? ==> i < |text| ==> ValueFor(text[i]) == Some(Values(text).value[i])
    ensures i < |text| && ValueFor(text[i]).None? ==> Values(text).None?
  {
    hide ValueFor;
    if 0 < i {
      ValuesAt(text[1..], i - 1);
    }
  }

  lemma {:induction false} AllValues(text: string)
    requires forall i :: 0 <= i < |text| ==> ValueFor(text[i]).Some?
    ensures Values(text).Some?
  {
    hide ValueFor;
    if text != [] {
      assert ValueFor(text[0]).Some?;
      forall i | 0 <= i < |text[1..]|
        ensures ValueFor(text[1..][i]).Some?
      {
        assert text[1..][i] == text[i + 1];
      }
      AllValues(text[1..]);
    }
  }

  lemma AccumulatorZero(accumulator: nat, available: nat)
    requires accumulator < Pow2(available)
    ensures accumulator == 0 <==> CodeBits(accumulator, available) == Zeros(available)
  {
    ValueOfCode(accumulator, available);
    ZeroCode(available);
    ValueOfCode(0, available);
  }

  lemma DecodedEnd(text: string, maximum: nat, bytes: seq<Byte>, accumulator: nat, available: nat)
    requires Values(text).Some? && |text| % 4 != 1 && 6 * |text| / 8 <= maximum
    requires Pending(Values(text).value, 6, bytes, 8, accumulator, available) && available < 8 && accumulator < Pow2(available)
    ensures Decoded(text, maximum) == if accumulator == 0 then Success(bytes) else Failure(TrailingBits)
  {
    var values := Values(text).value;
    var bits := GroupBits(values, 6);
    hide GroupBits, Zeros, CodeBits, Pow2, Groups, Values;
    PendingLength(values, bytes, accumulator, available);
    RestOf(|values|, |bytes|, available);
    AccumulatorZero(accumulator, available);
    BytesBelow(bytes);
    GroupsBack(bytes, 8, CodeBits(accumulator, available));
    SameStart(GroupBits(bytes, 8), CodeBits(accumulator, available), Zeros(available));
  }

  lemma RestOf(n: nat, m: nat, available: nat)
    requires 6 * n == 8 * m + available && available < 8
    ensures 6 * n % 8 == available
  {}

  lemma SameStart(a: seq<bool>, b: seq<bool>, c: seq<bool>)
    ensures a + b == a + c <==> b == c
  {
    if a + b == a + c {
      assert (a + b)[|a|..] == b && (a + c)[|a|..] == c;
    }
  }

  lemma DecodedFails(text: string, maximum: nat)
    ensures Values(text).None? ==> Decoded(text, maximum) == Failure(OutsideAlphabet)
    ensures Values(text).Some? && |text| % 4 == 1 ==> Decoded(text, maximum) == Failure(FinalGroup)
    ensures Values(text).Some? && |text| % 4 != 1 && 6 * |text| / 8 > maximum ==> Decoded(text, maximum) == Failure(TooLong)
  {}

  /** The size of the result is known before the second pass. */
  lemma SizeOf(n: nat)
    ensures n / 8 * 6 + n % 8 * 6 / 8 == 6 * n / 8
  {
    assert n == 8 * (n / 8) + n % 8;
  }

  /** A final group of one symbol has too few bits for a byte; groups of two and three have enough. */
  lemma FinalGroups(r: nat)
    requires r < 4
    ensures (r != 0 && (r * 6 < 8 || r * 6 % 8 >= 6)) <==> r == 1
  {}

  method Decode(text: string, maximum: nat) returns (r: Result<seq<Byte>, DecodeError>)
    ensures r == Decoded(text, maximum)
  {
    hide *;
    DecodedFails(text, maximum);
    var count: nat := 0;
    while count < |text|
      invariant count <= |text| && forall i :: 0 <= i < count ==> ValueFor(text[i]).Some?
    {
      if ValueFor(text[count]).None? {
        ValuesAt(text, count);
        NoneOrSome(Values(text));
        return Failure(OutsideAlphabet);
      }
      count := count + 1;
    }
    AllValues(text);
    var remainder := count % 4;
    FinalGroups(remainder);
    if remainder != 0 && (remainder * 6 < 8 || remainder * 6 % 8 >= 6) {
      return Failure(FinalGroup);
    }
    SizeOf(count);
    if count / 8 * 6 + count % 8 * 6 / 8 > maximum {
      return Failure(TooLong);
    }
    ghost var values := Values(text).value;
    var output: seq<Byte> := [];
    var accumulator: nat, available: nat := 0, 0;
    PendingFirst(6, 8);
    PowersAre();
    ValuesShape(text);
    assert values[..0] == [];
    for i := 0 to |text|
      invariant Pending(values[..i], 6, output, 8, accumulator, available) && available < 8
      invariant accumulator < Pow2(available)
    {
      ValuesAt(text, i);
      var value := ValueFor(text[i]).value;
      TakeIn(values[..i], 6, output, 8, accumulator, available, value);
      assert values[..i + 1] == values[..i] + [value];
      accumulator, available := accumulator * 64 + value, available + 6;
      if available >= 8 {
        GiveOut(values[..i + 1], 6, output, 8, accumulator, available);
        available := available - 8;
        output := output + [ShiftRight(accumulator, available) % 256];
      }
      MaskLow(values[..i + 1], 6, output, 8, accumulator, available);
      accumulator := accumulator % Pow2(available);
    }
    assert values[..|text|] == values;
    DecodedEnd(text, maximum, output, accumulator, available);
    if available != 0 && accumulator != 0 {
      return Failure(TrailingBits);
    }
    NoBits(accumulator, available);
    return Success(output);
  }

  lemma NoneOrSome(v: Option<seq<nat>>)
    ensures v.None? || v.Some?
  {}

  lemma ValuesShape(text: string)
    requires Values(text).Some?
    ensures |Values(text).value| == |text|
    ensures forall i :: 0 <= i < |text| ==> Values(text).value[i] < 64
  {}

  lemma NoBits(accumulator: nat, available: nat)
    requires accumulator < Pow2(available)
    ensures available == 0 ==> accumulator == 0
  {}

  // ---------------------------------------------------------------------------------------------
  // The check of the authentication records

  /** Decoding for a record: the text must be what encoding the result gives. */
  function Unbase64(text: string, maximum: nat): Result<seq<Byte>, DecodeError> {
    match Decoded(text, maximum)
    case Failure(e) => Failure(e)
    case Success(data) => if Base64(data) == text then Success(data) else Failure(NotCanonical)
  }

  method DecodeRecord(text: string, maximum: nat) returns (r: Result<seq<Byte>, DecodeError>)
    ensures r == Unbase64(text, maximum)
  {
    r := Decode(text, maximum);
    hide Decoded, Base64;
    if r.Success? {
      var again := Encode(r.value);
      if again != text {
        return Failure(NotCanonical);
      }
    }
  }

  /** A text is accepted exactly when it is the encoding of some data within the limit, which is the result. */
  lemma UnbaseIsInverse(text: string, maximum: nat, data: seq<Byte>)
    ensures Unbase64(text, maximum) == Success(data) <==> Base64(data) == text && |data| <= maximum
    ensures Unbase64(text, maximum) != Failure(NotCanonical)
  {
    if Decoded(text, maximum).Success? {
      DecodedIsCanonical(text, maximum);
    }
    if |data| <= maximum {
      Base64RoundTrip(data, maximum);
    }
    DecodedErrors(text, maximum);
    hide Decoded, Base64;
  }

  lemma DecodedErrors(text: string, maximum: nat)
    ensures Decoded(text, maximum) != Failure(NotCanonical)
  {}
}
