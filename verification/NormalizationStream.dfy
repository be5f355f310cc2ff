// The entries of the three Unicode normalization tables and their bytes within one page.
module NormalizationStream {
  import opened Bytes
  import opened Wrappers
  import opened Leb128

  const MAX_CODE_POINT := 0x10FFFF
  const MAX_MAPPING_LENGTH := 32

  /** A direct decomposition, a combining class, or the composition pairs of a starter. */
  datatype Entry =
    | Mapping(code: nat, mapping: seq<nat>, compatibility: bool)
    | Class(code: nat, combiningClass: nat)
    | Pairs(code: nat, pairs: seq<(nat, nat)>)

  datatype Kind = Mappings | Classes | Compositions

  function KindOf(e: Entry): Kind {
    match e
    case Mapping(_, _, _) => Mappings
    case Class(_, _) => Classes
    case Pairs(_, _) => Compositions
  }

  /** Trailing code points of one starter are listed in ascending order. */
  ghost predicate Ordered(pairs: seq<(nat, nat)>, previous: nat) {
    pairs != [] ==> previous <= pairs[0].0 && Ordered(pairs[1..], pairs[0].0)
  }

  /** What the reader of the Unicode source files has checked about an entry. */
  ghost predicate Checked(e: Entry) {
    && e.code <= MAX_CODE_POINT
    && match e
       case Mapping(_, mapping, _) => 0 < |mapping| <= MAX_MAPPING_LENGTH && forall v :: v in mapping ==> v <= MAX_CODE_POINT
       case Class(_, combiningClass) => 0 < combiningClass < 256
       case Pairs(_, pairs) => Ordered(pairs, 0) && |pairs| < WORD && forall p :: p in pairs ==> p.0 <= MAX_CODE_POINT && p.1 <= MAX_CODE_POINT
  }

  ghost predicate Sorted(entries: seq<Entry>) {
    forall i, j :: 0 <= i < j < |entries| ==> entries[i].code < entries[j].code
  }

  ghost predicate AllChecked(kind: Kind, entries: seq<Entry>) {
    forall e :: e in entries ==> KindOf(e) == kind && Checked(e)
  }

  // ---------------------------------------------------------------------------------------------
  // Bytes

  /** The distance from the previous value; input in order never takes the first branch. */
  function Delta(x: nat, previous: nat): nat {
    if x < previous then 0 else x - previous
  }

  function ValueBytes(values: seq<nat>): seq<Byte> {
    if values == [] then [] else Uleb(values[0]) + ValueBytes(values[1..])
  }

  function PairBytes(pairs: seq<(nat, nat)>, previous: nat): seq<Byte> {
    if pairs == [] then []
    else Uleb(Delta(pairs[0].0, previous)) + Uleb(pairs[0].1) + PairBytes(pairs[1..], pairs[0].0)
  }

  function Header(mapping: seq<nat>, compatibility: bool): Byte
    requires 0 < |mapping| <= MAX_MAPPING_LENGTH
  {
    |mapping| - 1 + (if compatibility then 0x20 else 0)
  }

  function Payload(e: Entry): seq<Byte>
    requires Checked(e)
  {
    match e
    case Mapping(_, mapping, compatibility) => [Header(mapping, compatibility)] + ValueBytes(mapping)
    case Class(_, combiningClass) => [combiningClass]
    case Pairs(_, pairs) => Uleb(|pairs|) + PairBytes(pairs, 0)
  }

  /** The bytes of consecutive entries of one page, each code relative to the one before. */
  function EntryBytes(entries: seq<Entry>, previous: nat): seq<Byte>
    requires forall e :: e in entries ==> Checked(e)
  {
    if entries == [] then []
    else Uleb(Delta(entries[0].code, previous)) + Payload(entries[0]) + EntryBytes(entries[1..], entries[0].code)
  }

  function LastCode(entries: seq<Entry>, previous: nat): nat {
    if entries == [] then previous else entries[|entries| - 1].code
  }

  lemma {:induction false} ValueBytesAppend(values: seq<nat>, v: nat)
    ensures ValueBytes(values + [v]) == ValueBytes(values) + Uleb(v)
  {
    hide Uleb;
    if values == [] {
      assert [v][1..] == [];
      assert values + [v] == [v];
    } else {
      ValueBytesAppend(values[1..], v);
      assert (values + [v])[1..] == values[1..] + [v];
    }
  }

  lemma {:induction false} PairBytesAppend(pairs: seq<(nat, nat)>, p: (nat, nat), previous: nat)
    ensures PairBytes(pairs + [p], previous)
         == PairBytes(pairs, previous) + Uleb(Delta(p.0, if pairs == [] then previous else pairs[|pairs| - 1].0)) + Uleb(p.1)
  {
    hide Uleb, Delta;
    if pairs == [] {
      assert [p][1..] == [];
      assert pairs + [p] == [p];
    } else {
      PairBytesAppend(pairs[1..], p, pairs[0].0);
      assert (pairs + [p])[1..] == pairs[1..] + [p];
    }
  }

  lemma {:induction false} EntryBytesAppend(entries: seq<Entry>, e: Entry, previous: nat)
    requires forall x :: x in entries + [e] ==> Checked(x)
    ensures EntryBytes(entries + [e], previous)
         == EntryBytes(entries, previous) + Uleb(Delta(e.code, LastCode(entries, previous))) + Payload(e)
  {
    hide Payload, Checked, Uleb;
    if entries == [] {
      assert [e][1..] == [];
      assert entries + [e] == [e];
    } else {
      EntryBytesAppend(entries[1..], e, entries[0].code);
      assert (entries + [e])[1..] == entries[1..] + [e];
    }
  }

  // ---------------------------------------------------------------------------------------------
  // Reading the bytes of one entry

  function ReadValues(data: seq<Byte>, offset: nat, count: nat): (r: Option<(seq<nat>, nat)>)
    ensures r.Some? ==> offset <= r.value.1
    decreases count
  {
    if count == 0 then Some(([], offset))
    else match Read(data, offset)
      case None => None
      case Some((value, next)) =>
        match ReadValues(data, next, count - 1)
        case None => None
        case Some((values, end)) => Some(([value] + values, end))
  }

  function ReadPairs(data: seq<Byte>, offset: nat, count: nat, previous: nat): (r: Option<(seq<(nat, nat)>, nat)>)
    ensures r.Some? ==> offset <= r.value.1
    decreases count
  {
    if count == 0 then Some(([], offset))
    else match Read(data, offset)
      case None => None
      case Some((delta, middle)) =>
        match Read(data, middle)
        case None => None
        case Some((composite, next)) =>
          match ReadPairs(data, next, count - 1, previous + delta)
          case None => None
          case Some((pairs, end)) => Some(([(previous + delta, composite)] + pairs, end))
  }

  /** The entry whose payload starts at an offset; the two reserved header bits must be zero. */
  function ReadPayload(kind: Kind, code: nat, data: seq<Byte>, offset: nat): (r: Option<(Entry, nat)>)
    ensures r.Some? ==> offset <= r.value.1
  {
    match kind
    case Mappings => (
      if offset >= |data| || data[offset] >= 0x40 then None
      else match ReadValues(data, offset + 1, data[offset] % 32 + 1)
        case None => None
        case Some((mapping, end)) => Some((Mapping(code, mapping, data[offset] / 32 == 1), end)))
    case Classes =>
      if offset >= |data| then None else Some((Class(code, data[offset]), offset + 1))
    case Compositions => (
      match Read(data, offset)
      case None => None
      case Some((count, next)) =>
        match ReadPairs(data, next, count, 0)
        case None => None
        case Some((pairs, end)) => Some((Pairs(code, pairs), end)))
  }

  lemma AtParts(data: seq<Byte>, offset: nat, a: seq<Byte>, b: seq<Byte>)
    requires At(data, offset, a + b)
    ensures At(data, offset, a) && At(data, offset + |a|, b)
  {
    var whole := data[offset..offset + |a| + |b|];
    assert data[offset..offset + |a|] == whole[..|a|] == a;
    assert data[offset + |a|..offset + |a| + |b|] == whole[|a|..] == b;
  }

  lemma {:induction false} ReadValuesBack(data: seq<Byte>, offset: nat, values: seq<nat>)
    requires At(data, offset, ValueBytes(values))
    ensures ReadValues(data, offset, |values|) == Some((values, offset + |ValueBytes(values)|))
    decreases |values|
  {
    hide At, Uleb, Read;
    if values != [] {
      AtParts(data, offset, Uleb(values[0]), ValueBytes(values[1..]));
      ReadUleb(data, offset, values[0]);
      ReadValuesBack(data, offset + |Uleb(values[0])|, values[1..]);
      assert values == [values[0]] + values[1..];
    }
  }

  lemma {:induction false} ReadPairsBack(data: seq<Byte>, offset: nat, pairs: seq<(nat, nat)>, previous: nat)
    requires Ordered(pairs, previous) && At(data, offset, PairBytes(pairs, previous))
    ensures ReadPairs(data, offset, |pairs|, previous) == Some((pairs, offset + |PairBytes(pairs, previous)|))
    decreases |pairs|
  {
    hide At, Uleb, Read;
    if pairs != [] {
      var (a, b) := (Uleb(Delta(pairs[0].0, previous)), Uleb(pairs[0].1));
      AtParts(data, offset, a + b, PairBytes(pairs[1..], pairs[0].0));
      AtParts(data, offset, a, b);
      ReadUleb(data, offset, Delta(pairs[0].0, previous));
      ReadUleb(data, offset + |a|, pairs[0].1);
      ReadPairsBack(data, offset + |a + b|, pairs[1..], pairs[0].0);
      assert pairs == [pairs[0]] + pairs[1..];
    }
  }

  lemma HeaderBack(mapping: seq<nat>, compatibility: bool)
    requires 0 < |mapping| <= MAX_MAPPING_LENGTH
    ensures var h := Header(mapping, compatibility); h < 0x40 && h % 32 + 1 == |mapping| && (h / 32 == 1) == compatibility
  {}

  lemma ReadPayloadBack(data: seq<Byte>, offset: nat, e: Entry)
    requires Checked(e) && At(data, offset, Payload(e))
    ensures ReadPayload(KindOf(e), e.code, data, offset) == Some((e, offset + |Payload(e)|))
  {
    hide Uleb, Read, ValueBytes, PairBytes, ReadValues, ReadPairs, Header;
    match e
    case Mapping(_, mapping, compatibility) =>
      AtParts(data, offset, [Header(mapping, compatibility)], ValueBytes(mapping));
      ReadValuesBack(data, offset + 1, mapping);
      HeaderBack(mapping, compatibility);
      assert data[offset] == data[offset..offset + 1][0];
    case Class(_, combiningClass) =>
      assert data[offset] == data[offset..offset + 1][0];
    case Pairs(_, pairs) =>
      AtParts(data, offset, Uleb(|pairs|), PairBytes(pairs, 0));
      ReadUleb(data, offset, |pairs|);
      ReadPairsBack(data, offset + |Uleb(|pairs|)|, pairs, 0);
  }

  // ---------------------------------------------------------------------------------------------
  // Reading a page

  /** The entries between two offsets; the last one must end exactly at the end of the page. */
  function DecodePage(kind: Kind, data: seq<Byte>, offset: nat, end: nat, code: nat): Option<seq<Entry>>
    decreases end - offset
  {
    if offset >= end then (if offset == end then Some([]) else None)
    else match Read(data, offset)
      case None => None
      case Some((delta, next)) =>
        match ReadPayload(kind, code + delta, data, next)
        case None => None
        case Some((entry, after)) =>
          match DecodePage(kind, data, after, end, code + delta)
          case None => None
          case Some(rest) => Some([entry] + rest)
  }

  lemma DecodeStep(kind: Kind, data: seq<Byte>, offset: nat, end: nat, code: nat,
                   delta: nat, next: nat, entry: Entry, after: nat, rest: seq<Entry>)
    requires offset < end && Read(data, offset) == Some((delta, next))
    requires ReadPayload(kind, code + delta, data, next) == Some((entry, after))
    requires DecodePage(kind, data, after, end, code + delta) == Some(rest)
    ensures DecodePage(kind, data, offset, end, code) == Some([entry] + rest)
  {
    hide Read, ReadPayload;
  }

  lemma EntryBytesFirst(kind: Kind, data: seq<Byte>, offset: nat, entries: seq<Entry>, previous: nat)
    requires entries != [] && AllChecked(kind, entries) && At(data, offset, EntryBytes(entries, previous))
    ensures
      var (a, b) := (Uleb(Delta(entries[0].code, previous)), Payload(entries[0]));
      && At(data, offset, a) && At(data, offset + |a|, b)
      && Read(data, offset) == Some((Delta(entries[0].code, previous), offset + |a|))
      && ReadPayload(kind, entries[0].code, data, offset + |a|) == Some((entries[0], offset + |a| + |b|))
      && At(data, offset + |a| + |b|, EntryBytes(entries[1..], entries[0].code))
      && |EntryBytes(entries, previous)| == |a| + |b| + |EntryBytes(entries[1..], entries[0].code)| > |a| > 0
  {
    hide Read, At, Payload, ReadPayload, Checked;
    var e := entries[0];
    var (a, b, c) := (Uleb(Delta(e.code, previous)), Payload(e), EntryBytes(entries[1..], e.code));
    AtParts(data, offset, a + b, c);
    AtParts(data, offset, a, b);
    ReadUleb(data, offset, Delta(e.code, previous));
    ReadPayloadBack(data, offset + |a|, e);
    PayloadNotEmpty(e);
  }

  lemma PayloadNotEmpty(e: Entry)
    requires Checked(e)
    ensures |Payload(e)| > 0
  {}

  lemma TailInOrder(kind: Kind, entries: seq<Entry>)
    requires entries != [] && Sorted(entries) && AllChecked(kind, entries)
    ensures Sorted(entries[1..]) && AllChecked(kind, entries[1..]) && KindOf(entries[0]) == kind && Checked(entries[0])
    ensures forall e :: e in entries[1..] ==> entries[0].code <= e.code
    ensures entries == [entries[0]] + entries[1..] && forall e :: e in entries ==> Checked(e)
  {
    hide Checked, KindOf;
  }

  lemma DeltaBack(x: nat, previous: nat)
    requires previous <= x
    ensures previous + Delta(x, previous) == x
  {}

  lemma NoEntries(kind: Kind, data: seq<Byte>, offset: nat, previous: nat)
    ensures EntryBytes([], previous) == [] && DecodePage(kind, data, offset, offset, previous) == Some([])
  {}

  lemma {:induction false} PageDecodes(kind: Kind, data: seq<Byte>, offset: nat, entries: seq<Entry>, previous: nat)
    requires Sorted(entries) && AllChecked(kind, entries) && (forall e :: e in entries ==> previous <= e.code)
    requires At(data, offset, EntryBytes(entries, previous))
    ensures DecodePage(kind, data, offset, offset + |EntryBytes(entries, previous)|, previous) == Some(entries)
    decreases |entries|
  {
    hide *;
    if entries == [] {
      NoEntries(kind, data, offset, previous);
    } else {
      var e := entries[0];
      TailInOrder(kind, entries);
      EntryBytesFirst(kind, data, offset, entries, previous);
      DeltaBack(e.code, previous);
      var (a, b) := (|Uleb(Delta(e.code, previous))|, |Payload(e)|);
      PageDecodes(kind, data, offset + a + b, entries[1..], e.code);
      DecodeStep(kind, data, offset, offset + |EntryBytes(entries, previous)|, previous,
                 Delta(e.code, previous), offset + a, e, offset + a + b, entries[1..]);
    }
  }
}
