// The compressed Unicode Light tables, from per-code-point properties to the lookup of the library.
module LightData {
  import opened Wrappers

  const LIMIT: nat := 0x110000
  const ASCII: nat := 0x80

  datatype Delta = Delta(caseFold: int, lowercase: int, uppercase: int)

  const NO_DELTA := Delta(0, 0, 0)

  datatype Properties = Properties(category: string, deltaIndex: nat, displayWidth: nat)

  /** An entry applies from its code point up to the next entry. */
  datatype Entry = Entry(code: nat, properties: Properties)

  const UNASSIGNED := Properties("Cn", 0, 1)

  // ---------------------------------------------------------------------------------------------
  // Delta table

  datatype DeltaError = LengthsDiffer | TooManyDeltas(count: nat)

  /** The triple of a code point. */
  function Triple(caseFolds: seq<int>, lowercases: seq<int>, uppercases: seq<int>, i: nat): Delta
    requires i < |caseFolds| && i < |lowercases| && i < |uppercases|
  {
    Delta(caseFolds[i], lowercases[i], uppercases[i])
  }

  ghost predicate Distinct(table: seq<Delta>) {
    forall i, j :: 0 <= i < j < |table| ==> table[i] != table[j]
  }

  /** The table lists every triple once, no triple first, and the indices lead back to the triples. */
  ghost predicate Indexed(caseFolds: seq<int>, lowercases: seq<int>, uppercases: seq<int>, indices: seq<nat>, table: seq<Delta>)
    requires |caseFolds| == |lowercases| == |uppercases|
  {
    && table != [] && table[0] == NO_DELTA && Distinct(table) && |indices| <= |caseFolds|
    && (forall i :: 0 <= i < |indices| ==> indices[i] < |table| && table[indices[i]] == Triple(caseFolds, lowercases, uppercases, i))
    && (forall k :: 0 < k < |table| ==> k in indices)
  }

  ghost predicate Keys(map0: map<Delta, nat>, table: seq<Delta>) {
    && (forall d :: d in map0 ==> map0[d] < |table| && table[map0[d]] == d)
    && (forall k :: 0 <= k < |table| ==> table[k] in map0)
  }

  lemma KnownTriple(caseFolds: seq<int>, lowercases: seq<int>, uppercases: seq<int>, indices: seq<nat>, table: seq<Delta>, k: nat)
    requires |caseFolds| == |lowercases| == |uppercases| && Indexed(caseFolds, lowercases, uppercases, indices, table)
    requires |indices| < |caseFolds| && k < |table| && table[k] == Triple(caseFolds, lowercases, uppercases, |indices|)
    ensures Indexed(caseFolds, lowercases, uppercases, indices + [k], table)
  {}

  lemma NewTriple(caseFolds: seq<int>, lowercases: seq<int>, uppercases: seq<int>, indices: seq<nat>, table: seq<Delta>, d: Delta)
    requires |caseFolds| == |lowercases| == |uppercases| && Indexed(caseFolds, lowercases, uppercases, indices, table)
    requires |indices| < |caseFolds| && d == Triple(caseFolds, lowercases, uppercases, |indices|) && d !in table
    ensures Indexed(caseFolds, lowercases, uppercases, indices + [|table|], table + [d])
  {
    assert (indices + [|table|])[|indices|] == |table|;
    assert forall n :: n in indices ==> n in indices + [|table|];
  }

  /** Indices for all code points. */
  ghost predicate Encoded(caseFolds: seq<int>, lowercases: seq<int>, uppercases: seq<int>, indices: seq<nat>, table: seq<Delta>) {
    && |caseFolds| == |lowercases| == |uppercases| == |indices|
    && Indexed(caseFolds, lowercases, uppercases, indices, table)
  }

  /** No triple, and the triples of all code points. */
  ghost function Triples(caseFolds: seq<int>, lowercases: seq<int>, uppercases: seq<int>): set<Delta>
    requires |caseFolds| == |lowercases| == |uppercases|
  {
    {NO_DELTA} + set i | 0 <= i < |caseFolds| :: Triple(caseFolds, lowercases, uppercases, i)
  }

  ghost function Members(table: seq<Delta>): set<Delta> {
    set d | d in table
  }

  lemma {:induction false} MembersCount(table: seq<Delta>)
    requires Distinct(table)
    ensures |Members(table)| == |table|
  {
    if table == [] {
      assert Members(table) == {};
    } else {
      var n := |table| - 1;
      MembersCount(table[..n]);
      assert table == table[..n] + [table[n]];
      assert Members(table) == Members(table[..n]) + {table[n]};
    }
  }

  /** The table lists every triple that is needed, and no other. */
  lemma TableSize(caseFolds: seq<int>, lowercases: seq<int>, uppercases: seq<int>, indices: seq<nat>, table: seq<Delta>)
    requires Encoded(caseFolds, lowercases, uppercases, indices, table)
    ensures |table| == |Triples(caseFolds, lowercases, uppercases)|
  {
    MembersCount(table);
    var triples := Triples(caseFolds, lowercases, uppercases);
    forall d | d in Members(table)
      ensures d in triples
    {
      var k :| 0 <= k < |table| && table[k] == d;
      if k > 0 {
        assert k in indices;
        var i :| 0 <= i < |indices| && indices[i] == k;
        assert d == Triple(caseFolds, lowercases, uppercases, i);
      }
    }
    assert Members(table) == triples;
  }

  method UniqueDeltaTable(caseFolds: seq<int>, lowercases: seq<int>, uppercases: seq<int>)
    returns (r: Result<(seq<nat>, seq<Delta>), DeltaError>)
    ensures r == Failure(LengthsDiffer) <==> !(|caseFolds| == |lowercases| == |uppercases|)
    ensures r.Success? ==> Encoded(caseFolds, lowercases, uppercases, r.value.0, r.value.1)
    ensures |caseFolds| == |lowercases| == |uppercases| ==>
              (r.Success? <==> |Triples(caseFolds, lowercases, uppercases)| <= 256)
    ensures r.Failure? && r.error.TooManyDeltas? ==> r.error.count == |Triples(caseFolds, lowercases, uppercases)|
  {
    if !(|caseFolds| == |lowercases| == |uppercases|) {
      return Failure(LengthsDiffer);
    }
    hide Indexed;
    var table := [NO_DELTA];
    var known: map<Delta, nat> := map[NO_DELTA := 0];
    var indices: seq<nat> := [];
    NothingIndexed(caseFolds, lowercases, uppercases);
    for i := 0 to |caseFolds|
      invariant |indices| == i && Indexed(caseFolds, lowercases, uppercases, indices, table) && Keys(known, table)
    {
      var delta := Triple(caseFolds, lowercases, uppercases, i);
      if delta !in known {
        NewTriple(caseFolds, lowercases, uppercases, indices, table, delta);
        known := known[delta := |table|];
        table := table + [delta];
      } else {
        KnownTriple(caseFolds, lowercases, uppercases, indices, table, known[delta]);
      }
      indices := indices + [known[delta]];
    }
    assert Encoded(caseFolds, lowercases, uppercases, indices, table);
    TableSize(caseFolds, lowercases, uppercases, indices, table);
    if |table| > 256 {
      return Failure(TooManyDeltas(|table|));
    }
    return Success((indices, table));
  }

  lemma NothingIndexed(caseFolds: seq<int>, lowercases: seq<int>, uppercases: seq<int>)
    requires |caseFolds| == |lowercases| == |uppercases|
    ensures Indexed(caseFolds, lowercases, uppercases, [], [NO_DELTA])
  {}

  // ---------------------------------------------------------------------------------------------
  // Compression

  ghost predicate Ascending(entries: seq<Entry>) {
    forall i, j :: 0 <= i < j < |entries| ==> entries[i].code < entries[j].code
  }

  /** The entry that applies: the last one that does not start behind the code point. */
  ghost predicate Applies(entries: seq<Entry>, i: nat, code: nat) {
    i < |entries| && entries[i].code <= code && (i + 1 < |entries| ==> code < entries[i + 1].code)
  }

  /** Below a bound, the entry that applies has the properties of the code point. */
  ghost predicate Agrees(entries: seq<Entry>, all: seq<Properties>, bound: nat)
    requires bound <= |all|
  {
    forall code: nat, i: nat :: code < bound && Applies(entries, i, code) ==> entries[i].properties == all[code]
  }

  ghost predicate NeighboursDiffer(entries: seq<Entry>) {
    forall i :: 0 <= i < |entries| - 1 ==> entries[i].properties != entries[i + 1].properties
  }

  /** The entries for the code points below a bound. */
  ghost predicate Compressed(entries: seq<Entry>, all: seq<Properties>, bound: nat) {
    && bound <= |all| && Ascending(entries) && NeighboursDiffer(entries) && Agrees(entries, all, bound)
    && (forall i :: 0 <= i < |entries| ==> entries[i].code < bound)
    && (bound > 0 ==> entries != [] && entries[0].code == 0)
  }

  lemma CompressNew(entries: seq<Entry>, all: seq<Properties>, bound: nat)
    requires Compressed(entries, all, bound) && bound < |all|
    requires entries == [] || entries[|entries| - 1].properties != all[bound]
    ensures Compressed(entries + [Entry(bound, all[bound])], all, bound + 1)
  {
    var more := entries + [Entry(bound, all[bound])];
    forall code: nat, i: nat | code < bound + 1 && Applies(more, i, code)
      ensures more[i].properties == all[code]
    {
      if i < |entries| {
        assert more[i + 1].code <= bound && code < bound;
        assert Applies(entries, i, code);
      }
    }
  }

  lemma CompressSame(entries: seq<Entry>, all: seq<Properties>, bound: nat)
    requires Compressed(entries, all, bound) && bound < |all|
    requires entries != [] && entries[|entries| - 1].properties == all[bound]
    ensures Compressed(entries, all, bound + 1)
  {
    forall code: nat, i: nat | code < bound + 1 && Applies(entries, i, code)
      ensures entries[i].properties == all[code]
    {
      if code < bound {
        assert Applies(entries, i, code);
      }
    }
  }

  /** The runs of equal properties, closed by an entry behind the last code point. */
  method CompressToRanges(all: seq<Properties>) returns (ranges: seq<Entry>)
    requires |all| == LIMIT
    ensures ranges != [] && ranges[|ranges| - 1] == Entry(LIMIT, UNASSIGNED)
    ensures Compressed(ranges[..|ranges| - 1], all, LIMIT)
  {
    hide Compressed;
    ranges := [];
    var previous: Option<Properties> := None;
    NothingCompressed(all);
    for code := 0 to LIMIT
      invariant Compressed(ranges, all, code)
      invariant previous == if ranges == [] then None else Some(ranges[|ranges| - 1].properties)
    {
      var current := all[code];
      if previous.None? || current != previous.value {
        CompressNew(ranges, all, code);
        ranges := ranges + [Entry(code, current)];
        previous := Some(current);
      } else {
        CompressSame(ranges, all, code);
      }
    }
    var result := ranges + [Entry(LIMIT, UNASSIGNED)];
    assert result[..|result| - 1] == ranges;
    return result;
  }

  lemma NothingCompressed(all: seq<Properties>)
    ensures Compressed([], all, 0)
  {}

  // ---------------------------------------------------------------------------------------------
  // The two tables

  /** Complete entries: they start at zero, ascend, and agree with the properties everywhere. */
  ghost predicate Complete(ranges: seq<Entry>, all: seq<Properties>) {
    && |all| == LIMIT && |ranges| > 1 && ranges[0].code == 0 && Ascending(ranges)
    && ranges[|ranges| - 1] == Entry(LIMIT, UNASSIGNED) && Agrees(ranges, all, LIMIT)
  }

  lemma RangesComplete(ranges: seq<Entry>, all: seq<Properties>)
    requires |all| == LIMIT && ranges != [] && ranges[|ranges| - 1] == Entry(LIMIT, UNASSIGNED)
    requires Compressed(ranges[..|ranges| - 1], all, LIMIT)
    ensures Complete(ranges, all)
  {
    var front := ranges[..|ranges| - 1];
    assert forall i :: 0 <= i < |front| ==> ranges[i] == front[i];
    forall code: nat, i: nat | code < LIMIT && Applies(ranges, i, code)
      ensures ranges[i].properties == all[code]
    {
      assert Applies(front, i, code);
    }
  }

  /** The entry of one code point, by searching the ranges. */
  method DataFor(ranges: seq<Entry>, code: nat, ghost all: seq<Properties>) returns (entry: Entry)
    requires Complete(ranges, all) && code < LIMIT
    ensures entry == Entry(code, all[code])
  {
    hide Agrees, Ascending;
    var index := 0;
    while !(ranges[index].code <= code < ranges[index + 1].code)
      invariant 0 <= index < |ranges| - 1 && ranges[index].code <= code
      decreases |ranges| - index
    {
      LastStart(ranges, all, index, code);
      index := index + 1;
    }
    AgreesAt(ranges, all, index, code);
    return Entry(code, ranges[index].properties);
  }

  lemma LastStart(ranges: seq<Entry>, all: seq<Properties>, index: nat, code: nat)
    requires Complete(ranges, all) && code < LIMIT && index < |ranges| - 1 && ranges[index + 1].code <= code
    ensures index + 1 < |ranges| - 1
  {}

  lemma AgreesAt(ranges: seq<Entry>, all: seq<Properties>, i: nat, code: nat)
    requires Complete(ranges, all) && code < LIMIT && Applies(ranges, i, code)
    ensures ranges[i].properties == all[code]
  {}

  /** Ascending entries from 0x80 on that agree with the properties. */
  ghost predicate OtherTable(others: seq<Entry>, all: seq<Properties>) {
    && |all| == LIMIT && others != [] && others[0].code == 0x80 && Ascending(others)
    && others[|others| - 1] == Entry(LIMIT, UNASSIGNED)
    && (forall code: nat, i: nat :: ASCII <= code < LIMIT && Applies(others, i, code) ==> others[i].properties == all[code])
  }

  /** What the library looks up: ASCII directly, everything else in ascending entries from 0x80 on. */
  ghost predicate Tables(ascii: seq<Entry>, others: seq<Entry>, all: seq<Properties>) {
    && |all| == LIMIT && |ascii| == 0x80
    && (forall code :: 0 <= code < 0x80 ==> ascii[code] == Entry(code, all[code]))
    && OtherTable(others, all)
  }

  function FirstOther(ranges: seq<Entry>, i: nat): (n: nat)
    requires i <= |ranges|
    ensures i <= n <= |ranges| && (n < |ranges| ==> ranges[n].code >= ASCII)
    ensures forall j :: i <= j < n ==> ranges[j].code < ASCII
    decreases |ranges| - i
  {
    if i == |ranges| || ranges[i].code >= ASCII then i else FirstOther(ranges, i + 1)
  }

  lemma OthersStart(ranges: seq<Entry>, all: seq<Properties>, n: nat)
    requires Complete(ranges, all) && n == FirstOther(ranges, 0)
    ensures n < |ranges| && ranges[n].code >= ASCII && (ranges[n].code > ASCII ==> n > 0 && Applies(ranges, n - 1, ASCII))
  {
    hide Agrees;
    assert ranges[|ranges| - 1].code == LIMIT;
    if n > 0 {
      assert ranges[n - 1].code < ASCII;
    }
  }

  lemma AppliesLater(ranges: seq<Entry>, n: nat, i: nat, code: nat)
    requires n <= |ranges| && Applies(ranges[n..], i, code)
    ensures Applies(ranges, n + i, code) && ranges[n..][i] == ranges[n + i]
  {}

  /** Entries at 0x80 already: the rest of the ranges is the table. */
  lemma OthersAligned(ranges: seq<Entry>, all: seq<Properties>, n: nat)
    requires Complete(ranges, all) && n < |ranges| && ranges[n].code == ASCII
    ensures OtherTable(ranges[n..], all)
  {
    hide Agrees;
    var others := ranges[n..];
    forall code: nat, i: nat | ASCII <= code < LIMIT && Applies(others, i, code)
      ensures others[i].properties == all[code]
    {
      AppliesLater(ranges, n, i, code);
      AgreesAt(ranges, all, n + i, code);
    }
  }

  /** No entry at 0x80: the one that applies there is repeated with that start. */
  lemma OthersInserted(ranges: seq<Entry>, all: seq<Properties>, n: nat)
    requires Complete(ranges, all) && 0 < n < |ranges| && ranges[n].code > ASCII && Applies(ranges, n - 1, ASCII)
    ensures OtherTable([Entry(ASCII, all[ASCII])] + ranges[n..], all)
  {
    CompleteParts(ranges, all);
    hide Complete, Ascending, Agrees, OtherTable;
    var (first, others) := (Entry(ASCII, all[ASCII]), ranges[n..]);
    AscendingRest(ranges, n);
    AscendingCons(first, others);
    forall code: nat, i: nat | ASCII <= code < LIMIT && Applies([first] + others, i, code)
      ensures ([first] + others)[i].properties == all[code]
    {
      if i == 0 {
        AppliesFirst(ranges, n, first, code);
        AgreesAt(ranges, all, n - 1, code);
      } else {
        AppliesRest(first, others, i, code);
        AppliesLater(ranges, n, i - 1, code);
        AgreesAt(ranges, all, n + i - 1, code);
      }
    }
    OtherTableFrom([first] + others, all);
  }

  lemma CompleteParts(ranges: seq<Entry>, all: seq<Properties>)
    requires Complete(ranges, all)
    ensures |all| == LIMIT && ranges != [] && Ascending(ranges) && ranges[|ranges| - 1] == Entry(LIMIT, UNASSIGNED) && ASCII < LIMIT
  {}

  lemma AscendingRest(ranges: seq<Entry>, n: nat)
    requires Ascending(ranges) && n < |ranges|
    ensures Ascending(ranges[n..]) && ranges[n..] != [] && ranges[n..][0] == ranges[n] && ranges[n..][|ranges| - n - 1] == ranges[|ranges| - 1]
  {}

  lemma AscendingCons(first: Entry, others: seq<Entry>)
    requires Ascending(others) && others != [] && first.code < others[0].code
    ensures Ascending([first] + others)
  {}

  lemma AppliesFirst(ranges: seq<Entry>, n: nat, first: Entry, code: nat)
    requires 0 < n < |ranges| && Applies(ranges, n - 1, first.code) && Applies([first] + ranges[n..], 0, code)
    ensures Applies(ranges, n - 1, code)
  {
    assert ([first] + ranges[n..])[1] == ranges[n];
  }

  lemma AppliesRest(first: Entry, others: seq<Entry>, i: nat, code: nat)
    requires i > 0 && Applies([first] + others, i, code)
    ensures Applies(others, i - 1, code) && ([first] + others)[i] == others[i - 1]
  {}

  lemma OtherTableFrom(others: seq<Entry>, all: seq<Properties>)
    requires |all| == LIMIT && others != [] && others[0].code == ASCII && Ascending(others)
    requires others[|others| - 1] == Entry(LIMIT, UNASSIGNED)
    requires forall code: nat, i: nat :: ASCII <= code < LIMIT && Applies(others, i, code) ==> others[i].properties == all[code]
    ensures OtherTable(others, all)
  {}

  method SplitTables(ranges: seq<Entry>, ghost all: seq<Properties>) returns (ascii: seq<Entry>, others: seq<Entry>)
    requires Complete(ranges, all)
    ensures Tables(ascii, others, all)
  {
    hide Complete, OtherTable, Ascending, Agrees, FirstOther;
    CompleteLength(ranges, all);
    ascii := [];
    for code := 0 to ASCII
      invariant |ascii| == code && forall c :: 0 <= c < code ==> ascii[c] == Entry(c, all[c])
    {
      var entry := DataFor(ranges, code, all);
      ascii := ascii + [entry];
    }
    var n := FirstOther(ranges, 0);
    OthersStart(ranges, all, n);
    others := ranges[n..];
    if others == [] || others[0].code != ASCII {
      var entry := DataFor(ranges, ASCII, all);
      OthersInserted(ranges, all, n);
      others := [entry] + others;
    } else {
      OthersAligned(ranges, all, n);
    }
  }

  lemma CompleteLength(ranges: seq<Entry>, all: seq<Properties>)
    requires Complete(ranges, all)
    ensures |all| == LIMIT
  {}

  // ---------------------------------------------------------------------------------------------
  // The lookup of the library

  /** The standard library's upper bound over the first code points. */
  method UpperBound(entries: seq<Entry>, code: nat) returns (found: nat)
    requires Ascending(entries)
    ensures found <= |entries| && (forall i :: 0 <= i < found ==> entries[i].code <= code) && (forall i :: found <= i < |entries| ==> code < entries[i].code)
  {
    found := 0;
    var last := |entries|;
    while found < last
      invariant found <= last <= |entries|
      invariant forall i :: 0 <= i < found ==> entries[i].code <= code
      invariant forall i :: last <= i < |entries| ==> code < entries[i].code
    {
      var middle := (found + last) / 2;
      if code < entries[middle].code {
        last := middle;
      } else {
        found := middle + 1;
      }
    }
  }

  /** Every code point gets its own properties back; anything behind the last one is unassigned. */
  method UnicodeDataFor(ascii: seq<Entry>, others: seq<Entry>, code: nat, ghost all: seq<Properties>) returns (properties: Properties)
    requires Tables(ascii, others, all)
    ensures properties == if code < LIMIT then all[code] else UNASSIGNED
  {
    if code < ASCII {
      return ascii[code].properties;
    }
    var it := UpperBound(others, code);
    assert it > 0 by {
      assert others[0].code <= code;
    }
    assert Applies(others, it - 1, code);
    if code >= LIMIT {
      assert it - 1 == |others| - 1;
    }
    return others[it - 1].properties;
  }
  /** The triple of an entry; an index behind the table stands for none. */
  function DeltaFor(table: seq<Delta>, properties: Properties): Delta {
    if properties.deltaIndex >= |table| then NO_DELTA else table[properties.deltaIndex]
  }

  // ---------------------------------------------------------------------------------------------
  // From the properties of all code points to the three tables, and back

  /** The parsed properties of all code points. */
  datatype Parsed = Parsed(categories: seq<string>, widths: seq<nat>, caseFolds: seq<int>, lowercases: seq<int>, uppercases: seq<int>)

  ghost predicate Valid(p: Parsed) {
    |p.categories| == |p.widths| == |p.caseFolds| == |p.lowercases| == |p.uppercases| == LIMIT
  }

  /** The tables hold the properties of every code point, with the indices of their triples. */
  ghost predicate Holds(ascii: seq<Entry>, others: seq<Entry>, table: seq<Delta>, p: Parsed, indices: seq<nat>, all: seq<Properties>)
    requires Valid(p)
  {
    && Encoded(p.caseFolds, p.lowercases, p.uppercases, indices, table) && Tables(ascii, others, all) && |all| == LIMIT
    && forall code: nat :: code < LIMIT ==> all[code] == Properties(p.categories[code], indices[code], p.widths[code])
  }

  method GenerateTables(p: Parsed)
    returns (r: Result<(seq<Entry>, seq<Entry>, seq<Delta>), DeltaError>, ghost indices: seq<nat>, ghost all: seq<Properties>)
    requires Valid(p)
    ensures r.Success? <==> |Triples(p.caseFolds, p.lowercases, p.uppercases)| <= 256
    ensures r.Success? ==> Holds(r.value.0, r.value.1, r.value.2, p, indices, all)
  {
    hide *;
    indices, all := [], [];
    ValidLengths(p);
    var deltas := UniqueDeltaTable(p.caseFolds, p.lowercases, p.uppercases);
    if deltas.Failure? {
      return Failure(deltas.error), indices, all;
    }
    var (used, table) := deltas.value;
    IndexCount(p.caseFolds, p.lowercases, p.uppercases, used, table);
    var properties := seq(|p.categories|, code requires 0 <= code < |p.categories| => Properties(p.categories[code], used[code], p.widths[code]));
    var ranges := CompressToRanges(properties);
    RangesComplete(ranges, properties);
    var ascii, others := SplitTables(ranges, properties);
    indices, all := used, properties;
    HoldsFrom(ascii, others, table, p, indices, all);
    return Success((ascii, others, table)), indices, all;
  }

  lemma ValidLengths(p: Parsed)
    requires Valid(p)
    ensures |p.categories| == |p.widths| == |p.caseFolds| == |p.lowercases| == |p.uppercases| == LIMIT
  {}

  lemma IndexCount(caseFolds: seq<int>, lowercases: seq<int>, uppercases: seq<int>, indices: seq<nat>, table: seq<Delta>)
    requires Encoded(caseFolds, lowercases, uppercases, indices, table)
    ensures |indices| == |caseFolds|
  {}

  lemma HoldsFrom(ascii: seq<Entry>, others: seq<Entry>, table: seq<Delta>, p: Parsed, indices: seq<nat>, all: seq<Properties>)
    requires Valid(p) && Encoded(p.caseFolds, p.lowercases, p.uppercases, indices, table) && Tables(ascii, others, all)
    requires |all| == LIMIT && |indices| == LIMIT
    requires forall code: nat :: code < LIMIT ==> all[code] == Properties(p.categories[code], indices[code], p.widths[code])
    ensures Holds(ascii, others, table, p, indices, all)
  {
    hide Encoded, Tables;
  }

  /** An index leads back to the triple of its code point. */
  lemma OwnTriple(p: Parsed, indices: seq<nat>, table: seq<Delta>, code: nat, properties: Properties)
    requires Valid(p) && Encoded(p.caseFolds, p.lowercases, p.uppercases, indices, table)
    requires code < LIMIT && properties.deltaIndex == indices[code]
    ensures DeltaFor(table, properties) == Triple(p.caseFolds, p.lowercases, p.uppercases, code)
  {}

  lemma NoTriple(caseFolds: seq<int>, lowercases: seq<int>, uppercases: seq<int>, indices: seq<nat>, table: seq<Delta>)
    requires Encoded(caseFolds, lowercases, uppercases, indices, table)
    ensures DeltaFor(table, UNASSIGNED) == NO_DELTA
  {}

  /** Category, width and case mappings of a code point, through all three tables. */
  method Lookup(ascii: seq<Entry>, others: seq<Entry>, table: seq<Delta>, code: nat,
                ghost p: Parsed, ghost indices: seq<nat>, ghost all: seq<Properties>)
    returns (category: string, width: nat, delta: Delta)
    requires Valid(p) && Holds(ascii, others, table, p, indices, all)
    ensures code <= 0x10_FFFF ==>
              && category == p.categories[code] && width == p.widths[code] && delta.caseFold == p.caseFolds[code]
              && delta.lowercase == p.lowercases[code] && delta.uppercase == p.uppercases[code]
    ensures code > 0x10_FFFF ==> category == "Cn" && width == 1 && delta == Delta(0, 0, 0)
  {
    hide Tables, Encoded, DeltaFor;
    var properties := UnicodeDataFor(ascii, others, code, all);
    if code < LIMIT {
      OwnTriple(p, indices, table, code, properties);
    } else {
      NoTriple(p.caseFolds, p.lowercases, p.uppercases, indices, table);
    }
    category, width, delta := properties.category, properties.displayWidth, DeltaFor(table, properties);
  }
}
