// The lookups of the library in the encoded normalization tables.
module NormalizationLookup {
  import opened Bytes
  import opened Wrappers
  import opened Leb128
  import opened NormalizationStream
  import opened NormalizationTables
  import opened NormalizationRoundTrip

  // ---------------------------------------------------------------------------------------------
  // Finding the page

  function PageOf(code: nat): nat {
    code / PAGE_SIZE
  }

  function PageBase(code: nat): nat {
    code - code % PAGE_SIZE
  }

  lemma DirectoryOrder(entries: seq<Entry>, i: nat, j: nat)
    requires (forall e :: e in entries ==> Checked(e)) && i < j < |PageNumbers(entries)|
    ensures |EncodedTable(entries).directory| == |PageNumbers(entries)|
    ensures PageAt(EncodedTable(entries), i) < PageAt(EncodedTable(entries), j)
  {
    PageStart(entries, i);
    PageStart(entries, j);
  }

  ghost predicate PageAscending(directory: seq<nat>) {
    forall i, j :: 0 <= i < j < |directory| ==> directory[i] % DIRECTORY_UNIT < directory[j] % DIRECTORY_UNIT
  }

  lemma TableAscends(entries: seq<Entry>)
    requires forall e :: e in entries ==> Checked(e)
    ensures PageAscending(EncodedTable(entries).directory)
  {
    var directory := EncodedTable(entries).directory;
    forall i: nat, j: nat | i < j < |directory|
      ensures directory[i] % DIRECTORY_UNIT < directory[j] % DIRECTORY_UNIT
    {
      DirectoryOrder(entries, i, j);
    }
  }

  /** The standard library's lower bound over the page numbers in the directory. */
  method LowerBound(directory: seq<nat>, page: nat) returns (found: nat)
    requires PageAscending(directory)
    ensures found <= |directory|
    ensures forall i :: 0 <= i < found ==> directory[i] % DIRECTORY_UNIT < page
    ensures forall i :: found <= i < |directory| ==> page <= directory[i] % DIRECTORY_UNIT
  {
    found := 0;
    var last := |directory|;
    while found < last
      invariant found <= last <= |directory|
      invariant forall i :: 0 <= i < found ==> directory[i] % DIRECTORY_UNIT < page
      invariant forall i :: last <= i < |directory| ==> page <= directory[i] % DIRECTORY_UNIT
    {
      var middle := (found + last) / 2;
      if directory[middle] % DIRECTORY_UNIT < page {
        found := middle + 1;
      } else {
        last := middle;
      }
    }
  }

  /** The bytes between two offsets are exactly those of the page of a code point, if it has any. */
  ghost predicate Bracketed(entries: seq<Entry>, codePoint: nat, begin: nat, end: nat)
    requires forall e :: e in entries ==> Checked(e)
  {
    var bytes := PageBytes(entries, PageOf(codePoint));
    At(EncodedTable(entries).data, begin, bytes) && end == begin + |bytes|
  }

  lemma BracketedPage(entries: seq<Entry>, codePoint: nat, k: nat)
    requires (forall e :: e in entries ==> Checked(e)) && k < |EncodedTable(entries).directory|
    requires PageAt(EncodedTable(entries), k) == PageOf(codePoint)
    ensures Bracketed(entries, codePoint, Start(EncodedTable(entries), k), End(EncodedTable(entries), k))
  {
    DirectoryLength(entries);
    hide *;
    PageBrackets(entries, k);
    BracketedIs(entries, codePoint, Start(EncodedTable(entries), k), End(EncodedTable(entries), k));
  }

  lemma DirectoryLength(entries: seq<Entry>)
    requires forall e :: e in entries ==> Checked(e)
    ensures |EncodedTable(entries).directory| == |PageNumbers(entries)|
  {}

  lemma BracketedIs(entries: seq<Entry>, codePoint: nat, begin: nat, end: nat)
    requires forall e :: e in entries ==> Checked(e)
    requires At(EncodedTable(entries).data, begin, PageBytes(entries, PageOf(codePoint)))
    requires end == begin + |PageBytes(entries, PageOf(codePoint))|
    ensures Bracketed(entries, codePoint, begin, end)
  {}

  lemma NoPage(entries: seq<Entry>, codePoint: nat)
    requires forall e :: e in entries ==> Checked(e)
    requires PageOf(codePoint) !in PageNumbers(entries)
    ensures Bracketed(entries, codePoint, 0, 0)
  {
    NotOnPage(entries, PageOf(codePoint));
  }

  lemma PageBeyond(entries: seq<Entry>, codePoint: nat)
    requires (forall e :: e in entries ==> Checked(e)) && codePoint > MAX_CODE_POINT
    ensures PageOf(codePoint) !in PageNumbers(entries)
  {
    forall page | page in PageNumbers(entries)
      ensures page <= MAX_CODE_POINT / PAGE_SIZE
    {
      var e :| e in entries && PageOf(e.code) == page;
      assert Checked(e);
    }
  }

  lemma PageAbsent(entries: seq<Entry>, page: nat)
    requires forall e :: e in entries ==> Checked(e)
    requires forall k: nat :: k < |EncodedTable(entries).directory| ==> EncodedTable(entries).directory[k] % DIRECTORY_UNIT != page
    ensures page !in PageNumbers(entries)
  {
    hide Checked, Directory, Stream;
    var pages := PageNumbers(entries);
    if page in pages {
      var k :| 0 <= k < |pages| && pages[k] == page;
      PageStart(entries, k);
      assert false;
    }
  }

  method PageRange(directory: seq<nat>, dataSize: nat, codePoint: nat, ghost entries: seq<Entry>) returns (begin: nat, end: nat)
    requires forall e :: e in entries ==> Checked(e)
    requires directory == EncodedTable(entries).directory && dataSize == |EncodedTable(entries).data|
    ensures Bracketed(entries, codePoint, begin, end)
  {
    hide Bracketed, EncodedTable, Checked, PageNumbers;
    if codePoint > MAX_CODE_POINT {
      PageBeyond(entries, codePoint);
      NoPage(entries, codePoint);
      return 0, 0;
    }
    var page := PageOf(codePoint);
    TableAscends(entries);
    var found := LowerBound(directory, page);
    if found == |directory| || directory[found] % DIRECTORY_UNIT != page {
      PageAbsent(entries, page);
      NoPage(entries, codePoint);
      return 0, 0;
    }
    BracketedPage(entries, codePoint, found);
    begin := directory[found] / DIRECTORY_UNIT;
    end := if found + 1 < |directory| then directory[found + 1] / DIRECTORY_UNIT else dataSize;
  }

  // ---------------------------------------------------------------------------------------------
  // Scanning a page

  /** The reader stands before an entry of a page; `current` is the code of the entry before it. */
  ghost predicate Scanning(kind: Kind, page: seq<Entry>, i: nat, data: seq<Byte>, position: nat, end: nat, current: nat) {
    && i <= |page| && AllChecked(kind, page) && Sorted(page)
    && (forall e :: e in page[i..] ==> current <= e.code)
    && (forall e :: e in page ==> Checked(e))
    && At(data, position, EntryBytes(page[i..], current))
    && end == position + |EntryBytes(page[i..], current)|
  }

  lemma ScanFirst(kind: Kind, entries: seq<Entry>, codePoint: nat, begin: nat, end: nat)
    requires Sorted(entries) && AllChecked(kind, entries) && (forall e :: e in entries ==> Checked(e))
    requires Bracketed(entries, codePoint, begin, end)
    ensures Scanning(kind, OnPage(entries, PageOf(codePoint)), 0, EncodedTable(entries).data, begin, end, PageBase(codePoint))
  {
    hide EntryBytes, EncodedTable, Checked;
    var page := OnPage(entries, PageOf(codePoint));
    OnPageSorted(entries, PageOf(codePoint));
    assert page[0..] == page;
    assert Base(PageOf(codePoint)) == PageBase(codePoint);
  }

  lemma ScanEnd(kind: Kind, page: seq<Entry>, i: nat, data: seq<Byte>, position: nat, end: nat, current: nat)
    requires Scanning(kind, page, i, data, position, end, current)
    ensures position < end <==> i < |page|
    ensures i <= |page| && end <= |data|
  {
    hide EntryBytes, Checked;
    if i < |page| {
      assert AllChecked(kind, page[i..]);
      EntryBytesFirst(kind, data, position, page[i..], current);
    } else {
      assert page[i..] == [];
      NoEntries(kind, data, position, current);
    }
  }

  /** What the reader finds at an integer of the table. */
  ghost predicate Word(data: seq<Byte>, position: nat, value: nat, next: nat) {
    value < WORD && next <= position + 5 && next <= |data| && Read(data, position) == Some((value, next))
  }

  lemma WordAt(data: seq<Byte>, position: nat, value: nat)
    requires At(data, position, Uleb(value)) && value < WORD
    ensures Word(data, position, value, position + |Uleb(value)|)
  {
    hide Uleb, Read;
    ReadUleb(data, position, value);
    WordLength(value);
  }

  method ReadWord(data: seq<Byte>, position: nat, ghost expected: nat, ghost after: nat) returns (value: nat, next: nat)
    requires Word(data, position, expected, after)
    ensures value == expected && next == after <= |data|
  {
    hide Read;
    value, next := ReadUnsigned(data, position);
  }

  lemma ScanRest(kind: Kind, page: seq<Entry>, i: nat, data: seq<Byte>, position: nat, end: nat, current: nat)
    requires Scanning(kind, page, i, data, position, end, current) && i < |page|
    ensures KindOf(page[i]) == kind && Checked(page[i]) && current <= page[i].code < WORD
    ensures AllChecked(kind, page[i..]) && (forall e :: e in page[i..] ==> Checked(e)) && page[i..] != []
    ensures page[i..][0] == page[i] && page[i..][1..] == page[i + 1..]
    ensures At(data, position, EntryBytes(page[i..], current)) && end == position + |EntryBytes(page[i..], current)|
  {
    hide EntryBytes, At;
    assert page[i] in page && page[i..][0] == page[i];
  }

  lemma ScanNext(kind: Kind, page: seq<Entry>, i: nat, data: seq<Byte>, position: nat, end: nat, current: nat, after: nat)
    requires Scanning(kind, page, i, data, position, end, current) && i < |page|
    requires forall e :: e in page[i + 1..] ==> Checked(e)
    requires At(data, after, EntryBytes(page[i + 1..], page[i].code)) && end == after + |EntryBytes(page[i + 1..], page[i].code)|
    ensures Scanning(kind, page, i + 1, data, after, end, page[i].code)
  {
    hide EntryBytes, At, Checked;
    forall x | x in page[i + 1..]
      ensures page[i].code <= x.code
    {
      var j :| i < j < |page| && page[j] == x;
    }
  }

  lemma ScanStep(kind: Kind, page: seq<Entry>, i: nat, data: seq<Byte>, position: nat, end: nat, current: nat) returns (next: nat)
    requires Scanning(kind, page, i, data, position, end, current) && i < |page|
    ensures KindOf(page[i]) == kind && Checked(page[i]) && current <= page[i].code
    ensures Word(data, position, page[i].code - current, next)
    ensures At(data, next, Payload(page[i]))
    ensures Scanning(kind, page, i + 1, data, next + |Payload(page[i])|, end, page[i].code)
  {
    hide *;
    var e := page[i];
    ScanRest(kind, page, i, data, position, end, current);
    EntryBytesFirst(kind, data, position, page[i..], current);
    DeltaBack(e.code, current);
    next := position + |Uleb(Delta(e.code, current))|;
    WordAt(data, position, Delta(e.code, current));
    ScanNext(kind, page, i, data, position, end, current, next + |Payload(e)|);
  }

  // ---------------------------------------------------------------------------------------------
  // The three lookups

  /** The table that the generator writes for a list of entries. */
  ghost predicate TableOf(kind: Kind, entries: seq<Entry>, t: Table) {
    && Sorted(entries) && AllChecked(kind, entries) && (forall e :: e in entries ==> Checked(e))
    && t == EncodedTable(entries)
  }

  ghost predicate Listing(entries: seq<Entry>, e: Entry) {
    e in entries
  }

  /** No entry has the code. */
  ghost predicate Unlisted(entries: seq<Entry>, code: nat) {
    forall e :: Listing(entries, e) ==> e.code != code
  }

  /** All entries before the reader have smaller codes. */
  ghost predicate Passed(page: seq<Entry>, i: nat, code: nat) {
    i <= |page| && forall j :: 0 <= j < i ==> page[j].code < code
  }

  lemma {:induction false} OnPageHas(entries: seq<Entry>, e: Entry)
    requires e in entries
    ensures e in OnPage(entries, PageOf(e.code))
  {
    if entries[0] != e {
      assert e in entries[1..];
      OnPageHas(entries[1..], e);
    }
  }

  lemma Missed(entries: seq<Entry>, i: nat, code: nat)
    requires Sorted(entries)
    requires var page := OnPage(entries, PageOf(code)); Passed(page, i, code) && (i == |page| || page[i].code > code)
    ensures Unlisted(entries, code)
  {
    var page := OnPage(entries, PageOf(code));
    OnPageSorted(entries, PageOf(code));
    forall e | Listing(entries, e)
      ensures e.code != code
    {
      if e.code == code {
        OnPageHas(entries, e);
        NotThere(page, i, e, code);
      }
    }
  }

  lemma NotThere(page: seq<Entry>, i: nat, e: Entry, code: nat)
    requires Sorted(page) && Passed(page, i, code) && (i == |page| || page[i].code > code) && e in page
    ensures e.code != code
  {
    var j :| 0 <= j < |page| && page[j] == e;
    if j < i {
      assert page[j].code < code;
    }
  }

  /** The state of a lookup between two entries. */
  ghost predicate Searching(kind: Kind, entries: seq<Entry>, t: Table, code: nat, i: nat, position: nat, end: nat, current: nat) {
    var page := OnPage(entries, PageOf(code));
    && Sorted(entries) && Scanning(kind, page, i, t.data, position, end, current) && Passed(page, i, code)
  }

  lemma TableParts(kind: Kind, entries: seq<Entry>, t: Table)
    requires TableOf(kind, entries, t)
    ensures Sorted(entries) && AllChecked(kind, entries) && (forall e :: e in entries ==> Checked(e))
    ensures t.directory == EncodedTable(entries).directory && t.data == EncodedTable(entries).data
  {}

  method SearchFirst(kind: Kind, t: Table, codePoint: nat, ghost entries: seq<Entry>) returns (begin: nat, end: nat)
    requires TableOf(kind, entries, t)
    ensures Searching(kind, entries, t, codePoint, 0, begin, end, PageBase(codePoint))
  {
    hide *;
    TableParts(kind, entries, t);
    begin, end := PageRange(t.directory, |t.data|, codePoint, entries);
    ScanFirst(kind, entries, codePoint, begin, end);
    PassedNone(OnPage(entries, PageOf(codePoint)), codePoint);
    SearchingFrom(kind, entries, t, codePoint, 0, begin, end, PageBase(codePoint));
  }

  lemma SearchingFrom(kind: Kind, entries: seq<Entry>, t: Table, code: nat, i: nat, position: nat, end: nat, current: nat)
    requires Sorted(entries)
    requires Scanning(kind, OnPage(entries, PageOf(code)), i, t.data, position, end, current) && Passed(OnPage(entries, PageOf(code)), i, code)
    ensures Searching(kind, entries, t, code, i, position, end, current)
  {}

  lemma SearchingParts(kind: Kind, entries: seq<Entry>, t: Table, code: nat, i: nat, position: nat, end: nat, current: nat)
    requires Searching(kind, entries, t, code, i, position, end, current)
    ensures Sorted(entries)
    ensures Scanning(kind, OnPage(entries, PageOf(code)), i, t.data, position, end, current) && Passed(OnPage(entries, PageOf(code)), i, code)
  {}

  lemma SearchEnd(kind: Kind, entries: seq<Entry>, t: Table, code: nat, i: nat, position: nat, end: nat, current: nat)
    requires Searching(kind, entries, t, code, i, position, end, current) && position >= end
    ensures Unlisted(entries, code)
  {
    hide *;
    SearchingParts(kind, entries, t, code, i, position, end, current);
    ScanEnd(kind, OnPage(entries, PageOf(code)), i, t.data, position, end, current);
    Missed(entries, i, code);
  }

  /** One entry is read: it is the one looked for, or lies behind it, or the search goes on. */
  lemma SearchStep(kind: Kind, entries: seq<Entry>, t: Table, code: nat, i: nat, position: nat, end: nat, current: nat)
    returns (e: Entry, next: nat)
    requires Searching(kind, entries, t, code, i, position, end, current) && position < end
    ensures KindOf(e) == kind && Checked(e) && current <= e.code && Listing(entries, e)
    ensures Word(t.data, position, e.code - current, next) && position < next
    ensures At(t.data, next, Payload(e))
    ensures e.code > code ==> Unlisted(entries, code)
    ensures e.code < code ==> Searching(kind, entries, t, code, i + 1, next + |Payload(e)|, end, e.code)
  {
    hide *;
    var page := OnPage(entries, PageOf(code));
    SearchingParts(kind, entries, t, code, i, position, end, current);
    ScanEnd(kind, page, i, t.data, position, end, current);
    next := ScanStep(kind, page, i, t.data, position, end, current);
    e := page[i];
    FoundEntry(entries, PageOf(code), i);
    WordForward(t.data, position, e.code - current, next);
    if e.code > code {
      Missed(entries, i, code);
    } else if e.code < code {
      PassedNext(page, i, code);
      SearchingFrom(kind, entries, t, code, i + 1, next + |Payload(e)|, end, e.code);
    }
  }

  lemma WordForward(data: seq<Byte>, position: nat, value: nat, next: nat)
    requires Word(data, position, value, next)
    ensures position < next
  {}

  lemma FoundEntry(entries: seq<Entry>, page: nat, i: nat)
    requires i < |OnPage(entries, page)|
    ensures Listing(entries, OnPage(entries, page)[i])
  {
    assert OnPage(entries, page)[i] in OnPage(entries, page);
  }

  lemma PassedNext(page: seq<Entry>, i: nat, code: nat)
    requires Passed(page, i, code) && i < |page| && page[i].code < code
    ensures Passed(page, i + 1, code)
  {}

  lemma PassedNone(page: seq<Entry>, code: nat)
    ensures Passed(page, 0, code)
  {}

  ghost predicate Small(values: seq<nat>) {
    forall v :: v in values ==> v < WORD
  }

  ghost predicate SmallPairs(pairs: seq<(nat, nat)>, previous: nat) {
    Ordered(pairs, previous) && forall p :: p in pairs ==> p.0 < WORD && p.1 < WORD
  }

  lemma ClassPayload(data: seq<Byte>, position: nat, e: Entry)
    requires KindOf(e) == Classes && Checked(e) && At(data, position, Payload(e))
    ensures position < |data| && data[position] == e.combiningClass && |Payload(e)| == 1
    ensures e == Class(e.code, e.combiningClass)
  {
    assert data[position] == data[position..position + 1][0];
  }

  method CombiningClassFor(t: Table, codePoint: nat, ghost entries: seq<Entry>) returns (combiningClass: nat)
    requires TableOf(Classes, entries, t)
    ensures Listing(entries, Class(codePoint, combiningClass)) || (combiningClass == 0 && Unlisted(entries, codePoint))
  {
    hide *;
    var position, end := SearchFirst(Classes, t, codePoint, entries);
    var current: nat := PageBase(codePoint);
    ghost var i: nat := 0;
    while position < end
      invariant Searching(Classes, entries, t, codePoint, i, position, end, current)
      decreases if position < end then end - position else 0
    {
      ghost var e, next := SearchStep(Classes, entries, t, codePoint, i, position, end, current);
      ClassPayload(t.data, next, e);
      var delta, after := ReadWord(t.data, position, e.code - current, next);
      current := current + delta;
      combiningClass := t.data[after];
      position := after + 1;
      if current == codePoint {
        return;
      }
      if current > codePoint {
        return 0;
      }
      i := i + 1;
    }
    SearchEnd(Classes, entries, t, codePoint, i, position, end, current);
    return 0;
  }

  lemma MappingPayload(data: seq<Byte>, position: nat, e: Entry)
    requires KindOf(e) == Mappings && Checked(e) && At(data, position, Payload(e))
    ensures e == Mapping(e.code, e.mapping, e.compatibility)
    ensures position < |data| && data[position] % 32 + 1 == |e.mapping| && (data[position] / 32 % 2 == 1) == e.compatibility
    ensures At(data, position + 1, ValueBytes(e.mapping)) && |Payload(e)| == 1 + |ValueBytes(e.mapping)|
    ensures Small(e.mapping)
  {
    hide Uleb, ValueBytes, Header;
    AtParts(data, position, [Header(e.mapping, e.compatibility)], ValueBytes(e.mapping));
    HeaderBack(e.mapping, e.compatibility);
    assert data[position] == data[position..position + 1][0];
  }

  lemma ValueStep(data: seq<Byte>, position: nat, values: seq<nat>)
    requires values != [] && At(data, position, ValueBytes(values))
    ensures At(data, position, Uleb(values[0])) && At(data, position + |Uleb(values[0])|, ValueBytes(values[1..]))
    ensures |ValueBytes(values)| == |Uleb(values[0])| + |ValueBytes(values[1..])|
  {
    hide Uleb, At;
    AtParts(data, position, Uleb(values[0]), ValueBytes(values[1..]));
  }

  lemma SmallAt(values: seq<nat>, i: nat)
    requires Small(values) && i < |values|
    ensures values[i] < WORD && values[i..] != [] && values[i..][0] == values[i] && values[i..][1..] == values[i + 1..]
    ensures values[..i + 1] == values[..i] + [values[i]]
  {
    assert values[i] in values;
  }

  method ReadValuesAt(data: seq<Byte>, start: nat, count: nat, ghost expected: seq<nat>) returns (values: seq<nat>, position: nat)
    requires At(data, start, ValueBytes(expected)) && count == |expected| && Small(expected)
    ensures values == expected && position == start + |ValueBytes(expected)|
  {
    hide *;
    values, position := [], start;
    assert expected[0..] == expected;
    for index := 0 to count
      invariant values == expected[..index]
      invariant At(data, position, ValueBytes(expected[index..]))
      invariant position + |ValueBytes(expected[index..])| == start + |ValueBytes(expected)|
    {
      SmallAt(expected, index);
      ValueStep(data, position, expected[index..]);
      WordAt(data, position, expected[index]);
      var value, next := ReadWord(data, position, expected[index], position + |Uleb(expected[index])|);
      values := values + [value];
      position := next;
    }
    assert expected[..count] == expected && expected[count..] == [];
    NoValues();
  }

  lemma NoValues()
    ensures ValueBytes([]) == []
  {}

  method DecompositionFor(t: Table, codePoint: nat, ghost entries: seq<Entry>) returns (r: Option<Entry>)
    requires TableOf(Mappings, entries, t)
    ensures r.Some? ==> r.value.code == codePoint && r.value.Mapping? && Listing(entries, r.value)
    ensures r.None? ==> Unlisted(entries, codePoint)
  {
    hide *;
    var position, end := SearchFirst(Mappings, t, codePoint, entries);
    var current: nat := PageBase(codePoint);
    ghost var i: nat := 0;
    while position < end
      invariant Searching(Mappings, entries, t, codePoint, i, position, end, current)
      decreases if position < end then end - position else 0
    {
      ghost var e, next := SearchStep(Mappings, entries, t, codePoint, i, position, end, current);
      MappingPayload(t.data, next, e);
      var delta, after := ReadWord(t.data, position, e.code - current, next);
      current := current + delta;
      var header := t.data[after];
      var mapping;
      mapping, position := ReadValuesAt(t.data, after + 1, header % 32 + 1, e.mapping);
      if current == codePoint {
        return Some(Mapping(codePoint, mapping, header / 32 % 2 == 1));
      }
      if current > codePoint {
        return None;
      }
      i := i + 1;
    }
    SearchEnd(Mappings, entries, t, codePoint, i, position, end, current);
    return None;
  }

  // ---------------------------------------------------------------------------------------------
  // Composition pairs

  ghost predicate HasPair(pairs: seq<(nat, nat)>, trailing: nat, composite: nat) {
    (trailing, composite) in pairs
  }

  /** Some entry lists the composition of a starter with a trailing code point. */
  ghost predicate Composes(entries: seq<Entry>, starter: nat, trailing: nat, composite: nat) {
    exists e :: Listing(entries, e) && e.Pairs? && e.code == starter && HasPair(e.pairs, trailing, composite)
  }

  ghost predicate NoComposition(entries: seq<Entry>, starter: nat, trailing: nat) {
    forall composite :: !Composes(entries, starter, trailing, composite)
  }

  lemma PairsPayload(data: seq<Byte>, position: nat, e: Entry)
    requires KindOf(e) == Compositions && Checked(e) && At(data, position, Payload(e))
    ensures e == Pairs(e.code, e.pairs)
    ensures Word(data, position, |e.pairs|, position + |Uleb(|e.pairs|)|)
    ensures At(data, position + |Uleb(|e.pairs|)|, PairBytes(e.pairs, 0))
    ensures |Payload(e)| == |Uleb(|e.pairs|)| + |PairBytes(e.pairs, 0)|
    ensures SmallPairs(e.pairs, 0)
  {
    hide Uleb, PairBytes, Read;
    AtParts(data, position, Uleb(|e.pairs|), PairBytes(e.pairs, 0));
    WordAt(data, position, |e.pairs|);
  }

  /** The reader stands before the i-th pair of a starter. */
  ghost predicate Pairing(pairs: seq<(nat, nat)>, i: nat, data: seq<Byte>, position: nat, end: nat, current: nat) {
    && i <= |pairs| && SmallPairs(pairs[i..], current)
    && At(data, position, PairBytes(pairs[i..], current)) && end == position + |PairBytes(pairs[i..], current)|
  }

  lemma PairingFirst(pairs: seq<(nat, nat)>, data: seq<Byte>, position: nat)
    requires SmallPairs(pairs, 0) && At(data, position, PairBytes(pairs, 0))
    ensures Pairing(pairs, 0, data, position, position + |PairBytes(pairs, 0)|, 0)
  {
    assert pairs[0..] == pairs;
  }

  lemma PairingLast(pairs: seq<(nat, nat)>, data: seq<Byte>, position: nat, end: nat, current: nat)
    requires Pairing(pairs, |pairs|, data, position, end, current)
    ensures position == end
  {}

  lemma PairingStep(pairs: seq<(nat, nat)>, i: nat, data: seq<Byte>, position: nat, end: nat, current: nat)
    returns (middle: nat, next: nat)
    requires Pairing(pairs, i, data, position, end, current) && i < |pairs|
    ensures current <= pairs[i].0
    ensures Word(data, position, pairs[i].0 - current, middle) && Word(data, middle, pairs[i].1, next)
    ensures Pairing(pairs, i + 1, data, next, end, pairs[i].0)
  {
    var rest := pairs[i..];
    assert rest[0] == pairs[i] && rest[1..] == pairs[i + 1..];
    assert pairs[i] in rest && current <= pairs[i].0;
    hide Uleb, At, Word;
    var (a, b) := (Uleb(Delta(pairs[i].0, current)), Uleb(pairs[i].1));
    AtParts(data, position, a + b, PairBytes(rest[1..], pairs[i].0));
    AtParts(data, position, a, b);
    middle, next := position + |a|, position + |a| + |b|;
    WordAt(data, position, Delta(pairs[i].0, current));
    WordAt(data, middle, pairs[i].1);
  }

  ghost predicate NotAmong(pairs: seq<(nat, nat)>, i: nat, trailing: nat) {
    i <= |pairs| && forall j :: 0 <= j < i ==> pairs[j].0 != trailing
  }

  lemma NotAmongNext(pairs: seq<(nat, nat)>, i: nat, trailing: nat)
    requires NotAmong(pairs, i, trailing) && i < |pairs| && pairs[i].0 != trailing
    ensures NotAmong(pairs, i + 1, trailing)
  {}

  lemma NotAmongNone(pairs: seq<(nat, nat)>, trailing: nat)
    ensures NotAmong(pairs, 0, trailing)
  {}

  /** The inner loop: stops at the pair looked for, if it is the right starter. */
  method FindPair(data: seq<Byte>, start: nat, count: nat, here: bool, trailing: nat, ghost pairs: seq<(nat, nat)>)
    returns (found: Option<nat>, position: nat)
    requires At(data, start, PairBytes(pairs, 0)) && SmallPairs(pairs, 0) && count == |pairs|
    ensures found.Some? ==> here && HasPair(pairs, trailing, found.value)
    ensures found.None? ==> position == start + |PairBytes(pairs, 0)|
    ensures found.None? && here ==> NotAmong(pairs, |pairs|, trailing)
  {
    hide *;
    position := start;
    var current: nat := 0;
    ghost var end := start + |PairBytes(pairs, 0)|;
    PairingFirst(pairs, data, start);
    NotAmongNone(pairs, trailing);
    for index := 0 to count
      invariant Pairing(pairs, index, data, position, end, current)
      invariant here ==> NotAmong(pairs, index, trailing)
    {
      ghost var middle, next := PairingStep(pairs, index, data, position, end, current);
      var delta, composite;
      delta, position := ReadWord(data, position, pairs[index].0 - current, middle);
      current := current + delta;
      composite, position := ReadWord(data, position, pairs[index].1, next);
      if here && current == trailing {
        HasPairAt(pairs, index);
        return Some(composite), position;
      }
      if here {
        NotAmongNext(pairs, index, trailing);
      }
    }
    PairingLast(pairs, data, position, end, current);
    return None, position;
  }

  lemma HasPairAt(pairs: seq<(nat, nat)>, i: nat)
    requires i < |pairs|
    ensures HasPair(pairs, pairs[i].0, pairs[i].1)
  {
    assert pairs[i] in pairs;
  }

  lemma ComposesBy(entries: seq<Entry>, e: Entry, trailing: nat, composite: nat)
    requires Listing(entries, e) && e.Pairs? && HasPair(e.pairs, trailing, composite)
    ensures Composes(entries, e.code, trailing, composite)
  {}

  /** None of the entries read so far lists the pair, and none lies behind the starter. */
  ghost predicate NoneSoFar(page: seq<Entry>, i: nat, starter: nat, trailing: nat) {
    && i <= |page|
    && forall j :: 0 <= j < i ==>
         && page[j].code <= starter && page[j].Pairs?
         && (page[j].code == starter ==> NotAmong(page[j].pairs, |page[j].pairs|, trailing))
  }

  lemma NoPairThere(page: seq<Entry>, i: nat, starter: nat, trailing: nat, e: Entry, composite: nat)
    requires Sorted(page) && NoneSoFar(page, i, starter, trailing) && (i == |page| || page[i].code > starter)
    requires e in page && e.Pairs? && e.code == starter
    ensures !HasPair(e.pairs, trailing, composite)
  {
    var j :| 0 <= j < |page| && page[j] == e;
    assert j < i;
  }

  lemma NoneAtAll(entries: seq<Entry>, i: nat, starter: nat, trailing: nat)
    requires Sorted(entries)
    requires var page := OnPage(entries, PageOf(starter)); NoneSoFar(page, i, starter, trailing) && (i == |page| || page[i].code > starter)
    ensures NoComposition(entries, starter, trailing)
  {
    OnPageSorted(entries, PageOf(starter));
    hide OnPage, HasPair, NoneSoFar, Sorted;
    forall e, composite | Listing(entries, e) && e.Pairs? && e.code == starter
      ensures !HasPair(e.pairs, trailing, composite)
    {
      OnPageHas(entries, e);
      NoPairThere(OnPage(entries, PageOf(starter)), i, starter, trailing, e, composite);
    }
  }

  ghost predicate Composing(entries: seq<Entry>, t: Table, starter: nat, trailing: nat, i: nat, position: nat, end: nat, current: nat) {
    && Sorted(entries) && Scanning(Compositions, OnPage(entries, PageOf(starter)), i, t.data, position, end, current)
    && NoneSoFar(OnPage(entries, PageOf(starter)), i, starter, trailing)
  }

  lemma ComposingFirst(entries: seq<Entry>, t: Table, starter: nat, trailing: nat, position: nat, end: nat, current: nat)
    requires Searching(Compositions, entries, t, starter, 0, position, end, current)
    ensures Composing(entries, t, starter, trailing, 0, position, end, current)
  {
    hide Scanning, OnPage;
  }

  lemma ComposingParts(entries: seq<Entry>, t: Table, starter: nat, trailing: nat, i: nat, position: nat, end: nat, current: nat)
    requires Composing(entries, t, starter, trailing, i, position, end, current)
    ensures Sorted(entries) && Scanning(Compositions, OnPage(entries, PageOf(starter)), i, t.data, position, end, current)
    ensures NoneSoFar(OnPage(entries, PageOf(starter)), i, starter, trailing)
  {}

  lemma ComposingNext(entries: seq<Entry>, t: Table, starter: nat, trailing: nat, i: nat, position: nat, end: nat, current: nat)
    requires Sorted(entries) && i < |OnPage(entries, PageOf(starter))|
    requires NoneSoFar(OnPage(entries, PageOf(starter)), i, starter, trailing)
    requires Scanning(Compositions, OnPage(entries, PageOf(starter)), i + 1, t.data, position, end, current)
    requires var e := OnPage(entries, PageOf(starter))[i];
      e.Pairs? && e.code <= starter && (e.code == starter ==> NotAmong(e.pairs, |e.pairs|, trailing))
    ensures Composing(entries, t, starter, trailing, i + 1, position, end, current)
  {
    hide Scanning, OnPage, NotAmong;
  }

  lemma ComposingEnd(entries: seq<Entry>, t: Table, starter: nat, trailing: nat, i: nat, position: nat, end: nat, current: nat)
    requires Composing(entries, t, starter, trailing, i, position, end, current) && position >= end
    ensures NoComposition(entries, starter, trailing)
  {
    hide *;
    ComposingParts(entries, t, starter, trailing, i, position, end, current);
    ScanEnd(Compositions, OnPage(entries, PageOf(starter)), i, t.data, position, end, current);
    NoneAtAll(entries, i, starter, trailing);
  }

  /** One starter is read; `i` counts the entries before it. */
  lemma ComposingStep(entries: seq<Entry>, t: Table, starter: nat, trailing: nat, i: nat, position: nat, end: nat, current: nat)
    returns (e: Entry, next: nat)
    requires Composing(entries, t, starter, trailing, i, position, end, current) && position < end
    ensures e.Pairs? && KindOf(e) == Compositions && Checked(e) && current <= e.code && Listing(entries, e)
    ensures Word(t.data, position, e.code - current, next) && position < next
    ensures At(t.data, next, Payload(e))
    ensures e.code > starter ==> NoComposition(entries, starter, trailing)
    ensures e.code <= starter && (e.code == starter ==> NotAmong(e.pairs, |e.pairs|, trailing)) ==>
      Composing(entries, t, starter, trailing, i + 1, next + |Payload(e)|, end, e.code)
  {
    hide *;
    var page := OnPage(entries, PageOf(starter));
    ComposingParts(entries, t, starter, trailing, i, position, end, current);
    ScanEnd(Compositions, page, i, t.data, position, end, current);
    next := ScanStep(Compositions, page, i, t.data, position, end, current);
    e := page[i];
    FoundEntry(entries, PageOf(starter), i);
    WordForward(t.data, position, e.code - current, next);
    KindPairs(e);
    if e.code > starter {
      NoneAtAll(entries, i, starter, trailing);
    } else if e.code < starter || NotAmong(e.pairs, |e.pairs|, trailing) {
      ComposingNext(entries, t, starter, trailing, i, next + |Payload(e)|, end, e.code);
    }
  }

  lemma KindPairs(e: Entry)
    requires KindOf(e) == Compositions
    ensures e.Pairs?
  {}

  /** After the entry of the starter itself the scan reads one more entry, if there is one, and stops. */
  method CompositionFor(t: Table, starter: nat, trailing: nat, ghost entries: seq<Entry>) returns (composite: nat)
    requires TableOf(Compositions, entries, t)
    ensures Composes(entries, starter, trailing, composite) || (composite == 0 && NoComposition(entries, starter, trailing))
  {
    hide *;
    var position, end := SearchFirst(Compositions, t, starter, entries);
    var current: nat := PageBase(starter);
    ghost var i: nat := 0;
    ComposingFirst(entries, t, starter, trailing, position, end, current);
    while position < end
      invariant Composing(entries, t, starter, trailing, i, position, end, current)
      decreases if position < end then end - position else 0
    {
      ghost var e, next := ComposingStep(entries, t, starter, trailing, i, position, end, current);
      PairsPayload(t.data, next, e);
      var delta, count, found;
      delta, position := ReadWord(t.data, position, e.code - current, next);
      current := current + delta;
      count, position := ReadWord(t.data, position, |e.pairs|, next + |Uleb(|e.pairs|)|);
      found, position := FindPair(t.data, position, count, current == starter, trailing, e.pairs);
      if found.Some? {
        ComposesBy(entries, e, trailing, found.value);
        return found.value;
      }
      if current > starter {
        return 0;
      }
      i := i + 1;
    }
    ComposingEnd(entries, t, starter, trailing, i, position, end, current);
    return 0;
  }
}
