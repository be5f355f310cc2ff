// The paged tables of the Unicode normalization generator: encoder, decoder and round trip.
module NormalizationTables {
  import opened Bytes
  import opened Wrappers
  import opened Collections
  import opened Leb128
  import opened NormalizationStream

  const PAGE_SIZE := 0x1000
  const DIRECTORY_UNIT := 0x200
  const MAX_STREAM_OFFSET := 0x7FFFFF

  datatype PackError = PageTooLarge(page: int) | OffsetTooLarge(offset: int)

  /** A page number in the low nine bits and a stream offset above them. */
  function PackPage(page: int, offset: int): (r: Result<nat, PackError>)
    ensures r.Success? <==> 0 <= page <= 0x1FF && 0 <= offset <= 0x7F_FFFF
    ensures r.Success? ==> r.value % 0x200 == page && r.value / 0x200 == offset && r.value < 0x1_0000_0000
  {
    if !(0 <= page <= DIRECTORY_UNIT - 1) then Failure(PageTooLarge(page))
    else if !(0 <= offset <= MAX_STREAM_OFFSET) then Failure(OffsetTooLarge(offset))
    else Success(offset * DIRECTORY_UNIT + page)
  }

  /** A sparse page directory and the bytes it points into. */
  datatype Table = Table(directory: seq<nat>, data: seq<Byte>)

  function Base(page: nat): nat {
    page * PAGE_SIZE
  }

  function OnPage(entries: seq<Entry>, page: nat): (r: seq<Entry>)
    ensures forall e :: e in r ==> e in entries && e.code / 0x1000 == page
  {
    if entries == [] then []
    else if entries[0].code / PAGE_SIZE == page then [entries[0]] + OnPage(entries[1..], page)
    else OnPage(entries[1..], page)
  }

  function PageSet(entries: seq<Entry>): set<nat> {
    set e | e in entries :: e.code / PAGE_SIZE
  }

  /** The represented pages in ascending order. */
  function PageNumbers(entries: seq<Entry>): seq<nat> {
    Listed(PageSet(entries))
  }

  function PageBytes(entries: seq<Entry>, page: nat): seq<Byte>
    requires forall e :: e in entries ==> Checked(e)
  {
    EntryBytes(OnPage(entries, page), Base(page))
  }

  function Stream(entries: seq<Entry>, pages: seq<nat>): seq<Byte>
    requires forall e :: e in entries ==> Checked(e)
  {
    if pages == [] then []
    else Stream(entries, pages[..|pages| - 1]) + PageBytes(entries, pages[|pages| - 1])
  }

  function Directory(entries: seq<Entry>, pages: seq<nat>): (r: seq<nat>)
    requires forall e :: e in entries ==> Checked(e)
    ensures |r| == |pages|
  {
    if pages == [] then []
    else
      var front := pages[..|pages| - 1];
      Directory(entries, front) + [|Stream(entries, front)| * DIRECTORY_UNIT + pages[|pages| - 1]]
  }

  function EncodedTable(entries: seq<Entry>): Table
    requires forall e :: e in entries ==> Checked(e)
  {
    Table(Directory(entries, PageNumbers(entries)), Stream(entries, PageNumbers(entries)))
  }

  /** Every page starts within the 23 bits the directory has for an offset. */
  ghost predicate Addressable(entries: seq<Entry>, pages: seq<nat>)
    requires forall e :: e in entries ==> Checked(e)
  {
    forall k :: 0 <= k < |pages| ==> |Stream(entries, pages[..k])| <= 0x7F_FFFF
  }

  // ---------------------------------------------------------------------------------------------
  // Encoder

  lemma {:induction false} OnPageAppend(entries: seq<Entry>, e: Entry, page: nat)
    ensures OnPage(entries + [e], page) == OnPage(entries, page) + (if e.code / PAGE_SIZE == page then [e] else [])
  {
    if entries == [] {
      assert entries + [e] == [e] && [e][1..] == [];
    } else {
      OnPageAppend(entries[1..], e, page);
      assert (entries + [e])[1..] == entries[1..] + [e];
    }
  }

  lemma PageSetAppend(entries: seq<Entry>, e: Entry)
    ensures PageSet(entries + [e]) == PageSet(entries) + {e.code / PAGE_SIZE}
  {
    var more := entries + [e];
    assert more[|entries|] == e;
    forall x | x in entries
      ensures x in more
    {}
  }

  ghost predicate Grouped(pages: map<nat, seq<Entry>>, entries: seq<Entry>) {
    pages.Keys == PageSet(entries) && forall p :: p in pages ==> pages[p] == OnPage(entries, p)
  }

  lemma GroupedNext(pages: map<nat, seq<Entry>>, entries: seq<Entry>, e: Entry)
    requires Grouped(pages, entries)
    ensures
      var page := e.code / PAGE_SIZE;
      Grouped(pages[page := (if page in pages then pages[page] else []) + [e]], entries + [e])
  {
    var page := e.code / PAGE_SIZE;
    var next := pages[page := (if page in pages then pages[page] else []) + [e]];
    PageSetAppend(entries, e);
    if page !in pages {
      NotOnPage(entries, page);
    }
    hide OnPage, PageSet;
    forall p | p in next
      ensures next[p] == OnPage(entries + [e], p)
    {
      OnPageAppend(entries, e, p);
    }
  }

  lemma {:induction false} NotOnPage(entries: seq<Entry>, page: nat)
    requires page !in PageSet(entries)
    ensures OnPage(entries, page) == []
  {
    if entries != [] {
      assert entries[0] in entries;
      assert PageSet(entries[1..]) <= PageSet(entries);
      NotOnPage(entries[1..], page);
    }
  }

  lemma {:induction false} OnPageSorted(entries: seq<Entry>, page: nat)
    requires Sorted(entries)
    ensures Sorted(OnPage(entries, page))
  {
    if entries != [] {
      OnPageSorted(entries[1..], page);
      var r := OnPage(entries[1..], page);
      forall i | 0 <= i < |r|
        ensures entries[0].code < r[i].code
      {
        assert r[i] in entries[1..];
      }
    }
  }

  method GroupByPage(entries: seq<Entry>) returns (pages: map<nat, seq<Entry>>)
    ensures Grouped(pages, entries)
  {
    pages := map[];
    for i := 0 to |entries|
      invariant Grouped(pages, entries[..i])
    {
      var entry := entries[i];
      var page: nat := entry.code / PAGE_SIZE;
      assert entries[..i + 1] == entries[..i] + [entry];
      GroupedNext(pages, entries[..i], entry);
      hide *;
      pages := pages[page := (if page in pages then pages[page] else []) + [entry]];
    }
    assert entries[..|entries|] == entries;
  }

  ghost predicate Written(entries: seq<Entry>, order: seq<nat>, k: nat, directory: seq<nat>, data: seq<Byte>) {
    && k <= |order| && (forall e :: e in entries ==> Checked(e))
    && data == Stream(entries, order[..k]) && directory == Directory(entries, order[..k])
    && Addressable(entries, order[..k])
  }

  lemma NothingWritten(kind: Kind, entries: seq<Entry>, order: seq<nat>)
    requires AllChecked(kind, entries)
    ensures Written(entries, order, 0, [], [])
  {}

  lemma PageWritten(entries: seq<Entry>, order: seq<nat>, k: nat, directory: seq<nat>, data: seq<Byte>)
    requires Written(entries, order, k, directory, data) && k < |order| && |data| <= MAX_STREAM_OFFSET
    ensures Written(entries, order, k + 1, directory + [|data| * DIRECTORY_UNIT + order[k]],
                    data + EntryBytes(OnPage(entries, order[k]), Base(order[k])))
  {
    StreamNext(entries, order, k);
    hide Stream, Directory, EntryBytes, OnPage;
    AddressableNext(entries, order, k);
  }

  lemma AddressableNext(entries: seq<Entry>, order: seq<nat>, k: nat)
    requires k < |order| && (forall e :: e in entries ==> Checked(e))
    requires Addressable(entries, order[..k]) && |Stream(entries, order[..k])| <= MAX_STREAM_OFFSET
    ensures Addressable(entries, order[..k + 1])
  {
    hide Stream, Checked;
    forall j: nat {:trigger order[..k + 1][..j]} | j < k + 1
      ensures |Stream(entries, order[..k + 1][..j])| <= MAX_STREAM_OFFSET
    {
      assert order[..k + 1][..j] == order[..j];
      if j < k {
        assert order[..k][..j] == order[..j];
      }
    }
  }

  lemma AllWritten(entries: seq<Entry>, directory: seq<nat>, data: seq<Byte>)
    requires Written(entries, PageNumbers(entries), |PageNumbers(entries)|, directory, data)
    ensures Table(directory, data) == EncodedTable(entries) && Addressable(entries, PageNumbers(entries))
  {
    var order := PageNumbers(entries);
    assert order[..|order|] == order;
  }

  lemma GroupedOrder(pages: map<nat, seq<Entry>>, entries: seq<Entry>)
    requires Grouped(pages, entries)
    ensures Listed(pages.Keys) == PageNumbers(entries)
  {}

  lemma WrittenParts(entries: seq<Entry>, order: seq<nat>, k: nat, directory: seq<nat>, data: seq<Byte>)
    requires Written(entries, order, k, directory, data) && k < |order|
    ensures forall e :: e in entries ==> Checked(e)
    ensures data == Stream(entries, order[..k])
    ensures |data| > MAX_STREAM_OFFSET ==> !Addressable(entries, order)
  {}

  /** The three generator functions share these loops; they differ in the payload of an entry. */
  method EncodePages(kind: Kind, entries: seq<Entry>) returns (r: Result<Table, PackError>)
    requires Sorted(entries) && AllChecked(kind, entries)
    ensures r.Success? <==> Addressable(entries, PageNumbers(entries))
    ensures r.Success? ==> r.value == EncodedTable(entries)
  {
    hide *;
    var pages := GroupByPage(entries);
    var order := Listed(pages.Keys);
    GroupedOrder(pages, entries);
    var directory: seq<nat> := [];
    var data: seq<Byte> := [];
    NothingWritten(kind, entries, order);
    for k := 0 to |order|
      invariant Written(entries, order, k, directory, data)
    {
      var page: nat := order[k];
      OrderedPage(kind, entries, pages, page);
      WrittenParts(entries, order, k, directory, data);
      var packed := PackPage(page, |data|);
      PackFails(page, |data|);
      if packed.Failure? {
        return Failure(packed.error);
      }
      PageWritten(entries, order, k, directory, data);
      directory := directory + [packed.value];
      var bytes := EncodePage(kind, pages[page], Base(page));
      data := data + bytes;
    }
    AllWritten(entries, directory, data);
    return Success(Table(directory, data));
  }

  lemma OrderedPage(kind: Kind, entries: seq<Entry>, pages: map<nat, seq<Entry>>, page: nat)
    requires Sorted(entries) && AllChecked(kind, entries)
    requires Grouped(pages, entries) && page in Listed(pages.Keys)
    ensures page in pages && pages[page] == OnPage(entries, page) && page < DIRECTORY_UNIT
    ensures Sorted(pages[page]) && AllChecked(kind, pages[page])
    ensures forall e :: e in pages[page] ==> Base(page) <= e.code
  {
    OnPageSorted(entries, page);
    var e :| e in entries && e.code / PAGE_SIZE == page;
    assert Checked(e);
  }

  lemma StreamNext(entries: seq<Entry>, order: seq<nat>, k: nat)
    requires k < |order| && forall e :: e in entries ==> Checked(e)
    ensures Stream(entries, order[..k + 1]) == Stream(entries, order[..k]) + EntryBytes(OnPage(entries, order[k]), Base(order[k]))
    ensures Directory(entries, order[..k + 1])
         == Directory(entries, order[..k]) + [|Stream(entries, order[..k])| * DIRECTORY_UNIT + order[k]]
  {
    hide EntryBytes, OnPage, Checked;
    assert order[..k + 1][..k] == order[..k];
  }

  lemma PackFails(page: nat, offset: nat)
    requires page < DIRECTORY_UNIT
    ensures PackPage(page, offset).Failure? ==> offset > MAX_STREAM_OFFSET
    ensures PackPage(page, offset).Success? ==> offset <= MAX_STREAM_OFFSET && PackPage(page, offset).value == offset * DIRECTORY_UNIT + page
  {}

  /** One page; integers are never negative because the entries are in order. */
  method EncodePage(ghost kind: Kind, entries: seq<Entry>, base: nat) returns (data: seq<Byte>)
    requires Sorted(entries) && AllChecked(kind, entries) && forall e :: e in entries ==> base <= e.code
    ensures data == EntryBytes(entries, base)
  {
    hide EntryBytes, LastCode, Uleb, Payload, Delta, Sorted, KindOf, Checked;
    data := [];
    var previous: nat := base;
    NoEntryBytes(entries, base);
    for i := 0 to |entries|
      invariant data == EntryBytes(entries[..i], base) && previous == LastCode(entries[..i], base)
    {
      var entry := entries[i];
      PageStep(kind, entries, base, i);
      var delta := EncodeDelta(previous, entry.code);
      var payload := EncodePayload(entry);
      data := data + delta + payload;
      previous := entry.code;
    }
    assert entries[..|entries|] == entries;
  }

  lemma NoEntryBytes(entries: seq<Entry>, base: nat)
    ensures EntryBytes(entries[..0], base) == [] && LastCode(entries[..0], base) == base
  {}

  lemma PageStep(kind: Kind, entries: seq<Entry>, base: nat, i: nat)
    requires Sorted(entries) && AllChecked(kind, entries) && forall e :: e in entries ==> base <= e.code
    requires i < |entries|
    ensures LastCode(entries[..i], base) <= entries[i].code && Checked(entries[i])
    ensures EntryBytes(entries[..i + 1], base)
         == EntryBytes(entries[..i], base) + Uleb(Delta(entries[i].code, LastCode(entries[..i], base))) + Payload(entries[i])
    ensures LastCode(entries[..i + 1], base) == entries[i].code
  {
    assert entries[..i + 1] == entries[..i] + [entries[i]];
    EntryBytesAppend(entries[..i], entries[i], base);
    LastCodeIs(entries[..i], entries[i], base);
    hide EntryBytes, Uleb, Payload, Checked;
  }

  lemma LastCodeIs(entries: seq<Entry>, e: Entry, base: nat)
    ensures LastCode(entries + [e], base) == e.code
  {}

  method EncodeDelta(previous: nat, value: nat) returns (bytes: seq<Byte>)
    requires previous <= value
    ensures bytes == Uleb(Delta(value, previous))
  {
    var encoded := EncodeUnsigned(value - previous);
    bytes := encoded.value;
  }

  method EncodePayload(entry: Entry) returns (data: seq<Byte>)
    requires Checked(entry)
    ensures data == Payload(entry)
  {
    hide Uleb, ValueBytes, PairBytes;
    match entry
    case Mapping(_, mapping, compatibility) =>
      var header := |mapping| - 1;
      if compatibility {
        header := header + 0x20;
      }
      var values := EncodeValues(mapping);
      data := [header] + values;
    case Class(_, combiningClass) =>
      data := [combiningClass];
    case Pairs(_, pairs) =>
      var count := EncodeDelta(0, |pairs|);
      var values := EncodePairs(pairs);
      data := count + values;
  }

  method EncodeValues(mapping: seq<nat>) returns (data: seq<Byte>)
    ensures data == ValueBytes(mapping)
  {
    data := [];
    for i := 0 to |mapping|
      invariant data == ValueBytes(mapping[..i])
    {
      hide *;
      var bytes := EncodeDelta(0, mapping[i]);
      DeltaFromZero(mapping[i]);
      ValueBytesAppend(mapping[..i], mapping[i]);
      assert mapping[..i + 1] == mapping[..i] + [mapping[i]];
      data := data + bytes;
    }
    assert mapping[..|mapping|] == mapping;
  }

  lemma DeltaFromZero(x: nat)
    ensures Delta(x, 0) == x
  {}

  method EncodePairs(pairs: seq<(nat, nat)>) returns (data: seq<Byte>)
    requires Ordered(pairs, 0)
    ensures data == PairBytes(pairs, 0)
  {
    data := [];
    var previous: nat := 0;
    for i := 0 to |pairs|
      invariant data == PairBytes(pairs[..i], 0)
      invariant previous == if i == 0 then 0 else pairs[i - 1].0
    {
      hide *;
      OrderedAt(pairs, 0, i);
      var trailing := EncodeDelta(previous, pairs[i].0);
      var composite := EncodeDelta(0, pairs[i].1);
      DeltaFromZero(pairs[i].1);
      PairBytesAppend(pairs[..i], pairs[i], 0);
      assert pairs[..i + 1] == pairs[..i] + [pairs[i]];
      data := data + trailing + composite;
      previous := pairs[i].0;
    }
    assert pairs[..|pairs|] == pairs;
  }

  lemma {:induction false} OrderedAt(pairs: seq<(nat, nat)>, previous: nat, i: nat)
    requires Ordered(pairs, previous) && i < |pairs|
    ensures (if i == 0 then previous else pairs[i - 1].0) <= pairs[i].0
    decreases i
  {
    if i > 0 {
      OrderedAt(pairs[1..], pairs[0].0, i - 1);
    }
  }
}
