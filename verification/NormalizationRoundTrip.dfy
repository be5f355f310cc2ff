// The paged normalization tables can be read back: decoding returns the encoded entries.
module NormalizationRoundTrip {
  import opened Bytes
  import opened Wrappers
  import opened Collections
  import opened Leb128
  import opened NormalizationStream
  import opened NormalizationTables

  function PageAt(t: Table, k: nat): nat
    requires k < |t.directory|
  {
    t.directory[k] % DIRECTORY_UNIT
  }

  function Start(t: Table, k: nat): nat
    requires k < |t.directory|
  {
    t.directory[k] / DIRECTORY_UNIT
  }

  /** A page ends where the next one starts. */
  function End(t: Table, k: nat): nat
    requires k < |t.directory|
  {
    if k + 1 < |t.directory| then Start(t, k + 1) else |t.data|
  }

  function DecodeFirst(kind: Kind, t: Table, k: nat): Option<seq<Entry>>
    requires k <= |t.directory|
  {
    if k == 0 then Some([])
    else
      match DecodeFirst(kind, t, k - 1)
      case None => None
      case Some(before) =>
        match DecodePage(kind, t.data, Start(t, k - 1), End(t, k - 1), Base(PageAt(t, k - 1)))
        case None => None
        case Some(here) => Some(before + here)
  }

  function Decode(kind: Kind, t: Table): Option<seq<Entry>> {
    DecodeFirst(kind, t, |t.directory|)
  }

  // ---------------------------------------------------------------------------------------------
  // Where the pages lie

  lemma {:induction false} DirectoryAt(entries: seq<Entry>, pages: seq<nat>, k: nat)
    requires (forall e :: e in entries ==> Checked(e)) && k < |pages|
    ensures Directory(entries, pages)[k] == |Stream(entries, pages[..k])| * DIRECTORY_UNIT + pages[k]
  {
    hide Stream, Checked;
    var front := pages[..|pages| - 1];
    if k < |front| {
      DirectoryAt(entries, front, k);
      assert front[..k] == pages[..k];
    }
  }

  lemma {:induction false} StreamAt(entries: seq<Entry>, pages: seq<nat>, k: nat)
    requires (forall e :: e in entries ==> Checked(e)) && k < |pages|
    ensures At(Stream(entries, pages), |Stream(entries, pages[..k])|, PageBytes(entries, pages[k]))
    ensures |Stream(entries, pages[..k + 1])| == |Stream(entries, pages[..k])| + |PageBytes(entries, pages[k])|
  {
    hide PageBytes, Checked;
    var front := pages[..|pages| - 1];
    if k < |front| {
      StreamAt(entries, front, k);
      assert front[..k] == pages[..k] && front[..k + 1] == pages[..k + 1];
      AtLonger(Stream(entries, front), PageBytes(entries, pages[|pages| - 1]), |Stream(entries, pages[..k])|, PageBytes(entries, pages[k]));
    } else {
      assert front == pages[..k] && pages[..k + 1] == pages;
      assert Stream(entries, pages)[|Stream(entries, front)|..] == PageBytes(entries, pages[k]);
    }
  }

  lemma AtLonger(data: seq<Byte>, more: seq<Byte>, offset: nat, bytes: seq<Byte>)
    requires At(data, offset, bytes)
    ensures At(data + more, offset, bytes)
  {
    assert (data + more)[offset..offset + |bytes|] == data[offset..offset + |bytes|];
  }

  lemma PageNumber(entries: seq<Entry>, k: nat)
    requires (forall e :: e in entries ==> Checked(e)) && k < |PageNumbers(entries)|
    ensures PageNumbers(entries)[k] < DIRECTORY_UNIT
  {
    var page := PageNumbers(entries)[k];
    assert page in PageNumbers(entries);
    var e :| e in entries && e.code / PAGE_SIZE == page;
    assert Checked(e);
  }

  lemma Unpacked(offset: nat, page: nat)
    requires page < DIRECTORY_UNIT
    ensures (offset * DIRECTORY_UNIT + page) / DIRECTORY_UNIT == offset
    ensures (offset * DIRECTORY_UNIT + page) % DIRECTORY_UNIT == page
  {}

  lemma PageStart(entries: seq<Entry>, k: nat)
    requires (forall e :: e in entries ==> Checked(e)) && k < |PageNumbers(entries)|
    ensures
      var (t, pages) := (EncodedTable(entries), PageNumbers(entries));
      && |t.directory| == |pages| && PageAt(t, k) == pages[k]
      && Start(t, k) == |Stream(entries, pages[..k])|
  {
    hide Checked, Stream, Directory;
    PageNumber(entries, k);
    DirectoryAt(entries, PageNumbers(entries), k);
    Unpacked(|Stream(entries, PageNumbers(entries)[..k])|, PageNumbers(entries)[k]);
  }

  /** The directory brackets exactly the bytes of every page. */
  lemma PageBrackets(entries: seq<Entry>, k: nat)
    requires (forall e :: e in entries ==> Checked(e)) && k < |PageNumbers(entries)|
    ensures
      var (t, pages) := (EncodedTable(entries), PageNumbers(entries));
      && |t.directory| == |pages| && PageAt(t, k) == pages[k]
      && At(t.data, Start(t, k), PageBytes(entries, pages[k]))
      && End(t, k) == Start(t, k) + |PageBytes(entries, pages[k])|
  {
    var (t, pages) := (EncodedTable(entries), PageNumbers(entries));
    hide PageNumbers, Stream, Directory, PageBytes, At, Checked, Start, PageAt, End;
    PageStart(entries, k);
    StreamAt(entries, pages, k);
    if k + 1 < |pages| {
      PageStart(entries, k + 1);
      EndBetween(t, k);
    } else {
      assert pages[..k + 1] == pages;
      EndLast(t, k);
    }
  }

  lemma EndBetween(t: Table, k: nat)
    requires k + 1 < |t.directory|
    ensures End(t, k) == Start(t, k + 1)
  {}

  lemma EndLast(t: Table, k: nat)
    requires k + 1 == |t.directory|
    ensures End(t, k) == |t.data|
  {}

  // ---------------------------------------------------------------------------------------------
  // Round trip

  function OnPages(entries: seq<Entry>, pages: seq<nat>): seq<Entry> {
    if pages == [] then []
    else OnPages(entries, pages[..|pages| - 1]) + OnPage(entries, pages[|pages| - 1])
  }

  lemma {:induction false} OnPageSplit(a: seq<Entry>, b: seq<Entry>, page: nat)
    ensures OnPage(a + b, page) == OnPage(a, page) + OnPage(b, page)
  {
    if a == [] {
      assert a + b == b;
    } else {
      OnPageSplit(a[1..], b, page);
      assert (a + b)[1..] == a[1..] + b;
    }
  }

  lemma {:induction false} AllOnPage(entries: seq<Entry>, page: nat)
    requires forall e :: e in entries ==> e.code / PAGE_SIZE == page
    ensures OnPage(entries, page) == entries
  {
    if entries != [] {
      AllOnPage(entries[1..], page);
      assert entries == [entries[0]] + entries[1..] && entries[0] in entries;
    }
  }

  lemma {:induction false} NoneOnPage(entries: seq<Entry>, page: nat)
    requires forall e :: e in entries ==> e.code / PAGE_SIZE != page
    ensures OnPage(entries, page) == []
  {
    if entries != [] {
      NoneOnPage(entries[1..], page);
      assert entries[0] in entries;
    }
  }

  ghost predicate Covered(entries: seq<Entry>, pages: seq<nat>) {
    forall e :: e in entries ==> e.code / PAGE_SIZE in pages
  }

  ghost predicate Outside(entries: seq<Entry>, pages: seq<nat>) {
    forall e :: e in entries ==> e.code / PAGE_SIZE !in pages
  }

  lemma OnPagesStep(entries: seq<Entry>, pages: seq<nat>)
    requires pages != []
    ensures OnPages(entries, pages) == OnPages(entries, pages[..|pages| - 1]) + OnPage(entries, pages[|pages| - 1])
  {}

  lemma OutsideLess(entries: seq<Entry>, pages: seq<nat>)
    requires Outside(entries, pages) && pages != []
    ensures Outside(entries, pages[..|pages| - 1]) && forall e :: e in entries ==> e.code / PAGE_SIZE != pages[|pages| - 1]
  {}

  lemma NothingBefore(b: seq<Entry>)
    ensures [] + b == b && b + [] == b
  {}

  lemma {:induction false} OnPagesPrefix(a: seq<Entry>, b: seq<Entry>, pages: seq<nat>)
    requires Outside(b, pages)
    ensures OnPages(a + b, pages) == OnPages(a, pages)
    decreases |pages|
  {
    if pages != [] {
      hide *;
      var page := pages[|pages| - 1];
      OutsideLess(b, pages);
      OnPagesPrefix(a, b, pages[..|pages| - 1]);
      OnPageSplit(a, b, page);
      NoneOnPage(b, page);
      OnPagesStep(a, pages);
      OnPagesStep(a + b, pages);
      NothingBefore(OnPage(a, page));
    }
  }

  /** Entries in order are those of earlier pages followed by those of one page. */
  lemma {:induction false} CutAt(entries: seq<Entry>, page: nat) returns (n: nat)
    requires Sorted(entries) && forall e :: e in entries ==> e.code / PAGE_SIZE <= page
    ensures n <= |entries|
    ensures forall e :: e in entries[..n] ==> e.code / PAGE_SIZE < page
    ensures forall e :: e in entries[n..] ==> e.code / PAGE_SIZE == page
  {
    n := 0;
    while n < |entries| && entries[n].code / PAGE_SIZE < page
      invariant n <= |entries| && forall i :: 0 <= i < n ==> entries[i].code / PAGE_SIZE < page
    {
      n := n + 1;
    }
    forall e | e in entries[n..]
      ensures e.code / PAGE_SIZE == page
    {
      var i :| n <= i < |entries| && entries[i] == e;
      PageGrows(entries[n].code, entries[i].code);
      assert entries[i] in entries;
    }
  }

  lemma PageGrows(x: nat, y: nat)
    ensures x <= y ==> x / PAGE_SIZE <= y / PAGE_SIZE
  {}

  lemma NoPages(entries: seq<Entry>)
    requires Covered(entries, [])
    ensures entries == [] && OnPages(entries, []) == []
  {
    if entries != [] {
      CoveredFirst(entries, []);
    }
  }

  lemma CoveredFirst(entries: seq<Entry>, pages: seq<nat>)
    requires Covered(entries, pages) && entries != []
    ensures pages != []
  {
    assert entries[0].code / PAGE_SIZE in pages;
  }

  lemma LastPage(entries: seq<Entry>, pages: seq<nat>)
    requires Ascending(pages) && Covered(entries, pages) && pages != []
    ensures forall e :: e in entries ==> e.code / PAGE_SIZE <= pages[|pages| - 1]
  {}

  lemma CutPages(a: seq<Entry>, b: seq<Entry>, pages: seq<nat>)
    requires Sorted(a + b) && Ascending(pages) && Covered(a + b, pages) && pages != []
    requires forall e :: e in a ==> e.code / PAGE_SIZE < pages[|pages| - 1]
    requires forall e :: e in b ==> e.code / PAGE_SIZE == pages[|pages| - 1]
    ensures var front := pages[..|pages| - 1]; Ascending(front) && Covered(a, front) && Outside(b, front)
    ensures Sorted(a)
  {
    forall i, j | 0 <= i < j < |a|
      ensures a[i].code < a[j].code
    {
      assert (a + b)[i] == a[i] && (a + b)[j] == a[j];
    }
    forall e | e in a
      ensures e.code / PAGE_SIZE in pages[..|pages| - 1]
    {
      assert e in a + b;
    }
  }

  lemma OnPagesJoin(a: seq<Entry>, b: seq<Entry>, pages: seq<nat>)
    requires pages != [] && OnPages(a, pages[..|pages| - 1]) == a && Outside(b, pages[..|pages| - 1])
    requires forall e :: e in a ==> e.code / PAGE_SIZE < pages[|pages| - 1]
    requires forall e :: e in b ==> e.code / PAGE_SIZE == pages[|pages| - 1]
    ensures OnPages(a + b, pages) == a + b
  {
    hide *;
    var page := pages[|pages| - 1];
    OnPagesPrefix(a, b, pages[..|pages| - 1]);
    OnPageSplit(a, b, page);
    NoneOnPage(a, page);
    AllOnPage(b, page);
    OnPagesStep(a + b, pages);
    NothingBefore(b);
  }

  lemma {:induction false} OnPagesIsAll(entries: seq<Entry>, pages: seq<nat>)
    requires Sorted(entries) && Ascending(pages) && Covered(entries, pages)
    ensures OnPages(entries, pages) == entries
    decreases |pages|
  {
    if pages == [] {
      NoPages(entries);
    } else {
      LastPage(entries, pages);
      var n := CutAt(entries, pages[|pages| - 1]);
      var (a, b) := (entries[..n], entries[n..]);
      assert entries == a + b;
      hide *;
      CutPages(a, b, pages);
      OnPagesIsAll(a, pages[..|pages| - 1]);
      OnPagesJoin(a, b, pages);
    }
  }

  lemma PageBack(kind: Kind, entries: seq<Entry>, k: nat)
    requires Sorted(entries) && AllChecked(kind, entries) && k < |PageNumbers(entries)|
    ensures
      var t := EncodedTable(entries);
      && |t.directory| == |PageNumbers(entries)|
      && DecodePage(kind, t.data, Start(t, k), End(t, k), Base(PageAt(t, k))) == Some(OnPage(entries, PageNumbers(entries)[k]))
  {
    hide PageNumbers, DecodePage, EntryBytes, At, Start, End, PageAt, Checked, EncodedTable;
    var page := PageNumbers(entries)[k];
    PageBrackets(entries, k);
    OnPageSorted(entries, page);
    PageDecodes(kind, EncodedTable(entries).data, Start(EncodedTable(entries), k), OnPage(entries, page), Base(page));
  }

  lemma {:induction false} FirstDecode(kind: Kind, entries: seq<Entry>, k: nat)
    requires Sorted(entries) && AllChecked(kind, entries)
    requires k <= |PageNumbers(entries)| == |EncodedTable(entries).directory|
    ensures DecodeFirst(kind, EncodedTable(entries), k) == Some(OnPages(entries, PageNumbers(entries)[..k]))
    decreases k
  {
    hide PageNumbers, DecodePage, Start, End, PageAt, Checked, EncodedTable, OnPage, AllChecked;
    if k > 0 {
      FirstDecode(kind, entries, k - 1);
      PageBack(kind, entries, k - 1);
      assert PageNumbers(entries)[..k][..k - 1] == PageNumbers(entries)[..k - 1];
    }
  }

  /** Decoding an encoded table returns every entry in order, with nothing left over on any page. */
  lemma TableRoundTrip(kind: Kind, entries: seq<Entry>)
    requires Sorted(entries) && AllChecked(kind, entries)
    ensures Decode(kind, EncodedTable(entries)) == Some(entries)
  {
    var pages := PageNumbers(entries);
    OnPagesIsAll(entries, pages);
    hide OnPage, Checked, AllChecked;
    FirstDecode(kind, entries, |pages|);
    assert pages[..|pages|] == pages;
  }

  /** Different inputs never share a table. */
  lemma TableInjective(kind: Kind, a: seq<Entry>, b: seq<Entry>)
    requires Sorted(a) && AllChecked(kind, a) && Sorted(b) && AllChecked(kind, b)
    requires EncodedTable(a) == EncodedTable(b)
    ensures a == b
  {
    hide *;
    TableRoundTrip(kind, a);
    TableRoundTrip(kind, b);
  }
}
