// The generated lookup function: a binary search among the ranges of one page.
module IdnaLookup {
  import opened IdnaRanges

  /** A range as the generated table stores it: 16 bits for each end. */
  datatype Compact = Compact(first: nat, last: nat, attributes: nat)

  function InPage(code: nat): nat {
    code % PAGE
  }

  function Data(ranges: seq<RangeValue>): seq<Compact> {
    seq(|ranges|, i requires 0 <= i < |ranges| => Compact(InPage(ranges[i].first), InPage(ranges[i].last), ranges[i].value))
  }

  ghost predicate Undefined(ranges: seq<RangeValue>, code: nat) {
    forall i :: 0 <= i < |ranges| ==> !Contains(ranges[i], code)
  }

  /** Only the ranges from first to last can still contain the code point. */
  ghost predicate Narrowed(ranges: seq<RangeValue>, code: nat, first: nat, last: nat) {
    && first <= last <= |ranges|
    && (forall i :: 0 <= i < first ==> ranges[i].last < code)
    && (forall i :: last <= i < |ranges| ==> code < ranges[i].first)
  }

  lemma PageLess(x: nat, y: nat)
    ensures PageOf(x) < PageOf(y) ==> x < y
  {}

  lemma StartsInOrder(ranges: seq<RangeValue>, page: nat, a: nat, b: nat)
    requires PageStarts(ranges, page, a) && PageStarts(ranges, page + 1, b)
    ensures a <= b
  {
    if a > 0 {
      assert PageOf(ranges[a - 1].first) < page;
    }
  }

  lemma StartNarrowed(ranges: seq<RangeValue>, offsets: seq<nat>, code: nat)
    requires Ordered(ranges) && OnePage(ranges) && Offsets(ranges, offsets) && PageOf(code) + 1 < |offsets|
    ensures Narrowed(ranges, code, offsets[PageOf(code)], offsets[PageOf(code) + 1])
    ensures forall i :: offsets[PageOf(code)] <= i < offsets[PageOf(code) + 1] ==> PageOf(ranges[i].first) == PageOf(code) == PageOf(ranges[i].last)
  {
    var page := PageOf(code);
    assert PageStarts(ranges, page, offsets[page]) && PageStarts(ranges, page + 1, offsets[page + 1]);
    StartsInOrder(ranges, page, offsets[page], offsets[page + 1]);
    hide PageOf;
    forall i | 0 <= i < offsets[page]
      ensures ranges[i].last < code
    {
      PageLess(ranges[i].last, code);
    }
    forall i | offsets[page + 1] <= i < |ranges|
      ensures code < ranges[i].first
    {
      PageLess(code, ranges[i].first);
    }
  }

  lemma BeyondPages(ranges: seq<RangeValue>, offsets: seq<nat>, code: nat)
    requires OnePage(ranges) && Offsets(ranges, offsets) && PageOf(code) + 1 >= |offsets|
    ensures Undefined(ranges, code)
  {
    var end := |offsets| - 1;
    assert PageStarts(ranges, end, offsets[end]);
    hide PageOf;
    forall i | 0 <= i < |ranges|
      ensures !Contains(ranges[i], code)
    {
      assert PageOf(ranges[i].last) < end;
      PageLess(ranges[i].last, code);
    }
  }

  /** On the same page, code points compare as their positions in the page do. */
  lemma SamePage(x: nat, y: nat)
    requires PageOf(x) == PageOf(y)
    ensures InPage(x) < InPage(y) <==> x < y
  {}

  lemma NarrowLeft(ranges: seq<RangeValue>, code: nat, first: nat, last: nat, middle: nat)
    requires Ordered(ranges) && Narrowed(ranges, code, first, last) && first <= middle < last && code < ranges[middle].first
    ensures Narrowed(ranges, code, first, middle)
  {
    forall i | middle <= i < |ranges|
      ensures code < ranges[i].first
    {
      if middle < i {
        assert ranges[middle].last < ranges[i].first;
      }
    }
  }

  lemma NarrowRight(ranges: seq<RangeValue>, code: nat, first: nat, last: nat, middle: nat)
    requires Ordered(ranges) && Narrowed(ranges, code, first, last) && first <= middle < last && code > ranges[middle].last
    ensures Narrowed(ranges, code, middle + 1, last)
  {
    forall i | 0 <= i < middle + 1
      ensures ranges[i].last < code
    {
      if i < middle {
        assert ranges[i].last < ranges[middle].first;
      }
    }
  }

  lemma NothingLeft(ranges: seq<RangeValue>, code: nat, first: nat)
    requires Narrowed(ranges, code, first, first)
    ensures Undefined(ranges, code)
  {}

  lemma FoundAt(ranges: seq<RangeValue>, code: nat, middle: nat)
    requires middle < |ranges| && ranges[middle].first <= code <= ranges[middle].last
    ensures Has(ranges, code, ranges[middle].value)
  {
    assert Contains(ranges[middle], code);
  }

  lemma UndefinedHasNone(ranges: seq<RangeValue>, code: nat)
    requires Undefined(ranges, code)
    ensures forall value: nat :: !Has(ranges, code, value)
  {}

  lemma HasOnly(ranges: seq<RangeValue>, code: nat, value: nat)
    requires Ordered(ranges) && Has(ranges, code, value)
    ensures forall other: nat :: Has(ranges, code, other) ==> other == value
  {
    hide Ordered, Has;
    forall other: nat | Has(ranges, code, other)
      ensures other == value
    {
      HasOne(ranges, code, value, other);
    }
  }

  lemma DataAt(ranges: seq<RangeValue>, i: nat)
    requires i < |ranges|
    ensures Data(ranges)[i] == Compact(InPage(ranges[i].first), InPage(ranges[i].last), ranges[i].value)
  {}

  /** The value of the range that contains the code point, and zero where no range does. */
  method Attributes(data: seq<Compact>, offsets: seq<nat>, codePoint: nat, ghost ranges: seq<RangeValue>) returns (attributes: nat)
    requires Ordered(ranges) && OnePage(ranges) && data == Data(ranges) && Offsets(ranges, offsets)
    ensures Has(ranges, codePoint, attributes) || (attributes == 0 && Undefined(ranges, codePoint))
    ensures forall value: nat :: Has(ranges, codePoint, value) ==> value == attributes
  {
    hide Ordered, OnePage, Narrowed, Undefined, Has, Data, PageOf, InPage;
    var page := PageOf(codePoint);
    if page + 1 >= |offsets| {
      BeyondPages(ranges, offsets, codePoint);
      UndefinedHasNone(ranges, codePoint);
      return 0;
    }
    StartNarrowed(ranges, offsets, codePoint);
    hide Offsets;
    var pageCodePoint := InPage(codePoint);
    var first, last := offsets[page], offsets[page + 1];
    NarrowedBounds(ranges, codePoint, first, last);
    DataLength(ranges);
    while first < last
      invariant Narrowed(ranges, codePoint, first, last) && offsets[page] <= first <= last <= offsets[page + 1]
      decreases last - first
    {
      var middle := first + (last - first) / 2;
      DataAt(ranges, middle);
      SamePage(codePoint, ranges[middle].first);
      SamePage(ranges[middle].last, codePoint);
      if pageCodePoint < data[middle].first {
        NarrowLeft(ranges, codePoint, first, last, middle);
        last := middle;
      } else if pageCodePoint > data[middle].last {
        NarrowRight(ranges, codePoint, first, last, middle);
        first := middle + 1;
      } else {
        FoundAt(ranges, codePoint, middle);
        HasOnly(ranges, codePoint, ranges[middle].value);
        return data[middle].attributes;
      }
    }
    NothingLeft(ranges, codePoint, first);
    UndefinedHasNone(ranges, codePoint);
    return 0;
  }

  lemma NarrowedBounds(ranges: seq<RangeValue>, code: nat, first: nat, last: nat)
    requires Narrowed(ranges, code, first, last)
    ensures first <= last <= |ranges|
  {}

  lemma DataLength(ranges: seq<RangeValue>)
    ensures |Data(ranges)| == |ranges|
  {}
}
