// Ranges of code points with a value: compression, page split and page offsets of the IDNA generator.
module IdnaRanges {
  import opened Wrappers
  import opened Collections

  datatype RangeValue = RangeValue(first: nat, last: nat, value: nat)

  const PAGE: nat := 0x10000

  function PageOf(code: nat): nat {
    code / PAGE
  }

  predicate Contains(r: RangeValue, code: nat) {
    r.first <= code <= r.last
  }

  /** Ranges are not empty and follow each other. */
  ghost predicate Ordered(ranges: seq<RangeValue>) {
    && (forall i :: 0 <= i < |ranges| ==> ranges[i].first <= ranges[i].last)
    && (forall i, j :: 0 <= i < j < |ranges| ==> ranges[i].last < ranges[j].first)
  }

  /** No two neighbours could be one range. */
  ghost predicate Merged(ranges: seq<RangeValue>) {
    forall i :: 0 <= i < |ranges| - 1 ==> ranges[i].last + 1 < ranges[i + 1].first || ranges[i].value != ranges[i + 1].value
  }

  ghost predicate Has(ranges: seq<RangeValue>, code: nat, value: nat) {
    exists i :: 0 <= i < |ranges| && Contains(ranges[i], code) && ranges[i].value == value
  }

  /** The ranges say exactly what the map says, code point by code point. */
  ghost predicate Represents(ranges: seq<RangeValue>, values: map<nat, nat>) {
    forall code: nat, value: nat :: Has(ranges, code, value) <==> code in values && values[code] == value
  }

  lemma HasOne(ranges: seq<RangeValue>, code: nat, a: nat, b: nat)
    requires Ordered(ranges) && Has(ranges, code, a) && Has(ranges, code, b)
    ensures a == b
  {
    var i :| 0 <= i < |ranges| && Contains(ranges[i], code) && ranges[i].value == a;
    var j :| 0 <= j < |ranges| && Contains(ranges[j], code) && ranges[j].value == b;
  }

  // ---------------------------------------------------------------------------------------------
  // Compression

  /** One more code point: it extends the last range or starts a new one. */
  function Extended(ranges: seq<RangeValue>, code: nat, value: nat): seq<RangeValue> {
    if ranges != [] && ranges[|ranges| - 1].value == value && ranges[|ranges| - 1].last + 1 == code then
      ranges[..|ranges| - 1] + [RangeValue(ranges[|ranges| - 1].first, code, value)]
    else ranges + [RangeValue(code, code, value)]
  }

  lemma ExtendedHas(ranges: seq<RangeValue>, code: nat, value: nat, x: nat, v: nat)
    requires Ordered(ranges)
    ensures Has(Extended(ranges, code, value), x, v) <==> Has(ranges, x, v) || (x == code && v == value)
  {
    var more := Extended(ranges, code, value);
    var n := if |more| == |ranges| then |ranges| - 1 else |ranges|;
    assert forall i :: 0 <= i < n ==> more[i] == ranges[i];
    if Has(ranges, x, v) {
      var i :| 0 <= i < |ranges| && Contains(ranges[i], x) && ranges[i].value == v;
      assert Contains(more[i], x) && more[i].value == v;
    }
    if x == code && v == value {
      assert Contains(more[n], x);
    }
    if Has(more, x, v) && !(x == code && v == value) {
      var i :| 0 <= i < |more| && Contains(more[i], x) && more[i].value == v;
      assert Contains(ranges[i], x) && ranges[i].value == v;
    }
  }

  ghost predicate Before(ranges: seq<RangeValue>, code: nat) {
    forall i :: 0 <= i < |ranges| ==> ranges[i].last < code
  }

  lemma ExtendedOrdered(ranges: seq<RangeValue>, code: nat, value: nat)
    requires Ordered(ranges) && Merged(ranges) && Before(ranges, code)
    ensures Ordered(Extended(ranges, code, value)) && Merged(Extended(ranges, code, value))
    ensures Before(Extended(ranges, code, value), code + 1)
  {
    var n := |ranges| - 1;
    if ranges != [] && ranges[n].value == value && ranges[n].last + 1 == code {
      ExtendedLast(ranges, code);
    }
  }

  lemma ExtendedLast(ranges: seq<RangeValue>, code: nat)
    requires Ordered(ranges) && Merged(ranges) && ranges != [] && ranges[|ranges| - 1].last < code
    ensures var n := |ranges| - 1;
      var more := ranges[..n] + [RangeValue(ranges[n].first, code, ranges[n].value)];
      Ordered(more) && Merged(more) && Before(more, code + 1)
  {}

  /** The ranges of the first keys of a map. */
  ghost predicate Compressed(values: map<nat, nat>, keys: seq<nat>, n: nat, ranges: seq<RangeValue>) {
    && n <= |keys| && Ordered(ranges) && Merged(ranges)
    && (forall i :: n <= i < |keys| ==> Before(ranges, keys[i]))
    && (forall code: nat, value: nat :: Has(ranges, code, value) <==> code in keys[..n] && code in values && values[code] == value)
  }

  lemma CompressNone(values: map<nat, nat>, keys: seq<nat>)
    ensures Compressed(values, keys, 0, [])
  {
    assert keys[..0] == [];
  }

  lemma CompressNext(values: map<nat, nat>, keys: seq<nat>, n: nat, ranges: seq<RangeValue>)
    requires Compressed(values, keys, n, ranges) && n < |keys| && Ascending(keys) && keys[n] in values
    ensures Compressed(values, keys, n + 1, Extended(ranges, keys[n], values[keys[n]]))
  {
    var (code, value) := (keys[n], values[keys[n]]);
    var more := Extended(ranges, code, value);
    ExtendedOrdered(ranges, code, value);
    hide Before, Has, Extended, Merged;
    forall i | n + 1 <= i < |keys|
      ensures Before(more, keys[i])
    {
      BeforeMore(more, code + 1, keys[i]);
    }
    forall x: nat, v: nat
      ensures Has(more, x, v) <==> x in keys[..n + 1] && x in values && values[x] == v
    {
      ExtendedHas(ranges, code, value, x, v);
      assert keys[..n + 1] == keys[..n] + [code];
    }
  }

  lemma BeforeMore(ranges: seq<RangeValue>, a: nat, b: nat)
    requires Before(ranges, a) && a <= b
    ensures Before(ranges, b)
  {}

  lemma CompressDone(values: map<nat, nat>, ranges: seq<RangeValue>)
    requires Compressed(values, Listed(values.Keys), |values.Keys|, ranges)
    ensures Represents(ranges, values)
  {
    var keys := Listed(values.Keys);
    assert keys[..|keys|] == keys;
    hide Has;
  }

  /** A map as ranges in order, no two neighbours of which could be one. */
  method MapToRanges(values: map<nat, nat>) returns (result: seq<RangeValue>)
    ensures Ordered(result) && Merged(result) && Represents(result, values)
  {
    hide Ordered, Merged, Represents, Has;
    var keys := Listed(values.Keys);
    result := [];
    CompressNone(values, keys);
    for n := 0 to |keys|
      invariant Compressed(values, keys, n, result)
    {
      var code: nat := keys[n];
      assert code in keys;
      CompressNext(values, keys, n, result);
      if result != [] && result[|result| - 1].value == values[code] && result[|result| - 1].last + 1 == code {
        result := result[..|result| - 1] + [RangeValue(result[|result| - 1].first, code, values[code])];
      } else {
        result := result + [RangeValue(code, code, values[code])];
      }
    }
    CompressDone(values, result);
  }

  // ---------------------------------------------------------------------------------------------
  // Page split

  ghost predicate OnePage(ranges: seq<RangeValue>) {
    forall i :: 0 <= i < |ranges| ==> PageOf(ranges[i].first) == PageOf(ranges[i].last)
  }

  function PageEnd(code: nat): nat {
    (PageOf(code) + 1) * PAGE - 1
  }

  lemma PageEnds(code: nat, x: nat)
    ensures code <= PageEnd(code) && PageOf(PageEnd(code)) == PageOf(code) && PageOf(PageEnd(code) + 1) == PageOf(code) + 1
    ensures code <= x <= PageEnd(code) ==> PageOf(x) == PageOf(code)
  {}

  ghost predicate SameValues(a: seq<RangeValue>, b: seq<RangeValue>) {
    forall code: nat, value: nat :: Has(a, code, value) <==> Has(b, code, value)
  }

  /** The first n ranges, and the part of the next one before a code point. */
  ghost predicate Split(values: seq<RangeValue>, n: nat, first: nat, result: seq<RangeValue>) {
    && n < |values| && values[n].first <= first <= values[n].last + 1
    && Ordered(result) && OnePage(result) && Before(result, first)
    && forall code: nat, value: nat :: Has(result, code, value) <==>
         Has(values[..n], code, value) || (values[n].first <= code < first && value == values[n].value)
  }

  /** The first n ranges. */
  ghost predicate SplitUpTo(values: seq<RangeValue>, n: nat, result: seq<RangeValue>) {
    && n <= |values| && Ordered(result) && OnePage(result)
    && (n < |values| ==> Before(result, values[n].first))
    && SameValues(result, values[..n])
  }

  lemma HasAppend(ranges: seq<RangeValue>, r: RangeValue, x: nat, v: nat)
    ensures Has(ranges + [r], x, v) <==> Has(ranges, x, v) || (Contains(r, x) && v == r.value)
  {
    var more := ranges + [r];
    assert more[|ranges|] == r && forall i :: 0 <= i < |ranges| ==> more[i] == ranges[i];
    if Has(ranges, x, v) {
      var i :| 0 <= i < |ranges| && Contains(ranges[i], x) && ranges[i].value == v;
      assert Contains(more[i], x) && more[i].value == v;
    }
  }

  lemma SplitBegin(values: seq<RangeValue>, n: nat, result: seq<RangeValue>)
    requires Ordered(values) && SplitUpTo(values, n, result) && n < |values|
    ensures Split(values, n, values[n].first, result)
  {
    hide Has;
  }

  lemma SplitStep(values: seq<RangeValue>, n: nat, first: nat, result: seq<RangeValue>, last: nat)
    requires Split(values, n, first, result) && first <= values[n].last
    requires last == if values[n].last < PageEnd(first) then values[n].last else PageEnd(first)
    ensures Split(values, n, last + 1, result + [RangeValue(first, last, values[n].value)])
  {
    PageEnds(first, last);
    hide PageEnd, PageOf;
    var (r, more) := (RangeValue(first, last, values[n].value), result + [RangeValue(first, last, values[n].value)]);
    hide Has;
    forall x: nat, v: nat
      ensures Has(more, x, v) <==> Has(values[..n], x, v) || (values[n].first <= x < last + 1 && v == values[n].value)
    {
      HasAppend(result, r, x, v);
    }
  }

  lemma SplitEnd(values: seq<RangeValue>, n: nat, result: seq<RangeValue>)
    requires Ordered(values) && n < |values| && Split(values, n, values[n].last + 1, result)
    ensures SplitUpTo(values, n + 1, result)
  {
    assert values[..n + 1] == values[..n] + [values[n]];
    hide Has, PageOf;
    forall x: nat, v: nat
      ensures Has(result, x, v) <==> Has(values[..n + 1], x, v)
    {
      HasAppend(values[..n], values[n], x, v);
    }
  }

  // No more ranges than needed

  predicate StartsPage(code: nat) {
    code % 0x1_0000 == 0
  }

  /** Neighbours could be one range only where a page ends between them. */
  ghost predicate Tight(ranges: seq<RangeValue>) {
    forall i :: 0 <= i < |ranges| - 1 && ranges[i].last + 1 == ranges[i + 1].first && ranges[i].value == ranges[i + 1].value ==>
      StartsPage(ranges[i + 1].first)
  }

  /** The last range ends before a code point, with a value. */
  ghost predicate EndsBefore(ranges: seq<RangeValue>, code: nat, value: nat) {
    ranges != [] && ranges[|ranges| - 1].last + 1 == code && ranges[|ranges| - 1].value == value
  }

  ghost predicate TightPart(values: seq<RangeValue>, n: nat, first: nat, result: seq<RangeValue>)
    requires n < |values|
  {
    && Tight(result)
    && (first > values[n].first ==> EndsBefore(result, first, values[n].value))
    && (first <= values[n].last && EndsBefore(result, first, values[n].value) ==> StartsPage(first))
  }

  ghost predicate TightUpTo(values: seq<RangeValue>, n: nat, result: seq<RangeValue>)
    requires n <= |values|
  {
    Tight(result) && if n == 0 then result == [] else EndsBefore(result, values[n - 1].last + 1, values[n - 1].value)
  }

  lemma SplitNothing(values: seq<RangeValue>)
    ensures SplitUpTo(values, 0, []) && TightUpTo(values, 0, [])
  {}

  lemma TightDone(values: seq<RangeValue>, result: seq<RangeValue>)
    requires TightUpTo(values, |values|, result)
    ensures Tight(result)
  {}

  lemma TightBegin(values: seq<RangeValue>, n: nat, result: seq<RangeValue>)
    requires Merged(values) && n < |values| && TightUpTo(values, n, result)
    ensures TightPart(values, n, values[n].first, result)
  {
    if n > 0 {
      assert values[n - 1].last + 1 < values[n - 1 + 1].first || values[n - 1].value != values[n - 1 + 1].value;
    }
  }

  lemma TightStep(values: seq<RangeValue>, n: nat, first: nat, result: seq<RangeValue>, last: nat)
    requires n < |values| && values[n].first <= first <= values[n].last && TightPart(values, n, first, result)
    requires last == if values[n].last < PageEnd(first) then values[n].last else PageEnd(first)
    ensures TightPart(values, n, last + 1, result + [RangeValue(first, last, values[n].value)])
  {
    PageEnds(first, last);
    NextPage(first);
    hide PageEnd, StartsPage;
  }

  lemma NextPage(code: nat)
    ensures StartsPage(PageEnd(code) + 1)
  {}

  lemma TightEnd(values: seq<RangeValue>, n: nat, result: seq<RangeValue>)
    requires Ordered(values) && n < |values| && TightPart(values, n, values[n].last + 1, result)
    ensures TightUpTo(values, n + 1, result)
  {}

  /**
   * Splitting at the boundaries of 16-bit pages keeps the value of every code point, and makes no split
   * anywhere else.
   */
  method SplitAtPageBoundaries(values: seq<RangeValue>) returns (result: seq<RangeValue>)
    requires Ordered(values)
    ensures Ordered(result) && OnePage(result) && SameValues(result, values)
    ensures Merged(values) ==> Tight(result)
  {
    hide *;
    result := [];
    SplitNothing(values);
    for n := 0 to |values|
      invariant SplitUpTo(values, n, result) && (Merged(values) ==> TightUpTo(values, n, result))
    {
      var first: nat := values[n].first;
      SplitBegin(values, n, result);
      if Merged(values) {
        TightBegin(values, n, result);
      }
      NotEmpty(values, n);
      while first <= values[n].last
        invariant values[n].first <= first && Split(values, n, first, result) && first <= values[n].last + 1
        invariant Merged(values) ==> TightPart(values, n, first, result)
      {
        PageEnds(first, first);
        var last := if values[n].last < PageEnd(first) then values[n].last else PageEnd(first);
        SplitStep(values, n, first, result, last);
        if Merged(values) {
          TightStep(values, n, first, result, last);
        }
        result := result + [RangeValue(first, last, values[n].value)];
        first := last + 1;
      }
      SplitEnd(values, n, result);
      if Merged(values) {
        TightEnd(values, n, result);
      }
    }
    SplitDone(values, result);
    if Merged(values) {
      TightDone(values, result);
    }
  }

  lemma NotEmpty(values: seq<RangeValue>, n: nat)
    requires Ordered(values) && n < |values|
    ensures values[n].first <= values[n].last
  {}

  lemma SplitDone(values: seq<RangeValue>, result: seq<RangeValue>)
    requires SplitUpTo(values, |values|, result)
    ensures Ordered(result) && OnePage(result) && SameValues(result, values)
  {
    assert values[..|values|] == values;
  }

  // ---------------------------------------------------------------------------------------------
  // Page offsets

  datatype OffsetError = TooManyRanges(count: nat)

  const MAX_RANGES: nat := 0xFFFF

  /** The ranges of a page start at its offset and end at the next one. */
  ghost predicate PageStarts(ranges: seq<RangeValue>, page: nat, offset: nat) {
    && offset <= |ranges|
    && (forall i :: 0 <= i < offset ==> PageOf(ranges[i].first) < page)
    && (forall i :: offset <= i < |ranges| ==> page <= PageOf(ranges[i].first))
  }

  ghost predicate Offsets(ranges: seq<RangeValue>, offsets: seq<nat>) {
    && offsets != []
    && (forall page :: 0 <= page < |offsets| ==> PageStarts(ranges, page, offsets[page]))
    && offsets[|offsets| - 1] == |ranges|
  }

  lemma PagesGrow(ranges: seq<RangeValue>, i: nat, j: nat)
    requires Ordered(ranges) && i <= j < |ranges|
    ensures PageOf(ranges[i].first) <= PageOf(ranges[j].first) <= PageOf(ranges[|ranges| - 1].last)
  {
    PageMonotone(ranges[i].first, ranges[j].first);
    PageMonotone(ranges[j].first, ranges[|ranges| - 1].last);
  }

  lemma PageMonotone(x: nat, y: nat)
    ensures x <= y ==> PageOf(x) <= PageOf(y)
  {}

  method PageOffsets(ranges: seq<RangeValue>) returns (r: Result<seq<nat>, OffsetError>)
    requires Ordered(ranges) && OnePage(ranges)
    ensures r.Success? <==> |ranges| <= 0xFFFF
    ensures r.Success? ==> Offsets(ranges, r.value)
    ensures r.Success? ==> |r.value| == if ranges == [] then 1 else PageOf(ranges[|ranges| - 1].last) + 2
  {
    if ranges == [] {
      return Success([0]);
    }
    if |ranges| > MAX_RANGES {
      return Failure(TooManyRanges(|ranges|));
    }
    var pageCount: nat := PageOf(ranges[|ranges| - 1].last) + 1;
    var result: seq<nat> := [];
    var index: nat := 0;
    FirstPage(ranges);
    hide Ordered, OnePage, PageStarts, PageOf;
    for page := 0 to pageCount
      invariant |result| == page && PageStarts(ranges, page, index)
      invariant forall p :: 0 <= p < page ==> PageStarts(ranges, p, result[p])
    {
      result := result + [index];
      StartsBound(ranges, page, index);
      while index < |ranges| && PageOf(ranges[index].first) == page
        invariant Walking(ranges, page, index)
      {
        WalkOn(ranges, page, index);
        index := index + 1;
      }
      WalkDone(ranges, page, index);
    }
    LastPage(ranges, pageCount, index);
    result := result + [index];
    return Success(result);
  }

  lemma FirstPage(ranges: seq<RangeValue>)
    ensures PageStarts(ranges, 0, 0)
  {}

  /** Everything before the index is on this page or an earlier one, everything after it not on an earlier one. */
  ghost predicate Walking(ranges: seq<RangeValue>, page: nat, index: nat) {
    && index <= |ranges|
    && (forall i :: 0 <= i < index ==> PageOf(ranges[i].first) <= page)
    && (forall i :: index <= i < |ranges| ==> page <= PageOf(ranges[i].first))
  }

  lemma StartsBound(ranges: seq<RangeValue>, page: nat, index: nat)
    requires PageStarts(ranges, page, index)
    ensures Walking(ranges, page, index)
  {}

  lemma WalkOn(ranges: seq<RangeValue>, page: nat, index: nat)
    requires Walking(ranges, page, index) && index < |ranges| && PageOf(ranges[index].first) == page
    ensures Walking(ranges, page, index + 1)
  {}

  lemma WalkDone(ranges: seq<RangeValue>, page: nat, index: nat)
    requires Ordered(ranges) && Walking(ranges, page, index)
    requires index == |ranges| || (index < |ranges| && PageOf(ranges[index].first) != page)
    ensures PageStarts(ranges, page + 1, index)
  {
    forall i | index <= i < |ranges|
      ensures page + 1 <= PageOf(ranges[i].first)
    {
      PagesGrow(ranges, index, i);
    }
  }

  lemma LastPage(ranges: seq<RangeValue>, pageCount: nat, index: nat)
    requires Ordered(ranges) && ranges != [] && pageCount == PageOf(ranges[|ranges| - 1].last) + 1
    requires PageStarts(ranges, pageCount, index)
    ensures index == |ranges|
  {
    if index < |ranges| {
      PagesGrow(ranges, index, index);
    }
  }
}
