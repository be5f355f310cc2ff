// From the property tables to the two arrays of the generated function, and back through its lookup.
module IdnaGeneration {
  import opened Wrappers
  import opened IdnaRanges
  import opened IdnaLookup
  import opened IdnaAttributes

  // ---------------------------------------------------------------------------------------------
  // How many ranges there are

  /** A range has to start here: the attribute is not that of the code point before, or a page starts. */
  ghost predicate IsStart(status: seq<RangeValue>, tables: seq<Table>, code: nat) {
    && Attribute(status, tables, code).Some?
    && (!StartsPage(code) ==> Attribute(status, tables, code - 1) != Attribute(status, tables, code))
  }

  ghost predicate StartSet(status: seq<RangeValue>, tables: seq<Table>, starts: set<nat>) {
    forall code: nat :: code in starts <==> IsStart(status, tables, code)
  }

  /** The starts can be numbered with 16 bits. */
  ghost predicate FewRanges(status: seq<RangeValue>, tables: seq<Table>) {
    exists starts :: StartSet(status, tables, starts) && |starts| <= 0xFFFF
  }

  ghost function Firsts(ranges: seq<RangeValue>): (s: set<nat>)
    ensures forall code :: code in s <==> exists i :: 0 <= i < |ranges| && ranges[i].first == code
  {
    set i | 0 <= i < |ranges| :: ranges[i].first
  }

  lemma {:induction false} FirstsCount(ranges: seq<RangeValue>)
    requires Ordered(ranges)
    ensures |Firsts(ranges)| == |ranges|
  {
    if ranges == [] {
      assert Firsts(ranges) == {};
    } else {
      var n := |ranges| - 1;
      FirstsCount(ranges[..n]);
      FirstsNext(ranges);
      hide Firsts;
    }
  }

  lemma FirstsNext(ranges: seq<RangeValue>)
    requires Ordered(ranges) && ranges != []
    ensures var n := |ranges| - 1;
      Firsts(ranges) == Firsts(ranges[..n]) + {ranges[n].first} && ranges[n].first !in Firsts(ranges[..n])
  {
    var n := |ranges| - 1;
    assert forall i :: 0 <= i < n ==> ranges[..n][i].first == ranges[i].first <= ranges[i].last < ranges[n].first;
    forall code
      ensures code in Firsts(ranges) <==> code in Firsts(ranges[..n]) || code == ranges[n].first
    {
      if i :| 0 <= i < |ranges| && ranges[i].first == code {
        assert i < n ==> ranges[..n][i].first == code;
      }
      if i :| 0 <= i < n && ranges[..n][i].first == code {
        assert ranges[i].first == code;
      }
    }
  }

  lemma PageInside(first: nat, code: nat, last: nat)
    requires first < code <= last && StartsPage(code)
    ensures PageOf(first) != PageOf(last)
  {}

  /** Nothing lies between the end of one range and the start of a later one that follows it at once. */
  lemma Neighbours(ranges: seq<RangeValue>, j: nat, i: nat)
    requires Ordered(ranges) && i < |ranges| && j < |ranges|
    requires ranges[j].first < ranges[i].first <= ranges[j].last + 1
    requires j != i
    ensures j + 1 == i && ranges[j].last + 1 == ranges[i].first
  {
    assert j < i;
    var k := i - 1;
    assert ranges[k].first <= ranges[k].last < ranges[i].first;
  }

  lemma TightAt(ranges: seq<RangeValue>, j: nat)
    requires Tight(ranges) && j + 1 < |ranges|
    requires ranges[j].last + 1 == ranges[j + 1].first && ranges[j].value == ranges[j + 1].value
    ensures StartsPage(ranges[j + 1].first)
  {}

  lemma FirstIsStart(ranges: seq<RangeValue>, status: seq<RangeValue>, tables: seq<Table>, i: nat)
    requires Ordered(ranges) && Tight(ranges) && Exactly(ranges, status, tables) && i < |ranges|
    ensures IsStart(status, tables, ranges[i].first)
  {
    hide Attribute, PageOf, Tight;
    var (code, value) := (ranges[i].first, ranges[i].value);
    assert Contains(ranges[i], code);
    assert Has(ranges, code, value);
    if !StartsPage(code) && Attribute(status, tables, code - 1) == Some(value) {
      assert Has(ranges, code - 1, value);
      var j: nat :| j < |ranges| && Contains(ranges[j], code - 1) && ranges[j].value == value;
      Neighbours(ranges, j, i);
      TightAt(ranges, j);
    }
  }

  lemma StartIsFirst(ranges: seq<RangeValue>, status: seq<RangeValue>, tables: seq<Table>, code: nat)
    requires OnePage(ranges) && Exactly(ranges, status, tables) && IsStart(status, tables, code)
    ensures exists i :: 0 <= i < |ranges| && ranges[i].first == code
  {
    hide Attribute, StartsPage, PageOf;
    var value := Attribute(status, tables, code).value;
    assert Has(ranges, code, value);
    var i :| 0 <= i < |ranges| && Contains(ranges[i], code) && ranges[i].value == value;
    if ranges[i].first < code {
      assert Contains(ranges[i], code - 1);
      assert Has(ranges, code - 1, value);
      assert StartsPage(code);
      PageInside(ranges[i].first, code, ranges[i].last);
    }
  }

  /** The ranges of the generator start exactly where ranges have to start. */
  lemma FirstsAreStarts(ranges: seq<RangeValue>, status: seq<RangeValue>, tables: seq<Table>)
    requires Ordered(ranges) && OnePage(ranges) && Tight(ranges) && Exactly(ranges, status, tables)
    ensures StartSet(status, tables, Firsts(ranges)) && |Firsts(ranges)| == |ranges|
  {
    FirstsCount(ranges);
    hide IsStart, Ordered, OnePage, Tight, Exactly;
    forall code: nat
      ensures code in Firsts(ranges) <==> IsStart(status, tables, code)
    {
      if code in Firsts(ranges) {
        var i :| 0 <= i < |ranges| && ranges[i].first == code;
        FirstIsStart(ranges, status, tables, i);
      }
      if IsStart(status, tables, code) {
        StartIsFirst(ranges, status, tables, code);
      }
    }
  }

  lemma CountDecides(ranges: seq<RangeValue>, status: seq<RangeValue>, tables: seq<Table>)
    requires Ordered(ranges) && OnePage(ranges) && Tight(ranges) && Exactly(ranges, status, tables)
    ensures FewRanges(status, tables) <==> |ranges| <= 0xFFFF
  {
    FirstsAreStarts(ranges, status, tables);
    hide IsStart, Ordered, OnePage, Tight, Exactly;
    if FewRanges(status, tables) {
      var starts :| StartSet(status, tables, starts) && |starts| <= 0xFFFF;
      assert starts == Firsts(ranges);
    }
  }

  // ---------------------------------------------------------------------------------------------
  // Generation and lookup

  datatype GenerateError = BadAttributes(attribute: RuntimeError) | BadPages(pages: OffsetError)

  /** The arrays hold ranges that say exactly the combined attributes. */
  ghost predicate Generated(data: seq<Compact>, offsets: seq<nat>, ranges: seq<RangeValue>, status: seq<RangeValue>, tables: seq<Table>) {
    && Ordered(ranges) && OnePage(ranges) && Tight(ranges) && Exactly(ranges, status, tables)
    && data == Data(ranges) && Offsets(ranges, offsets)
  }

  /** The two arrays of the generated function, unless an attribute or the number of ranges is too large. */
  method Generate(status: seq<RangeValue>, tables: seq<Table>)
    returns (r: Result<(seq<Compact>, seq<nat>), GenerateError>, ghost ranges: seq<RangeValue>)
    ensures r.Success? <==> !BadAttribute(status, tables) && FewRanges(status, tables)
    ensures r.Success? ==> Generated(r.value.0, r.value.1, ranges, status, tables)
    ensures r.Failure? ==> (r.error.BadAttributes? <==> BadAttribute(status, tables))
  {
    hide *;
    var runtime := RuntimeRanges(status, tables);
    ranges := [];
    if runtime.Failure? {
      return Failure(BadAttributes(runtime.error)), ranges;
    }
    ranges := runtime.value;
    CountDecides(ranges, status, tables);
    var offsets := PageOffsets(runtime.value);
    if offsets.Failure? {
      return Failure(BadPages(offsets.error)), ranges;
    }
    GeneratedFrom(Data(ranges), offsets.value, ranges, status, tables);
    return Success((Data(runtime.value), offsets.value)), ranges;
  }

  lemma GeneratedFrom(data: seq<Compact>, offsets: seq<nat>, ranges: seq<RangeValue>, status: seq<RangeValue>, tables: seq<Table>)
    requires Ordered(ranges) && OnePage(ranges) && Tight(ranges) && Exactly(ranges, status, tables)
    requires data == Data(ranges) && Offsets(ranges, offsets)
    ensures Generated(data, offsets, ranges, status, tables)
  {}

  lemma GeneratedParts(data: seq<Compact>, offsets: seq<nat>, ranges: seq<RangeValue>, status: seq<RangeValue>, tables: seq<Table>)
    requires Generated(data, offsets, ranges, status, tables)
    ensures Ordered(ranges) && OnePage(ranges) && Exactly(ranges, status, tables)
    ensures data == Data(ranges) && Offsets(ranges, offsets)
  {}

  /** The generated function returns the combined attribute of every code point, and zero where there is none. */
  method Lookup(data: seq<Compact>, offsets: seq<nat>, code: nat, ghost ranges: seq<RangeValue>, ghost status: seq<RangeValue>, ghost tables: seq<Table>)
    returns (attributes: nat)
    requires Generated(data, offsets, ranges, status, tables)
    ensures attributes == Word(status, tables, code)
  {
    hide *;
    GeneratedParts(data, offsets, ranges, status, tables);
    attributes := Attributes(data, offsets, code, ranges);
    FoundIs(ranges, status, tables, code, attributes);
  }

  /** The attribute of a code point, or zero. */
  ghost function Word(status: seq<RangeValue>, tables: seq<Table>, code: nat): nat {
    match Attribute(status, tables, code)
    case None => 0
    case Some(value) => value
  }

  lemma FoundIs(ranges: seq<RangeValue>, status: seq<RangeValue>, tables: seq<Table>, code: nat, found: nat)
    requires Exactly(ranges, status, tables) && (Has(ranges, code, found) || (found == 0 && Undefined(ranges, code)))
    ensures found == Word(status, tables, code)
  {
    hide Attribute;
    if Attribute(status, tables, code).Some? {
      assert Has(ranges, code, Attribute(status, tables, code).value);
    }
  }

  // ---------------------------------------------------------------------------------------------
  // The properties of a code point

  /** The fields of the attributes of one code point. */
  datatype Fields = Fields(status: nat, bidi: nat, joining: nat, virama: nat, script: nat)

  function FieldsOf(word: nat): Fields {
    Fields(word % 4, word / 4 % 16, word / 64 % 8, word / 512 % 2, word / 1024 % 8)
  }

  /** What the property tables say of a code point with a derived status, where each says one thing. */
  ghost predicate PropertiesAre(status: seq<RangeValue>, bidi: seq<RangeValue>, joining: seq<RangeValue>, virama: seq<RangeValue>,
                                scripts: seq<seq<RangeValue>>, code: nat, f: Fields) {
    && Status(status, code) == Some(f.status) && f.status < 4 && f.bidi < 16 && f.joining < 8 && f.virama < 2 && f.script < 8
    && Single(bidi, code, f.bidi) && Single(joining, code, f.joining) && Single(virama, code, f.virama)
    && Single(Joined(scripts), code, f.script)
  }

  lemma WordFields(status: seq<RangeValue>, bidi: seq<RangeValue>, joining: seq<RangeValue>, virama: seq<RangeValue>,
                   scripts: seq<seq<RangeValue>>, code: nat, f: Fields)
    requires PropertiesAre(status, bidi, joining, virama, scripts, code, f)
    ensures FieldsOf(Word(status, RuntimeTables(bidi, joining, virama, scripts), code)) == f
  {
    var tables := RuntimeTables(bidi, joining, virama, scripts);
    FieldsAreSeparate(bidi, joining, virama, scripts, code, f.status, f.bidi, f.joining, f.virama, f.script);
    hide *;
    WordIs(status, tables, code, f.status);
    FieldsAre(WithTables(f.status, tables, code), f);
  }

  lemma WordIs(status: seq<RangeValue>, tables: seq<Table>, code: nat, value: nat)
    requires Status(status, code) == Some(value)
    ensures Word(status, tables, code) == WithTables(value, tables, code)
  {
    hide Status, WithTables;
  }

  lemma FieldsAre(word: nat, f: Fields)
    requires word % 4 == f.status && word / 4 % 16 == f.bidi && word / 64 % 8 == f.joining && word / 512 % 2 == f.virama
    requires word / 1024 == f.script < 8
    ensures FieldsOf(word) == f
  {}

  /** Every code point with a status has a status from 1 to 3 and one value for every property. */
  ghost predicate Proper(status: seq<RangeValue>, bidi: seq<RangeValue>, joining: seq<RangeValue>, virama: seq<RangeValue>,
                         scripts: seq<seq<RangeValue>>) {
    forall code: nat :: Status(status, code).Some? ==>
      exists f: Fields :: 1 <= f.status <= 3 && PropertiesAre(status, bidi, joining, virama, scripts, code, f)
  }

  /** Proper tables never have an attribute that is refused. */
  lemma ProperIsAccepted(status: seq<RangeValue>, bidi: seq<RangeValue>, joining: seq<RangeValue>, virama: seq<RangeValue>,
                         scripts: seq<seq<RangeValue>>)
    requires Proper(status, bidi, joining, virama, scripts)
    ensures !BadAttribute(status, RuntimeTables(bidi, joining, virama, scripts))
  {
    var tables := RuntimeTables(bidi, joining, virama, scripts);
    hide RuntimeTables, Status, Single, Joined, WithTables;
    forall code: nat | Attribute(status, tables, code).Some?
      ensures var value := Attribute(status, tables, code).value; value % 4 != 0 && value < 0x2000
    {
      var f: Fields :| 1 <= f.status <= 3 && PropertiesAre(status, bidi, joining, virama, scripts, code, f);
      FieldsAreSeparate(bidi, joining, virama, scripts, code, f.status, f.bidi, f.joining, f.virama, f.script);
    }
  }

  /** The generator on its property tables: with proper ones only the number of ranges can stop it. */
  method GenerateData(status: seq<RangeValue>, bidi: seq<RangeValue>, joining: seq<RangeValue>, virama: seq<RangeValue>,
                      scripts: seq<seq<RangeValue>>)
    returns (r: Result<(seq<Compact>, seq<nat>), GenerateError>, ghost ranges: seq<RangeValue>)
    ensures r.Success? ==> Generated(r.value.0, r.value.1, ranges, status, RuntimeTables(bidi, joining, virama, scripts))
    ensures Proper(status, bidi, joining, virama, scripts) ==>
              (r.Success? <==> FewRanges(status, RuntimeTables(bidi, joining, virama, scripts)))
              && (r.Failure? ==> r.error.BadPages?)
  {
    hide *;
    if Proper(status, bidi, joining, virama, scripts) {
      ProperIsAccepted(status, bidi, joining, virama, scripts);
    }
    r, ranges := Generate(status, RuntimeTables(bidi, joining, virama, scripts));
  }

  /**
   * The fields of what the generated function returns: the properties of a code point with a derived
   * status, and nothing for one without.
   */
  method LookupFields(data: seq<Compact>, offsets: seq<nat>, code: nat, ghost ranges: seq<RangeValue>, ghost status: seq<RangeValue>,
                      ghost bidi: seq<RangeValue>, ghost joining: seq<RangeValue>, ghost virama: seq<RangeValue>,
                      ghost scripts: seq<seq<RangeValue>>)
    returns (fields: Fields)
    requires Generated(data, offsets, ranges, status, RuntimeTables(bidi, joining, virama, scripts))
    ensures forall f :: PropertiesAre(status, bidi, joining, virama, scripts, code, f) ==> fields == f
    ensures Status(status, code) == None ==> fields == Fields(0, 0, 0, 0, 0)
  {
    var word := Lookup(data, offsets, code, ranges, status, RuntimeTables(bidi, joining, virama, scripts));
    fields := FieldsOf(word);
    hide Generated, PropertiesAre, FieldsOf;
    forall f | PropertiesAre(status, bidi, joining, virama, scripts, code, f)
      ensures fields == f
    {
      WordFields(status, bidi, joining, virama, scripts, code, f);
    }
    NoFields();
  }

  lemma NoFields()
    ensures FieldsOf(0) == Fields(0, 0, 0, 0, 0)
  {}
}
