// The packed runtime attributes of IDNA: several property tables combined code point by code point.
module IdnaAttributes {
  import opened Powers
  import opened Wrappers
  import opened IdnaRanges

  // ---------------------------------------------------------------------------------------------
  // Bitwise or on unbounded integers

  function Or(a: nat, b: nat): nat {
    if a == 0 then b
    else if b == 0 then a
    else 2 * Or(a / 2, b / 2) + (if a % 2 == 1 || b % 2 == 1 then 1 else 0)
  }

  function Shifted(value: nat, shift: nat): nat {
    value * Pow2(shift)
  }

  /** A field above all the bits that are set is simply added. */
  lemma {:induction false} OrAbove(a: nat, value: nat, shift: nat)
    requires a < Pow2(shift)
    ensures Or(a, Shifted(value, shift)) == a + Shifted(value, shift)
    decreases shift
  {
    if shift > 0 && a > 0 {
      assert Shifted(value, shift) == 2 * Shifted(value, shift - 1);
      OrAbove(a / 2, value, shift - 1);
    }
  }

  lemma {:induction false} OrSame(a: nat)
    ensures Or(a, a) == a
  {
    if a > 0 {
      OrSame(a / 2);
    }
  }

  /** One bit of a number. */
  predicate BitOf(x: nat, i: nat) {
    if i == 0 then x % 2 == 1 else BitOf(x / 2, i - 1)
  }

  lemma {:induction false} BitOfZero(i: nat)
    ensures !BitOf(0, i)
  {
    if i > 0 {
      BitOfZero(i - 1);
    }
  }

  /** A bit is set when it is set on either side. */
  lemma {:induction false} OrBits(a: nat, b: nat, i: nat)
    ensures BitOf(Or(a, b), i) <==> BitOf(a, i) || BitOf(b, i)
  {
    if a == 0 || b == 0 {
      BitOfZero(i);
    } else if i > 0 {
      OrBits(a / 2, b / 2, i - 1);
      assert Or(a, b) / 2 == Or(a / 2, b / 2);
    }
  }

  // ---------------------------------------------------------------------------------------------
  // Combination

  /** A property table with the position of its field. */
  datatype Table = Table(ranges: seq<RangeValue>, shift: nat)

  /** The status of a code point: that of the last range with it. */
  function Status(ranges: seq<RangeValue>, code: nat): Option<nat> {
    if ranges == [] then None
    else if Contains(ranges[|ranges| - 1], code) then Some(ranges[|ranges| - 1].value)
    else Status(ranges[..|ranges| - 1], code)
  }

  /** An attribute with the fields of all ranges of a table that contain the code point. */
  function WithRanges(attribute: nat, ranges: seq<RangeValue>, shift: nat, code: nat): nat {
    if ranges == [] then attribute
    else
      var before := WithRanges(attribute, ranges[..|ranges| - 1], shift, code);
      var last := ranges[|ranges| - 1];
      if Contains(last, code) then Or(before, Shifted(last.value, shift)) else before
  }

  function WithTables(attribute: nat, tables: seq<Table>, code: nat): nat {
    if tables == [] then attribute
    else
      var last := tables[|tables| - 1];
      WithRanges(WithTables(attribute, tables[..|tables| - 1], code), last.ranges, last.shift, code)
  }

  /** The attribute of a code point that has a status. */
  function Attribute(status: seq<RangeValue>, tables: seq<Table>, code: nat): Option<nat> {
    match Status(status, code)
    case None => None
    case Some(value) => Some(WithTables(value, tables, code))
  }

  /** Some range with the code point has the bit in its field. */
  ghost predicate RangesHaveBit(ranges: seq<RangeValue>, shift: nat, code: nat, i: nat) {
    exists k :: 0 <= k < |ranges| && Contains(ranges[k], code) && BitOf(Shifted(ranges[k].value, shift), i)
  }

  ghost predicate TablesHaveBit(tables: seq<Table>, code: nat, i: nat) {
    exists k :: 0 <= k < |tables| && RangesHaveBit(tables[k].ranges, tables[k].shift, code, i)
  }

  lemma {:induction false} WithRangesBits(attribute: nat, ranges: seq<RangeValue>, shift: nat, code: nat, i: nat)
    ensures BitOf(WithRanges(attribute, ranges, shift, code), i) <==> BitOf(attribute, i) || RangesHaveBit(ranges, shift, code, i)
    decreases |ranges|
  {
    hide Or, Shifted, BitOf;
    if ranges != [] {
      var (front, last) := (ranges[..|ranges| - 1], ranges[|ranges| - 1]);
      WithRangesBits(attribute, front, shift, code, i);
      OrBits(WithRanges(attribute, front, shift, code), Shifted(last.value, shift), i);
      assert forall k :: 0 <= k < |front| ==> front[k] == ranges[k];
      if RangesHaveBit(front, shift, code, i) {
        var k :| 0 <= k < |front| && Contains(front[k], code) && BitOf(Shifted(front[k].value, shift), i);
        assert Contains(ranges[k], code) && BitOf(Shifted(ranges[k].value, shift), i);
      }
      if RangesHaveBit(ranges, shift, code, i) {
        var k :| 0 <= k < |ranges| && Contains(ranges[k], code) && BitOf(Shifted(ranges[k].value, shift), i);
        if k < |front| {
          assert Contains(front[k], code) && BitOf(Shifted(front[k].value, shift), i);
        }
      }
    }
  }

  /** A bit of an attribute is set when the status or a field of some range with the code point has it. */
  lemma {:induction false} WithTablesBits(attribute: nat, tables: seq<Table>, code: nat, i: nat)
    ensures BitOf(WithTables(attribute, tables, code), i) <==> BitOf(attribute, i) || TablesHaveBit(tables, code, i)
    decreases |tables|
  {
    hide WithRanges, BitOf, RangesHaveBit;
    if tables != [] {
      var (front, last) := (tables[..|tables| - 1], tables[|tables| - 1]);
      WithTablesBits(attribute, front, code, i);
      WithRangesBits(WithTables(attribute, front, code), last.ranges, last.shift, code, i);
      assert forall k :: 0 <= k < |front| ==> front[k] == tables[k];
      if TablesHaveBit(front, code, i) {
        var k :| 0 <= k < |front| && RangesHaveBit(front[k].ranges, front[k].shift, code, i);
        assert RangesHaveBit(tables[k].ranges, tables[k].shift, code, i);
      }
      if TablesHaveBit(tables, code, i) {
        var k :| 0 <= k < |tables| && RangesHaveBit(tables[k].ranges, tables[k].shift, code, i);
        if k < |front| {
          assert RangesHaveBit(front[k].ranges, front[k].shift, code, i);
        }
      }
    }
  }

  /** Sets the code points of one range. */
  method Assign(values: map<nat, nat>, r: RangeValue) returns (result: map<nat, nat>)
    ensures forall code: nat :: code in result <==> code in values || Contains(r, code)
    ensures forall code: nat :: code in result ==> result[code] == if Contains(r, code) then r.value else values[code]
  {
    result := values;
    var code := r.first;
    while code <= r.last
      invariant r.first <= code && (r.first <= r.last ==> code <= r.last + 1)
      invariant forall x: nat :: x in result <==> x in values || (Contains(r, x) && x < code)
      invariant forall x: nat :: x in result ==> result[x] == if Contains(r, x) && x < code then r.value else values[x]
      decreases r.last + 1 - code
    {
      result := result[code := r.value];
      code := code + 1;
    }
  }

  /** Adds a field to the code points of one range, where they have an attribute. */
  method Include(values: map<nat, nat>, r: RangeValue, shift: nat) returns (result: map<nat, nat>)
    ensures result.Keys == values.Keys
    ensures forall code: nat :: code in result ==>
      result[code] == if Contains(r, code) then Or(values[code], Shifted(r.value, shift)) else values[code]
  {
    result := values;
    hide Or, Shifted;
    var encoded := Shifted(r.value, shift);
    var code := r.first;
    while code <= r.last
      invariant r.first <= code && (r.first <= r.last ==> code <= r.last + 1)
      invariant result.Keys == values.Keys
      invariant forall x: nat :: x in result ==>
        result[x] == if Contains(r, x) && x < code then Or(values[x], encoded) else values[x]
      decreases r.last + 1 - code
    {
      if code in result {
        result := result[code := Or(result[code], encoded)];
      }
      code := code + 1;
    }
  }

  // ---------------------------------------------------------------------------------------------
  // The merged table

  lemma StatusNext(status: seq<RangeValue>, n: nat, code: nat)
    requires n < |status|
    ensures Status(status[..n + 1], code) == if Contains(status[n], code) then Some(status[n].value) else Status(status[..n], code)
  {
    assert status[..n + 1][..n] == status[..n];
  }

  lemma WithRangesNext(attribute: nat, ranges: seq<RangeValue>, n: nat, shift: nat, code: nat)
    requires n < |ranges|
    ensures WithRanges(attribute, ranges[..n + 1], shift, code)
         == if Contains(ranges[n], code) then Or(WithRanges(attribute, ranges[..n], shift, code), Shifted(ranges[n].value, shift))
            else WithRanges(attribute, ranges[..n], shift, code)
  {
    hide Or, Shifted;
    assert ranges[..n + 1][..n] == ranges[..n];
  }

  lemma WithTablesNext(attribute: nat, tables: seq<Table>, n: nat, code: nat)
    requires n < |tables|
    ensures WithTables(attribute, tables[..n + 1], code)
         == WithRanges(WithTables(attribute, tables[..n], code), tables[n].ranges, tables[n].shift, code)
  {
    hide WithRanges;
    assert tables[..n + 1][..n] == tables[..n];
  }

  /** The attributes after some tables and some ranges of the next one. */
  ghost predicate Combined(status: seq<RangeValue>, tables: seq<Table>, ranges: seq<RangeValue>, shift: nat, values: map<nat, nat>) {
    && (forall code: nat :: code in values <==> Status(status, code).Some?)
    && forall code: nat :: code in values ==>
         Status(status, code).Some?
         && values[code] == WithRanges(WithTables(Status(status, code).value, tables, code), ranges, shift, code)
  }

  ghost predicate StatusSet(status: seq<RangeValue>, values: map<nat, nat>) {
    forall code: nat :: Status(status, code) == if code in values then Some(values[code]) else None
  }

  lemma StatusSetNext(status: seq<RangeValue>, n: nat, before: map<nat, nat>, after: map<nat, nat>)
    requires n < |status| && StatusSet(status[..n], before)
    requires forall code: nat :: code in after <==> code in before || Contains(status[n], code)
    requires forall code: nat :: code in after ==> after[code] == if Contains(status[n], code) then status[n].value else before[code]
    ensures StatusSet(status[..n + 1], after)
  {
    hide Status;
    forall code: nat
      ensures Status(status[..n + 1], code) == if code in after then Some(after[code]) else None
    {
      StatusNext(status, n, code);
    }
  }

  lemma CombinedFirst(status: seq<RangeValue>, values: map<nat, nat>)
    requires StatusSet(status, values)
    ensures Combined(status, [], [], 0, values)
  {
    hide Status, Or;
  }

  lemma CombinedNext(status: seq<RangeValue>, tables: seq<Table>, ranges: seq<RangeValue>, n: nat, shift: nat, before: map<nat, nat>, after: map<nat, nat>)
    requires n < |ranges| && Combined(status, tables, ranges[..n], shift, before) && after.Keys == before.Keys
    requires forall code: nat :: code in after ==>
      after[code] == if Contains(ranges[n], code) then Or(before[code], Shifted(ranges[n].value, shift)) else before[code]
    ensures Combined(status, tables, ranges[..n + 1], shift, after)
  {
    hide Status, Or, Shifted, WithTables, WithRanges;
    forall code: nat | code in after
      ensures after[code] == WithRanges(WithTables(Status(status, code).value, tables, code), ranges[..n + 1], shift, code)
    {
      assert code in before;
      WithRangesNext(WithTables(Status(status, code).value, tables, code), ranges, n, shift, code);
    }
  }

  lemma CombinedTable(status: seq<RangeValue>, tables: seq<Table>, n: nat, values: map<nat, nat>)
    requires n < |tables| && Combined(status, tables[..n], tables[n].ranges, tables[n].shift, values)
    ensures Combined(status, tables[..n + 1], [], 0, values)
  {
    hide Status, Or, Shifted, WithTables;
    forall code: nat | code in values
      ensures values[code] == WithRanges(WithTables(Status(status, code).value, tables[..n + 1], code), [], 0, code)
    {
      WithTablesNext(Status(status, code).value, tables, n, code);
    }
  }

  lemma CombinedStart(status: seq<RangeValue>, tables: seq<Table>, shift: nat, values: map<nat, nat>)
    requires Combined(status, tables, [], 0, values)
    ensures Combined(status, tables, [], shift, values)
  {
    hide Status, Or, Shifted, WithTables;
  }

  lemma CombinedDone(status: seq<RangeValue>, tables: seq<Table>, values: map<nat, nat>)
    requires Combined(status, tables, [], 0, values)
    ensures forall code: nat :: Attribute(status, tables, code) == if code in values then Some(values[code]) else None
  {
    hide Status, Or, Shifted, WithTables;
  }

  method CombineTable(attributes: map<nat, nat>, table: Table, ghost status: seq<RangeValue>, ghost tables: seq<Table>)
    returns (result: map<nat, nat>)
    requires Combined(status, tables, [], table.shift, attributes)
    ensures Combined(status, tables, table.ranges, table.shift, result)
  {
    hide Combined;
    result := attributes;
    assert table.ranges[..0] == [];
    for n := 0 to |table.ranges|
      invariant Combined(status, tables, table.ranges[..n], table.shift, result)
    {
      ghost var before := result;
      result := Include(result, table.ranges[n], table.shift);
      CombinedNext(status, tables, table.ranges, n, table.shift, before, result);
    }
    assert table.ranges[..|table.ranges|] == table.ranges;
  }

  /** The attribute of every code point that has a status, and of no other. */
  method Combine(status: seq<RangeValue>, tables: seq<Table>) returns (attributes: map<nat, nat>)
    ensures forall code: nat :: Attribute(status, tables, code) == if code in attributes then Some(attributes[code]) else None
  {
    hide Combined, StatusSet, Attribute;
    attributes := map[];
    NoStatus(status);
    for n := 0 to |status|
      invariant StatusSet(status[..n], attributes)
    {
      ghost var before := attributes;
      attributes := Assign(attributes, status[n]);
      StatusSetNext(status, n, before, attributes);
    }
    assert status[..|status|] == status && tables[..0] == [];
    CombinedFirst(status, attributes);
    for n := 0 to |tables|
      invariant Combined(status, tables[..n], [], 0, attributes)
    {
      CombinedStart(status, tables[..n], tables[n].shift, attributes);
      attributes := CombineTable(attributes, tables[n], status, tables[..n]);
      CombinedTable(status, tables, n, attributes);
    }
    assert tables[..|tables|] == tables;
    CombinedDone(status, tables, attributes);
  }

  lemma NoStatus(status: seq<RangeValue>)
    ensures StatusSet(status[..0], map[])
  {}

  datatype RuntimeError = CrossesPage(first: nat) | WithoutStatus(value: nat) | TooWide(value: nat)

  lemma ValueOf(ranges: seq<RangeValue>, i: nat)
    requires Ordered(ranges) && i < |ranges|
    ensures Has(ranges, ranges[i].first, ranges[i].value)
  {
    assert Contains(ranges[i], ranges[i].first);
  }

  /** The checks of one range, in order. */
  function Problem(r: RangeValue): Option<RuntimeError> {
    if PageOf(r.first) != PageOf(r.last) then Some(CrossesPage(r.first))
    else if r.value % 4 == 0 then Some(WithoutStatus(r.value))
    else if r.value > 0x1FFF then Some(TooWide(r.value))
    else None
  }

  lemma ProblemIs(ranges: seq<RangeValue>, i: nat)
    requires Ordered(ranges) && OnePage(ranges) && i < |ranges|
    ensures Problem(ranges[i]).None? <==> ranges[i].value % 4 != 0 && ranges[i].value < 0x2000
    ensures Has(ranges, ranges[i].first, ranges[i].value)
  {
    hide PageOf;
    ValueOf(ranges, i);
  }

  ghost predicate Exactly(ranges: seq<RangeValue>, status: seq<RangeValue>, tables: seq<Table>) {
    forall code: nat, value: nat :: Has(ranges, code, value) <==> Attribute(status, tables, code) == Some(value)
  }

  /** Some attribute does not have its status in the two lowest bits, or does not fit 13 bits. */
  ghost predicate BadAttribute(status: seq<RangeValue>, tables: seq<Table>) {
    exists code: nat ::
      && Attribute(status, tables, code).Some?
      && (Attribute(status, tables, code).value % 4 == 0 || Attribute(status, tables, code).value >= 0x2000)
  }

  lemma ExactlyFrom(status: seq<RangeValue>, tables: seq<Table>, attributes: map<nat, nat>, ranges: seq<RangeValue>, split: seq<RangeValue>)
    requires forall code: nat :: Attribute(status, tables, code) == if code in attributes then Some(attributes[code]) else None
    requires Represents(ranges, attributes) && SameValues(split, ranges)
    ensures Exactly(split, status, tables)
  {
    hide Has, Attribute;
    forall code: nat, value: nat
      ensures Has(split, code, value) <==> Attribute(status, tables, code) == Some(value)
    {
      assert Has(split, code, value) <==> Has(ranges, code, value);
    }
  }

  /** One table for all properties; fails exactly when some attribute cannot be packed. */
  method RuntimeRanges(status: seq<RangeValue>, tables: seq<Table>) returns (r: Result<seq<RangeValue>, RuntimeError>)
    ensures r.Success? <==> !BadAttribute(status, tables)
    ensures r.Success? ==> Ordered(r.value) && OnePage(r.value) && Tight(r.value) && Exactly(r.value, status, tables)
  {
    hide *;
    var attributes := Combine(status, tables);
    var merged := MapToRanges(attributes);
    var result := SplitAtPageBoundaries(merged);
    ExactlyFrom(status, tables, attributes, merged, result);
    for i := 0 to |result|
      invariant forall j :: 0 <= j < i ==> result[j].value % 4 != 0 && result[j].value < 0x2000
    {
      var problem := Problem(result[i]);
      ProblemIs(result, i);
      if problem.Some? {
        RefusedIsBad(status, tables, result, i);
        return Failure(problem.value);
      }
    }
    NoneIsBad(status, tables, result);
    return Success(result);
  }

  lemma RefusedIsBad(status: seq<RangeValue>, tables: seq<Table>, ranges: seq<RangeValue>, i: nat)
    requires Exactly(ranges, status, tables) && i < |ranges| && Has(ranges, ranges[i].first, ranges[i].value)
    requires ranges[i].value % 4 == 0 || ranges[i].value >= 0x2000
    ensures BadAttribute(status, tables)
  {
    hide Attribute, Has;
    assert Attribute(status, tables, ranges[i].first) == Some(ranges[i].value);
  }

  lemma NoneIsBad(status: seq<RangeValue>, tables: seq<Table>, ranges: seq<RangeValue>)
    requires Exactly(ranges, status, tables)
    requires forall j :: 0 <= j < |ranges| ==> ranges[j].value % 4 != 0 && ranges[j].value < 0x2000
    ensures !BadAttribute(status, tables)
  {
    hide Attribute;
    forall code: nat | Attribute(status, tables, code).Some?
      ensures var value := Attribute(status, tables, code).value; value % 4 != 0 && value < 0x2000
    {
      assert Has(ranges, code, Attribute(status, tables, code).value);
    }
  }

  // ---------------------------------------------------------------------------------------------
  // Fields

  const BIDI_SHIFT: nat := 2
  const JOINING_SHIFT: nat := 6
  const VIRAMA_SHIFT: nat := 9
  const SCRIPT_SHIFT: nat := 10

  /** All ranges of a table that contain the code point agree on the value; zero without any. */
  ghost predicate Single(ranges: seq<RangeValue>, code: nat, value: nat) {
    && (forall i :: 0 <= i < |ranges| && Contains(ranges[i], code) ==> ranges[i].value == value)
    && ((forall i :: 0 <= i < |ranges| ==> !Contains(ranges[i], code)) ==> value == 0)
  }

  /** Or-ing the same field twice changes nothing. */
  lemma {:induction false} OrAgain(a: nat, value: nat, shift: nat)
    requires a < Pow2(shift)
    ensures Or(a + Shifted(value, shift), Shifted(value, shift)) == a + Shifted(value, shift)
    decreases shift
  {
    if shift == 0 {
      OrSame(value);
    } else {
      var s := Shifted(value, shift - 1);
      assert Shifted(value, shift) == 2 * s;
      OrAgain(a / 2, value, shift - 1);
      assert (a + 2 * s) / 2 == a / 2 + s && (a + 2 * s) % 2 == a % 2;
    }
  }

  /** A single-valued table adds its value to the field. */
  lemma {:induction false} SingleAdds(a: nat, ranges: seq<RangeValue>, shift: nat, code: nat, value: nat)
    requires a < Pow2(shift) && Single(ranges, code, value)
    ensures WithRanges(a, ranges, shift, code) == a + Shifted(value, shift)
  {
    hide Or, Shifted;
    if ranges == [] {
      ShiftedZero(shift);
    } else {
      var front := ranges[..|ranges| - 1];
      if Contains(ranges[|ranges| - 1], code) {
        assert ranges[|ranges| - 1].value == value;
        if Single(front, code, value) {
          SingleAdds(a, front, shift, code, value);
          OrAgain(a, value, shift);
        } else {
          assert Single(front, code, 0);
          SingleAdds(a, front, shift, code, 0);
          ShiftedZero(shift);
          OrAbove(a, value, shift);
        }
      } else {
        assert forall i :: 0 <= i < |front| ==> front[i] == ranges[i];
        assert Single(front, code, value);
        SingleAdds(a, front, shift, code, value);
      }
    }
  }

  lemma ShiftedZero(shift: nat)
    ensures Shifted(0, shift) == 0
  {}

  lemma ShiftedBy(value: nat)
    ensures Pow2(2) == 4 && Pow2(6) == 64 && Pow2(9) == 512 && Pow2(10) == 1024
    ensures Shifted(value, 2) == 4 * value && Shifted(value, 6) == 64 * value
    ensures Shifted(value, 9) == 512 * value && Shifted(value, 10) == 1024 * value
  {
    assert Pow2(3) == 8 && Pow2(4) == 16;
  }

  function ScriptTables(scripts: seq<seq<RangeValue>>): seq<Table> {
    seq(|scripts|, i requires 0 <= i < |scripts| => Table(scripts[i], SCRIPT_SHIFT))
  }

  /** The tables of the generator; all scripts share one field. */
  function RuntimeTables(bidi: seq<RangeValue>, joining: seq<RangeValue>, virama: seq<RangeValue>, scripts: seq<seq<RangeValue>>): seq<Table> {
    [Table(bidi, BIDI_SHIFT), Table(joining, JOINING_SHIFT), Table(virama, VIRAMA_SHIFT)] + ScriptTables(scripts)
  }

  /** The ranges of all scripts. */
  function Joined(scripts: seq<seq<RangeValue>>): seq<RangeValue> {
    if scripts == [] then [] else Joined(scripts[..|scripts| - 1]) + scripts[|scripts| - 1]
  }

  lemma {:induction false} WithJoined(a: nat, first: seq<RangeValue>, second: seq<RangeValue>, shift: nat, code: nat)
    ensures WithRanges(a, first + second, shift, code) == WithRanges(WithRanges(a, first, shift, code), second, shift, code)
    decreases |second|
  {
    hide Or, Shifted;
    if second == [] {
      assert first + second == first;
    } else {
      var front := second[..|second| - 1];
      WithJoined(a, first, front, shift, code);
      assert (first + second)[..|first + second| - 1] == first + front;
    }
  }

  /** Several tables with the same field work like one table with all their ranges. */
  lemma {:induction false} ScriptsAreOneTable(a: nat, tables: seq<Table>, scripts: seq<seq<RangeValue>>, code: nat)
    ensures WithTables(a, tables + ScriptTables(scripts), code) == WithRanges(WithTables(a, tables, code), Joined(scripts), SCRIPT_SHIFT, code)
    decreases |scripts|
  {
    hide Or, Shifted;
    if scripts == [] {
      assert tables + ScriptTables(scripts) == tables;
    } else {
      var (front, last) := (scripts[..|scripts| - 1], scripts[|scripts| - 1]);
      var all := tables + ScriptTables(scripts);
      assert all[..|all| - 1] == tables + ScriptTables(front) && all[|all| - 1] == Table(last, SCRIPT_SHIFT);
      ScriptsAreOneTable(a, tables, front, code);
      WithJoined(WithTables(a, tables, code), Joined(front), last, SCRIPT_SHIFT, code);
      hide WithRanges;
    }
  }

  lemma ThreeTables(a: nat, bidi: Table, joining: Table, virama: Table, code: nat)
    ensures WithTables(a, [bidi, joining, virama], code)
         == WithRanges(WithRanges(WithRanges(a, bidi.ranges, bidi.shift, code), joining.ranges, joining.shift, code), virama.ranges, virama.shift, code)
  {
    hide WithRanges;
    var all := [bidi, joining, virama];
    assert all[..0] == [] && all[..1] == [bidi] && all[..2] == [bidi, joining] && all[..3] == all;
    WithTablesNext(a, all, 0, code);
    WithTablesNext(a, all, 1, code);
    WithTablesNext(a, all, 2, code);
  }

  /** Where every property has one value, the fields do not disturb each other. */
  lemma FieldsAreSeparate(bidi: seq<RangeValue>, joining: seq<RangeValue>, virama: seq<RangeValue>, scripts: seq<seq<RangeValue>>, code: nat,
                          status: nat, b: nat, j: nat, v: nat, s: nat)
    requires status < 4 && b < 16 && j < 8 && v < 2 && s < 8
    requires Single(bidi, code, b) && Single(joining, code, j) && Single(virama, code, v) && Single(Joined(scripts), code, s)
    ensures var attribute := WithTables(status, RuntimeTables(bidi, joining, virama, scripts), code);
      && attribute == status + 4 * b + 64 * j + 512 * v + 1024 * s <= 0x1FFF
      && attribute % 4 == status
      && attribute / 4 % 16 == b && attribute / 64 % 8 == j && attribute / 512 % 2 == v && attribute / 1024 == s
  {
    hide WithRanges, WithTables, Single, Shifted, Pow2, Joined, ScriptTables;
    var three := [Table(bidi, BIDI_SHIFT), Table(joining, JOINING_SHIFT), Table(virama, VIRAMA_SHIFT)];
    ThreeTables(status, Table(bidi, BIDI_SHIFT), Table(joining, JOINING_SHIFT), Table(virama, VIRAMA_SHIFT), code);
    ScriptsAreOneTable(status, three, scripts, code);
    ShiftedBy(b);
    ShiftedBy(j);
    ShiftedBy(v);
    ShiftedBy(s);
    SingleAdds(status, bidi, 2, code, b);
    SingleAdds(status + 4 * b, joining, 6, code, j);
    SingleAdds(status + 4 * b + 64 * j, virama, 9, code, v);
    SingleAdds(status + 4 * b + 64 * j + 512 * v, Joined(scripts), 10, code, s);
    Unpacked(status, b, j, v, s);
  }

  lemma Unpacked(status: nat, b: nat, j: nat, v: nat, s: nat)
    requires status < 4 && b < 16 && j < 8 && v < 2 && s < 8
    ensures var attribute := status + 4 * b + 64 * j + 512 * v + 1024 * s;
      && attribute <= 0x1FFF && attribute % 4 == status
      && attribute / 4 % 16 == b && attribute / 64 % 8 == j && attribute / 512 % 2 == v && attribute / 1024 == s
  {
    var attribute := status + 4 * b + 64 * j + 512 * v + 1024 * s;
    assert attribute / 4 == b + 16 * j + 128 * v + 256 * s;
    assert attribute / 64 == j + 8 * v + 16 * s;
    assert attribute / 512 == v + 2 * s;
  }
}
