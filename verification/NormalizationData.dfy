// Building the composition pairs, and the tables of the three source maps.
module NormalizationData {
  import opened Wrappers
  import opened CombiningClasses
  import opened Collections
  import opened NormalizationStream
  import opened NormalizationTables
  import opened NormalizationLookup

  datatype BuildError = DuplicatePair(first: nat, second: nat)

  // ---------------------------------------------------------------------------------------------
  // Sorting the pairs of a starter

  predicate PairLess(a: (nat, nat), b: (nat, nat)) {
    a.0 < b.0 || (a.0 == b.0 && a.1 < b.1)
  }

  function InsertPair(pairs: seq<(nat, nat)>, p: (nat, nat)): (r: seq<(nat, nat)>)
    ensures forall x :: x in r <==> x in pairs || x == p
    ensures |r| == |pairs| + 1
  {
    if pairs == [] || PairLess(p, pairs[0]) then [p] + pairs
    else [pairs[0]] + InsertPair(pairs[1..], p)
  }

  lemma {:induction false} InsertOrdered(pairs: seq<(nat, nat)>, p: (nat, nat), previous: nat)
    requires Ordered(pairs, previous) && previous <= p.0
    ensures Ordered(InsertPair(pairs, p), previous)
    decreases |pairs|
  {
    if pairs == [] {
    } else if PairLess(p, pairs[0]) {
      assert ([p] + pairs)[1..] == pairs;
    } else {
      InsertOrdered(pairs[1..], p, pairs[0].0);
      assert ([pairs[0]] + InsertPair(pairs[1..], p))[1..] == InsertPair(pairs[1..], p);
    }
  }

  function SortPairs(pairs: seq<(nat, nat)>): (r: seq<(nat, nat)>)
    ensures forall x :: x in r <==> x in pairs
    ensures |r| == |pairs|
  {
    if pairs == [] then [] else InsertPair(SortPairs(pairs[1..]), pairs[0])
  }

  lemma {:induction false} SortOrdered(pairs: seq<(nat, nat)>)
    ensures Ordered(SortPairs(pairs), 0)
  {
    if pairs != [] {
      SortOrdered(pairs[1..]);
      InsertOrdered(SortPairs(pairs[1..]), pairs[0], 0);
    }
  }

  // ---------------------------------------------------------------------------------------------
  // Primary composites

  /** A canonical mapping to two code points that composition may undo. */
  predicate IsPrimary(e: Entry, classes: map<nat, nat>, exclusions: set<nat>) {
    && e.Mapping? && !e.compatibility && |e.mapping| == 2 && e.code !in exclusions
    && ClassOf(classes, e.code) == 0 && ClassOf(classes, e.mapping[0]) == 0
  }

  ghost predicate Primary(entries: seq<Entry>, classes: map<nat, nat>, exclusions: set<nat>, first: nat, second: nat, composite: nat) {
    exists e :: Listing(entries, e) && IsPrimary(e, classes, exclusions) && e.mapping == [first, second] && e.code == composite
  }

  ghost predicate ZeroClass(classes: map<nat, nat>, code: nat) {
    code in classes ==> classes[code] == 0
  }

  /** A listed canonical mapping to exactly this pair, not excluded, and of class zero at both its ends. */
  lemma PrimaryFrom(entries: seq<Entry>, classes: map<nat, nat>, exclusions: set<nat>, first: nat, second: nat, composite: nat)
    ensures Primary(entries, classes, exclusions, first, second, composite) <==>
              && (exists i :: 0 <= i < |entries| && entries[i] == Mapping(composite, [first, second], false))
              && composite !in exclusions && ZeroClass(classes, composite) && ZeroClass(classes, first)
  {
    if Primary(entries, classes, exclusions, first, second, composite) {
      var e :| Listing(entries, e) && IsPrimary(e, classes, exclusions) && e.mapping == [first, second] && e.code == composite;
      assert e == Mapping(composite, [first, second], false);
    }
    var e := Mapping(composite, [first, second], false);
    if Listing(entries, e) && composite !in exclusions && ZeroClass(classes, composite) && ZeroClass(classes, first) {
      assert IsPrimary(e, classes, exclusions);
    }
  }

  /** No two primary composites have the same pair. */
  ghost predicate SinglePairs(entries: seq<Entry>, classes: map<nat, nat>, exclusions: set<nat>) {
    forall i, j :: 0 <= i < j < |entries| && IsPrimary(entries[i], classes, exclusions) && IsPrimary(entries[j], classes, exclusions) ==>
      entries[i].mapping != entries[j].mapping
  }

  function PairsOf(grouped: map<nat, seq<(nat, nat)>>, first: nat): seq<(nat, nat)> {
    if first in grouped then grouped[first] else []
  }

  /** The grouped pairs are the primary composites among the entries. */
  ghost predicate Collected(entries: seq<Entry>, classes: map<nat, nat>, exclusions: set<nat>, grouped: map<nat, seq<(nat, nat)>>) {
    forall first: nat, second: nat, composite: nat ::
      HasPair(PairsOf(grouped, first), second, composite) <==> Primary(entries, classes, exclusions, first, second, composite)
  }

  ghost predicate Taken(entries: seq<Entry>, classes: map<nat, nat>, exclusions: set<nat>, p: (nat, nat)) {
    exists composite :: Primary(entries, classes, exclusions, p.0, p.1, composite)
  }

  ghost predicate Seen(entries: seq<Entry>, classes: map<nat, nat>, exclusions: set<nat>, seen: set<(nat, nat)>) {
    forall p :: p in seen <==> Taken(entries, classes, exclusions, p)
  }

  /** What the code that groups the pairs has to be encoded with. */
  ghost predicate Bounded(grouped: map<nat, seq<(nat, nat)>>, n: nat) {
    forall first :: first in grouped ==>
      first <= MAX_CODE_POINT && |grouped[first]| <= n
      && forall p :: p in grouped[first] ==> p.0 <= MAX_CODE_POINT && p.1 <= MAX_CODE_POINT
  }

  lemma PrimaryNext(entries: seq<Entry>, e: Entry, classes: map<nat, nat>, exclusions: set<nat>, first: nat, second: nat, composite: nat)
    ensures Primary(entries + [e], classes, exclusions, first, second, composite)
       <==> Primary(entries, classes, exclusions, first, second, composite)
            || (IsPrimary(e, classes, exclusions) && e.mapping == [first, second] && e.code == composite)
  {
    assert Listing(entries + [e], e) && forall x :: Listing(entries, x) ==> Listing(entries + [e], x);
  }

  function Added(grouped: map<nat, seq<(nat, nat)>>, first: nat, p: (nat, nat)): map<nat, seq<(nat, nat)>> {
    grouped[first := PairsOf(grouped, first) + [p]]
  }

  lemma AddedPairs(grouped: map<nat, seq<(nat, nat)>>, first: nat, p: (nat, nat), x: nat, second: nat, composite: nat)
    ensures HasPair(PairsOf(Added(grouped, first, p), x), second, composite)
       <==> HasPair(PairsOf(grouped, x), second, composite) || (x == first && p == (second, composite))
  {}

  lemma CollectedNext(entries: seq<Entry>, e: Entry, classes: map<nat, nat>, exclusions: set<nat>, grouped: map<nat, seq<(nat, nat)>>)
    requires Collected(entries, classes, exclusions, grouped)
    ensures !IsPrimary(e, classes, exclusions) ==> Collected(entries + [e], classes, exclusions, grouped)
    ensures IsPrimary(e, classes, exclusions) ==>
      Collected(entries + [e], classes, exclusions, Added(grouped, e.mapping[0], (e.mapping[1], e.code)))
  {
    var next := if IsPrimary(e, classes, exclusions) then Added(grouped, e.mapping[0], (e.mapping[1], e.code)) else grouped;
    forall first: nat, second: nat, composite: nat
      ensures HasPair(PairsOf(next, first), second, composite) <==> Primary(entries + [e], classes, exclusions, first, second, composite)
    {
      PrimaryNext(entries, e, classes, exclusions, first, second, composite);
      if IsPrimary(e, classes, exclusions) {
        AddedPairs(grouped, e.mapping[0], (e.mapping[1], e.code), first, second, composite);
        assert e.mapping == [first, second] <==> e.mapping[0] == first && e.mapping[1] == second;
      }
      hide Primary, HasPair, Added, PairsOf, IsPrimary;
    }
  }

  lemma SeenNext(entries: seq<Entry>, e: Entry, classes: map<nat, nat>, exclusions: set<nat>, seen: set<(nat, nat)>)
    requires Seen(entries, classes, exclusions, seen)
    ensures !IsPrimary(e, classes, exclusions) ==> Seen(entries + [e], classes, exclusions, seen)
    ensures IsPrimary(e, classes, exclusions) ==> Seen(entries + [e], classes, exclusions, seen + {(e.mapping[0], e.mapping[1])})
  {
    hide Primary;
    forall p: (nat, nat)
      ensures Taken(entries + [e], classes, exclusions, p)
         <==> Taken(entries, classes, exclusions, p) || (IsPrimary(e, classes, exclusions) && p == (e.mapping[0], e.mapping[1]))
    {
      TakenNext(entries, e, classes, exclusions, p);
    }
    hide Taken;
  }

  lemma TakenNext(entries: seq<Entry>, e: Entry, classes: map<nat, nat>, exclusions: set<nat>, p: (nat, nat))
    ensures Taken(entries + [e], classes, exclusions, p)
       <==> Taken(entries, classes, exclusions, p) || (IsPrimary(e, classes, exclusions) && p == (e.mapping[0], e.mapping[1]))
  {
    hide Primary;
    forall composite: nat
      ensures Primary(entries + [e], classes, exclusions, p.0, p.1, composite)
         <==> Primary(entries, classes, exclusions, p.0, p.1, composite)
              || (IsPrimary(e, classes, exclusions) && p == (e.mapping[0], e.mapping[1]) && e.code == composite)
    {
      PrimaryNext(entries, e, classes, exclusions, p.0, p.1, composite);
    }
    if IsPrimary(e, classes, exclusions) && p == (e.mapping[0], e.mapping[1]) {
      assert Primary(entries + [e], classes, exclusions, p.0, p.1, e.code);
    }
  }

  lemma SingleNext(entries: seq<Entry>, e: Entry, classes: map<nat, nat>, exclusions: set<nat>)
    requires SinglePairs(entries, classes, exclusions)
    requires IsPrimary(e, classes, exclusions) ==> !Taken(entries, classes, exclusions, (e.mapping[0], e.mapping[1]))
    ensures SinglePairs(entries + [e], classes, exclusions)
  {
    if IsPrimary(e, classes, exclusions) {
      forall i | 0 <= i < |entries| && IsPrimary(entries[i], classes, exclusions)
        ensures entries[i].mapping != e.mapping
      {
        if entries[i].mapping == e.mapping {
          assert Listing(entries, entries[i]);
          assert Primary(entries, classes, exclusions, e.mapping[0], e.mapping[1], entries[i].code);
        }
      }
    }
  }

  lemma NotSingle(entries: seq<Entry>, i: nat, classes: map<nat, nat>, exclusions: set<nat>)
    requires i < |entries| && IsPrimary(entries[i], classes, exclusions)
    requires Taken(entries[..i], classes, exclusions, (entries[i].mapping[0], entries[i].mapping[1]))
    ensures !SinglePairs(entries, classes, exclusions)
  {
    var e := entries[i];
    var composite :| Primary(entries[..i], classes, exclusions, e.mapping[0], e.mapping[1], composite);
    var x :| Listing(entries[..i], x) && IsPrimary(x, classes, exclusions) && x.mapping == [e.mapping[0], e.mapping[1]] && x.code == composite;
    var j :| 0 <= j < i && entries[j] == x;
    assert x.mapping == e.mapping;
  }

  lemma BoundedNext(grouped: map<nat, seq<(nat, nat)>>, n: nat, first: nat, p: (nat, nat))
    requires Bounded(grouped, n)
    ensures Bounded(grouped, n + 1)
    ensures first <= MAX_CODE_POINT && p.0 <= MAX_CODE_POINT && p.1 <= MAX_CODE_POINT ==> Bounded(Added(grouped, first, p), n + 1)
  {}

  ghost predicate Building(entries: seq<Entry>, n: nat, classes: map<nat, nat>, exclusions: set<nat>,
                           grouped: map<nat, seq<(nat, nat)>>, seen: set<(nat, nat)>)
  {
    && n <= |entries|
    && Collected(entries[..n], classes, exclusions, grouped) && Seen(entries[..n], classes, exclusions, seen)
    && SinglePairs(entries[..n], classes, exclusions) && Bounded(grouped, n)
  }

  lemma BuildFirst(entries: seq<Entry>, classes: map<nat, nat>, exclusions: set<nat>)
    ensures Building(entries, 0, classes, exclusions, map[], {})
  {
    assert forall e :: !Listing(entries[..0], e);
  }

  lemma BuildSkip(entries: seq<Entry>, n: nat, classes: map<nat, nat>, exclusions: set<nat>,
                  grouped: map<nat, seq<(nat, nat)>>, seen: set<(nat, nat)>)
    requires Building(entries, n, classes, exclusions, grouped, seen) && n < |entries| && !IsPrimary(entries[n], classes, exclusions)
    ensures Building(entries, n + 1, classes, exclusions, grouped, seen)
  {
    hide Collected, Seen, SinglePairs, Bounded, IsPrimary;
    var e := entries[n];
    assert entries[..n + 1] == entries[..n] + [e];
    CollectedNext(entries[..n], e, classes, exclusions, grouped);
    SeenNext(entries[..n], e, classes, exclusions, seen);
    SingleNext(entries[..n], e, classes, exclusions);
    BoundedNext(grouped, n, 0, (0, 0));
  }

  lemma BuildAdd(entries: seq<Entry>, n: nat, classes: map<nat, nat>, exclusions: set<nat>,
                 grouped: map<nat, seq<(nat, nat)>>, seen: set<(nat, nat)>)
    requires Building(entries, n, classes, exclusions, grouped, seen) && n < |entries| && IsPrimary(entries[n], classes, exclusions)
    requires AllChecked(Mappings, entries) && (entries[n].mapping[0], entries[n].mapping[1]) !in seen
    ensures
      var e := entries[n];
      Building(entries, n + 1, classes, exclusions, Added(grouped, e.mapping[0], (e.mapping[1], e.code)), seen + {(e.mapping[0], e.mapping[1])})
  {
    var e := entries[n];
    assert entries[..n + 1] == entries[..n] + [e];
    assert e in entries && Checked(e) && e.mapping[0] in e.mapping && e.mapping[1] in e.mapping;
    hide Collected, SinglePairs, Bounded, Added, Taken;
    CollectedNext(entries[..n], e, classes, exclusions, grouped);
    SeenNext(entries[..n], e, classes, exclusions, seen);
    SingleNext(entries[..n], e, classes, exclusions);
    BoundedNext(grouped, n, e.mapping[0], (e.mapping[1], e.code));
    hide Seen;
  }

  lemma BuildDuplicate(entries: seq<Entry>, n: nat, classes: map<nat, nat>, exclusions: set<nat>,
                       grouped: map<nat, seq<(nat, nat)>>, seen: set<(nat, nat)>)
    requires Building(entries, n, classes, exclusions, grouped, seen) && n < |entries| && IsPrimary(entries[n], classes, exclusions)
    requires (entries[n].mapping[0], entries[n].mapping[1]) in seen
    ensures !SinglePairs(entries, classes, exclusions)
  {
    hide Collected, SinglePairs, Bounded, Taken;
    NotSingle(entries, n, classes, exclusions);
  }

  function SortedPairs(grouped: map<nat, seq<(nat, nat)>>): map<nat, seq<(nat, nat)>> {
    map first | first in grouped :: SortPairs(grouped[first])
  }

  /** Every group can be encoded. */
  ghost predicate Encodable(compositions: map<nat, seq<(nat, nat)>>) {
    forall first :: first in compositions ==> Checked(Pairs(first, compositions[first]))
  }

  lemma {:induction false} CodesGrow(entries: seq<Entry>, i: nat)
    requires Sorted(entries) && i < |entries|
    ensures entries[i].code >= i
  {
    if i > 0 {
      CodesGrow(entries, i - 1);
    }
  }

  lemma FewEntries(kind: Kind, entries: seq<Entry>)
    requires Sorted(entries) && AllChecked(kind, entries)
    ensures |entries| <= MAX_CODE_POINT + 1
  {
    if |entries| > 0 {
      CodesGrow(entries, |entries| - 1);
      assert Checked(entries[|entries| - 1]);
    }
  }

  lemma SortedEncodable(grouped: map<nat, seq<(nat, nat)>>, n: nat)
    requires Bounded(grouped, n) && n <= MAX_CODE_POINT + 1
    ensures Encodable(SortedPairs(grouped))
  {
    forall first | first in grouped
      ensures Checked(Pairs(first, SortPairs(grouped[first])))
    {
      SortOrdered(grouped[first]);
    }
  }

  lemma SortedCollected(entries: seq<Entry>, classes: map<nat, nat>, exclusions: set<nat>, grouped: map<nat, seq<(nat, nat)>>)
    requires Collected(entries, classes, exclusions, grouped)
    ensures Collected(entries, classes, exclusions, SortedPairs(grouped))
  {
    hide Primary;
    forall first: nat, second: nat, composite: nat
      ensures HasPair(PairsOf(SortedPairs(grouped), first), second, composite) <==> HasPair(PairsOf(grouped, first), second, composite)
    {}
    hide HasPair, PairsOf, SortedPairs;
  }

  lemma BuildDone(entries: seq<Entry>, classes: map<nat, nat>, exclusions: set<nat>, grouped: map<nat, seq<(nat, nat)>>, seen: set<(nat, nat)>)
    requires Building(entries, |entries|, classes, exclusions, grouped, seen) && Sorted(entries) && AllChecked(Mappings, entries)
    ensures SinglePairs(entries, classes, exclusions)
    ensures Collected(entries, classes, exclusions, SortedPairs(grouped)) && Encodable(SortedPairs(grouped))
  {
    hide Collected, Seen, SinglePairs, Bounded, Sorted, AllChecked, SortedPairs, Encodable;
    assert entries[..|entries|] == entries;
    FewEntries(Mappings, entries);
    SortedEncodable(grouped, |entries|);
    SortedCollected(entries, classes, exclusions, grouped);
  }

  /** The pairs of all primary composites, grouped by the first code point; fails when two share a pair. */
  method BuildCompositions(decompositions: seq<Entry>, classes: map<nat, nat>, exclusions: set<nat>)
    returns (r: Result<map<nat, seq<(nat, nat)>>, BuildError>)
    requires Sorted(decompositions) && AllChecked(Mappings, decompositions)
    ensures r.Success? <==> SinglePairs(decompositions, classes, exclusions)
    ensures r.Success? ==> Collected(decompositions, classes, exclusions, r.value) && Encodable(r.value)
  {
    hide Collected, Seen, SinglePairs, Bounded, Sorted, Building, SortedPairs, Encodable, Added, Checked;
    var result: map<nat, seq<(nat, nat)>> := map[];
    var seen: set<(nat, nat)> := {};
    BuildFirst(decompositions, classes, exclusions);
    for n := 0 to |decompositions|
      invariant Building(decompositions, n, classes, exclusions, result, seen)
    {
      var entry := decompositions[n];
      MappingEntry(decompositions, n);
      if entry.compatibility || |entry.mapping| != 2 {
        BuildSkip(decompositions, n, classes, exclusions, result, seen);
        continue;
      }
      var first, second := entry.mapping[0], entry.mapping[1];
      if entry.code in exclusions {
        BuildSkip(decompositions, n, classes, exclusions, result, seen);
        continue;
      }
      if ClassOf(classes, entry.code) != 0 || ClassOf(classes, first) != 0 {
        BuildSkip(decompositions, n, classes, exclusions, result, seen);
        continue;
      }
      if (first, second) in seen {
        BuildDuplicate(decompositions, n, classes, exclusions, result, seen);
        return Failure(DuplicatePair(first, second));
      }
      BuildAdd(decompositions, n, classes, exclusions, result, seen);
      seen := seen + {(first, second)};
      result := Added(result, first, (second, entry.code));
    }
    BuildDone(decompositions, classes, exclusions, result, seen);
    return Success(SortedPairs(result));
  }

  lemma MappingEntry(entries: seq<Entry>, n: nat)
    requires AllChecked(Mappings, entries) && n < |entries|
    ensures entries[n].Mapping?
  {
    assert entries[n] in entries;
  }

  // ---------------------------------------------------------------------------------------------
  // The tables of the two maps

  ghost predicate ClassesChecked(classes: map<nat, nat>) {
    forall code :: code in classes ==> Checked(Class(code, classes[code]))
  }

  /** The map in the order of its keys. */
  function ClassEntries(classes: map<nat, nat>): seq<Entry> {
    var keys := Listed(classes.Keys);
    seq(|keys|, i requires 0 <= i < |keys| => Class(keys[i], ClassOf(classes, keys[i])))
  }

  function PairEntries(compositions: map<nat, seq<(nat, nat)>>): seq<Entry> {
    var keys := Listed(compositions.Keys);
    seq(|keys|, i requires 0 <= i < |keys| => Pairs(keys[i], PairsOf(compositions, keys[i])))
  }

  lemma ClassEntryAt(classes: map<nat, nat>, i: nat)
    requires i < |ClassEntries(classes)|
    ensures ClassEntries(classes)[i].Class? && ClassEntries(classes)[i].code in classes
    ensures ClassEntries(classes)[i].combiningClass == classes[ClassEntries(classes)[i].code]
    ensures i + 1 < |ClassEntries(classes)| ==> ClassEntries(classes)[i].code < ClassEntries(classes)[i + 1].code
  {
    assert Listed(classes.Keys)[i] in Listed(classes.Keys);
  }

  lemma ClassEntryOf(classes: map<nat, nat>, code: nat)
    requires code in classes
    ensures Class(code, classes[code]) in ClassEntries(classes)
  {
    var keys := Listed(classes.Keys);
    assert code in keys;
    var i :| 0 <= i < |keys| && keys[i] == code;
    assert ClassEntries(classes)[i] == Class(code, classes[code]);
  }

  lemma PairEntryAt(compositions: map<nat, seq<(nat, nat)>>, i: nat)
    requires i < |PairEntries(compositions)|
    ensures PairEntries(compositions)[i].Pairs? && PairEntries(compositions)[i].code in compositions
    ensures PairEntries(compositions)[i].pairs == compositions[PairEntries(compositions)[i].code]
    ensures i + 1 < |PairEntries(compositions)| ==> PairEntries(compositions)[i].code < PairEntries(compositions)[i + 1].code
  {
    assert Listed(compositions.Keys)[i] in Listed(compositions.Keys);
  }

  lemma PairEntryOf(compositions: map<nat, seq<(nat, nat)>>, code: nat)
    requires code in compositions
    ensures Pairs(code, compositions[code]) in PairEntries(compositions)
  {
    var keys := Listed(compositions.Keys);
    assert code in keys;
    var i :| 0 <= i < |keys| && keys[i] == code;
    assert PairEntries(compositions)[i] == Pairs(code, compositions[code]);
  }

  lemma {:induction false} StepsSorted(entries: seq<Entry>)
    requires forall i :: 0 <= i < |entries| - 1 ==> entries[i].code < entries[i + 1].code
    ensures Sorted(entries)
  {
    if |entries| > 0 {
      var front := entries[..|entries| - 1];
      StepsSorted(front);
      forall i | 0 <= i < |front|
        ensures entries[i].code < entries[|front|].code
      {
        assert entries[i] == front[i] && front[|front| - 1].code < entries[|front| - 1 + 1].code;
      }
    }
  }

  lemma ClassEntriesListed(classes: map<nat, nat>)
    requires ClassesChecked(classes)
    ensures Sorted(ClassEntries(classes)) && AllChecked(Classes, ClassEntries(classes)) && forall e :: e in ClassEntries(classes) ==> Checked(e)
    ensures forall code: nat, k: nat :: Listing(ClassEntries(classes), Class(code, k)) <==> code in classes && classes[code] == k
    ensures forall code: nat :: Unlisted(ClassEntries(classes), code) <==> code !in classes
  {
    hide ClassEntries, Checked, Sorted;
    var entries := ClassEntries(classes);
    forall i: nat | i < |entries|
      ensures entries[i].Class? && entries[i].code in classes && entries[i].combiningClass == classes[entries[i].code]
      ensures i + 1 < |entries| ==> entries[i].code < entries[i + 1].code
    {
      ClassEntryAt(classes, i);
    }
    StepsSorted(entries);
    forall code: nat | code in classes
      ensures Listing(entries, Class(code, classes[code]))
    {
      ClassEntryOf(classes, code);
    }
  }

  lemma PairEntriesListed(compositions: map<nat, seq<(nat, nat)>>)
    requires Encodable(compositions)
    ensures var entries := PairEntries(compositions);
      Sorted(entries) && AllChecked(Compositions, entries) && forall e :: e in entries ==> Checked(e)
    ensures forall e :: Listing(PairEntries(compositions), e) <==> e.Pairs? && e.code in compositions && e.pairs == compositions[e.code]
  {
    hide PairEntries, Checked, Sorted;
    var entries := PairEntries(compositions);
    forall i: nat | i < |entries|
      ensures entries[i].Pairs? && entries[i].code in compositions && entries[i].pairs == compositions[entries[i].code]
      ensures i + 1 < |entries| ==> entries[i].code < entries[i + 1].code
    {
      PairEntryAt(compositions, i);
    }
    StepsSorted(entries);
    forall code: nat | code in compositions
      ensures Listing(entries, Pairs(code, compositions[code]))
    {
      PairEntryOf(compositions, code);
    }
  }

  /** Every page of the table can be addressed from its directory. */
  ghost predicate PagesFit(entries: seq<Entry>) {
    (forall e :: e in entries ==> Checked(e)) && Addressable(entries, PageNumbers(entries))
  }

  method EncodeCombiningClasses(classes: map<nat, nat>) returns (r: Result<Table, PackError>)
    requires ClassesChecked(classes)
    ensures r.Success? <==> PagesFit(ClassEntries(classes))
    ensures r.Success? ==> TableOf(Classes, ClassEntries(classes), r.value)
  {
    ClassEntriesListed(classes);
    hide ClassEntries, Addressable, PageNumbers, EncodedTable, Sorted, AllChecked, Checked;
    r := EncodePages(Classes, ClassEntries(classes));
  }

  method EncodeDecompositions(mappings: seq<Entry>) returns (r: Result<Table, PackError>)
    requires Sorted(mappings) && AllChecked(Mappings, mappings)
    ensures r.Success? <==> PagesFit(mappings)
    ensures r.Success? ==> TableOf(Mappings, mappings, r.value)
  {
    hide Addressable, PageNumbers, EncodedTable, Sorted, Checked, KindOf;
    r := EncodePages(Mappings, mappings);
  }

  method EncodeCompositions(compositions: map<nat, seq<(nat, nat)>>) returns (r: Result<Table, PackError>)
    requires Encodable(compositions)
    ensures r.Success? <==> PagesFit(PairEntries(compositions))
    ensures r.Success? ==> TableOf(Compositions, PairEntries(compositions), r.value)
  {
    PairEntriesListed(compositions);
    hide PairEntries, Addressable, PageNumbers, EncodedTable, Sorted, AllChecked, Checked;
    r := EncodePages(Compositions, PairEntries(compositions));
  }

  // ---------------------------------------------------------------------------------------------
  // From the source maps to the lookups

  /** The class found in the table is that of the map, and zero for all other code points. */
  lemma ClassFound(classes: map<nat, nat>, code: nat, found: nat)
    requires ClassesChecked(classes)
    requires Listing(ClassEntries(classes), Class(code, found)) || (found == 0 && Unlisted(ClassEntries(classes), code))
    ensures found == ClassOf(classes, code)
  {
    ClassEntriesListed(classes);
    hide ClassEntries, ClassesChecked;
  }

  lemma ComposesCollected(entries: seq<Entry>, classes: map<nat, nat>, exclusions: set<nat>, compositions: map<nat, seq<(nat, nat)>>,
                          first: nat, second: nat, composite: nat)
    requires Collected(entries, classes, exclusions, compositions) && Encodable(compositions)
    ensures Composes(PairEntries(compositions), first, second, composite) <==> Primary(entries, classes, exclusions, first, second, composite)
  {
    PairEntriesListed(compositions);
    assert HasPair(PairsOf(compositions, first), second, composite) <==> Primary(entries, classes, exclusions, first, second, composite);
    hide PairEntries, Listing, Encodable, Collected, Primary;
    if first in compositions {
      assert Listing(PairEntries(compositions), Pairs(first, compositions[first]));
    }
  }

  lemma PrimaryUnique(entries: seq<Entry>, classes: map<nat, nat>, exclusions: set<nat>, first: nat, second: nat, a: nat, b: nat)
    requires SinglePairs(entries, classes, exclusions)
    requires Primary(entries, classes, exclusions, first, second, a) && Primary(entries, classes, exclusions, first, second, b)
    ensures a == b
  {
    var x :| Listing(entries, x) && IsPrimary(x, classes, exclusions) && x.mapping == [first, second] && x.code == a;
    var y :| Listing(entries, y) && IsPrimary(y, classes, exclusions) && y.mapping == [first, second] && y.code == b;
    var i :| 0 <= i < |entries| && entries[i] == x;
    var j :| 0 <= j < |entries| && entries[j] == y;
  }

  /** The composite found in the table is the primary composite of the pair; zero is found only without one. */
  lemma CompositeFound(entries: seq<Entry>, classes: map<nat, nat>, exclusions: set<nat>, compositions: map<nat, seq<(nat, nat)>>,
                       first: nat, second: nat, found: nat)
    requires SinglePairs(entries, classes, exclusions)
    requires Collected(entries, classes, exclusions, compositions) && Encodable(compositions)
    requires Composes(PairEntries(compositions), first, second, found) || (found == 0 && NoComposition(PairEntries(compositions), first, second))
    ensures forall composite: nat :: Primary(entries, classes, exclusions, first, second, composite) ==> composite == found
    ensures !Primary(entries, classes, exclusions, first, second, found) ==> found == 0
  {
    forall composite: nat
      ensures Primary(entries, classes, exclusions, first, second, composite) ==> composite == found
    {
      ComposesCollected(entries, classes, exclusions, compositions, first, second, composite);
      ComposesCollected(entries, classes, exclusions, compositions, first, second, found);
      hide Composes, Primary, SinglePairs, PairEntries;
      if Primary(entries, classes, exclusions, first, second, composite) && Primary(entries, classes, exclusions, first, second, found) {
        PrimaryUnique(entries, classes, exclusions, first, second, composite, found);
      }
    }
    ComposesCollected(entries, classes, exclusions, compositions, first, second, found);
  }
}
