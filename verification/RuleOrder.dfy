// The order of transformed rules, and sorting by it.
module RuleOrder {

  /** A transformed rule with its terminal token. */
  datatype Rule = Rule(text: string, token: nat)

  /** Strings compare by their first differing character; a proper prefix comes first. */
  predicate TextLess(a: string, b: string) {
    b != [] && (a == [] || a[0] < b[0] || (a[0] == b[0] && TextLess(a[1..], b[1..])))
  }

  predicate AtMost(a: Rule, b: Rule) {
    TextLess(a.text, b.text) || (a.text == b.text && a.token <= b.token)
  }

  lemma {:induction false} TextTrichotomy(a: string, b: string)
    ensures TextLess(a, b) || a == b || TextLess(b, a)
    ensures !(TextLess(a, b) && TextLess(b, a))
    ensures !TextLess(a, a)
  {
    if a != [] && b != [] {
      TextTrichotomy(a[1..], b[1..]);
    }
    if a != [] {
      TextTrichotomy(a[1..], a[1..]);
    }
  }

  lemma {:induction false} TextTransitive(a: string, b: string, c: string)
    requires TextLess(a, b) && TextLess(b, c)
    ensures TextLess(a, c)
  {
    if a != [] && a[0] == b[0] == c[0] {
      TextTransitive(a[1..], b[1..], c[1..]);
    }
  }

  lemma AtMostTotal(a: Rule, b: Rule)
    ensures AtMost(a, b) || AtMost(b, a)
  {
    TextTrichotomy(a.text, b.text);
  }

  lemma AtMostTransitive(a: Rule, b: Rule, c: Rule)
    requires AtMost(a, b) && AtMost(b, c)
    ensures AtMost(a, c)
  {
    if TextLess(a.text, b.text) && TextLess(b.text, c.text) {
      TextTransitive(a.text, b.text, c.text);
    }
  }

  ghost predicate SortedRules(rules: seq<Rule>) {
    forall i, j :: 0 <= i < j < |rules| ==> AtMost(rules[i], rules[j])
  }

  function Insert(e: Rule, rules: seq<Rule>): seq<Rule> {
    if rules == [] || AtMost(e, rules[0]) then [e] + rules else [rules[0]] + Insert(e, rules[1..])
  }

  /** sorted(...) of the program. */
  function Sorted(rules: seq<Rule>): seq<Rule> {
    if rules == [] then [] else Insert(rules[0], Sorted(rules[1..]))
  }

  lemma {:induction false} InsertSorts(e: Rule, rules: seq<Rule>)
    requires SortedRules(rules)
    ensures SortedRules(Insert(e, rules))
    ensures multiset(Insert(e, rules)) == multiset{e} + multiset(rules)
    ensures forall x :: x in Insert(e, rules) <==> x == e || x in rules
  {
    if rules == [] {
    } else if AtMost(e, rules[0]) {
      forall j | 0 <= j < |rules|
        ensures AtMost(e, rules[j])
      {
        if j > 0 {
          AtMostTransitive(e, rules[0], rules[j]);
        }
      }
    } else {
      AtMostTotal(e, rules[0]);
      InsertSorts(e, rules[1..]);
      var rest := Insert(e, rules[1..]);
      assert rules == [rules[0]] + rules[1..];
      forall j | 0 <= j < |rest|
        ensures AtMost(rules[0], rest[j])
      {
        assert rest[j] in rest;
      }
    }
  }

  lemma {:induction false} SortedSorts(rules: seq<Rule>)
    ensures SortedRules(Sorted(rules)) && multiset(Sorted(rules)) == multiset(rules)
  {
    if rules != [] {
      SortedSorts(rules[1..]);
      InsertSorts(rules[0], Sorted(rules[1..]));
      assert rules == [rules[0]] + rules[1..];
    }
  }
}
