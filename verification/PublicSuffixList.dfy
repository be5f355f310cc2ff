// Counting the labels of a host's public suffix with the compressed table.
module PublicSuffixList {
  import opened Wrappers
  import opened Labels
  import opened RuleOrder
  import opened PublicSuffixDecoder
  import opened PublicSuffixRoundTrip
  import opened PublicSuffixEncoder
  import opened PublicSuffixLookup

  const EXACT: nat := 0
  const WILDCARD: nat := 1
  const EXCEPTION: nat := 2

  /** The last n labels of a host, joined again. */
  ghost function Suffix(host: string, n: nat): string
    requires n <= |Split(host)|
  {
    Join(Split(host)[|Split(host)| - n..])
  }

  /** The rule for the last n labels, in the reversed spelling of the table. */
  ghost predicate Matches(d: EncodedData, host: string, n: nat, token: nat) {
    1 <= n <= |Split(host)| && Rule(ReverseLabels(Suffix(host, n)), token) in d.rules
  }

  /** The rules that match a host, by number of labels and terminal token. */
  ghost function Matching(d: EncodedData, host: string): (nat, nat) -> bool {
    (n: nat, token: nat) => Matches(d, host, n, token)
  }

  /** The best count among the rules for at most k labels, when none of them is an exception. */
  ghost predicate Prevails(matching: (nat, nat) -> bool, labels: nat, k: nat, count: nat) {
    && count >= 1
    && (forall n: nat :: n <= k ==> !matching(n, EXCEPTION))
    && (forall n: nat :: n <= k && matching(n, EXACT) ==> n <= count)
    && (forall n: nat :: n <= k && n < labels && matching(n, WILDCARD) ==> n + 1 <= count)
    && (|| count == 1
        || (count <= k && matching(count, EXACT))
        || (count - 1 <= k && count <= labels && matching(count - 1, WILDCARD)))
  }

  /** The count that the public suffix algorithm assigns to a host. */
  ghost predicate IsSuffixCount(matching: (nat, nat) -> bool, labels: nat, count: nat) {
    if exists n: nat :: matching(n, EXCEPTION) then
      exists n: nat ::
        && matching(n, EXCEPTION) && (forall m: nat :: m < n ==> !matching(m, EXCEPTION))
        && count == if n > 1 then n - 1 else 1
    else Prevails(matching, labels, labels, count)
  }

  lemma PrevailsFirst(matching: (nat, nat) -> bool, labels: nat)
    requires forall token: nat :: !matching(0, token)
    ensures Prevails(matching, labels, 0, 1)
  {}

  lemma PrevailsNext(matching: (nat, nat) -> bool, labels: nat, k: nat, count: nat, kind: Option<nat>)
    requires Prevails(matching, labels, k, count) && k < labels
    requires forall token: nat :: matching(k + 1, token) <==> kind == Some(token)
    ensures kind == Some(EXCEPTION) ==> IsSuffixCount(matching, labels, if k + 1 > 1 then k else 1)
    ensures kind == Some(EXACT) ==> Prevails(matching, labels, k + 1, if count < k + 1 then k + 1 else count)
    ensures kind == Some(WILDCARD) && k + 1 < labels ==> Prevails(matching, labels, k + 1, if count < k + 2 then k + 2 else count)
    ensures kind == Some(WILDCARD) && k + 1 == labels ==> Prevails(matching, labels, k + 1, count)
    ensures (kind == None || kind.value > EXCEPTION) ==> Prevails(matching, labels, k + 1, count)
  {
    assert matching(k + 1, EXCEPTION) == (kind == Some(EXCEPTION));
    assert matching(k + 1, WILDCARD) == (kind == Some(WILDCARD));
    assert matching(k + 1, EXACT) == (kind == Some(EXACT));
  }

  lemma PrevailsBeyond(matching: (nat, nat) -> bool, labels: nat, k: nat, count: nat)
    requires Prevails(matching, labels, k, count) && k <= labels
    requires forall n: nat, token: nat :: n > k ==> !matching(n, token)
    ensures IsSuffixCount(matching, labels, count)
  {}

  // ---------------------------------------------------------------------------------------------
  // Keys

  /** The reversed-label key of the last n labels. */
  ghost function Key(labels: seq<string>, n: nat): string
    requires n <= |labels|
  {
    Join(Reverse(labels[|labels| - n..]))
  }

  lemma KeyNext(labels: seq<string>, n: nat)
    requires n < |labels|
    ensures Key(labels, n + 1) == if n == 0 then labels[|labels| - 1] else Key(labels, n) + ['.'] + labels[|labels| - n - 1]
  {
    var (k, last) := (|labels| - n, labels[|labels| - n - 1]);
    assert labels[k - 1..] == [last] + labels[k..];
    assert Reverse(labels[k - 1..]) == Reverse(labels[k..]) + [last];
    if n > 0 {
      JoinAppend(Reverse(labels[k..]), last);
    }
  }

  lemma KeyIsReversedSuffix(host: string, n: nat)
    requires 1 <= n <= |Split(host)|
    ensures Key(Split(host), n) == ReverseLabels(Suffix(host, n))
    ensures |Split(Key(Split(host), n))| == n
  {
    hide Split, Join, Reverse;
    var labels := Split(host);
    JoinSplit(host);
    var tail := labels[|labels| - n..];
    DotFreeReverse(tail);
    SplitJoin(tail);
    SplitJoin(Reverse(tail));
  }

  lemma DotFreeReverse(labels: seq<string>)
    requires DotFree(labels)
    ensures DotFree(Reverse(labels))
  {
    hide Reverse;
  }

  /** Keys grow with every label. */
  lemma {:induction false} KeysGrow(labels: seq<string>, m: nat, n: nat)
    requires 1 <= m <= n <= |labels|
    ensures |Key(labels, m)| <= |Key(labels, n)|
    decreases n
  {
    hide *;
    if m < n {
      KeysGrow(labels, m, n - 1);
      KeyNext(labels, n - 1);
    }
  }

  // ---------------------------------------------------------------------------------------------
  // The count

  lemma UniqueToken(d: EncodedData, key: string, token: nat, other: nat)
    requires Usable(d) && Rule(key, token) in d.rules && Rule(key, other) in d.rules
    ensures token == other
  {
    EncodedParts(d, d.rules);
    hide Usable, EncodedFrom, Encodes, AllRecords, PrefixCounts, ContentCounts;
    var i :| 0 <= i < |d.rules| && d.rules[i] == Rule(key, token);
    var j :| 0 <= j < |d.rules| && d.rules[j] == Rule(key, other);
  }

  /** The answer of the search is the one matching token, or none. */
  lemma FoundMatches(d: EncodedData, host: string, n: nat, kind: Option<nat>)
    requires Usable(d) && 1 <= n <= |Split(host)|
    requires kind.Some? ==> Rule(Key(Split(host), n), kind.value) in d.rules
    requires kind.None? ==> Absent(d, Key(Split(host), n))
    ensures forall token: nat :: Matching(d, host)(n, token) <==> kind == Some(token)
  {
    hide Usable, Key, Suffix, ReverseLabels;
    KeyIsReversedSuffix(host, n);
    forall token: nat
      ensures Matching(d, host)(n, token) <==> kind == Some(token)
    {
      if kind.Some? && Matches(d, host, n, token) {
        UniqueToken(d, Key(Split(host), n), kind.value, token);
      }
    }
  }

  /** A key that is longer, or has more labels, than every rule matches none. */
  lemma TooLongToMatch(d: EncodedData, host: string, n: nat, token: nat)
    requires Usable(d) && Matches(d, host, n, token)
    ensures |Key(Split(host), n)| <= d.maximumRuleLength && n <= d.maximumRuleLabelCount
  {
    EncodedParts(d, d.rules);
    hide Usable, EncodedFrom, Encodes, AllRecords, PrefixCounts, ContentCounts, Key;
    KeyIsReversedSuffix(host, n);
  }

  lemma NoneBeyondLength(d: EncodedData, host: string, k: nat)
    requires Usable(d) && k < |Split(host)| && |Key(Split(host), k + 1)| > d.maximumRuleLength
    ensures forall n: nat, token: nat :: n > k ==> !Matching(d, host)(n, token)
  {
    hide Usable, Key;
    forall n: nat, token: nat | n > k
      ensures !Matching(d, host)(n, token)
    {
      if Matches(d, host, n, token) {
        TooLongToMatch(d, host, n, token);
        KeysGrow(Split(host), k + 1, n);
      }
    }
  }

  lemma NoneBeyondCount(d: EncodedData, host: string, k: nat)
    requires Usable(d) && (k == |Split(host)| || k == d.maximumRuleLabelCount)
    ensures forall n: nat, token: nat :: n > k ==> !Matching(d, host)(n, token)
  {
    hide Usable, Key;
    forall n: nat, token: nat | n > k
      ensures !Matching(d, host)(n, token)
    {
      if Matches(d, host, n, token) {
        TooLongToMatch(d, host, n, token);
      }
    }
  }

  lemma NoneBelow(d: EncodedData, host: string)
    ensures forall token: nat :: !Matching(d, host)(0, token)
  {}

  /** All but the last k labels are still to be read. */
  ghost predicate Remaining(host: string, end: nat, k: nat) {
    end <= |host| && k < |Split(host)| && Split(host)[..|Split(host)| - k] == Split(host[..end])
  }

  lemma RemainingFirst(host: string)
    ensures Remaining(host, |host|, 0)
  {
    assert host[..|host|] == host;
    assert Split(host)[..|Split(host)|] == Split(host);
  }

  /** The label found by scanning back to a dot is the next one. */
  lemma RemainingNext(host: string, end: nat, k: nat, start: nat)
    requires Remaining(host, end, k) && start <= end && '.' !in host[start..end]
    requires start > 0 ==> host[start - 1] == '.'
    ensures host[start..end] == Split(host)[|Split(host)| - k - 1]
    ensures start == 0 ==> k + 1 == |Split(host)|
    ensures start > 0 ==> Remaining(host, start - 1, k + 1)
  {
    hide *;
    RemainingSize(host, end, k);
    var n := |Split(host)| - k;
    if start > 0 {
      InnerLabel(host, end, start);
      LastOfPrefix(Split(host), n, Split(host[..start - 1]), host[start..end]);
      RemainingIs(host, start - 1, k + 1);
    } else {
      FirstLabel(host, end);
      LastOfPrefix(Split(host), n, [], host[..end]);
    }
  }

  lemma InnerLabel(host: string, end: nat, start: nat)
    requires 0 < start <= end <= |host| && '.' !in host[start..end] && host[start - 1] == '.'
    ensures Split(host[..end]) == Split(host[..start - 1]) + [host[start..end]]
  {
    hide *;
    var s := host[..end];
    assert s[start..] == host[start..end];
    SplitLast(s, start);
    assert s[..start - 1] == host[..start - 1];
  }

  lemma FirstLabel(host: string, end: nat)
    requires end <= |host| && '.' !in host[0..end]
    ensures host[0..end] == host[..end] && Split(host[..end]) == [] + [host[..end]]
  {
    SplitWhole(host[..end]);
  }

  lemma LastOfPrefix(labels: seq<string>, n: nat, front: seq<string>, last: string)
    requires 0 < n <= |labels| && labels[..n] == front + [last]
    ensures labels[n - 1] == last && labels[..n - 1] == front && n == |front| + 1
  {
    assert labels[..n][n - 1] == labels[n - 1];
    assert labels[..n - 1] == labels[..n][..n - 1];
  }

  lemma RemainingIs(host: string, end: nat, k: nat)
    requires end <= |host| && k < |Split(host)| && Split(host)[..|Split(host)| - k] == Split(host[..end])
    ensures Remaining(host, end, k)
  {}

  method LabelStart(host: string, end: nat) returns (start: nat)
    requires end <= |host|
    ensures start <= end && '.' !in host[start..end]
    ensures start > 0 ==> host[start - 1] == '.'
  {
    start := end;
    while start > 0 && host[start - 1] != '.'
      invariant start <= end && '.' !in host[start..end]
    {
      assert host[start - 1..end] == [host[start - 1]] + host[start..end];
      start := start - 1;
    }
  }

  /** The key is made of the last labels of a host; no label is empty at its end. */
  ghost predicate KeyIs(host: string, k: nat, key: string) {
    k <= |Split(host)| && key == Key(Split(host), k) && (key == [] <==> k == 0)
  }

  lemma KeyFirst(host: string)
    ensures KeyIs(host, 0, [])
  {
    var labels := Split(host);
    assert labels[|labels|..] == [];
  }

  /** One more label behind those already in the key, with a separator before it. */
  function LongerKey(key: string, nextLabel: string): string {
    (if |key| == 0 then key else key + ['.']) + nextLabel
  }

  lemma KeyState(host: string, k: nat, key: string, next: string)
    requires host != [] && host[|host| - 1] != '.' && KeyIs(host, k, key)
    requires k < |Split(host)| && next == Split(host)[|Split(host)| - k - 1]
    ensures var longer := LongerKey(key, next);
      longer == Key(Split(host), k + 1) && KeyIs(host, k + 1, longer)
      && |longer| == |key| + (if |key| == 0 then 0 else 1) + |next|
  {
    KeyNext(Split(host), k);
    KeyNotEmpty(host, k + 1);
  }

  lemma KeyNotEmpty(host: string, n: nat)
    requires host != [] && host[|host| - 1] != '.' && 1 <= n <= |Split(host)|
    ensures |Key(Split(host), n)| > 0
  {
    var labels := Split(host);
    KeysGrow(labels, 1, n);
    KeyNext(labels, 0);
    LastLabel(host);
  }

  lemma {:induction false} LastLabel(host: string)
    requires host != [] && host[|host| - 1] != '.'
    ensures Split(host)[|Split(host)| - 1] != []
  {
    if |host| > 1 {
      LastLabel(host[1..]);
    }
  }

  /** The number of labels of a host's public suffix. */
  method PublicSuffixLabelCount(d: EncodedData, host: string) returns (r: nat)
    requires EncodedFrom(d, d.rules) && SortedRules(d.rules)
    ensures host == [] || host[|host| - 1] == '.' || d.maximumRuleLength >= 256 ==> r == 0
    ensures host != [] && host[|host| - 1] != '.' && d.maximumRuleLength < 256 ==>
              IsSuffixCount(Matching(d, host), |Split(host)|, r)
  {
    hide *;
    BufferSize();
    if host == [] || host[|host| - 1] == '.' {
      return 0;
    }
    if d.maximumRuleLength >= RULE_BUFFER_SIZE {
      return 0;
    }
    UsableIs(d);
    ghost var labels := Split(host);
    ghost var matching := Matching(d, host);
    var key: string := [];
    var end: nat := |host|;
    var matchedLabels: nat := 1;
    RemainingFirst(host);
    KeyFirst(host);
    NoneBelow(d, host);
    PrevailsFirst(matching, |labels|);
    for labelCount := 1 to d.maximumRuleLabelCount + 1
      invariant Remaining(host, end, labelCount - 1) && end <= |host| && labelCount - 1 < |labels|
      invariant KeyIs(host, labelCount - 1, key)
      invariant Prevails(matching, |labels|, labelCount - 1, matchedLabels)
    {
      var start := LabelStart(host, end);
      RemainingNext(host, end, labelCount - 1, start);
      KeyState(host, labelCount - 1, key, host[start..end]);
      var labelLength := end - start;
      var separatorLength := if |key| == 0 then 0 else 1;
      if |key| + separatorLength + labelLength > d.maximumRuleLength {
        NoneBeyondLength(d, host, labelCount - 1);
        PrevailsBeyond(matching, |labels|, labelCount - 1, matchedLabels);
        return matchedLabels;
      }
      key := LongerKey(key, host[start..end]);
      var ruleType := FindRule(d, key);
      FoundMatches(d, host, labelCount, ruleType);
      PrevailsNext(matching, |labels|, labelCount - 1, matchedLabels, ruleType);
      TokenNumbers();
      if ruleType == Some(EXCEPTION) {
        return if labelCount > 1 then labelCount - 1 else 1;
      }
      if ruleType == Some(EXACT) && matchedLabels < labelCount {
        matchedLabels := labelCount;
      }
      if ruleType == Some(WILDCARD) && start > 0 && matchedLabels < labelCount + 1 {
        matchedLabels := labelCount + 1;
      }
      if start == 0 {
        NoneBeyondCount(d, host, labelCount);
        PrevailsBeyond(matching, |labels|, labelCount, matchedLabels);
        return matchedLabels;
      }
      RemainingSize(host, start - 1, labelCount);
      end := start - 1;
    }
    NoneBeyondCount(d, host, d.maximumRuleLabelCount);
    PrevailsBeyond(matching, |labels|, d.maximumRuleLabelCount, matchedLabels);
    return matchedLabels;
  }

  lemma BufferSize()
    ensures RULE_BUFFER_SIZE == 256
  {}

  lemma TokenNumbers()
    ensures EXACT == 0 && WILDCARD == 1 && EXCEPTION == 2
  {}

  lemma RemainingSize(host: string, end: nat, k: nat)
    requires Remaining(host, end, k)
    ensures k < |Split(host)| && end <= |host|
    ensures Split(host)[..|Split(host)| - k] == Split(host[..end])
  {}

  lemma UsableIs(d: EncodedData)
    requires EncodedFrom(d, d.rules) && SortedRules(d.rules) && d.maximumRuleLength < RULE_BUFFER_SIZE
    ensures Usable(d)
  {
    hide EncodedFrom, SortedRules;
  }

  // ---------------------------------------------------------------------------------------------
  // Back to the rules as they were written

  lemma InSorted(rules: seq<Rule>, r: Rule)
    ensures r in Sorted(rules) <==> r in rules
  {
    SortedSorts(rules);
    hide Sorted;
    assert r in rules <==> r in multiset(rules);
    assert r in Sorted(rules) <==> r in multiset(Sorted(rules));
  }

  lemma InTyped(texts: seq<string>, token: nat, text: string, other: nat)
    ensures Rule(ReverseLabels(text), other) in Typed(texts, token) <==> text in texts && other == token
  {
    var r := Rule(ReverseLabels(text), other);
    if r in Typed(texts, token) {
      var i :| 0 <= i < |texts| && Typed(texts, token)[i] == r;
      ReverseLabelsInjective(texts[i], text);
    }
    if text in texts && other == token {
      var i :| 0 <= i < |texts| && texts[i] == text;
      assert Typed(texts, token)[i] == r;
    }
  }

  lemma InTransformed(exact: seq<string>, wildcard: seq<string>, exception: seq<string>, text: string, token: nat)
    ensures Rule(ReverseLabels(text), token) in Transformed(exact, wildcard, exception) <==>
              || (token == EXACT && text in exact)
              || (token == WILDCARD && text in wildcard)
              || (token == EXCEPTION && text in exception)
  {
    hide Sorted, Typed, ReverseLabels;
    InSorted(Typed(exact, 0) + Typed(wildcard, 1) + Typed(exception, 2), Rule(ReverseLabels(text), token));
    InTyped(exact, 0, text, token);
    InTyped(wildcard, 1, text, token);
    InTyped(exception, 2, text, token);
  }

  /** The table of three rule families matches exactly the suffixes that these families list. */
  lemma MatchesAsWritten(
      d: EncodedData, exact: seq<string>, wildcard: seq<string>, exception: seq<string>, host: string, n: nat)
    requires EncodedFrom(d, Transformed(exact, wildcard, exception)) && 1 <= n <= |Split(host)|
    ensures Matches(d, host, n, EXACT) <==> Suffix(host, n) in exact
    ensures Matches(d, host, n, WILDCARD) <==> Suffix(host, n) in wildcard
    ensures Matches(d, host, n, EXCEPTION) <==> Suffix(host, n) in exception
  {
    hide EncodedFrom, Suffix, ReverseLabels, Transformed, Split;
    EncodedParts(d, Transformed(exact, wildcard, exception));
    InTransformed(exact, wildcard, exception, Suffix(host, n), EXACT);
    InTransformed(exact, wildcard, exception, Suffix(host, n), WILDCARD);
    InTransformed(exact, wildcard, exception, Suffix(host, n), EXCEPTION);
  }

  /** The encoder sorts its rules, so its tables can be searched. */
  lemma EncodedIsSorted(d: EncodedData, exact: seq<string>, wildcard: seq<string>, exception: seq<string>)
    requires EncodedFrom(d, Transformed(exact, wildcard, exception))
    ensures EncodedFrom(d, d.rules) && SortedRules(d.rules)
  {
    EncodedParts(d, Transformed(exact, wildcard, exception));
    hide EncodedFrom, Encodes, Sorted;
    SortedSorts(Typed(exact, 0) + Typed(wildcard, 1) + Typed(exception, 2));
  }

  /** The rules that match a host as the three families are written. */
  ghost function Written(exact: seq<string>, wildcard: seq<string>, exception: seq<string>, host: string): (nat, nat) -> bool {
    (n: nat, token: nat) =>
      1 <= n <= |Split(host)| && (|| (token == 0 && Suffix(host, n) in exact)
                                  || (token == 1 && Suffix(host, n) in wildcard)
                                  || (token == 2 && Suffix(host, n) in exception))
  }

  lemma WrittenIsMatching(
      d: EncodedData, exact: seq<string>, wildcard: seq<string>, exception: seq<string>, host: string, n: nat, token: nat)
    requires EncodedFrom(d, Transformed(exact, wildcard, exception))
    ensures Matching(d, host)(n, token) == Written(exact, wildcard, exception, host)(n, token)
  {
    EncodedParts(d, Transformed(exact, wildcard, exception));
    hide EncodedFrom, Suffix, ReverseLabels, Transformed, Split, Encodes;
    if 1 <= n <= |Split(host)| {
      InTransformed(exact, wildcard, exception, Suffix(host, n), token);
    }
  }

  lemma CountCarriesOver(matching: (nat, nat) -> bool, written: (nat, nat) -> bool, labels: nat, count: nat)
    requires IsSuffixCount(matching, labels, count) && forall n: nat, token: nat :: matching(n, token) == written(n, token)
    ensures IsSuffixCount(written, labels, count)
  {}

  /** The longest rule of a table is one of its rules, so rules that fit the buffer make a table that does. */
  lemma ShortRules(d: EncodedData, rules: seq<Rule>)
    requires EncodedFrom(d, rules) && forall r :: r in rules ==> |r.text| <= 255
    ensures d.maximumRuleLength < 256
  {
    EncodedParts(d, rules);
    hide EncodedFrom, Encodes;
  }

  lemma {:induction false} JoinLength(labels: seq<string>)
    requires labels != []
    ensures |Join(labels)| == |labels| - 1 + TotalLength(labels)
  {
    if |labels| > 1 {
      JoinLength(labels[1..]);
    }
  }

  function TotalLength(labels: seq<string>): nat {
    if labels == [] then 0 else |labels[0]| + TotalLength(labels[1..])
  }

  lemma {:induction false} TotalOfAppend(labels: seq<string>, last: string)
    ensures TotalLength(labels + [last]) == TotalLength(labels) + |last|
  {
    if labels == [] {
      assert labels + [last] == [last];
    } else {
      assert (labels + [last])[1..] == labels[1..] + [last];
      TotalOfAppend(labels[1..], last);
    }
  }

  lemma {:induction false} TotalOfReverse(labels: seq<string>)
    ensures TotalLength(Reverse(labels)) == TotalLength(labels)
  {
    if labels != [] {
      TotalOfReverse(labels[1..]);
      TotalOfAppend(Reverse(labels[1..]), labels[0]);
    }
  }

  lemma ReverseLabelsLength(rule: string)
    ensures |ReverseLabels(rule)| == |rule|
  {
    hide *;
    JoinSplit(rule);
    JoinLength(Split(rule));
    ReverseIsJoin(rule);
    JoinLength(Reverse(Split(rule)));
    TotalOfReverse(Split(rule));
  }

  lemma ReverseIsJoin(rule: string)
    ensures ReverseLabels(rule) == Join(Reverse(Split(rule)))
    ensures |Reverse(Split(rule))| == |Split(rule)|
  {}

  ghost predicate AllShort(texts: seq<string>) {
    forall i :: 0 <= i < |texts| ==> |texts[i]| <= 255
  }

  lemma TypedShort(texts: seq<string>, token: nat)
    requires AllShort(texts)
    ensures forall r :: r in Typed(texts, token) ==> |r.text| <= 255
  {
    hide ReverseLabels;
    forall r | r in Typed(texts, token)
      ensures |r.text| <= 255
    {
      var i :| 0 <= i < |texts| && Typed(texts, token)[i] == r;
      ReverseLabelsLength(texts[i]);
    }
  }

  lemma TransformedShort(exact: seq<string>, wildcard: seq<string>, exception: seq<string>)
    requires AllShort(exact) && AllShort(wildcard) && AllShort(exception)
    ensures forall r :: r in Transformed(exact, wildcard, exception) ==> |r.text| <= 255
  {
    TypedShort(exact, 0);
    TypedShort(wildcard, 1);
    TypedShort(exception, 2);
    SortedMembers(Typed(exact, 0) + Typed(wildcard, 1) + Typed(exception, 2));
    hide Sorted, Typed;
  }

  /**
   * From the rule families through the generator to the answer of the library: the count of the public
   * suffix algorithm by the rules as they are written, provided that no rule has more than 255 characters.
   */
  method CountByRules(exact: seq<string>, wildcard: seq<string>, exception: seq<string>, host: string)
    returns (r: Result<nat, EncodeError>)
    requires AllShort(exact) && AllShort(wildcard) && AllShort(exception)
    ensures r.Success? <==> Accepted(Transformed(exact, wildcard, exception))
    ensures r.Success? && host != [] && host[|host| - 1] != '.' ==>
              IsSuffixCount(Written(exact, wildcard, exception, host), |Split(host)|, r.value)
    ensures r.Success? && (host == [] || host[|host| - 1] == '.') ==> r.value == 0
  {
    hide *;
    var table := Encode(exact, wildcard, exception);
    if table.Failure? {
      return Failure(table.error);
    }
    var d := table.value;
    EncodedIsSorted(d, exact, wildcard, exception);
    TransformedShort(exact, wildcard, exception);
    ShortRules(d, Transformed(exact, wildcard, exception));
    var count := PublicSuffixLabelCount(d, host);
    if host != [] && host[|host| - 1] != '.' {
      forall n: nat, token: nat
        ensures Matching(d, host)(n, token) == Written(exact, wildcard, exception, host)(n, token)
      {
        WrittenIsMatching(d, exact, wildcard, exception, host, n, token);
      }
      CountCarriesOver(Matching(d, host), Written(exact, wildcard, exception, host), |Split(host)|, count);
    }
    return Success(count);
  }
}
