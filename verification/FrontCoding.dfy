// Front-coded records of the sorted rules, their token counts, and the bit stream they are written as.
module FrontCoding {
  import opened Alphabet
  import opened Huffman
  import opened RuleOrder

  const BLOCK_SIZE: nat := 32

  // ---------------------------------------------------------------------------------------------
  // Tokens of a text

  predicate Supported(text: string) {
    forall i :: 0 <= i < |text| ==> IsCharacter(text[i])
  }

  function TextTokens(text: string): (r: seq<nat>)
    requires Supported(text)
    ensures |r| == |text|
  {
    if text == [] then [] else [CharacterToken(text[0])] + TextTokens(text[1..])
  }

  // ---------------------------------------------------------------------------------------------
  // Records

  function CommonPrefix(left: string, right: string): nat {
    if left != [] && right != [] && left[0] == right[0] then 1 + CommonPrefix(left[1..], right[1..]) else 0
  }

  lemma {:induction false} CommonPrefixIs(left: string, right: string, n: nat)
    requires n <= |left| && n <= |right| && left[..n] == right[..n]
    requires n == |left| || n == |right| || left[n] != right[n]
    ensures CommonPrefix(left, right) == n
  {
    if n > 0 {
      assert left[0] == left[..n][0] && right[0] == right[..n][0];
      assert left[1..][..n - 1] == left[..n][1..] == right[..n][1..] == right[1..][..n - 1];
      CommonPrefixIs(left[1..], right[1..], n - 1);
    }
  }

  method CommonPrefixLength(left: string, right: string) returns (result: nat)
    ensures result == CommonPrefix(left, right)
    ensures result <= |left| && result <= |right| && left[..result] == right[..result]
    ensures result < |left| && result < |right| ==> left[result] != right[result]
  {
    result := 0;
    while result < (if |left| < |right| then |left| else |right|) && left[result] == right[result]
      invariant result <= |left| && result <= |right| && left[..result] == right[..result]
    {
      result := result + 1;
    }
    CommonPrefixIs(left, right, result);
  }

  /** How many characters of the previous rule a record keeps, and the tokens of the remaining ones. */
  datatype Record = Record(prefixLength: nat, content: seq<nat>)

  predicate Encodable(rules: seq<Rule>) {
    forall i :: 0 <= i < |rules| ==> Supported(rules[i].text) && rules[i].token <= EXCEPTION_TOKEN
  }

  ghost function PrefixOf(rules: seq<Rule>, i: nat): (n: nat)
    requires i < |rules|
  {
    if i % BLOCK_SIZE == 0 then 0 else CommonPrefix(rules[i - 1].text, rules[i].text)
  }

  lemma {:induction false} CommonPrefixShared(left: string, right: string)
    ensures var n := CommonPrefix(left, right); n <= |left| && n <= |right| && left[..n] == right[..n]
  {
    if left != [] && right != [] && left[0] == right[0] {
      CommonPrefixShared(left[1..], right[1..]);
      var n := CommonPrefix(left[1..], right[1..]);
      assert left[..n + 1] == [left[0]] + left[1..][..n];
      assert right[..n + 1] == [right[0]] + right[1..][..n];
    }
  }

  ghost function RecordOf(rules: seq<Rule>, i: nat): Record
    requires i < |rules| && Encodable(rules)
  {
    CommonPrefixShared(if i == 0 then [] else rules[i - 1].text, rules[i].text);
    var n := PrefixOf(rules, i);
    Record(n, TextTokens(rules[i].text[n..]) + [rules[i].token])
  }

  lemma {:induction false} TextTokensAt(text: string, i: nat)
    requires Supported(text) && i < |text|
    ensures TextTokens(text)[i] == CharacterToken(text[i])
  {
    if i > 0 {
      TextTokensAt(text[1..], i - 1);
    }
  }

  lemma {:induction false} CommonPrefixLongest(left: string, right: string)
    ensures var n := CommonPrefix(left, right);
      n <= |left| && n <= |right| && left[..n] == right[..n] && (n < |left| && n < |right| ==> left[n] != right[n])
  {
    CommonPrefixShared(left, right);
    if left != [] && right != [] && left[0] == right[0] {
      CommonPrefixLongest(left[1..], right[1..]);
    }
  }

  /**
   * A record keeps all that its rule shares with the one before, and nothing at the start of a block of
   * 32 rules; the other characters and the terminal token are its content.
   */
  lemma RecordKeepsShared(rules: seq<Rule>, i: nat)
    requires i < |rules| && Encodable(rules)
    ensures var (r, text) := (RecordOf(rules, i), rules[i].text);
      && r.prefixLength <= |text| && |r.content| == |text| - r.prefixLength + 1
      && r.content[|text| - r.prefixLength] == rules[i].token
      && (forall j :: 0 <= j < |text| - r.prefixLength ==> r.content[j] == CharacterToken(text[r.prefixLength + j]))
      && (i % 32 == 0 ==> r.prefixLength == 0)
      && (i % 32 != 0 ==>
            var before := rules[i - 1].text;
            && r.prefixLength <= |before| && before[..r.prefixLength] == text[..r.prefixLength]
            && (r.prefixLength < |before| && r.prefixLength < |text| ==> before[r.prefixLength] != text[r.prefixLength]))
  {
    var (r, text) := (RecordOf(rules, i), rules[i].text);
    if i % BLOCK_SIZE != 0 {
      CommonPrefixLongest(rules[i - 1].text, text);
    }
    hide CommonPrefix, CharacterToken;
    forall j | 0 <= j < |text| - r.prefixLength
      ensures r.content[j] == CharacterToken(text[r.prefixLength + j])
    {
      TextTokensAt(text[r.prefixLength..], j);
    }
  }

  ghost predicate RecordsOf(records: seq<Record>, rules: seq<Rule>)
    requires Encodable(rules)
  {
    |records| <= |rules| && forall i :: 0 <= i < |records| ==> records[i] == RecordOf(rules, i)
  }

  // ---------------------------------------------------------------------------------------------
  // Token counts

  function Bump(f: Frequencies, k: nat): Frequencies {
    f[k := Count(f, k) + 1]
  }

  ghost function CountAll(tokens: seq<nat>): Frequencies {
    if tokens == [] then map[] else Bump(CountAll(tokens[..|tokens| - 1]), tokens[|tokens| - 1])
  }

  lemma CountAllNext(tokens: seq<nat>, k: nat)
    ensures CountAll(tokens + [k]) == Bump(CountAll(tokens), k)
  {
    assert (tokens + [k])[..|tokens|] == tokens;
  }

  lemma {:induction false} CountAllKeys(tokens: seq<nat>, k: nat)
    ensures k in CountAll(tokens) <==> k in tokens
    ensures Count(CountAll(tokens), k) == multiset(tokens)[k]
  {
    if tokens != [] {
      var n := |tokens| - 1;
      CountAllKeys(tokens[..n], k);
      assert tokens == tokens[..n] + [tokens[n]];
    }
  }

  ghost function PrefixTokens(records: seq<Record>): (r: seq<nat>) {
    if records == [] then [] else PrefixTokens(records[..|records| - 1]) + [records[|records| - 1].prefixLength]
  }

  ghost function ContentTokens(records: seq<Record>): seq<nat> {
    if records == [] then [] else ContentTokens(records[..|records| - 1]) + records[|records| - 1].content
  }

  // ---------------------------------------------------------------------------------------------
  // The bit stream

  ghost predicate Spells(t: Node, tokens: seq<nat>) {
    forall i :: 0 <= i < |tokens| ==> tokens[i] in Tokens(t)
  }

  ghost function Spelling(t: Node, tokens: seq<nat>): seq<bool>
    requires Spells(t, tokens)
  {
    if tokens == [] then [] else Path(t, tokens[0]) + Spelling(t, tokens[1..])
  }

  lemma NothingSpelled(t: Node)
    ensures Spells(t, []) && Spelling(t, []) == []
  {}

  ghost predicate Writable(p: Node, c: Node, records: seq<Record>) {
    forall i :: 0 <= i < |records| ==> records[i].prefixLength in Tokens(p) && Spells(c, records[i].content)
  }

  ghost function RecordBits(p: Node, c: Node, r: Record): seq<bool>
    requires r.prefixLength in Tokens(p) && Spells(c, r.content)
  {
    Path(p, r.prefixLength) + Spelling(c, r.content)
  }

  ghost function StreamBits(p: Node, c: Node, records: seq<Record>): seq<bool>
    requires Writable(p, c, records)
  {
    if records == [] then []
    else StreamBits(p, c, records[..|records| - 1]) + RecordBits(p, c, records[|records| - 1])
  }
}
