// Encoding all rule families into the compressed table.
module PublicSuffixEncoder {
  import opened Wrappers
  import opened Alphabet
  import opened BitStream
  import opened Huffman
  import opened HuffmanOptimality
  import opened HuffmanCodes
  import opened Flattening
  import opened Labels
  import opened RuleOrder
  import opened FrontCoding
  import opened StreamSize
  import opened PublicSuffixDecoder
  import opened PublicSuffixRoundTrip

  // ---------------------------------------------------------------------------------------------
  // Transformed rules

  function Typed(texts: seq<string>, token: nat): (r: seq<Rule>)
    ensures |r| == |texts|
    ensures forall i :: 0 <= i < |r| ==> r[i] == Rule(ReverseLabels(texts[i]), token)
  {
    seq(|texts|, i requires 0 <= i < |texts| => Rule(ReverseLabels(texts[i]), token))
  }

  function Transformed(exact: seq<string>, wildcard: seq<string>, exception: seq<string>): seq<Rule> {
    Sorted(Typed(exact, 0) + Typed(wildcard, 1) + Typed(exception, 2))
  }

  ghost predicate NoOverlap(rules: seq<Rule>) {
    forall i, j :: 0 <= i < j < |rules| ==> rules[i].text != rules[j].text
  }

  function Texts(rules: seq<Rule>): set<string> {
    set r | r in rules :: r.text
  }

  lemma TextsNext(rules: seq<Rule>, r: Rule)
    ensures Texts(rules + [r]) == Texts(rules) + {r.text}
  {
    assert forall x :: x in rules + [r] <==> x in rules || x == r;
  }

  lemma {:induction false} TextsCount(rules: seq<Rule>)
    ensures |Texts(rules)| <= |rules|
    ensures |Texts(rules)| == |rules| <==> NoOverlap(rules)
  {
    if rules == [] {
      assert Texts(rules) == {};
    } else {
      var n := |rules| - 1;
      var (front, last) := (rules[..n], rules[n]);
      assert rules == front + [last];
      TextsCount(front);
      TextsNext(front, last);
      InTexts(front, last.text);
    }
  }

  lemma InTexts(rules: seq<Rule>, text: string)
    ensures text in Texts(rules) <==> exists i :: 0 <= i < |rules| && rules[i].text == text
  {
    if i :| 0 <= i < |rules| && rules[i].text == text {
      assert rules[i] in rules;
    }
  }

  // ---------------------------------------------------------------------------------------------
  // What the encoder accepts

  ghost function AllRecords(rules: seq<Rule>): (r: seq<Record>)
    requires Encodable(rules)
    ensures |r| == |rules| && RecordsOf(r, rules)
  {
    seq(|rules|, i requires 0 <= i < |rules| => RecordOf(rules, i))
  }

  lemma RecordsUnique(records: seq<Record>, rules: seq<Rule>)
    requires Encodable(rules) && RecordsOf(records, rules) && |records| == |rules|
    ensures records == AllRecords(rules)
  {}

  ghost function PrefixCounts(rules: seq<Rule>): Frequencies
    requires Encodable(rules)
  {
    CountAll(PrefixTokens(AllRecords(rules)))
  }

  ghost function ContentCounts(rules: seq<Rule>): Frequencies
    requires Encodable(rules)
  {
    CountAll(ContentTokens(AllRecords(rules)))
  }

  lemma HuffmanTreesWrite(rules: seq<Rule>)
    requires Encodable(rules) && |PrefixCounts(rules)| >= 2 && |ContentCounts(rules)| >= 2
    ensures Writable(HuffmanTree(PrefixCounts(rules)), HuffmanTree(ContentCounts(rules)), AllRecords(rules))
  {
    HuffmanTreeOver(PrefixCounts(rules));
    HuffmanTreeOver(ContentCounts(rules));
    hide HuffmanTree, AllRecords;
    TreesWrite(HuffmanTree(PrefixCounts(rules)), HuffmanTree(ContentCounts(rules)), AllRecords(rules));
  }

  ghost predicate TreesFit(rules: seq<Rule>)
    requires Encodable(rules)
  {
    && |PrefixCounts(rules)| >= 2 && |ContentCounts(rules)| >= 2
    && Flattenable(HuffmanTree(PrefixCounts(rules))) && Flattenable(HuffmanTree(ContentCounts(rules)))
  }

  ghost function Stream(rules: seq<Rule>): seq<bool>
    requires Encodable(rules) && TreesFit(rules)
  {
    HuffmanTreesWrite(rules);
    StreamBits(HuffmanTree(PrefixCounts(rules)), HuffmanTree(ContentCounts(rules)), AllRecords(rules))
  }

  const MAXIMUM_BIT_OFFSET: nat := 0xFFFF_FFFF

  /** The inputs that pass every check of the encoder. */
  ghost predicate Accepted(rules: seq<Rule>) {
    NoOverlap(rules) && Encodable(rules) && TreesFit(rules) && |Stream(rules)| <= 0xFFFF_FFFF
  }

  /** The two maxima of a table bound its rules, and each is that of some rule. */
  ghost predicate HasMaxima(d: EncodedData, rules: seq<Rule>) {
    && (forall r :: r in rules ==> |r.text| <= d.maximumRuleLength && |Split(r.text)| <= d.maximumRuleLabelCount)
    && (exists r :: r in rules && |r.text| == d.maximumRuleLength)
    && (exists r :: r in rules && |Split(r.text)| == d.maximumRuleLabelCount)
  }

  /** The branch tables have two entries for every branch and no more. */
  ghost predicate HasTables(d: EncodedData, p: Node, c: Node) {
    |d.prefixTree| == 2 * Branches(p) && |d.contentTree| == 2 * Branches(c)
  }

  /** What the encoder promises about its result. */
  ghost predicate EncodedFrom(d: EncodedData, rules: seq<Rule>) {
    && Accepted(rules) && d.rules == rules
    && Encodes(d, HuffmanTree(PrefixCounts(rules)), HuffmanTree(ContentCounts(rules)), AllRecords(rules))
    && Holds(d.encodedRules, |Stream(rules)|)
    && HasMaxima(d, rules) && HasTables(d, HuffmanTree(PrefixCounts(rules)), HuffmanTree(ContentCounts(rules)))
  }

  // ---------------------------------------------------------------------------------------------
  // Building and writing the records

  method CountContent(content: seq<nat>, frequencies: Frequencies, ghost before: seq<nat>) returns (r: Frequencies)
    requires frequencies == CountAll(before)
    ensures r == CountAll(before + content)
  {
    r := frequencies;
    assert before + content[..0] == before;
    for j := 0 to |content|
      invariant r == CountAll(before + content[..j])
    {
      CountAllNext(before + content[..j], content[j]);
      assert before + content[..j] + [content[j]] == before + content[..j + 1];
      r := Bump(r, content[j]);
    }
    assert content[..|content|] == content;
  }

  lemma RecordTokensNext(records: seq<Record>, r: Record)
    ensures PrefixTokens(records + [r]) == PrefixTokens(records) + [r.prefixLength]
    ensures ContentTokens(records + [r]) == ContentTokens(records) + r.content
  {
    assert (records + [r])[..|records|] == records;
  }

  /** The state of the loop below after i rules. */
  ghost predicate Building(
      rules: seq<Rule>, i: nat, previous: string, records: seq<Record>, prefixes: Frequencies, contents: Frequencies)
    requires Encodable(rules)
  {
    && i <= |rules| && |records| == i && RecordsOf(records, rules)
    && previous == (if i == 0 then [] else rules[i - 1].text)
    && prefixes == CountAll(PrefixTokens(records)) && contents == CountAll(ContentTokens(records))
  }

  lemma BuildingFirst(rules: seq<Rule>)
    requires Encodable(rules)
    ensures Building(rules, 0, [], [], map[], map[])
  {}

  lemma BuildingRecord(rules: seq<Rule>, i: nat, previous: string, prefixLength: nat)
    requires Encodable(rules) && i < |rules| && previous == (if i == 0 then [] else rules[i - 1].text)
    requires prefixLength == if i % BLOCK_SIZE == 0 then 0 else CommonPrefix(previous, rules[i].text)
    ensures prefixLength <= |rules[i].text| && Supported(rules[i].text[prefixLength..])
    ensures RecordOf(rules, i) == Record(prefixLength, TextTokens(rules[i].text[prefixLength..]) + [rules[i].token])
  {
    CommonPrefixShared(previous, rules[i].text);
  }

  lemma BuildingNext(rules: seq<Rule>, i: nat, previous: string, records: seq<Record>,
                     prefixes: Frequencies, contents: Frequencies, contents': Frequencies)
    requires Encodable(rules) && i < |rules| && Building(rules, i, previous, records, prefixes, contents)
    requires contents' == CountAll(ContentTokens(records) + RecordOf(rules, i).content)
    ensures Building(rules, i + 1, rules[i].text, records + [RecordOf(rules, i)],
                     Bump(prefixes, RecordOf(rules, i).prefixLength), contents')
  {
    hide RecordOf, CountAll, PrefixTokens, ContentTokens, Bump;
    RecordTokensNext(records, RecordOf(rules, i));
    CountAllNext(PrefixTokens(records), RecordOf(rules, i).prefixLength);
  }

  lemma BuildingState(rules: seq<Rule>, i: nat, previous: string, records: seq<Record>,
                      prefixes: Frequencies, contents: Frequencies)
    requires Encodable(rules) && Building(rules, i, previous, records, prefixes, contents)
    ensures BLOCK_SIZE == 32
    ensures i <= |rules| && previous == (if i == 0 then [] else rules[i - 1].text)
    ensures contents == CountAll(ContentTokens(records))
    ensures i == |rules| ==> records == AllRecords(rules) && prefixes == PrefixCounts(rules) && contents == ContentCounts(rules)
  {
    if i == |rules| {
      hide CountAll, PrefixTokens, ContentTokens;
      RecordsUnique(records, rules);
    }
  }

  method BuildRecords(rules: seq<Rule>)
    returns (records: seq<Record>, prefixes: Frequencies, contents: Frequencies)
    requires Encodable(rules)
    ensures records == AllRecords(rules)
    ensures prefixes == PrefixCounts(rules) && contents == ContentCounts(rules)
  {
    hide *;
    records, prefixes, contents := [], map[], map[];
    var previous: string := [];
    BuildingFirst(rules);
    for i := 0 to |rules|
      invariant Building(rules, i, previous, records, prefixes, contents)
    {
      BuildingState(rules, i, previous, records, prefixes, contents);
      var rule := rules[i];
      var prefixLength := 0;
      if i % BLOCK_SIZE != 0 {
        prefixLength := CommonPrefixLength(previous, rule.text);
      }
      BuildingRecord(rules, i, previous, prefixLength);
      var record := Record(prefixLength, TextTokens(rule.text[prefixLength..]) + [rule.token]);
      var contents' := CountContent(record.content, contents, ContentTokens(records));
      BuildingNext(rules, i, previous, records, prefixes, contents, contents');
      prefixes := Bump(prefixes, prefixLength);
      contents := contents';
      records := records + [record];
      previous := rule.text;
    }
    BuildingState(rules, |rules|, previous, records, prefixes, contents);
  }

  /** Write the codes of a text. */
  method WriteTokens(writer: BitWriter, tokens: seq<nat>, codes: CodeTable, ghost t: Node)
    requires writer.Valid() && Spells(t, tokens) && codes == CodeMap(t, 0, 0)
    modifies writer
    ensures writer.Valid() && writer.Bits() == old(writer.Bits()) + Spelling(t, tokens)
  {
    hide *;
    ghost var written := writer.Bits();
    NothingSpelled(t);
    assert tokens[..0] == [] && written + [] == written;
    for j := 0 to |tokens|
      invariant writer.Valid() && Spells(t, tokens[..j])
      invariant writer.Bits() == written + Spelling(t, tokens[..j])
    {
      SpellingNext(t, tokens, j);
      CodesArePaths(t, tokens[j]);
      var (code, length) := codes[tokens[j]];
      writer.Write(code, length);
      assert written + Spelling(t, tokens[..j]) + Path(t, tokens[j]) == written + Spelling(t, tokens[..j + 1]);
    }
    assert tokens[..|tokens|] == tokens;
  }

  lemma SpellingNext(t: Node, tokens: seq<nat>, j: nat)
    requires Spells(t, tokens) && j < |tokens|
    ensures tokens[j] in Tokens(t) && Spells(t, tokens[..j]) && Spells(t, tokens[..j + 1])
    ensures Spelling(t, tokens[..j + 1]) == Spelling(t, tokens[..j]) + Path(t, tokens[j])
  {
    SpellingOne(t, tokens[j]);
    SpellingAppend(t, tokens[..j], [tokens[j]]);
    assert tokens[..j + 1] == tokens[..j] + [tokens[j]];
  }

  /** The state of the loop below after i records. */
  ghost predicate Writing(p: Node, c: Node, records: seq<Record>, i: nat, bits: seq<bool>, length: nat, offsets: seq<nat>) {
    && Writable(p, c, records) && i <= |records|
    && bits == StreamBits(p, c, records[..i]) && length == |bits|
    && |offsets| == BlocksFor(i)
    && forall b :: 0 <= b < |offsets| ==> offsets[b] == Offset(p, c, records, b * BLOCK_SIZE)
  }

  lemma WritingFirst(p: Node, c: Node, records: seq<Record>)
    requires Writable(p, c, records)
    ensures Writing(p, c, records, 0, [], 0, [])
  {}

  lemma WritingRecord(p: Node, c: Node, records: seq<Record>, i: nat, bits: seq<bool>, length: nat, offsets: seq<nat>)
    requires Writing(p, c, records, i, bits, length, offsets) && i < |records|
    ensures records[i].prefixLength in Tokens(p) && Spells(c, records[i].content)
    ensures BLOCK_SIZE == 32
  {}

  lemma WritingNext(p: Node, c: Node, records: seq<Record>, i: nat, bits: seq<bool>, length: nat, offsets: seq<nat>,
                    bits': seq<bool>)
    requires Writing(p, c, records, i, bits, length, offsets) && i < |records|
    requires records[i].prefixLength in Tokens(p) && Spells(c, records[i].content)
    requires bits' == bits + Path(p, records[i].prefixLength) + Spelling(c, records[i].content)
    ensures Writing(p, c, records, i + 1, bits', |bits'|, if i % BLOCK_SIZE == 0 then offsets + [length] else offsets)
  {
    hide Path, Spelling, StreamBits;
    StreamNext(p, c, records, i);
    assert bits' == bits + RecordBits(p, c, records[i]);
    if i % BLOCK_SIZE == 0 {
      assert i == BlocksFor(i) * BLOCK_SIZE;
    }
  }

  lemma WritingDone(p: Node, c: Node, records: seq<Record>, bits: seq<bool>, length: nat, offsets: seq<nat>)
    requires Writing(p, c, records, |records|, bits, length, offsets)
    ensures bits == StreamBits(p, c, records) && length == |bits|
    ensures BlockOffsets(offsets + [length], p, c, records)
  {
    var n := |records|;
    assert records[..n] == records;
    hide StreamBits;
    forall b | 0 <= b < |offsets| + 1
      ensures (offsets + [length])[b] == Offset(p, c, records, BlockStart(b, n))
    {
      if b == |offsets| {
        LastBlock(n);
      }
    }
  }

  method WriteRecords(records: seq<Record>, prefixCodes: CodeTable, contentCodes: CodeTable, ghost p: Node, ghost c: Node)
    returns (writer: BitWriter, offsets: seq<nat>)
    requires Writable(p, c, records) && prefixCodes == CodeMap(p, 0, 0) && contentCodes == CodeMap(c, 0, 0)
    ensures fresh(writer) && writer.Valid() && writer.Bits() == StreamBits(p, c, records)
    ensures writer.bitLength == |StreamBits(p, c, records)|
    ensures BlockOffsets(offsets, p, c, records)
  {
    hide *;
    writer := new BitWriter();
    offsets := [];
    WritingFirst(p, c, records);
    LengthOfBits(writer);
    for i := 0 to |records|
      invariant fresh(writer) && writer.Valid()
      invariant Writing(p, c, records, i, writer.Bits(), writer.bitLength, offsets)
    {
      ghost var (bits, length, before) := (writer.Bits(), writer.bitLength, offsets);
      WritingRecord(p, c, records, i, bits, length, before);
      if i % BLOCK_SIZE == 0 {
        offsets := offsets + [writer.bitLength];
      }
      CodesArePaths(p, records[i].prefixLength);
      var (code, codeLength) := prefixCodes[records[i].prefixLength];
      writer.Write(code, codeLength);
      WriteTokens(writer, records[i].content, contentCodes, c);
      WritingNext(p, c, records, i, bits, length, before, writer.Bits());
      LengthOfBits(writer);
    }
    WritingDone(p, c, records, writer.Bits(), writer.bitLength, offsets);
    offsets := offsets + [writer.bitLength];
  }

  lemma LengthOfBits(writer: BitWriter)
    requires writer.Valid()
    ensures writer.bitLength == |writer.Bits()|
  {}

  // ---------------------------------------------------------------------------------------------
  // Encoding

  datatype EncodeError =
    | Overlap
    | UnsupportedCharacter
    | TreeError(tree: HuffmanError)
    | StreamTooLong
    | ValidationError(validation: DecodeError)

  method CheckCharacters(rules: seq<Rule>) returns (supported: bool)
    ensures supported <==> forall r :: r in rules ==> Supported(r.text)
  {
    for i := 0 to |rules|
      invariant forall j :: 0 <= j < i ==> Supported(rules[j].text)
    {
      if !Supported(rules[i].text) {
        assert rules[i] in rules;
        return false;
      }
    }
    return true;
  }

  method MaximumLength(rules: seq<Rule>) returns (m: nat)
    ensures forall r :: r in rules ==> |r.text| <= m
    ensures rules != [] ==> exists r :: r in rules && |r.text| == m
  {
    m := 0;
    ghost var longest := 0;
    for i := 0 to |rules|
      invariant forall j :: 0 <= j < i ==> |rules[j].text| <= m
      invariant if i == 0 then m == 0 else longest < i && |rules[longest].text| == m
    {
      if |rules[i].text| >= m {
        m := |rules[i].text|;
        longest := i;
      }
    }
  }

  method MaximumLabels(rules: seq<Rule>) returns (m: nat)
    ensures forall r :: r in rules ==> |Split(r.text)| <= m
    ensures rules != [] ==> exists r :: r in rules && |Split(r.text)| == m
  {
    m := 0;
    ghost var longest := 0;
    for i := 0 to |rules|
      invariant forall j :: 0 <= j < i ==> |Split(rules[j].text)| <= m
      invariant if i == 0 then m == 0 else longest < i && |Split(rules[longest].text)| == m
    {
      var n := CountLabels(rules[i].text);
      if n >= m {
        m := n;
        longest := i;
      }
    }
  }

  lemma TypedTokens(texts: seq<string>, token: nat)
    ensures forall r :: r in Typed(texts, token) ==> r.token == token
  {}

  lemma SortedMembers(rules: seq<Rule>)
    ensures forall r :: r in Sorted(rules) <==> r in rules
  {
    SortedSorts(rules);
    hide Sorted;
    forall r
      ensures r in Sorted(rules) <==> r in rules
    {
      assert r in multiset(Sorted(rules)) <==> r in multiset(rules);
    }
  }

  lemma TransformedTokens(exact: seq<string>, wildcard: seq<string>, exception: seq<string>)
    ensures forall r :: r in Transformed(exact, wildcard, exception) ==> r.token <= EXCEPTION_TOKEN
  {
    TypedTokens(exact, 0);
    TypedTokens(wildcard, 1);
    TypedTokens(exception, 2);
    SortedMembers(Typed(exact, 0) + Typed(wildcard, 1) + Typed(exception, 2));
    hide Sorted, Typed;
  }

  lemma EncodableIs(rules: seq<Rule>)
    ensures Encodable(rules) <==> forall r :: r in rules ==> Supported(r.text) && r.token <= EXCEPTION_TOKEN
  {
    if forall r :: r in rules ==> Supported(r.text) && r.token <= EXCEPTION_TOKEN {
      forall i | 0 <= i < |rules|
        ensures Supported(rules[i].text) && rules[i].token <= EXCEPTION_TOKEN
      {
        assert rules[i] in rules;
      }
    }
  }

  lemma BitsInBytes(data: seq<bv8>, n: nat)
    requires Holds(data, n)
    ensures n <= 8 * |data| && BitsOf(data, n) <= AllBits(data)
  {
    hide BitAt;
    assert BitsOf(data, n) == AllBits(data)[..n];
  }

  /**
   * Trees, codes, tables and stream for rules that passed the first two checks. The error is a tree
   * error or a stream that is too long.
   */
  method EncodeRules(rules: seq<Rule>) returns (r: Result<EncodedData, EncodeError>)
    requires NoOverlap(rules) && Encodable(rules)
    ensures r.Success? <==> Accepted(rules)
    ensures r.Success? ==> EncodedFrom(r.value, rules)
    ensures r.Failure? ==> r.error.TreeError? || r.error.StreamTooLong?
  {
    hide *;
    var records, prefixes, contents := BuildRecords(rules);
    AcceptedIs(rules);
    var p := BuildHuffmanTree(prefixes);
    if p.Failure? {
      return Failure(TreeError(p.error));
    }
    var c := BuildHuffmanTree(contents);
    if c.Failure? {
      return Failure(TreeError(c.error));
    }
    var prefixCodes := BuildCodes(p.value);
    var contentCodes := BuildCodes(c.value);
    var prefixTree := FlattenHuffmanTree(p.value);
    if prefixTree.Failure? {
      return Failure(TreeError(prefixTree.error));
    }
    var contentTree := FlattenHuffmanTree(c.value);
    if contentTree.Failure? {
      return Failure(TreeError(contentTree.error));
    }
    HuffmanTreesWrite(rules);
    var writer, offsets := WriteRecords(records, prefixCodes, contentCodes, p.value, c.value);
    StreamIs(rules);
    if writer.bitLength > MAXIMUM_BIT_OFFSET {
      return Failure(StreamTooLong);
    }
    NotEmpty(rules);
    var longest := MaximumLength(rules);
    var labels := MaximumLabels(rules);
    var d := EncodedData(rules, writer.data, offsets, prefixTree.value, contentTree.value, longest, labels);
    WriterHolds(writer);
    BitsInBytes(writer.data, writer.bitLength);
    MaximaFrom(d, rules);
    TablesFrom(d, p.value, c.value);
    EncodedIs(d, rules);
    return Success(d);
  }

  /** Without rules there are no tokens, which is an alphabet too small for a tree. */
  lemma NotEmpty(rules: seq<Rule>)
    requires Encodable(rules) && TreesFit(rules)
    ensures rules != []
  {}

  lemma MaximaFrom(d: EncodedData, rules: seq<Rule>)
    requires forall r :: r in rules ==> |r.text| <= d.maximumRuleLength
    requires forall r :: r in rules ==> |Split(r.text)| <= d.maximumRuleLabelCount
    requires exists r :: r in rules && |r.text| == d.maximumRuleLength
    requires exists r :: r in rules && |Split(r.text)| == d.maximumRuleLabelCount
    ensures HasMaxima(d, rules)
  {
    hide Split;
  }

  lemma TablesFrom(d: EncodedData, p: Node, c: Node)
    requires |d.prefixTree| == 2 * Branches(p) && |d.contentTree| == 2 * Branches(c)
    ensures HasTables(d, p, c)
  {}

  lemma WriterHolds(writer: BitWriter)
    requires writer.Valid()
    ensures Holds(writer.data, writer.bitLength)
    ensures writer.bitLength <= 8 * |writer.data| && writer.Bits() == BitsOf(writer.data, writer.bitLength)
  {}

  lemma StreamIs(rules: seq<Rule>)
    requires Encodable(rules) && TreesFit(rules)
    ensures Writable(HuffmanTree(PrefixCounts(rules)), HuffmanTree(ContentCounts(rules)), AllRecords(rules))
    ensures Stream(rules) == StreamBits(HuffmanTree(PrefixCounts(rules)), HuffmanTree(ContentCounts(rules)), AllRecords(rules))
  {
    HuffmanTreesWrite(rules);
  }

  lemma AcceptedIs(rules: seq<Rule>)
    requires Encodable(rules)
    ensures TreesFit(rules) <==>
              && |PrefixCounts(rules)| >= 2 && |ContentCounts(rules)| >= 2
              && Flattenable(HuffmanTree(PrefixCounts(rules))) && Flattenable(HuffmanTree(ContentCounts(rules)))
    ensures Accepted(rules) <==> NoOverlap(rules) && TreesFit(rules) && |Stream(rules)| <= MAXIMUM_BIT_OFFSET
  {
    hide Stream, NoOverlap, Flattenable, HuffmanTree, PrefixCounts, ContentCounts;
  }

  lemma EncodedIs(d: EncodedData, rules: seq<Rule>)
    requires Accepted(rules) && d.rules == rules
    requires var (p, c, records) := (HuffmanTree(PrefixCounts(rules)), HuffmanTree(ContentCounts(rules)), AllRecords(rules));
             && Writable(p, c, records)
             && Represents(d.prefixTree, 0, p) && Represents(d.contentTree, 0, c)
             && StreamBits(p, c, records) == Stream(rules) <= AllBits(d.encodedRules)
             && BlockOffsets(d.blockBitOffsets, p, c, records)
    requires Holds(d.encodedRules, |Stream(rules)|)
    requires HasMaxima(d, rules) && HasTables(d, HuffmanTree(PrefixCounts(rules)), HuffmanTree(ContentCounts(rules)))
    ensures EncodedFrom(d, rules)
  {
    hide HasMaxima, HasTables,  Stream, NoOverlap, Flattenable, HuffmanTree, PrefixCounts, ContentCounts, StreamBits, BlockOffsets, Holds, Represents;
  }

  /**
   * The complete encoder. It accepts exactly the rule families described by Accepted, and its own
   * validation never fails.
   */
  method Encode(exact: seq<string>, wildcard: seq<string>, exception: seq<string>)
    returns (r: Result<EncodedData, EncodeError>)
    ensures r.Success? <==> Accepted(Transformed(exact, wildcard, exception))
    ensures r.Success? ==> EncodedFrom(r.value, Transformed(exact, wildcard, exception))
    ensures r.Failure? ==> !r.error.ValidationError?
    ensures r == Failure(Overlap) <==> !NoOverlap(Transformed(exact, wildcard, exception))
    ensures r == Failure(UnsupportedCharacter) <==>
              NoOverlap(Transformed(exact, wildcard, exception)) && !Encodable(Transformed(exact, wildcard, exception))
  {
    hide *;
    var rules := Transformed(exact, wildcard, exception);
    TextsCount(rules);
    AcceptedOnly(rules);
    if |Texts(rules)| != |rules| {
      return Failure(Overlap);
    }
    TransformedTokens(exact, wildcard, exception);
    EncodableIs(rules);
    var supported := CheckCharacters(rules);
    if !supported {
      return Failure(UnsupportedCharacter);
    }
    r := EncodeRules(rules);
    if r.Success? {
      var d := r.value;
      var validation := ValidateDecoding(d);
      r := Checked(d, validation);
      EncodedRoundTrips(d, rules);
      CheckedSuccess(d);
    }
  }

  /** A table is handed out unless its validation raised an error. */
  function Checked(d: EncodedData, validation: Result<(), DecodeError>): Result<EncodedData, EncodeError> {
    match validation
    case Failure(e) => Failure(ValidationError(e))
    case Success(_) => Success(d)
  }

  lemma CheckedSuccess(d: EncodedData)
    ensures Checked(d, Success(())) == Success(d)
  {}

  lemma AcceptedOnly(rules: seq<Rule>)
    ensures Accepted(rules) ==> NoOverlap(rules) && Encodable(rules)
  {
    hide NoOverlap, Encodable, TreesFit, Stream;
  }

  /** Every table the encoder hands out is decoded to the rules it was made from. */
  lemma EncodedRoundTrips(d: EncodedData, rules: seq<Rule>)
    requires EncodedFrom(d, rules)
    ensures DecodeFrom(d, 0) == Success(rules) && Validation(d) == Success(())
  {
    EncodedParts(d, rules);
    hide *;
    RoundTrip(d, HuffmanTree(PrefixCounts(rules)), HuffmanTree(ContentCounts(rules)), AllRecords(rules));
  }

  lemma EncodedParts(d: EncodedData, rules: seq<Rule>)
    requires EncodedFrom(d, rules)
    ensures Encodable(rules) && NoOverlap(rules) && TreesFit(rules) && d.rules == rules
    ensures |PrefixCounts(rules)| >= 2 && |ContentCounts(rules)| >= 2
    ensures Encodes(d, HuffmanTree(PrefixCounts(rules)), HuffmanTree(ContentCounts(rules)), AllRecords(rules))
    ensures Holds(d.encodedRules, |Stream(rules)|)
    ensures forall r :: r in rules ==> |r.text| <= d.maximumRuleLength && |Split(r.text)| <= d.maximumRuleLabelCount
    ensures exists r :: r in rules && |r.text| == d.maximumRuleLength
    ensures exists r :: r in rules && |Split(r.text)| == d.maximumRuleLabelCount
  {
    hide Stream, NoOverlap, Flattenable, HuffmanTree, PrefixCounts, ContentCounts, Encodes, Holds, Split, HasTables;
  }
}
