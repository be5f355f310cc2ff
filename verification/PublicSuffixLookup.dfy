// The runtime lookup: binary search over the blocks, then a scan inside one block.
module PublicSuffixLookup {
  import opened Wrappers
  import opened Alphabet
  import opened BitStream
  import opened Huffman
  import opened HuffmanCodes
  import opened RuleOrder
  import opened FrontCoding
  import opened PublicSuffixDecoder
  import opened PublicSuffixRoundTrip
  import opened PublicSuffixEncoder

  const RULE_BUFFER_SIZE: nat := 256

  // ---------------------------------------------------------------------------------------------
  // Decoding into a buffer of bounded size

  function BufferContent(bits: seq<bool>, position: nat, table: seq<nat>, text: string): Option<(Rule, nat)>
    decreases |bits| - position
  {
    match Walk(bits, position, table, 0)
    case None => None
    case Some((token, next)) =>
      if token <= EXCEPTION_TOKEN then Some((Rule(text, token), next))
      else if |text| >= RULE_BUFFER_SIZE then None
      else
        match TokenCharacter(token)
        case None => None
        case Some(c) => BufferContent(bits, next, table, text + [c])
  }

  function BufferRule(bits: seq<bool>, position: nat, d: EncodedData, previous: string): Option<(Rule, nat)> {
    match Walk(bits, position, d.prefixTree, 0)
    case None => None
    case Some((length, next)) =>
      if length > |previous| || length > d.maximumRuleLength then None
      else BufferContent(bits, next, d.contentTree, previous[..length])
  }

  method DecodeIntoBuffer(reader: BitReader, d: EncodedData, previous: string) returns (r: Option<Rule>)
    requires reader.data == d.encodedRules
    modifies reader
    ensures match BufferRule(AllBits(d.encodedRules), old(reader.bitPosition), d, previous)
            case None => r == None
            case Some((rule, next)) => r == Some(rule) && reader.bitPosition == next
  {
    ghost var bits := AllBits(d.encodedRules);
    ghost var spec := BufferRule(bits, reader.bitPosition, d, previous);
    var length := DecodeHuffmanToken(reader, d.prefixTree);
    if length == None || length.value > |previous| || length.value > d.maximumRuleLength {
      return None;
    }
    var text := previous[..length.value];
    while true
      invariant BufferContent(bits, reader.bitPosition, d.contentTree, text) == spec
      decreases |bits| - reader.bitPosition
    {
      hide Walk, IsLeafEntry, BufferRule;
      var token := DecodeHuffmanToken(reader, d.contentTree);
      if token == None {
        return None;
      }
      if token.value <= EXCEPTION_TOKEN {
        return Some(Rule(text, token.value));
      }
      var character := TokenCharacter(token.value);
      if |text| >= RULE_BUFFER_SIZE || character == None {
        return None;
      }
      text := text + [character.value];
    }
  }

  lemma {:induction false} ContentExtends(bits: seq<bool>, position: nat, table: seq<nat>, text: string)
    requires DecodeContent(bits, position, table, text).Success?
    ensures text <= DecodeContent(bits, position, table, text).value.0.text
    decreases |bits| - position
  {
    var (token, next) := Walk(bits, position, table, 0).value;
    if token > EXCEPTION_TOKEN {
      hide Walk;
      ContentExtends(bits, next, table, text + [TokenCharacter(token).value]);
    }
  }

  /** The buffer is large enough for every rule that fits into it. */
  lemma {:induction false} BufferContentAgrees(bits: seq<bool>, position: nat, table: seq<nat>, text: string)
    requires DecodeContent(bits, position, table, text).Success?
    requires |DecodeContent(bits, position, table, text).value.0.text| <= RULE_BUFFER_SIZE
    ensures BufferContent(bits, position, table, text) == Some(DecodeContent(bits, position, table, text).value)
    decreases |bits| - position
  {
    var (token, next) := Walk(bits, position, table, 0).value;
    if token > EXCEPTION_TOKEN {
      hide Walk;
      var longer := text + [TokenCharacter(token).value];
      ContentExtends(bits, next, table, longer);
      BufferContentAgrees(bits, next, table, longer);
    }
  }

  lemma BufferRuleAgrees(bits: seq<bool>, position: nat, d: EncodedData, previous: string, rule: Rule, next: nat)
    requires DecodeRule(bits, position, d, previous) == Success((rule, next))
    requires |rule.text| <= RULE_BUFFER_SIZE && |rule.text| <= d.maximumRuleLength
    ensures BufferRule(bits, position, d, previous) == Some((rule, next))
  {
    var (length, start) := Walk(bits, position, d.prefixTree, 0).value;
    hide Walk;
    ContentExtends(bits, start, d.contentTree, previous[..length]);
    BufferContentAgrees(bits, start, d.contentTree, previous[..length]);
  }

  lemma {:induction false} BufferContentOnly(bits: seq<bool>, position: nat, table: seq<nat>, text: string)
    requires |text| <= 256 && BufferContent(bits, position, table, text).Some?
    ensures DecodeContent(bits, position, table, text) == Success(BufferContent(bits, position, table, text).value)
    ensures |BufferContent(bits, position, table, text).value.0.text| <= 256
    decreases |bits| - position
  {
    var (token, next) := Walk(bits, position, table, 0).value;
    if token > EXCEPTION_TOKEN {
      hide Walk;
      BufferContentOnly(bits, next, table, text + [TokenCharacter(token).value]);
    }
  }

  /** What the buffer holds is what the generator decodes, as long as prefix and rule fit. */
  lemma BufferExactly(bits: seq<bool>, position: nat, d: EncodedData, previous: string, rule: Rule, next: nat)
    requires |previous| <= 256
    ensures BufferRule(bits, position, d, previous) == Some((rule, next)) <==>
              && DecodeRule(bits, position, d, previous) == Success((rule, next))
              && Walk(bits, position, d.prefixTree, 0).value.0 <= d.maximumRuleLength && |rule.text| <= 256
  {
    var prefix := Walk(bits, position, d.prefixTree, 0);
    hide Walk, BufferContent, DecodeContent;
    if prefix.Some? && prefix.value.0 <= |previous| {
      var text := previous[..prefix.value.0];
      if BufferContent(bits, prefix.value.1, d.contentTree, text).Some? {
        BufferContentOnly(bits, prefix.value.1, d.contentTree, text);
      }
      var content := DecodeContent(bits, prefix.value.1, d.contentTree, text);
      if content.Success? && |content.value.0.text| <= 256 {
        BufferContentAgrees(bits, prefix.value.1, d.contentTree, text);
      }
    }
  }

  // ---------------------------------------------------------------------------------------------
  // The rules of a generated table

  /** A generated table whose rules fit the buffer; the lookup refuses to run on any other. */
  ghost predicate Usable(d: EncodedData) {
    EncodedFrom(d, d.rules) && SortedRules(d.rules) && d.maximumRuleLength < RULE_BUFFER_SIZE
  }

  ghost function RulePosition(d: EncodedData, i: nat): nat
    requires Usable(d) && i <= |d.rules|
  {
    EncodedParts(d, d.rules);
    HuffmanTreesWrite(d.rules);
    Offset(HuffmanTree(PrefixCounts(d.rules)), HuffmanTree(ContentCounts(d.rules)), AllRecords(d.rules), i)
  }

  lemma BufferHoldsRule(d: EncodedData, i: nat)
    requires Usable(d) && i < |d.rules|
    ensures BufferRule(AllBits(d.encodedRules), RulePosition(d, i), d, PreviousText(d.rules, i))
         == Some((d.rules[i], RulePosition(d, i + 1)))
  {
    EncodedParts(d, d.rules);
    assert d.rules[i] in d.rules;
    hide EncodedFrom, PrefixCounts, ContentCounts, AllRecords, Encodes, BufferRule, DecodeRule, SortedRules, AllBits, PreviousText;
    RuleDecodes(d, HuffmanTree(PrefixCounts(d.rules)), HuffmanTree(ContentCounts(d.rules)), AllRecords(d.rules), i);
    BufferRuleAgrees(AllBits(d.encodedRules), RulePosition(d, i), d, PreviousText(d.rules, i),
                     d.rules[i], RulePosition(d, i + 1));
  }

  /** The offset table points to the first rule of every block. */
  lemma BlockPosition(d: EncodedData, block: nat)
    requires Usable(d) && block < BlockCount(d)
    ensures var i := block * BLOCK_SIZE;
            && i < |d.rules| && BlockCount(d) == BlocksFor(|d.rules|)
            && d.blockBitOffsets[block] == RulePosition(d, i) && PreviousText(d.rules, i) == []
  {
    EncodedParts(d, d.rules);
    hide EncodedFrom, PrefixCounts, ContentCounts, AllRecords, Encodes, SortedRules;
    BlockOffset(d, HuffmanTree(PrefixCounts(d.rules)), HuffmanTree(ContentCounts(d.rules)), AllRecords(d.rules), 0);
    BlockOffset(d, HuffmanTree(PrefixCounts(d.rules)), HuffmanTree(ContentCounts(d.rules)), AllRecords(d.rules), block);
    BlockBounds(block, |d.rules|);
    hide Offset;
  }

  /** Rules are in strictly ascending order of their texts. */
  lemma StrictlyAscending(d: EncodedData, i: nat, j: nat)
    requires Usable(d) && i < j < |d.rules|
    ensures TextLess(d.rules[i].text, d.rules[j].text)
  {
    EncodedParts(d, d.rules);
    hide EncodedFrom, Encodes, AllRecords;
    assert AtMost(d.rules[i], d.rules[j]);
  }

  // ---------------------------------------------------------------------------------------------
  // Comparison

  datatype Ordering = Less | Equal | Greater

  ghost function OrderOf(a: string, b: string): Ordering {
    if TextLess(a, b) then Less else if a == b then Equal else Greater
  }

  lemma {:induction false} OrderAfterCommon(a: string, b: string, n: nat)
    requires n <= |a| && n <= |b| && a[..n] == b[..n]
    ensures OrderOf(a, b) == OrderOf(a[n..], b[n..])
  {
    if n == 0 {
      assert a[0..] == a && b[0..] == b;
    } else {
      assert a[0] == a[..n][0] && b[0] == b[..n][0];
      assert a[1..][..n - 1] == a[..n][1..] && b[1..][..n - 1] == b[..n][1..];
      assert a[1..][n - 1..] == a[n..] && b[1..][n - 1..] == b[n..];
      assert a == [a[0]] + a[1..] && b == [b[0]] + b[1..];
      OrderAfterCommon(a[1..], b[1..], n - 1);
    }
  }

  method Compare(rule: string, key: string) returns (r: Ordering)
    ensures r == OrderOf(rule, key)
  {
    var commonLength := if |rule| < |key| then |rule| else |key|;
    for index := 0 to commonLength
      invariant rule[..index] == key[..index]
    {
      OrderAfterCommon(rule, key, index);
      if rule[index] < key[index] {
        return Less;
      }
      if rule[index] > key[index] {
        return Greater;
      }
    }
    OrderAfterCommon(rule, key, commonLength);
    return if |rule| < |key| then Less else if |rule| == |key| then Equal else Greater;
  }

  // ---------------------------------------------------------------------------------------------
  // Search

  ghost function FirstOf(d: EncodedData, block: nat): string
    requires block * BLOCK_SIZE < |d.rules|
  {
    d.rules[block * BLOCK_SIZE].text
  }

  method DecodeFirst(d: EncodedData, block: nat) returns (r: Rule)
    requires Usable(d) && block < BlockCount(d)
    ensures block * BLOCK_SIZE < |d.rules| && r == d.rules[block * BLOCK_SIZE]
  {
    hide *;
    BlockPosition(d, block);
    BufferHoldsRule(d, block * BLOCK_SIZE);
    OffsetExists(d, block);
    var reader := new BitReader(d.encodedRules, d.blockBitOffsets[block]);
    var rule := DecodeIntoBuffer(reader, d, []);
    r := rule.value;
  }

  lemma OffsetExists(d: EncodedData, block: nat)
    requires block < BlockCount(d)
    ensures block < |d.blockBitOffsets|
  {}

  /** Blocks before the bound start at or before the key, blocks from it on start after the key. */
  ghost predicate Separates(d: EncodedData, key: string, lower: nat, upper: nat) {
    && lower <= upper <= BlocksFor(|d.rules|)
    && (forall b: nat {:trigger FirstOf(d, b)} :: b < lower && b * BLOCK_SIZE < |d.rules| ==> !TextLess(key, FirstOf(d, b)))
    && (forall b: nat {:trigger FirstOf(d, b)} :: upper <= b && b * BLOCK_SIZE < |d.rules| ==> TextLess(key, FirstOf(d, b)))
  }

  lemma SeparatesFirst(d: EncodedData, key: string)
    ensures Separates(d, key, 0, BlocksFor(|d.rules|))
  {}

  lemma FirstOrder(d: EncodedData, i: nat, j: nat)
    requires Usable(d) && i <= j && j * BLOCK_SIZE < |d.rules|
    ensures i * BLOCK_SIZE < |d.rules|
    ensures FirstOf(d, i) == FirstOf(d, j) || TextLess(FirstOf(d, i), FirstOf(d, j))
  {
    hide Usable, TextLess;
    if i < j {
      StrictlyAscending(d, i * BLOCK_SIZE, j * BLOCK_SIZE);
    }
  }

  lemma SeparatesNext(d: EncodedData, key: string, lower: nat, upper: nat, block: nat)
    requires Usable(d) && Separates(d, key, lower, upper) && lower <= block < upper
    requires block * BLOCK_SIZE < |d.rules|
    ensures OrderOf(FirstOf(d, block), key) != Greater ==> Separates(d, key, block + 1, upper)
    ensures OrderOf(FirstOf(d, block), key) == Greater ==> Separates(d, key, lower, block)
  {
    hide Usable, TextLess;
    TextTrichotomy(FirstOf(d, block), key);
    if OrderOf(FirstOf(d, block), key) == Greater {
      forall b: nat | block <= b && b * BLOCK_SIZE < |d.rules|
        ensures TextLess(key, FirstOf(d, b))
      {
        FirstOrder(d, block, b);
        if FirstOf(d, block) != FirstOf(d, b) {
          TextTransitive(key, FirstOf(d, block), FirstOf(d, b));
        }
      }
    } else {
      forall b: nat | b <= block && b * BLOCK_SIZE < |d.rules|
        ensures !TextLess(key, FirstOf(d, b))
      {
        FirstOrder(d, b, block);
        if TextLess(key, FirstOf(d, b)) && FirstOf(d, block) != FirstOf(d, b) {
          TextTransitive(key, FirstOf(d, b), FirstOf(d, block));
        }
      }
    }
  }

  /** A key between two block starts can only be found in the block between them. */
  lemma OutsideBlock(d: EncodedData, key: string, bound: nat, i: nat)
    requires Usable(d) && Separates(d, key, bound, bound) && i < |d.rules| && i / BLOCK_SIZE + 1 != bound
    ensures d.rules[i].text != key
  {
    hide Usable, TextLess;
    var b := i / BLOCK_SIZE;
    if b >= bound {
      var first := b * BLOCK_SIZE;
      assert first <= i;
      assert TextLess(key, FirstOf(d, b));
      hide Separates;
      TextTrichotomy(key, FirstOf(d, b));
      if first < i {
        StrictlyAscending(d, first, i);
        TextTrichotomy(FirstOf(d, b), d.rules[i].text);
      }
    } else {
      NextBlockStarts(d, bound, i);
      assert !TextLess(key, FirstOf(d, bound - 1));
      hide Separates;
      StrictlyAscending(d, i, (b + 1) * BLOCK_SIZE);
      FirstOrder(d, b + 1, bound - 1);
      if FirstOf(d, b + 1) != FirstOf(d, bound - 1) {
        TextTransitive(d.rules[i].text, FirstOf(d, b + 1), FirstOf(d, bound - 1));
      }
    }
  }

  lemma NextBlockStarts(d: EncodedData, bound: nat, i: nat)
    requires bound <= BlocksFor(|d.rules|) && i < |d.rules| && i / BLOCK_SIZE + 1 < bound
    ensures (bound - 1) * BLOCK_SIZE < |d.rules| && i / BLOCK_SIZE + 1 <= bound - 1
    ensures i < (i / BLOCK_SIZE + 1) * BLOCK_SIZE < |d.rules|
  {}

  lemma PastGreater(d: EncodedData, key: string, i: nat, j: nat)
    requires Usable(d) && i <= j < |d.rules| && OrderOf(d.rules[i].text, key) == Greater
    ensures d.rules[j].text != key
  {
    hide Usable, TextLess;
    TextTrichotomy(d.rules[i].text, key);
    if i < j {
      StrictlyAscending(d, i, j);
      TextTrichotomy(d.rules[i].text, d.rules[j].text);
    }
  }

  lemma NotEqual(a: string, b: string)
    ensures OrderOf(a, b) == Equal ==> a == b
    ensures OrderOf(a, b) != Equal ==> a != b
  {
    TextTrichotomy(a, b);
  }

  ghost predicate Absent(d: EncodedData, key: string) {
    forall i :: 0 <= i < |d.rules| ==> d.rules[i].text != key
  }

  /** The rules of the block have been compared up to, but not including, the given one. */
  ghost predicate AbsentUpTo(d: EncodedData, key: string, first: nat, end: nat) {
    end <= |d.rules| && forall i :: first <= i < end ==> d.rules[i].text != key
  }

  lemma AbsentNext(d: EncodedData, key: string, first: nat, i: nat)
    requires AbsentUpTo(d, key, first, i) && i < |d.rules| && d.rules[i].text != key
    ensures AbsentUpTo(d, key, first, i + 1)
  {}

  lemma AbsentFirst(d: EncodedData, key: string, first: nat)
    requires first <= |d.rules|
    ensures AbsentUpTo(d, key, first, first)
  {}

  lemma AbsentRest(d: EncodedData, key: string, first: nat, i: nat, end: nat)
    requires Usable(d) && AbsentUpTo(d, key, first, i) && i < end <= |d.rules|
    requires OrderOf(d.rules[i].text, key) == Greater
    ensures AbsentUpTo(d, key, first, end)
  {
    hide Usable, OrderOf;
    forall j | i <= j < end
      ensures d.rules[j].text != key
    {
      PastGreater(d, key, i, j);
    }
  }

  lemma AbsentInBlock(d: EncodedData, key: string, bound: nat)
    requires Usable(d) && Separates(d, key, bound, bound)
    requires bound > 0 ==> AbsentUpTo(d, key, (bound - 1) * BLOCK_SIZE, BlockEnd(d, bound - 1))
    ensures Absent(d, key)
  {
    hide Usable, Separates;
    forall i | 0 <= i < |d.rules|
      ensures d.rules[i].text != key
    {
      if i / BLOCK_SIZE + 1 != bound {
        OutsideBlock(d, key, bound, i);
      } else {
        assert (bound - 1) * BLOCK_SIZE <= i < BlockEnd(d, bound - 1);
      }
    }
  }

  function BlockEnd(d: EncodedData, block: nat): nat {
    var last := block * BLOCK_SIZE + BLOCK_SIZE;
    if last < |d.rules| then last else |d.rules|
  }

  lemma WithinBlock(d: EncodedData, block: nat, i: nat)
    requires block * BLOCK_SIZE <= i && i + 1 < BlockEnd(d, block)
    ensures i + 1 < |d.rules| && PreviousText(d.rules, i + 1) == d.rules[i].text
  {}

  /** The last part of the search: the rules of one block, one after the other. */
  method ScanBlock(d: EncodedData, key: string, block: nat) returns (r: Option<nat>)
    requires Usable(d) && block < BlockCount(d)
    ensures r.Some? ==> Rule(key, r.value) in d.rules
    ensures r.None? ==> AbsentUpTo(d, key, block * BLOCK_SIZE, BlockEnd(d, block))
  {
    hide *;
    BlockPosition(d, block);
    OffsetExists(d, block);
    var reader := new BitReader(d.encodedRules, d.blockBitOffsets[block]);
    var text: string := [];
    var firstRule := block * BLOCK_SIZE;
    var lastRule := BlockEnd(d, block);
    BlockEndBounds(d, block);
    AbsentFirst(d, key, firstRule);
    for ruleIndex := firstRule to lastRule
      invariant AbsentUpTo(d, key, firstRule, ruleIndex)
      invariant reader.bitPosition == RulePosition(d, ruleIndex)
      invariant ruleIndex < lastRule ==> text == PreviousText(d.rules, ruleIndex)
    {
      BufferHoldsRule(d, ruleIndex);
      var rule := DecodeIntoBuffer(reader, d, text);
      text := rule.value.text;
      var order := Compare(text, key);
      NotEqual(text, key);
      if order == Equal {
        assert rule.value in d.rules;
        return Some(rule.value.token);
      }
      if order == Greater {
        AbsentRest(d, key, firstRule, ruleIndex, lastRule);
        return None;
      }
      AbsentNext(d, key, firstRule, ruleIndex);
      if ruleIndex + 1 < lastRule {
        WithinBlock(d, block, ruleIndex);
      }
    }
    return None;
  }

  lemma BlockEndBounds(d: EncodedData, block: nat)
    requires block * BLOCK_SIZE < |d.rules|
    ensures block * BLOCK_SIZE < BlockEnd(d, block) <= |d.rules|
  {}

  /** The terminal token of the rule with the given text, if there is one. */
  method FindRule(d: EncodedData, key: string) returns (r: Option<nat>)
    requires Usable(d)
    ensures key == [] ==> r == None
    ensures r.Some? ==> Rule(key, r.value) in d.rules
    ensures r.None? && key != [] ==> Absent(d, key)
  {
    hide *;
    CountOfBlocks(d);
    if key == [] {
      return None;
    }
    SeparatesFirst(d, key);
    if |d.blockBitOffsets| < 2 {
      AbsentInBlock(d, key, 0);
      return None;
    }
    var lowerBlock: nat, upperBlock: nat := 0, BlockCount(d);
    while lowerBlock < upperBlock
      invariant Separates(d, key, lowerBlock, upperBlock) && lowerBlock <= upperBlock <= BlockCount(d)
    {
      var block := lowerBlock + (upperBlock - lowerBlock) / 2;
      var rule := DecodeFirst(d, block);
      var order := Compare(rule.text, key);
      FirstText(d, block);
      SeparatesNext(d, key, lowerBlock, upperBlock, block);
      if order != Greater {
        lowerBlock := block + 1;
      } else {
        upperBlock := block;
      }
    }
    if lowerBlock == 0 {
      AbsentInBlock(d, key, 0);
      return None;
    }
    r := ScanBlock(d, key, lowerBlock - 1);
    if r == None {
      AbsentInBlock(d, key, lowerBlock);
    }
  }

  lemma FirstText(d: EncodedData, block: nat)
    requires block * BLOCK_SIZE < |d.rules|
    ensures FirstOf(d, block) == d.rules[block * BLOCK_SIZE].text
  {}

  lemma CountOfBlocks(d: EncodedData)
    requires Usable(d)
    ensures BlockCount(d) == BlocksFor(|d.rules|)
    ensures BlockCount(d) == if |d.blockBitOffsets| == 0 then 0 else |d.blockBitOffsets| - 1
  {
    EncodedParts(d, d.rules);
    hide EncodedFrom, PrefixCounts, ContentCounts, AllRecords, Encodes, SortedRules;
    BlockOffset(d, HuffmanTree(PrefixCounts(d.rules)), HuffmanTree(ContentCounts(d.rules)), AllRecords(d.rules), 0);
  }
}
