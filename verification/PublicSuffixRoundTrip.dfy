// Whatever is written as front-coded Huffman records is read back rule by rule.
module PublicSuffixRoundTrip {
  import opened Wrappers
  import opened Alphabet
  import opened Huffman
  import opened HuffmanCodes
  import opened RuleOrder
  import opened FrontCoding
  import opened PublicSuffixDecoder

  /** The table has its rules' records in its stream, spelled with the trees its branch tables describe. */
  ghost predicate Encodes(d: EncodedData, p: Node, c: Node, records: seq<Record>) {
    && Encodable(d.rules) && RecordsOf(records, d.rules) && |records| == |d.rules|
    && Writable(p, c, records)
    && Represents(d.prefixTree, 0, p) && Represents(d.contentTree, 0, c)
    && StreamBits(p, c, records) <= AllBits(d.encodedRules)
    && BlockOffsets(d.blockBitOffsets, p, c, records)
  }

  function BlocksFor(n: nat): nat {
    (n + 31) / 32
  }

  function BlockStart(block: nat, n: nat): nat {
    if block * 32 < n then block * 32 else n
  }

  /** One offset for the start of every block, and one for the end of the stream. */
  ghost predicate BlockOffsets(offsets: seq<nat>, p: Node, c: Node, records: seq<Record>)
    requires Writable(p, c, records)
  {
    && |offsets| == BlocksFor(|records|) + 1
    && forall b :: 0 <= b < |offsets| ==> offsets[b] == Offset(p, c, records, BlockStart(b, |records|))
  }

  /** The bit position of a record. */
  ghost function Offset(p: Node, c: Node, records: seq<Record>, i: nat): nat
    requires i <= |records| && Writable(p, c, records)
  {
    |StreamBits(p, c, records[..i])|
  }

  lemma StreamNext(p: Node, c: Node, records: seq<Record>, i: nat)
    requires i < |records| && Writable(p, c, records)
    ensures StreamBits(p, c, records[..i + 1]) == StreamBits(p, c, records[..i]) + RecordBits(p, c, records[i])
  {
    assert records[..i + 1][..i] == records[..i];
  }

  lemma {:induction false} StreamPrefix(p: Node, c: Node, records: seq<Record>, i: nat)
    requires i <= |records| && Writable(p, c, records)
    ensures StreamBits(p, c, records[..i]) <= StreamBits(p, c, records)
    decreases |records| - i
  {
    if i == |records| {
      assert records[..i] == records;
    } else {
      StreamPrefix(p, c, records, i + 1);
      StreamNext(p, c, records, i);
    }
  }

  /** What is found at a record's position. */
  lemma RecordAt(p: Node, c: Node, records: seq<Record>, i: nat, bits: seq<bool>)
    requires i < |records| && Writable(p, c, records) && StreamBits(p, c, records) <= bits
    ensures var o := Offset(p, c, records, i);
            && o <= |bits| && RecordBits(p, c, records[i]) <= bits[o..]
            && Offset(p, c, records, i + 1) == o + |RecordBits(p, c, records[i])|
  {
    StreamPrefix(p, c, records, i + 1);
    StreamNext(p, c, records, i);
    MiddlePart(StreamBits(p, c, records[..i]), RecordBits(p, c, records[i]), bits);
  }

  lemma MiddlePart(a: seq<bool>, b: seq<bool>, bits: seq<bool>)
    requires a + b <= bits
    ensures |a| <= |bits| && b <= bits[|a|..]
  {
    assert b == (a + b)[|a|..];
  }

  lemma HeadPart(a: seq<bool>, b: seq<bool>, bits: seq<bool>, o: nat)
    requires o <= |bits| && a + b <= bits[o..]
    ensures a <= bits[o..] && o + |a| <= |bits| && b <= bits[o + |a|..]
  {
    assert a == (a + b)[..|a|] && b == (a + b)[|a|..];
    assert bits[o..][|a|..] == bits[o + |a|..];
  }

  lemma TerminalDecodes(bits: seq<bool>, position: nat, table: seq<nat>, text: string, token: nat, next: nat)
    requires Walk(bits, position, table, 0) == Some((token, next)) && token <= EXCEPTION_TOKEN
    ensures DecodeContent(bits, position, table, text) == Success((Rule(text, token), next))
  {}

  lemma CharacterDecodes(bits: seq<bool>, position: nat, table: seq<nat>, text: string, ch: char, next: nat)
    requires IsCharacter(ch) && Walk(bits, position, table, 0) == Some((CharacterToken(ch), next))
    ensures DecodeContent(bits, position, table, text) == DecodeContent(bits, next, table, text + [ch])
  {}

  /** The first token of a spelling is read by a walk, and the rest of the spelling follows it. */
  lemma SpellingStep(bits: seq<bool>, position: nat, table: seq<nat>, t: Node, tokens: seq<nat>)
    requires Represents(table, 0, t) && tokens != [] && Spells(t, tokens)
    requires position <= |bits| && Spelling(t, tokens) <= bits[position..]
    ensures tokens[0] in Tokens(t)
    ensures var next := position + |Path(t, tokens[0])|;
            && Walk(bits, position, table, 0) == Some((tokens[0], next))
            && next <= |bits| && Spells(t, tokens[1..]) && Spelling(t, tokens[1..]) <= bits[next..]
            && position + |Spelling(t, tokens)| == next + |Spelling(t, tokens[1..])|
  {
    HeadPart(Path(t, tokens[0]), Spelling(t, tokens[1..]), bits, position);
    WalkReadsPath(bits, position, table, 0, t, tokens[0]);
  }

  ghost function RuleTokens(suffix: string, token: nat): seq<nat>
    requires Supported(suffix)
  {
    TextTokens(suffix) + [token]
  }

  lemma RuleTokensStep(suffix: string, token: nat)
    requires Supported(suffix)
    ensures RuleTokens(suffix, token) != []
    ensures suffix == [] ==> RuleTokens(suffix, token) == [token]
    ensures suffix != [] ==> Supported(suffix[1..]) && IsCharacter(suffix[0])
    ensures suffix != [] ==>
              && RuleTokens(suffix, token)[0] == CharacterToken(suffix[0])
              && RuleTokens(suffix, token)[1..] == RuleTokens(suffix[1..], token)
  {}

  lemma {:induction false} ContentDecodes(
      bits: seq<bool>, position: nat, table: seq<nat>, c: Node, text: string, suffix: string, token: nat)
    requires Represents(table, 0, c) && Supported(suffix) && token <= EXCEPTION_TOKEN
    requires Spells(c, RuleTokens(suffix, token))
    requires position <= |bits| && Spelling(c, RuleTokens(suffix, token)) <= bits[position..]
    ensures DecodeContent(bits, position, table, text)
         == Success((Rule(text + suffix, token), position + |Spelling(c, RuleTokens(suffix, token))|))
    decreases |suffix|
  {
    hide *;
    var tokens := RuleTokens(suffix, token);
    RuleTokensStep(suffix, token);
    SpellingStep(bits, position, table, c, tokens);
    var next := position + |Path(c, tokens[0])|;
    if suffix == [] {
      assert tokens[1..] == [];
      NothingSpelled(c);
      TerminalDecodes(bits, position, table, text, token, next);
      assert text + suffix == text;
    } else {
      CharacterDecodes(bits, position, table, text, suffix[0], next);
      ContentDecodes(bits, next, table, c, text + [suffix[0]], suffix[1..], token);
      assert text + [suffix[0]] + suffix[1..] == text + suffix;
    }
  }

  /** The text the decoder must hold before it reads a rule. */
  ghost function PreviousText(rules: seq<Rule>, i: nat): string
    requires i <= |rules|
  {
    if i % BLOCK_SIZE == 0 then [] else rules[i - 1].text
  }

  lemma PrefixFits(rules: seq<Rule>, i: nat)
    requires i < |rules|
    ensures var n := PrefixOf(rules, i);
            && n <= |PreviousText(rules, i)| && n <= |rules[i].text|
            && PreviousText(rules, i)[..n] + rules[i].text[n..] == rules[i].text
  {
    if i % BLOCK_SIZE != 0 {
      CommonPrefixShared(rules[i - 1].text, rules[i].text);
    }
  }

  lemma PrefixDecodes(bits: seq<bool>, position: nat, d: EncodedData, previous: string, length: nat, next: nat)
    requires Walk(bits, position, d.prefixTree, 0) == Some((length, next)) && length <= |previous|
    ensures DecodeRule(bits, position, d, previous) == DecodeContent(bits, next, d.contentTree, previous[..length])
  {}

  lemma RecordParts(d: EncodedData, p: Node, c: Node, records: seq<Record>, i: nat)
    requires Encodes(d, p, c, records) && i < |records|
    ensures var n := records[i].prefixLength;
            && n in Tokens(p) && n <= |PreviousText(d.rules, i)| && n <= |d.rules[i].text|
            && PreviousText(d.rules, i)[..n] + d.rules[i].text[n..] == d.rules[i].text
            && Supported(d.rules[i].text[n..]) && d.rules[i].token <= EXCEPTION_TOKEN
            && records[i].content == RuleTokens(d.rules[i].text[n..], d.rules[i].token)
            && Spells(c, records[i].content)
            && RecordBits(p, c, records[i]) == Path(p, n) + Spelling(c, records[i].content)
  {
    hide AllBits, BlockOffsets, StreamBits, Represents;
    assert records[i] == RecordOf(d.rules, i);
    PrefixFits(d.rules, i);
  }

  lemma EncodesParts(d: EncodedData, p: Node, c: Node, records: seq<Record>)
    requires Encodes(d, p, c, records)
    ensures |records| == |d.rules| && Writable(p, c, records)
    ensures Represents(d.prefixTree, 0, p) && Represents(d.contentTree, 0, c)
    ensures StreamBits(p, c, records) <= AllBits(d.encodedRules)
  {}

  lemma RuleDecodes(d: EncodedData, p: Node, c: Node, records: seq<Record>, i: nat)
    requires Encodes(d, p, c, records) && i < |records|
    ensures DecodeRule(AllBits(d.encodedRules), Offset(p, c, records, i), d, PreviousText(d.rules, i))
         == Success((d.rules[i], Offset(p, c, records, i + 1)))
  {
    hide *;
    EncodesParts(d, p, c, records);
    var bits := AllBits(d.encodedRules);
    var o := Offset(p, c, records, i);
    RecordAt(p, c, records, i, bits);
    RecordParts(d, p, c, records, i);
    var n := records[i].prefixLength;
    var (text, suffix, token) := (PreviousText(d.rules, i), d.rules[i].text[n..], d.rules[i].token);
    HeadPart(Path(p, n), Spelling(c, records[i].content), bits, o);
    WalkReadsPath(bits, o, d.prefixTree, 0, p, n);
    PrefixDecodes(bits, o, d, text, n, o + |Path(p, n)|);
    ContentDecodes(bits, o + |Path(p, n)|, d.contentTree, c, text[..n], suffix, token);
  }

  lemma PreviousInBlock(rules: seq<Rule>, i: nat)
    requires i < |rules| && i % BLOCK_SIZE + 1 < BLOCK_SIZE
    ensures (i + 1) % BLOCK_SIZE == i % BLOCK_SIZE + 1
    ensures PreviousText(rules, i + 1) == rules[i].text
  {}

  lemma {:induction false} RulesDecode(d: EncodedData, p: Node, c: Node, records: seq<Record>, i: nat, count: nat)
    requires Encodes(d, p, c, records) && i + count <= |records|
    requires count == 0 || i % BLOCK_SIZE + count <= BLOCK_SIZE
    ensures DecodeRules(AllBits(d.encodedRules), Offset(p, c, records, i), d, PreviousText(d.rules, i), count)
         == Success(d.rules[i..i + count])
    decreases count
  {
    hide *;
    var bits := AllBits(d.encodedRules);
    EncodesParts(d, p, c, records);
    if count == 0 {
      assert d.rules[i..i + count] == [];
      NoRules(bits, Offset(p, c, records, i), d, PreviousText(d.rules, i));
    } else {
      RuleDecodes(d, p, c, records, i);
      var next := Offset(p, c, records, i + 1);
      RulesStep(bits, Offset(p, c, records, i), d, PreviousText(d.rules, i), count, d.rules[i], next);
      if count == 1 {
        NoRules(bits, next, d, d.rules[i].text);
      } else {
        PreviousInBlock(d.rules, i);
        RulesDecode(d, p, c, records, i + 1, count - 1);
      }
      ThenSuccess([d.rules[i]], d.rules[i + 1..i + count]);
      assert d.rules[i..i + count] == [d.rules[i]] + d.rules[i + 1..i + count];
    }
  }

  lemma BlockBounds(block: nat, n: nat)
    requires block < BlocksFor(n)
    ensures var (i, j) := (BlockStart(block, n), BlockStart(block + 1, n));
            && i == block * BLOCK_SIZE && i < j <= n && j - i <= BLOCK_SIZE
            && i % BLOCK_SIZE == 0 && (n - i >= BLOCK_SIZE ==> j - i == BLOCK_SIZE) && (n - i < BLOCK_SIZE ==> j == n)
  {}

  lemma LastBlock(n: nat)
    ensures BlockStart(BlocksFor(n), n) == n && BlockStart(0, n) == 0
  {}

  lemma BlockOffset(d: EncodedData, p: Node, c: Node, records: seq<Record>, block: nat)
    requires Encodes(d, p, c, records) && block <= BlocksFor(|records|)
    ensures BlockCount(d) == BlocksFor(|d.rules|) && |records| == |d.rules| && Writable(p, c, records)
    ensures d.blockBitOffsets[block] == Offset(p, c, records, BlockStart(block, |records|))
  {
    hide StreamBits, AllBits, Represents, Offset;
  }

  lemma BlockStartText(rules: seq<Rule>, i: nat)
    requires i <= |rules| && i % BLOCK_SIZE == 0
    ensures PreviousText(rules, i) == []
  {}

  /** Every block decodes to its own rules, from its own offset and with no rule before it. */
  lemma BlockDecodes(d: EncodedData, p: Node, c: Node, records: seq<Record>, block: nat)
    requires Encodes(d, p, c, records) && block < BlockCount(d)
    ensures var (i, j) := (BlockStart(block, |d.rules|), BlockStart(block + 1, |d.rules|));
            i <= j && DecodeBlock(d, block) == Success(d.rules[i..j])
  {
    hide *;
    BlockOffset(d, p, c, records, 0);
    BlockOffset(d, p, c, records, block);
    var n := |d.rules|;
    var (i, j) := (BlockStart(block, n), BlockStart(block + 1, n));
    BlockBounds(block, n);
    BlockStartText(d.rules, i);
    BlockRulesIs(d, block);
    BlockIs(d, block, j - i);
    RulesDecode(d, p, c, records, i, j - i);
  }

  lemma BlockRulesIs(d: EncodedData, block: nat)
    requires block < BlocksFor(|d.rules|)
    ensures BlockRules(d, block) == BlockStart(block + 1, |d.rules|) - BlockStart(block, |d.rules|)
  {}

  lemma DecodeFromStep(d: EncodedData, block: nat, rules: seq<Rule>)
    requires block < BlockCount(d) && DecodeBlock(d, block) == Success(rules)
    ensures DecodeFrom(d, block) == Then(rules, DecodeFrom(d, block + 1))
  {
    hide DecodeBlock;
  }

  lemma DecodeFromEnd(d: EncodedData)
    ensures DecodeFrom(d, BlockCount(d)) == Success([])
  {}

  lemma {:induction false} BlocksDecode(d: EncodedData, p: Node, c: Node, records: seq<Record>, block: nat)
    requires Encodes(d, p, c, records) && block <= BlockCount(d)
    ensures var i := BlockStart(block, |d.rules|); i <= |d.rules| && DecodeFrom(d, block) == Success(d.rules[i..])
    decreases BlockCount(d) - block
  {
    hide *;
    BlockOffset(d, p, c, records, 0);
    var n := |d.rules|;
    if block == BlockCount(d) {
      LastBlock(n);
      DecodeFromEnd(d);
      assert d.rules[n..] == [];
    } else {
      var (i, j) := (BlockStart(block, n), BlockStart(block + 1, n));
      BlockBounds(block, n);
      BlockDecodes(d, p, c, records, block);
      DecodeFromStep(d, block, d.rules[i..j]);
      BlocksDecode(d, p, c, records, block + 1);
      ThenSuccess(d.rules[i..j], d.rules[j..]);
      assert d.rules[i..j] + d.rules[j..] == d.rules[i..];
    }
  }

  /** The decoder recovers every rule and terminal token in order. */
  lemma RoundTrip(d: EncodedData, p: Node, c: Node, records: seq<Record>)
    requires Encodes(d, p, c, records)
    ensures DecodeFrom(d, 0) == Success(d.rules)
    ensures Validation(d) == Success(())
  {
    BlocksDecode(d, p, c, records, 0);
    hide DecodeFrom, Encodes;
    LastBlock(|d.rules|);
    assert d.rules[0..] == d.rules;
  }
}
