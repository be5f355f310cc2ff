// Decoding the compressed rule table, and the generator's check of its own output.
module PublicSuffixDecoder {
  import opened Wrappers
  import opened Alphabet
  import opened BitStream
  import opened HuffmanCodes
  import opened RuleOrder
  import opened FrontCoding

  datatype EncodedData = EncodedData(
    rules: seq<Rule>,
    encodedRules: seq<bv8>,
    blockBitOffsets: seq<nat>,
    prefixTree: seq<nat>,
    contentTree: seq<nat>,
    maximumRuleLength: nat,
    maximumRuleLabelCount: nat)

  datatype DecodeError = IndexError | PrefixTooLong | InvalidToken | NoRoundTrip

  // ---------------------------------------------------------------------------------------------
  // What the decoder computes

  function AllBits(data: seq<bv8>): seq<bool> {
    BitsOf(data, 8 * |data|)
  }

  /** Append characters until a terminal token is read. */
  function DecodeContent(bits: seq<bool>, position: nat, table: seq<nat>, text: string)
    : Result<(Rule, nat), DecodeError>
    decreases |bits| - position
  {
    match Walk(bits, position, table, 0)
    case None => Failure(IndexError)
    case Some((token, next)) =>
      if token <= EXCEPTION_TOKEN then Success((Rule(text, token), next))
      else
        match TokenCharacter(token)
        case None => Failure(InvalidToken)
        case Some(c) => DecodeContent(bits, next, table, text + [c])
  }

  function DecodeRule(bits: seq<bool>, position: nat, d: EncodedData, previous: string)
    : Result<(Rule, nat), DecodeError>
  {
    match Walk(bits, position, d.prefixTree, 0)
    case None => Failure(IndexError)
    case Some((length, next)) =>
      if length > |previous| then Failure(PrefixTooLong)
      else DecodeContent(bits, next, d.contentTree, previous[..length])
  }

  /** A run of rules, each of them relative to the one before. */
  function DecodeRules(bits: seq<bool>, position: nat, d: EncodedData, previous: string, count: nat)
    : Result<seq<Rule>, DecodeError>
    decreases count
  {
    if count == 0 then Success([])
    else
      match DecodeRule(bits, position, d, previous)
      case Failure(e) => Failure(e)
      case Success((rule, next)) => Then([rule], DecodeRules(bits, next, d, rule.text, count - 1))
  }

  function Then(first: seq<Rule>, rest: Result<seq<Rule>, DecodeError>): Result<seq<Rule>, DecodeError> {
    match rest
    case Failure(e) => Failure(e)
    case Success(rules) => Success(first + rules)
  }

  function BlockCount(d: EncodedData): nat {
    if |d.blockBitOffsets| == 0 then 0 else |d.blockBitOffsets| - 1
  }

  /** How many rules the block holds. */
  function BlockRules(d: EncodedData, block: nat): nat {
    var first := block * BLOCK_SIZE;
    if |d.rules| <= first then 0 else if |d.rules| - first < BLOCK_SIZE then |d.rules| - first else BLOCK_SIZE
  }

  /** Every block is decoded from its own offset, with no rule before its first one. */
  function DecodeBlock(d: EncodedData, block: nat): Result<seq<Rule>, DecodeError>
    requires block < BlockCount(d)
  {
    DecodeRules(AllBits(d.encodedRules), d.blockBitOffsets[block], d, [], BlockRules(d, block))
  }

  function DecodeFrom(d: EncodedData, block: nat): Result<seq<Rule>, DecodeError>
    requires block <= BlockCount(d)
    decreases BlockCount(d) - block
  {
    if block == BlockCount(d) then Success([])
    else
      match DecodeBlock(d, block)
      case Failure(e) => Failure(e)
      case Success(rules) => Then(rules, DecodeFrom(d, block + 1))
  }

  function Validation(d: EncodedData): Result<(), DecodeError> {
    match DecodeFrom(d, 0)
    case Failure(e) => Failure(e)
    case Success(rules) => if rules == d.rules then Success(()) else Failure(NoRoundTrip)
  }

  lemma ThenThen(p: seq<Rule>, q: seq<Rule>, r: Result<seq<Rule>, DecodeError>)
    ensures Then(p, Then(q, r)) == Then(p + q, r)
  {
    if r.Success? {
      assert p + (q + r.value) == p + q + r.value;
    }
  }

  lemma ThenNothing(p: seq<Rule>)
    ensures Then([], Success(p)) == Success(p) && Then(p, Success([])) == Success(p)
  {
    assert [] + p == p && p + [] == p;
  }

  lemma ThenSuccess(first: seq<Rule>, rest: seq<Rule>)
    ensures Then(first, Success(rest)) == Success(first + rest)
  {}

  lemma RulesStep(bits: seq<bool>, position: nat, d: EncodedData, previous: string, count: nat, rule: Rule, next: nat)
    requires count > 0 && DecodeRule(bits, position, d, previous) == Success((rule, next))
    ensures DecodeRules(bits, position, d, previous, count) == Then([rule], DecodeRules(bits, next, d, rule.text, count - 1))
  {}

  lemma RulesFail(bits: seq<bool>, position: nat, d: EncodedData, previous: string, count: nat, before: seq<Rule>)
    requires count > 0 && DecodeRule(bits, position, d, previous).Failure?
    ensures Then(before, DecodeRules(bits, position, d, previous, count))
         == Failure(DecodeRule(bits, position, d, previous).error)
  {}

  lemma NoRules(bits: seq<bool>, position: nat, d: EncodedData, previous: string)
    ensures DecodeRules(bits, position, d, previous, 0) == Success([])
  {}

  lemma BlockIs(d: EncodedData, block: nat, n: nat)
    requires block < BlockCount(d) && n == BlockRules(d, block)
    ensures block < |d.blockBitOffsets|
    ensures DecodeBlock(d, block) == DecodeRules(AllBits(d.encodedRules), d.blockBitOffsets[block], d, [], n)
  {}

  // ---------------------------------------------------------------------------------------------
  // How it computes it

  method DecodeOneRule(reader: BitReader, d: EncodedData, previous: string) returns (r: Result<Rule, DecodeError>)
    requires reader.data == d.encodedRules
    modifies reader
    ensures match DecodeRule(AllBits(d.encodedRules), old(reader.bitPosition), d, previous)
            case Failure(e) => r == Failure(e)
            case Success((rule, next)) => r == Success(rule) && reader.bitPosition == next
  {
    ghost var bits := AllBits(d.encodedRules);
    ghost var spec := DecodeRule(bits, reader.bitPosition, d, previous);
    var length := DecodeHuffmanToken(reader, d.prefixTree);
    if length == None {
      return Failure(IndexError);
    }
    if length.value > |previous| {
      return Failure(PrefixTooLong);
    }
    var text := previous[..length.value];
    while true
      invariant DecodeContent(bits, reader.bitPosition, d.contentTree, text) == spec
      decreases |bits| - reader.bitPosition
    {
      hide Walk, IsLeafEntry, DecodeRule;
      var token := DecodeHuffmanToken(reader, d.contentTree);
      if token == None {
        return Failure(IndexError);
      }
      if token.value <= EXCEPTION_TOKEN {
        return Success(Rule(text, token.value));
      }
      var character := TokenCharacter(token.value);
      if character == None {
        return Failure(InvalidToken);
      }
      text := text + [character.value];
    }
  }

  method DecodeOneBlock(d: EncodedData, block: nat) returns (r: Result<seq<Rule>, DecodeError>)
    requires block < BlockCount(d)
    ensures r == DecodeBlock(d, block)
  {
    hide *;
    var count := BlockRules(d, block);
    BlockIs(d, block, count);
    var reader := new BitReader(d.encodedRules, d.blockBitOffsets[block]);
    var previous: string := [];
    var rules: seq<Rule> := [];
    ghost var bits := AllBits(d.encodedRules);
    ThenIdentity(DecodeBlock(d, block));
    for i := 0 to count
      invariant Then(rules, DecodeRules(bits, reader.bitPosition, d, previous, count - i)) == DecodeBlock(d, block)
    {
      ghost var position := reader.bitPosition;
      var rule := DecodeOneRule(reader, d, previous);
      if rule.Failure? {
        RulesFail(bits, position, d, previous, count - i, rules);
        return Failure(rule.error);
      }
      RulesStep(bits, position, d, previous, count - i, rule.value, reader.bitPosition);
      ThenThen(rules, [rule.value], DecodeRules(bits, reader.bitPosition, d, rule.value.text, count - i - 1));
      rules := rules + [rule.value];
      previous := rule.value.text;
    }
    NoRules(bits, reader.bitPosition, d, previous);
    ThenNothing(rules);
    return Success(rules);
  }

  lemma ThenIdentity(r: Result<seq<Rule>, DecodeError>)
    ensures Then([], r) == r
  {
    if r.Success? {
      ThenNothing(r.value);
    }
  }

  /** The check at the end of encoding. */
  method ValidateDecoding(d: EncodedData) returns (r: Result<(), DecodeError>)
    ensures r == Validation(d)
  {
    var decoded: seq<Rule> := [];
    ThenIdentity(DecodeFrom(d, 0));
    for block := 0 to BlockCount(d)
      invariant Then(decoded, DecodeFrom(d, block)) == DecodeFrom(d, 0)
    {
      hide DecodeBlock;
      var rules := DecodeOneBlock(d, block);
      if rules.Failure? {
        return Failure(rules.error);
      }
      ThenThen(decoded, rules.value, DecodeFrom(d, block + 1));
      decoded := decoded + rules.value;
    }
    ThenNothing(decoded);
    if decoded != d.rules {
      return Failure(NoRoundTrip);
    }
    return Success(());
  }
}
