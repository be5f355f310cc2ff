// Any sequence of Huffman tokens is read back from the bytes its codes were written to.
module TokenSequences {
  import opened Wrappers
  import opened BitStream
  import opened Huffman
  import opened HuffmanCodes
  import opened FrontCoding
  import opened StreamSize
  import opened PublicSuffixDecoder
  import opened PublicSuffixRoundTrip
  import opened PublicSuffixEncoder

  /** The tokens of a number of walks, each of which starts where the one before it ended. */
  function WalkAll(bits: seq<bool>, position: nat, table: seq<nat>, count: nat): Option<(seq<nat>, nat)>
    decreases count
  {
    if count == 0 then Some(([], position))
    else
      match Walk(bits, position, table, 0)
      case None => None
      case Some((token, next)) =>
        match WalkAll(bits, next, table, count - 1)
        case None => None
        case Some((rest, end)) => Some(([token] + rest, end))
  }

  lemma WalkAllStep(bits: seq<bool>, position: nat, table: seq<nat>, tokens: seq<nat>, next: nat, end: nat)
    requires tokens != [] && Walk(bits, position, table, 0) == Some((tokens[0], next))
    requires WalkAll(bits, next, table, |tokens| - 1) == Some((tokens[1..], end))
    ensures WalkAll(bits, position, table, |tokens|) == Some((tokens, end))
  {
    hide Walk;
    assert [tokens[0]] + tokens[1..] == tokens;
  }

  lemma NoWalks(bits: seq<bool>, position: nat, table: seq<nat>)
    ensures WalkAll(bits, position, table, 0) == Some(([], position))
  {}

  /** Walks over the codes of a token sequence return the sequence and end behind its last code. */
  lemma {:induction false} SpellingDecodes(bits: seq<bool>, position: nat, table: seq<nat>, t: Node, tokens: seq<nat>)
    requires Represents(table, 0, t) && Spells(t, tokens)
    requires position <= |bits| && Spelling(t, tokens) <= bits[position..]
    ensures WalkAll(bits, position, table, |tokens|) == Some((tokens, position + |Spelling(t, tokens)|))
    decreases |tokens|
  {
    hide *;
    if tokens == [] {
      NothingSpelled(t);
      NoWalks(bits, position, table);
    } else {
      SpellingStep(bits, position, table, t, tokens);
      var next := position + |Path(t, tokens[0])|;
      SpellingDecodes(bits, next, table, t, tokens[1..]);
      WalkAllStep(bits, position, table, tokens, next, next + |Spelling(t, tokens[1..])|);
    }
  }

  /**
   * Behind whatever was written before, any sequence of a tree's tokens is read back from the bytes
   * of the writer. The walks consume as many bits as the lengths of its codes add up to.
   */
  lemma WrittenTokensDecode(writer: BitWriter, before: seq<bool>, table: seq<nat>, t: Node, tokens: seq<nat>)
    requires Represents(table, 0, t) && Spells(t, tokens)
    requires writer.Valid() && writer.Bits() == before + Spelling(t, tokens)
    ensures WalkAll(AllBits(writer.data), |before|, table, |tokens|)
         == Some((tokens, |before| + TotalBits(t, CountAll(tokens))))
  {
    hide *;
    WriterHolds(writer);
    BitsInBytes(writer.data, writer.bitLength);
    MiddlePart(before, Spelling(t, tokens), AllBits(writer.data));
    SpellingLength(t, tokens);
    SpellingDecodes(AllBits(writer.data), |before|, table, t, tokens);
  }
}
