// The length of the bit stream, and why no other pair of trees makes it shorter.
module StreamSize {
  import opened Collections
  import opened Huffman
  import opened HuffmanOptimality
  import opened FrontCoding

  lemma SpellingCons(t: Node, k: nat, rest: seq<nat>)
    requires k in Tokens(t) && Spells(t, rest)
    ensures Spells(t, [k] + rest) && Spelling(t, [k] + rest) == Path(t, k) + Spelling(t, rest)
  {
    assert ([k] + rest)[1..] == rest;
  }

  lemma SpellsParts(t: Node, tokens: seq<nat>)
    requires Spells(t, tokens) && tokens != []
    ensures tokens[0] in Tokens(t) && Spells(t, tokens[1..])
  {}

  lemma {:induction false} SpellingAppend(t: Node, a: seq<nat>, b: seq<nat>)
    requires Spells(t, a) && Spells(t, b)
    ensures Spells(t, a + b) && Spelling(t, a + b) == Spelling(t, a) + Spelling(t, b)
  {
    hide *;
    if a == [] {
      NothingSpelled(t);
      assert a + b == b;
    } else {
      SpellsParts(t, a);
      SpellingAppend(t, a[1..], b);
      SpellingCons(t, a[0], a[1..] + b);
      SpellingCons(t, a[0], a[1..]);
      assert [a[0]] + (a[1..] + b) == a + b && [a[0]] + a[1..] == a;
    }
  }

  lemma SpellingOne(t: Node, k: nat)
    requires k in Tokens(t)
    ensures Spells(t, [k]) && Spelling(t, [k]) == Path(t, k)
  {
    assert [k][1..] == [];
  }

  lemma BumpOthers(t: Node, f: Frequencies, k: nat, s: set<nat>)
    requires k !in s
    ensures Sum(s, Spent(t, Bump(f, k))) == Sum(s, Spent(t, f))
  {
    SumCongruent(s, Spent(t, Bump(f, k)), Spent(t, f));
  }

  lemma SpentAt(t: Node, f: Frequencies, k: nat)
    ensures Spent(t, f)(k) == Count(f, k) * CodeLength(t, k)
  {}

  lemma BumpCount(f: Frequencies, k: nat)
    ensures Count(Bump(f, k), k) == 1 + Count(f, k)
  {}

  lemma LengthOfPath(t: Node, k: nat)
    requires k in Tokens(t)
    ensures CodeLength(t, k) == |Path(t, k)|
  {}

  lemma Distribute(n: nat, c: nat)
    ensures (1 + n) * c == c + n * c
  {}

  lemma OneMoreOccurrence(t: Node, f: Frequencies, k: nat)
    requires k in Tokens(t)
    ensures Spent(t, Bump(f, k))(k) == Spent(t, f)(k) + |Path(t, k)|
  {
    hide *;
    SpentAt(t, f, k);
    SpentAt(t, Bump(f, k), k);
    BumpCount(f, k);
    LengthOfPath(t, k);
    Distribute(Count(f, k), CodeLength(t, k));
  }

  /** One more occurrence of a token costs its code. */
  lemma BumpBits(t: Node, f: Frequencies, k: nat)
    requires k in Tokens(t)
    ensures TotalBits(t, Bump(f, k)) == TotalBits(t, f) + |Path(t, k)|
  {
    SumPick(Tokens(t), k, Spent(t, f));
    SumPick(Tokens(t), k, Spent(t, Bump(f, k)));
    OneMoreOccurrence(t, f, k);
    hide Spent, Bump, Tokens;
    BumpOthers(t, f, k, Tokens(t) - {k});
  }

  lemma {:induction false} NoBits(t: Node, s: set<nat>)
    ensures Sum(s, Spent(t, map[])) == 0
    decreases |s|
  {
    if s != {} {
      var x :| x in s;
      SumPick(s, x, Spent(t, map[]));
      NoBits(t, s - {x});
    }
  }

  /** A text is spelled in as many bits as its token counts say. */
  lemma {:induction false} SpellingLength(t: Node, tokens: seq<nat>)
    requires Spells(t, tokens)
    ensures |Spelling(t, tokens)| == TotalBits(t, CountAll(tokens))
  {
    if tokens == [] {
      NoBits(t, Tokens(t));
    } else {
      var n := |tokens| - 1;
      hide CountAll, Bump, Spelling, TotalBits, Path;
      SpellingLength(t, tokens[..n]);
      BumpBits(t, CountAll(tokens[..n]), tokens[n]);
      SpellingOne(t, tokens[n]);
      SpellingAppend(t, tokens[..n], [tokens[n]]);
      CountAllNext(tokens[..n], tokens[n]);
      assert tokens[..n] + [tokens[n]] == tokens;
    }
  }

  lemma {:induction false} StreamParts(p: Node, c: Node, records: seq<Record>)
    requires Writable(p, c, records)
    ensures Spells(p, PrefixTokens(records)) && Spells(c, ContentTokens(records))
    ensures |StreamBits(p, c, records)|
         == |Spelling(p, PrefixTokens(records))| + |Spelling(c, ContentTokens(records))|
  {
    if records != [] {
      var n := |records| - 1;
      var (front, last) := (records[..n], records[n]);
      StreamParts(p, c, front);
      SpellingOne(p, last.prefixLength);
      SpellingAppend(p, PrefixTokens(front), [last.prefixLength]);
      SpellingAppend(c, ContentTokens(front), last.content);
    }
  }

  /** The stream's length is the sum over both alphabets of count times code length. */
  lemma StreamLength(p: Node, c: Node, records: seq<Record>)
    requires Writable(p, c, records)
    ensures |StreamBits(p, c, records)|
         == TotalBits(p, CountAll(PrefixTokens(records))) + TotalBits(c, CountAll(ContentTokens(records)))
  {
    StreamParts(p, c, records);
    SpellingLength(p, PrefixTokens(records));
    SpellingLength(c, ContentTokens(records));
  }

  lemma {:induction false} TreesWrite(p: Node, c: Node, records: seq<Record>)
    requires CountAll(PrefixTokens(records)).Keys <= Tokens(p)
    requires CountAll(ContentTokens(records)).Keys <= Tokens(c)
    ensures Writable(p, c, records)
  {
    forall i | 0 <= i < |records|
      ensures records[i].prefixLength in Tokens(p) && Spells(c, records[i].content)
    {
      TokensOfRecord(records, i);
      CountAllKeys(PrefixTokens(records), records[i].prefixLength);
      forall j | 0 <= j < |records[i].content|
        ensures records[i].content[j] in Tokens(c)
      {
        CountAllKeys(ContentTokens(records), records[i].content[j]);
      }
    }
  }

  lemma {:induction false} TokensOfRecord(records: seq<Record>, i: nat)
    requires i < |records|
    ensures records[i].prefixLength in PrefixTokens(records)
    ensures forall j :: 0 <= j < |records[i].content| ==> records[i].content[j] in ContentTokens(records)
  {
    var n := |records| - 1;
    if i < n {
      TokensOfRecord(records[..n], i);
    }
  }

  /** No other pair of trees over the same two alphabets writes the records in fewer bits. */
  lemma StreamIsShortest(records: seq<Record>, p: Node, c: Node)
    requires |CountAll(PrefixTokens(records))| >= 2 && |CountAll(ContentTokens(records))| >= 2
    requires TreeOver(p, CountAll(PrefixTokens(records)).Keys)
    requires TreeOver(c, CountAll(ContentTokens(records)).Keys)
    ensures var p' := HuffmanTree(CountAll(PrefixTokens(records)));
            var c' := HuffmanTree(CountAll(ContentTokens(records)));
            && Writable(p', c', records) && Writable(p, c, records)
            && |StreamBits(p', c', records)| <= |StreamBits(p, c, records)|
  {
    hide *;
    var (f, g) := (CountAll(PrefixTokens(records)), CountAll(ContentTokens(records)));
    HuffmanTreeOver(f);
    HuffmanTreeOver(g);
    OverKeys(HuffmanTree(f), f.Keys);
    OverKeys(HuffmanTree(g), g.Keys);
    OverKeys(p, f.Keys);
    OverKeys(c, g.Keys);
    TreesWrite(HuffmanTree(f), HuffmanTree(g), records);
    TreesWrite(p, c, records);
    StreamLength(HuffmanTree(f), HuffmanTree(g), records);
    StreamLength(p, c, records);
    HuffmanIsOptimal(f, p);
    HuffmanIsOptimal(g, c);
  }

  lemma OverKeys(t: Node, keys: set<nat>)
    requires TreeOver(t, keys)
    ensures Tokens(t) == keys && Distinct(t)
  {}
}
