// What a token of a paragraph is, told by the positions of its characters.
module TokenShapes {
  import opened Wrappers
  import opened ParagraphTokens

  ghost predicate Letter(c: char) {
    'a' <= c <= 'z' || 'A' <= c <= 'Z'
  }

  ghost predicate NameOrColon(c: char) {
    Letter(c) || '0' <= c <= '9' || c == '_' || c == '-' || c == ':'
  }

  /** Names of a letter and more, each between colons, and a backtick behind the last colon. */
  ghost predicate RolePrefix(s: string, m: nat) {
    && 4 <= m <= |s| && s[0] == ':' && s[m - 2] == ':' && s[m - 1] == '`'
    && (forall i :: 0 <= i < m - 2 ==> NameOrColon(s[i]))
    && (forall i :: 0 <= i < m - 2 && s[i] == ':' ==> Letter(s[i + 1]))
  }

  ghost predicate TwoTicks(s: string, k: nat) {
    k + 1 < |s| && s[k] == '`' && s[k + 1] == '`'
  }

  /** A literal from two backticks to the next two, or a role up to the first backtick of its text. */
  ghost predicate ClosedMarkup(s: string, n: nat) {
    || (TwoTicks(s, 0) && 4 <= n && TwoTicks(s, n - 2) && forall k :: 2 <= k < n - 2 ==> !TwoTicks(s, k))
    || exists m: nat :: RolePrefix(s, m) && m < n <= |s| && s[n - 1] == '`' && forall k :: m <= k < n - 1 ==> s[k] != '`'
  }

  /** A word, up to the first white space. */
  ghost predicate Word(s: string, n: nat) {
    0 < n <= |s| && (forall i :: 0 <= i < n ==> !IsSpace(s[i])) && (n < |s| ==> IsSpace(s[n]))
  }

  /** Closed markup, or a word where none begins, with all the punctuation that follows. */
  ghost predicate TokenWithBody(s: string, n: nat, body: nat) {
    && 0 < body <= n <= |s|
    && (ClosedMarkup(s, body) || (Word(s, body) && forall k :: !ClosedMarkup(s, k)))
    && (forall i :: body <= i < n ==> s[i] in ",.;:") && (n < |s| ==> s[n] !in ",.;:")
  }

  ghost predicate IsToken(s: string, n: nat) {
    exists body :: TokenWithBody(s, n, body)
  }

  // ---------------------------------------------------------------------------------------------
  // The searches

  lemma {:induction false} FirstTick(s: string, n: nat)
    ensures FindTick(s) == Some(n) <==> n < |s| && s[n] == '`' && forall k :: 0 <= k < n ==> s[k] != '`'
  {
    if s != "" && s[0] != TICK {
      if n > 0 {
        FirstTick(s[1..], n - 1);
        assert forall k :: 0 < k < |s| ==> s[k] == s[1..][k - 1];
        assert n < |s| ==> s[n] == s[1..][n - 1];
        if n < |s| && forall k :: 0 <= k < n ==> s[k] != '`' {
          forall k | 0 <= k < n - 1
            ensures s[1..][k] != '`'
          {
            assert s[k + 1] != '`';
          }
        }
      }
    }
  }

  lemma TicksRest(s: string, k: nat)
    requires s != ""
    ensures TwoTicks(s[1..], k) == TwoTicks(s, k + 1)
  {}

  lemma {:induction false} FirstTwoTicks(s: string, n: nat)
    ensures FindTicks(s) == Some(n) <==> TwoTicks(s, n) && forall k :: 0 <= k < n ==> !TwoTicks(s, k)
  {
    assert TwoTicks(s, 0) == StartsLiteral(s);
    if s != "" && !StartsLiteral(s) && n > 0 {
      FirstTwoTicks(s[1..], n - 1);
      hide TwoTicks;
      TicksRest(s, n - 1);
      forall k: nat
        ensures TwoTicks(s[1..], k) == TwoTicks(s, k + 1)
      {
        TicksRest(s, k);
      }
      if forall k :: 0 <= k < n - 1 ==> !TwoTicks(s[1..], k) {
        forall k | 0 <= k < n
          ensures !TwoTicks(s, k)
        {
          if k > 0 {
            assert !TwoTicks(s[1..], k - 1);
          }
        }
      }
    }
  }

  // ---------------------------------------------------------------------------------------------
  // Role prefixes

  /** What follows the first colon of a role. */
  ghost predicate NamesShape(s: string, m: nat) {
    && 3 <= m <= |s| && Letter(s[0]) && s[m - 2] == ':' && s[m - 1] == '`'
    && (forall i :: 0 <= i < m - 2 ==> NameOrColon(s[i]))
    && (forall i :: 0 <= i < m - 2 && s[i] == ':' ==> Letter(s[i + 1]))
  }

  lemma {:induction false} NameRun(s: string)
    ensures var n := NameLength(s);
      && (forall i :: 0 <= i < n ==> NameOrColon(s[i]) && s[i] != ':')
      && (n < |s| ==> s[n] == ':' || !NameOrColon(s[n]))
  {
    if s != "" && IsNameCharacter(s[0]) {
      NameRun(s[1..]);
      assert forall i :: 0 < i < |s| ==> s[i] == s[1..][i - 1];
    }
  }

  lemma {:induction false} NamesSound(s: string, m: nat)
    requires NamesLength(s) == Some(m)
    ensures NamesShape(s, m)
    decreases |s|
  {
    hide NamesLength, NamesAfter, NameLength;
    NamesParts(s, m);
    var n := 1 + NameLength(s[1..]);
    NameRun(s[1..]);
    assert forall i :: 0 < i < n ==> s[i] == s[1..][i - 1];
    if s[n + 1] != TICK {
      NamesSound(s[n + 1..], m - n - 1);
      assert forall i :: n < i < |s| ==> s[i] == s[n + 1..][i - n - 1];
    }
  }

  lemma {:induction false} NamesComplete(s: string, m: nat)
    requires NamesShape(s, m)
    ensures NamesLength(s) == Some(m)
    decreases |s|
  {
    hide NamesLength, NamesAfter, NameLength;
    var n := 1 + NameLength(s[1..]);
    NameRun(s[1..]);
    assert forall i :: 0 < i < |s| ==> s[i] == s[1..][i - 1];
    assert n <= m - 2;
    assert n < |s| && s[1..][n - 1] == s[n];
    assert s[n] == ':' by {
      if n < m - 2 {
        assert NameOrColon(s[n]);
      }
    }
    NamesFrom(s, n);
    if n < m - 2 {
      assert Letter(s[n + 1]);
      NamesRestShape(s, m, n);
      NamesComplete(s[n + 1..], m - n - 1);
    }
  }

  lemma NamesRestShape(s: string, m: nat, n: nat)
    requires NamesShape(s, m) && 0 < n < m - 2 && s[n] == ':'
    ensures NamesShape(s[n + 1..], m - n - 1)
  {
    var rest := s[n + 1..];
    assert forall i :: 0 <= i < |rest| ==> rest[i] == s[n + 1 + i];
    assert Letter(s[n + 1]);
    assert m != n + 3;
  }

  lemma RoleIsPrefix(s: string, m: nat)
    ensures RoleLength(s) == Some(m) <==> RolePrefix(s, m)
  {
    hide NamesLength, NamesAfter;
    if RoleLength(s) == Some(m) {
      RoleIs(s, m);
      NamesSound(s[1..], m - 1);
      assert forall i :: 0 < i < |s| ==> s[i] == s[1..][i - 1];
    }
    if RolePrefix(s, m) {
      PrefixNames(s, m);
      NamesComplete(s[1..], m - 1);
    }
  }

  lemma PrefixNames(s: string, m: nat)
    requires RolePrefix(s, m)
    ensures NamesShape(s[1..], m - 1)
  {
    var rest := s[1..];
    assert forall i :: 0 <= i < |rest| ==> rest[i] == s[i + 1];
  }

  // ---------------------------------------------------------------------------------------------
  // Tokens

  lemma LiteralMarkup(s: string, n: nat)
    requires StartsLiteral(s)
    ensures AtomicLength(s) == Some(n) <==> ClosedMarkup(s, n)
  {
    hide FindTicks;
    assert forall m :: !RolePrefix(s, m);
    if n >= 4 {
      FirstTwoTicks(s[2..], n - 4);
      assert forall k: nat :: TwoTicks(s[2..], k) == TwoTicks(s, k + 2);
      assert (forall k :: 2 <= k < n - 2 ==> !TwoTicks(s, k)) <==> (forall k :: 0 <= k < n - 4 ==> !TwoTicks(s[2..], k)) by {
        hide TwoTicks;
        if forall k :: 0 <= k < n - 4 ==> !TwoTicks(s[2..], k) {
          forall k | 2 <= k < n - 2
            ensures !TwoTicks(s, k)
          {
            assert !TwoTicks(s[2..], k - 2);
          }
        }
      }
    }
  }

  lemma RoleMarkup(s: string, n: nat)
    requires !StartsLiteral(s)
    ensures AtomicLength(s) == Some(n) <==> ClosedMarkup(s, n)
  {
    hide RoleLength, FindTick;
    if AtomicLength(s) == Some(n) {
      var m := RoleLength(s).value;
      RoleIsPrefix(s, m);
      FirstTick(s[m..], n - m - 1);
      hide RolePrefix;
      assert forall k :: m <= k < |s| ==> s[k] == s[m..][k - m];
    }
    if ClosedMarkup(s, n) {
      var m: nat :| RolePrefix(s, m) && m < n <= |s| && s[n - 1] == '`' && forall k :: m <= k < n - 1 ==> s[k] != '`';
      RoleIsPrefix(s, m);
      hide RolePrefix;
      FirstTick(s[m..], n - m - 1);
    }
  }

  /** The tokenizer finds closed markup exactly where it is. */
  lemma MarkupIsAtomic(s: string, n: nat)
    ensures AtomicLength(s) == Some(n) <==> ClosedMarkup(s, n)
  {
    hide AtomicLength, ClosedMarkup;
    if StartsLiteral(s) {
      LiteralMarkup(s, n);
    } else {
      RoleMarkup(s, n);
    }
  }

  lemma {:induction false} TrailRun(s: string, n: nat)
    requires n <= |s|
    ensures n == TrailLength(s) <==> (forall i :: 0 <= i < n ==> s[i] in ",.;:") && (n < |s| ==> s[n] !in ",.;:")
  {
    if n > 0 && IsTrailing(s[0]) {
      TrailRun(s[1..], n - 1);
      assert forall i :: 0 < i < |s| ==> s[i] == s[1..][i - 1];
      assert (forall i :: 0 <= i < n ==> s[i] in ",.;:") <==> (forall i :: 0 <= i < n - 1 ==> s[1..][i] in ",.;:") by {
        if forall i :: 0 <= i < n ==> s[i] in ",.;:" {
          forall i | 0 <= i < n - 1
            ensures s[1..][i] in ",.;:"
          {
            assert s[i + 1] in ",.;:";
          }
        }
      }
    }
  }

  lemma {:induction false} WordRun(s: string, n: nat)
    requires n <= |s|
    ensures n == RunLength(s) <==> (forall i :: 0 <= i < n ==> !IsSpace(s[i])) && (n < |s| ==> IsSpace(s[n]))
  {
    hide IsSpace;
    if n > 0 && !IsSpace(s[0]) {
      WordRun(s[1..], n - 1);
      assert forall i :: 0 < i < |s| ==> s[i] == s[1..][i - 1];
      if forall i :: 0 <= i < n ==> !IsSpace(s[i]) {
        forall i | 0 <= i < n - 1
          ensures !IsSpace(s[1..][i])
        {
          assert !IsSpace(s[i + 1]);
        }
      }
    }
  }

  lemma WordIsRun(s: string, n: nat)
    requires s != "" && !IsSpace(s[0])
    ensures Word(s, n) <==> n == 1 + RunLength(s[1..])
  {
    if 0 < n <= |s| {
      WordRun(s, n);
    }
    hide IsSpace;
    assert RunLength(s) == 1 + RunLength(s[1..]);
  }

  lemma BodyIs(s: string, body: nat)
    requires s != "" && !IsSpace(s[0])
    ensures (ClosedMarkup(s, body) || (Word(s, body) && forall k :: !ClosedMarkup(s, k)))
       <==> body == if AtomicLength(s).Some? then AtomicLength(s).value else 1 + RunLength(s[1..])
  {
    WordIsRun(s, body);
    hide ClosedMarkup, Word, AtomicLength, RunLength, IsSpace;
    forall k: nat
      ensures AtomicLength(s) == Some(k) <==> ClosedMarkup(s, k)
    {
      MarkupIsAtomic(s, k);
    }
  }

  lemma TrailFrom(s: string, body: nat, n: nat)
    requires body <= n <= |s|
    ensures n == body + TrailLength(s[body..]) <==> (forall i :: body <= i < n ==> s[i] in ",.;:") && (n < |s| ==> s[n] !in ",.;:")
  {
    var rest := s[body..];
    TrailRun(rest, n - body);
    hide TrailLength;
    assert forall i :: 0 <= i < |rest| ==> rest[i] == s[body + i];
    assert forall i :: body <= i < |s| ==> s[i] == rest[i - body];
  }

  /** The token at the beginning of a text is the only one that has the shape of a token. */
  lemma TokenShape(s: string, n: nat)
    requires s != "" && !IsSpace(s[0])
    ensures IsToken(s, n) <==> n == TokenLength(s)
  {
    var body := if AtomicLength(s).Some? then AtomicLength(s).value else 1 + RunLength(s[1..]);
    assert TokenLength(s) == body + TrailLength(s[body..]);
    hide AtomicLength, RunLength, TrailLength, TokenLength, IsSpace, ClosedMarkup, Word;
    if IsToken(s, n) {
      var b :| TokenWithBody(s, n, b);
      BodyIs(s, b);
      TrailFrom(s, b, n);
    }
    if n == TokenLength(s) {
      BodyIs(s, body);
      TrailFrom(s, body, n);
      assert TokenWithBody(s, n, body);
    }
  }

  // ---------------------------------------------------------------------------------------------
  // The tokens of a text

  ghost predicate AllSpace(text: string, from: nat, to: nat) {
    from <= to <= |text| && forall i :: from <= i < to ==> IsSpace(text[i])
  }

  ghost predicate TokenAt(text: string, token: string, start: nat) {
    && start + |token| <= |text| && token == text[start..start + |token|]
    && token != "" && !IsSpace(token[0]) && IsToken(text[start..], |token|)
  }

  /** The tokens from a position on, each where it starts, with nothing but white space between them. */
  ghost predicate CutFrom(text: string, from: nat, tokens: seq<string>, starts: seq<nat>)
    decreases |tokens|
  {
    && |starts| == |tokens|
    && if tokens == [] then AllSpace(text, from, |text|)
       else AllSpace(text, from, starts[0]) && TokenAt(text, tokens[0], starts[0])
            && CutFrom(text, starts[0] + |tokens[0]|, tokens[1..], starts[1..])
  }

  lemma {:induction false} SkipIsSpace(s: string) returns (k: nat)
    ensures k <= |s| && SkipSpace(s) == s[k..] && AllSpace(s, 0, k)
  {
    hide IsSpace;
    if s == "" || !IsSpace(s[0]) {
      k := 0;
    } else {
      k := SkipIsSpace(s[1..]);
      assert s[1..][k..] == s[k + 1..];
      assert forall i :: 0 < i < |s| ==> s[i] == s[1..][i - 1];
      k := k + 1;
    }
  }

  lemma SpaceWithin(text: string, from: nat, k: nat)
    requires from <= |text| && AllSpace(text[from..], 0, k)
    ensures AllSpace(text, from, from + k)
  {
    hide IsSpace;
    assert forall i :: from <= i < |text| ==> text[i] == text[from..][i - from];
  }

  lemma TokenWithin(text: string, start: nat)
    requires start < |text| && !IsSpace(text[start])
    ensures var n := TokenLength(text[start..]); TokenAt(text, text[start..][..n], start)
  {
    var s := text[start..];
    TokenShape(s, TokenLength(s));
    hide IsToken, TokenLength, IsSpace;
    assert s[..TokenLength(s)] == text[start..start + TokenLength(s)];
  }

  lemma {:induction false} TokensAreCut(text: string, from: nat) returns (starts: seq<nat>)
    requires from <= |text|
    ensures CutFrom(text, from, Tokens(text[from..]), starts)
    decreases |text| - from
  {
    hide *;
    var s := text[from..];
    var k := SkipIsSpace(s);
    SpaceWithin(text, from, k);
    TokensStep(s);
    assert s[k..] == text[from + k..];
    var t := SkipSpace(s);
    if t == "" {
      starts := [];
      CutNothing(text, from);
    } else {
      var n := TokenLength(t);
      TokenWithin(text, from + k);
      assert t[n..] == text[from + k + n..];
      var rest := TokensAreCut(text, from + k + n);
      starts := [from + k] + rest;
      CutMore(text, from, t[..n], from + k, Tokens(t[n..]), rest);
    }
  }

  lemma CutNothing(text: string, from: nat)
    requires AllSpace(text, from, |text|)
    ensures CutFrom(text, from, [], [])
  {}

  lemma CutMore(text: string, from: nat, token: string, start: nat, tokens: seq<string>, starts: seq<nat>)
    requires AllSpace(text, from, start) && TokenAt(text, token, start) && CutFrom(text, start + |token|, tokens, starts)
    ensures CutFrom(text, from, [token] + tokens, [start] + starts)
  {
    hide TokenAt, AllSpace;
    assert ([token] + tokens)[1..] == tokens && ([start] + starts)[1..] == starts;
  }

  /** The text is its tokens and white space between them. */
  ghost predicate IsCut(text: string, tokens: seq<string>) {
    exists starts :: CutFrom(text, 0, tokens, starts)
  }

  lemma CutIntoTokens(text: string)
    ensures IsCut(text, Tokens(text))
  {
    hide *;
    var starts := TokensAreCut(text, 0);
    assert text[0..] == text;
    CutBy(text, Tokens(text), starts);
  }

  lemma CutBy(text: string, tokens: seq<string>, starts: seq<nat>)
    requires CutFrom(text, 0, tokens, starts)
    ensures IsCut(text, tokens)
  {
    hide CutFrom;
  }

  lemma {:induction false} SkipTo(text: string, from: nat, to: nat)
    requires AllSpace(text, from, to) && (to < |text| ==> !IsSpace(text[to]))
    ensures SkipSpace(text[from..]) == text[to..]
    decreases |text| - from
  {
    hide IsSpace;
    if from < to {
      assert text[from..][1..] == text[from + 1..];
      SkipTo(text, from + 1, to);
    }
  }

  lemma FirstOfCut(text: string, from: nat, tokens: seq<string>, starts: seq<nat>)
    requires CutFrom(text, from, tokens, starts) && tokens != []
    ensures starts != [] && AllSpace(text, from, starts[0]) && TokenAt(text, tokens[0], starts[0])
    ensures CutFrom(text, starts[0] + |tokens[0]|, tokens[1..], starts[1..])
  {}

  lemma TokenAtIs(text: string, token: string, start: nat)
    requires TokenAt(text, token, start)
    ensures start < |text| && !IsSpace(text[start]) && start + |token| <= |text|
    ensures token == text[start..][..TokenLength(text[start..])]
    ensures text[start..][|token|..] == text[start + |token|..]
  {
    TokenShape(text[start..], |token|);
    hide IsToken, TokenLength, IsSpace;
    assert text[start..][..|token|] == text[start..start + |token|];
  }

  /** A text can be cut in one way only. */
  lemma {:induction false} CutIsTokens(text: string, from: nat, tokens: seq<string>, starts: seq<nat>)
    requires from <= |text| && CutFrom(text, from, tokens, starts)
    ensures tokens == Tokens(text[from..])
    decreases |tokens|
  {
    hide *;
    TokensStep(text[from..]);
    if tokens == [] {
      CutEnds(text, from, starts);
    } else {
      FirstOfCut(text, from, tokens, starts);
      TokenAtIs(text, tokens[0], starts[0]);
      SkipTo(text, from, starts[0]);
      CutIsTokens(text, starts[0] + |tokens[0]|, tokens[1..], starts[1..]);
    }
  }

  lemma CutEnds(text: string, from: nat, starts: seq<nat>)
    requires from <= |text| && CutFrom(text, from, [], starts)
    ensures SkipSpace(text[from..]) == ""
  {
    SkipTo(text, from, |text|);
  }

  lemma OnlyCut(text: string, tokens: seq<string>)
    ensures IsCut(text, tokens) <==> tokens == Tokens(text)
  {
    CutIntoTokens(text);
    if IsCut(text, tokens) {
      var starts :| CutFrom(text, 0, tokens, starts);
      hide CutFrom;
      CutIsTokens(text, 0, tokens, starts);
      assert text[0..] == text;
    }
  }
}
