// Reflow of a paragraph: greedy lines that end after every sentence.
module ParagraphReflow {
  import opened Wrappers
  import opened ParagraphTokens
  import opened TokenShapes

  // ---------------------------------------------------------------------------------------------
  // The tokenizer loop

  /** The end of the token at the beginning of the rest of a paragraph. */
  method MeasureToken(token: string) returns (end: nat)
    requires token != "" && !IsSpace(token[0])
    ensures end == TokenLength(token)
  {
    hide *;
    var markup := AtomicLength(token);
    TokenParts(token);
    if markup.Some? {
      end := markup.value;
    } else {
      end := 1;
      RunNext(token, 1);
      while end < |token| && !IsSpace(token[end])
        invariant 1 <= end <= |token| && end + RunLength(token[end..]) == 1 + RunLength(token[1..])
      {
        RunNext(token, end);
        end := end + 1;
      }
      RunNext(token, end);
    }
    ghost var body := end;
    while end < |token| && IsTrailing(token[end])
      invariant body <= end <= |token| && end + TrailLength(token[end..]) == body + TrailLength(token[body..])
    {
      TrailNext(token, end);
      end := end + 1;
    }
    TrailNext(token, end);
  }

  method Tokenize(text: string) returns (result: seq<string>)
    ensures result == Tokens(text) && IsCut(text, result)
  {
    hide *;
    CutIntoTokens(text);
    result := [];
    var index: nat := 0;
    assert text[0..] == text && [] + Tokens(text) == Tokens(text);
    TokensNothing();
    while index < |text|
      invariant index <= |text| && Tokens(text) == result + Tokens(text[index..])
    {
      ghost var start := index;
      TokensStep(text[start..]);
      SkipNext(text, index);
      while index < |text| && IsSpace(text[index])
        invariant start <= index <= |text| && SkipSpace(text[index..]) == SkipSpace(text[start..])
      {
        SkipNext(text, index);
        index := index + 1;
      }
      SkipNext(text, index);
      if index >= |text| {
        break;
      }
      var length := MeasureToken(text[index..]);
      assert text[index..][length..] == text[index + length..];
      Regrouped(result, text[index..][..length], Tokens(text[index + length..]));
      result := result + [text[index..][..length]];
      index := index + length;
    }
    TokensEnd(text, index);
    assert result + [] == result;
  }

  lemma Regrouped(a: seq<string>, b: string, c: seq<string>)
    ensures a + ([b] + c) == a + [b] + c
  {}

  lemma TokensEnd(text: string, index: nat)
    requires index <= |text| && SkipSpace(text[index..]) == ""
    ensures Tokens(text[index..]) == []
  {
    hide SkipSpace;
  }

  lemma SkipNext(s: string, i: nat)
    requires i <= |s|
    ensures i < |s| && IsSpace(s[i]) ==> SkipSpace(s[i..]) == SkipSpace(s[i + 1..])
    ensures i < |s| && !IsSpace(s[i]) ==> SkipSpace(s[i..]) == s[i..]
    ensures i == |s| ==> SkipSpace(s[i..]) == ""
  {
    hide IsSpace;
    if i < |s| {
      assert s[i..][1..] == s[i + 1..];
    }
  }

  lemma RunNext(s: string, i: nat)
    requires i <= |s|
    ensures i < |s| && !IsSpace(s[i]) ==> RunLength(s[i..]) == 1 + RunLength(s[i + 1..])
    ensures i < |s| && IsSpace(s[i]) ==> RunLength(s[i..]) == 0
    ensures i == |s| ==> RunLength(s[i..]) == 0
  {
    hide IsSpace;
    if i < |s| {
      assert s[i..][1..] == s[i + 1..];
    }
  }

  lemma TrailNext(s: string, i: nat)
    requires i <= |s|
    ensures i < |s| && IsTrailing(s[i]) ==> TrailLength(s[i..]) == 1 + TrailLength(s[i + 1..])
    ensures i < |s| && !IsTrailing(s[i]) ==> TrailLength(s[i..]) == 0
    ensures i == |s| ==> TrailLength(s[i..]) == 0
  {
    hide IsTrailing;
    if i < |s| {
      assert s[i..][1..] == s[i + 1..];
    }
  }

  lemma TokenParts(s: string)
    requires s != "" && !IsSpace(s[0])
    ensures AtomicLength(s).Some? ==> TokenLength(s) == AtomicLength(s).value + TrailLength(s[AtomicLength(s).value..])
    ensures AtomicLength(s).None? ==> TokenLength(s) == 1 + RunLength(s[1..]) + TrailLength(s[1 + RunLength(s[1..])..])
  {
    hide AtomicLength, TrailLength, RunLength;
  }

  // ---------------------------------------------------------------------------------------------
  // Sentence ends

  /** The parts of the character database that the exceptions use. */
  datatype Unicode = Unicode(casefold: string -> string, isDigit: char -> bool)

  predicate IsWrapping(c: char) {
    c in "\"'()[]{}"
  }

  function StripLeft(s: string): string {
    if s == "" || !IsWrapping(s[0]) then s else StripLeft(s[1..])
  }

  function StripRight(s: string): string {
    if s == "" || !IsWrapping(s[|s| - 1]) then s else StripRight(s[..|s| - 1])
  }

  const ABBREVIATIONS: set<string> := {
    "ca.", "cf.", "ch.", "chap.", "e.g.", "etc.", "fig.", "figs.", "i.e.", "max.", "min.", "no.", "nos.",
    "ref.", "refs.", "sec.", "secs.", "std.", "vs." }

  predicate IsInitialism(s: string) {
    |s| >= 2 && IsLetter(s[0]) && s[1] == '.' && (|s| == 2 || IsInitialism(s[2..]))
  }

  predicate IsException(u: Unicode, token: string) {
    || u.casefold(token) in ABBREVIATIONS
    || IsInitialism(token)
    || (|token| >= 2 && u.isDigit(token[|token| - 2]) && token[|token| - 1] == '.')
  }

  /** A full stop that is no abbreviation, initial or number ends a sentence, also inside quotes or brackets. */
  predicate IsSentenceEnd(u: Unicode, token: string) {
    var t := StripRight(StripLeft(token));
    t != "" && t[|t| - 1] == '.' && !IsException(u, t)
  }

  // ---------------------------------------------------------------------------------------------
  // Sentence ends by positions

  ghost predicate Wrapping(c: char) {
    c == '"' || c == '\'' || c == '(' || c == ')' || c == '[' || c == ']' || c == '{' || c == '}'
  }

  /** The part of a token between the quotes and brackets around it. */
  ghost predicate Core(token: string, i: nat, j: nat) {
    && i < j <= |token| && !Wrapping(token[i]) && !Wrapping(token[j - 1])
    && (forall k :: 0 <= k < i ==> Wrapping(token[k])) && (forall k :: j <= k < |token| ==> Wrapping(token[k]))
  }

  /** Letters alternating with full stops. */
  ghost predicate Alternating(s: string) {
    |s| % 2 == 0 && forall k :: 0 <= k < |s| ==> if k % 2 == 0 then Letter(s[k]) else s[k] == '.'
  }

  /** A full stop that ends a sentence: none of an abbreviation, of initials or behind a digit. */
  ghost predicate FinalStop(u: Unicode, part: string) {
    && part != "" && part[|part| - 1] == '.'
    && u.casefold(part) !in ABBREVIATIONS && !Alternating(part) && !(|part| >= 2 && u.isDigit(part[|part| - 2]))
  }

  ghost predicate BreaksAfter(u: Unicode, token: string) {
    exists i: nat, j: nat :: Core(token, i, j) && FinalStop(u, token[i..j])
  }

  lemma WrappingIs(c: char)
    ensures IsWrapping(c) <==> Wrapping(c)
  {
    assert "\"'()[]{}" == ['"', '\'', '(', ')', '[', ']', '{', '}'];
  }

  lemma {:induction false} StripLeftIs(s: string) returns (i: nat)
    ensures i <= |s| && StripLeft(s) == s[i..] && (forall k :: 0 <= k < i ==> Wrapping(s[k]))
    ensures i < |s| ==> !Wrapping(s[i])
  {
    hide IsWrapping, Wrapping;
    if s == "" {
      i := 0;
    } else {
      WrappingIs(s[0]);
      if IsWrapping(s[0]) {
        i := StripLeftIs(s[1..]);
        assert forall k :: 0 < k < |s| ==> s[k] == s[1..][k - 1];
        assert s[1..][i..] == s[i + 1..];
        i := i + 1;
      } else {
        i := 0;
      }
    }
  }

  lemma {:induction false} StripRightIs(s: string) returns (j: nat)
    ensures j <= |s| && StripRight(s) == s[..j] && (forall k :: j <= k < |s| ==> Wrapping(s[k]))
    ensures j > 0 ==> !Wrapping(s[j - 1])
  {
    hide IsWrapping, Wrapping;
    if s == "" {
      j := 0;
    } else {
      var n := |s| - 1;
      WrappingIs(s[n]);
      if IsWrapping(s[n]) {
        j := StripRightIs(s[..n]);
        assert s[..n][..j] == s[..j];
        assert forall k :: 0 <= k < n ==> s[..n][k] == s[k];
      } else {
        j := |s|;
        assert s[..j] == s;
      }
    }
  }

  lemma CoreUnique(token: string, i: nat, j: nat, k: nat, l: nat)
    requires Core(token, i, j) && Core(token, k, l)
    ensures i == k && j == l
  {
    hide Wrapping;
  }

  /** What stripping leaves is the core, if there is one. */
  lemma StrippedIs(token: string)
    ensures var t := StripRight(StripLeft(token));
      (t != "" ==> exists i: nat, j: nat :: Core(token, i, j) && token[i..j] == t)
      && (t == "" ==> forall i: nat, j: nat :: !Core(token, i, j))
  {
    var i := StripLeftIs(token);
    var s := token[i..];
    var k := StripRightIs(s);
    hide Wrapping, StripLeft, StripRight;
    assert s[..k] == token[i..i + k];
    assert forall m :: i <= m < |token| ==> token[m] == s[m - i];
    if k > 0 {
      assert Core(token, i, i + k);
    } else {
      assert i == |token|;
    }
  }

  lemma {:induction false} InitialsAlternate(s: string)
    ensures IsInitialism(s) <==> s != "" && Alternating(s)
  {
    if |s| >= 2 && IsLetter(s[0]) && s[1] == '.' {
      InitialsAlternate(s[2..]);
      assert forall k :: 2 <= k < |s| ==> s[k] == s[2..][k - 2];
      assert forall k :: 0 <= k < |s| - 2 ==> s[2..][k] == s[k + 2] && (k + 2) % 2 == k % 2;
      hide IsLetter, Letter;
      if Alternating(s) {
        forall k | 0 <= k < |s[2..]|
          ensures if k % 2 == 0 then Letter(s[2..][k]) else s[2..][k] == '.'
        {
          assert s[k + 2] == s[2..][k];
        }
      }
    }
  }

  lemma FinalStopIs(u: Unicode, t: string)
    ensures FinalStop(u, t) <==> t != "" && t[|t| - 1] == '.' && !IsException(u, t)
  {
    InitialsAlternate(t);
    hide Alternating, IsInitialism;
  }

  /** The program tells sentence ends by the same parts of a token. */
  lemma BreaksAfterIs(u: Unicode, token: string)
    ensures BreaksAfter(u, token) <==> IsSentenceEnd(u, token)
  {
    StrippedIs(token);
    var t := StripRight(StripLeft(token));
    FinalStopIs(u, t);
    hide Wrapping, FinalStop, IsException, StripLeft, StripRight;
    if BreaksAfter(u, token) {
      var i: nat, j: nat :| Core(token, i, j) && FinalStop(u, token[i..j]);
      if t != "" {
        var k: nat, l: nat :| Core(token, k, l) && token[k..l] == t;
        CoreUnique(token, i, j, k, l);
      }
    }
  }

  // ---------------------------------------------------------------------------------------------
  // Layouts

  datatype Style = Style(width: nat, unicode: Unicode)

  predicate EndsSentence(style: Style, token: string) {
    IsSentenceEnd(style.unicode, token)
  }

  /** The first n tokens fit on one line, and only the last of them may end a sentence. */
  predicate Extends(style: Style, tokens: seq<string>, n: nat) {
    && 1 <= n <= |tokens| && |Join(tokens[..n])| <= style.width
    && forall i :: 0 <= i < n - 1 ==> !EndsSentence(style, tokens[i])
  }

  function LineFrom(style: Style, tokens: seq<string>, n: nat): (r: nat)
    requires 1 <= n <= |tokens|
    ensures n <= r <= |tokens|
    decreases |tokens| - n
  {
    if n < |tokens| && Extends(style, tokens, n + 1) then LineFrom(style, tokens, n + 1) else n
  }

  /** Lines as long as possible, one after the other. */
  function Greedy(style: Style, tokens: seq<string>): seq<seq<string>> {
    if tokens == [] then []
    else
      var n := LineFrom(style, tokens, 1);
      [tokens[..n]] + Greedy(style, tokens[n..])
  }

  function Flatten(layout: seq<seq<string>>): seq<string> {
    if layout == [] then [] else layout[0] + Flatten(layout[1..])
  }

  function Lines(layout: seq<seq<string>>): (r: seq<string>)
    ensures |r| == |layout|
  {
    seq(|layout|, i requires 0 <= i < |layout| => Join(layout[i]))
  }

  /** A layout of the tokens in lines that fit and that end after every sentence. */
  ghost predicate IsLayout(style: Style, layout: seq<seq<string>>, tokens: seq<string>) {
    Flatten(layout) == tokens && forall i :: 0 <= i < |layout| ==> Extends(style, layout[i], |layout[i]|)
  }

  ghost predicate AllFit(style: Style, tokens: seq<string>) {
    forall i :: 0 <= i < |tokens| ==> |tokens[i]| <= style.width
  }

  // ---------------------------------------------------------------------------------------------
  // Widths

  lemma {:induction false} JoinAppend(a: seq<string>, b: seq<string>)
    requires a != [] && b != []
    ensures Join(a + b) == Join(a) + " " + Join(b)
  {
    if |a| == 1 {
      assert (a + b)[1..] == b;
    } else {
      JoinAppend(a[1..], b);
      assert (a + b)[1..] == a[1..] + b;
    }
  }

  lemma JoinSlices(tokens: seq<string>, k: nat, n: nat, m: nat)
    requires k < n <= m <= |tokens|
    ensures |Join(tokens[k..n])| <= |Join(tokens[k..m])|
    ensures |Join(tokens[n - 1..m])| <= |Join(tokens[k..m])|
  {
    if n < m {
      JoinAppend(tokens[k..n], tokens[n..m]);
      assert tokens[k..n] + tokens[n..m] == tokens[k..m];
    }
    if k < n - 1 {
      JoinAppend(tokens[k..n - 1], tokens[n - 1..m]);
      assert tokens[k..n - 1] + tokens[n - 1..m] == tokens[k..m];
    }
  }

  lemma JoinOne(token: string)
    ensures Join([token]) == token
  {}

  lemma ExtendsLess(style: Style, tokens: seq<string>, m: nat, n: nat)
    requires Extends(style, tokens, m) && 1 <= n <= m
    ensures Extends(style, tokens, n)
  {
    hide Join, EndsSentence;
    JoinSlices(tokens, 0, n, m);
    assert tokens[0..n] == tokens[..n] && tokens[0..m] == tokens[..m];
  }

  lemma ExtendsRest(style: Style, tokens: seq<string>, m: nat, k: nat)
    requires Extends(style, tokens, m) && k < m
    ensures Extends(style, tokens[k..], m - k)
  {
    hide Join, EndsSentence;
    JoinSlices(tokens, 0, k + 1, m);
    assert tokens[0..m] == tokens[..m] && tokens[k..][..m - k] == tokens[k..m];
  }

  lemma {:induction false} LineFromIs(style: Style, tokens: seq<string>, n: nat)
    requires 1 <= n <= |tokens| && Extends(style, tokens, n)
    ensures Extends(style, tokens, LineFrom(style, tokens, n))
    ensures LineFrom(style, tokens, n) < |tokens| ==> !Extends(style, tokens, LineFrom(style, tokens, n) + 1)
    decreases |tokens| - n
  {
    hide Extends;
    if n < |tokens| && Extends(style, tokens, n + 1) {
      LineFromIs(style, tokens, n + 1);
    }
  }

  lemma OneExtends(style: Style, tokens: seq<string>)
    requires tokens != [] && AllFit(style, tokens)
    ensures Extends(style, tokens, 1)
  {
    assert tokens[..1] == [tokens[0]];
    JoinOne(tokens[0]);
  }

  /** A greedy line is the longest that is possible. */
  lemma LongestLine(style: Style, tokens: seq<string>, m: nat)
    requires tokens != [] && AllFit(style, tokens)
    ensures Extends(style, tokens, LineFrom(style, tokens, 1))
    ensures Extends(style, tokens, m) ==> m <= LineFrom(style, tokens, 1)
  {
    hide Extends, LineFrom;
    OneExtends(style, tokens);
    LineFromIs(style, tokens, 1);
    var n := LineFrom(style, tokens, 1);
    if Extends(style, tokens, m) && n < m {
      ExtendsBound(style, tokens, m);
      ExtendsLess(style, tokens, m, n + 1);
    }
  }

  lemma ExtendsBound(style: Style, tokens: seq<string>, m: nat)
    requires Extends(style, tokens, m)
    ensures 1 <= m <= |tokens|
  {}

  lemma LineIs(style: Style, tokens: seq<string>, n: nat)
    requires tokens != [] && AllFit(style, tokens) && Extends(style, tokens, n)
    requires n == |tokens| || !Extends(style, tokens, n + 1)
    ensures n <= |tokens| && Greedy(style, tokens) == [tokens[..n]] + Greedy(style, tokens[n..])
  {
    hide *;
    LongestLine(style, tokens, n);
    ExtendsBound(style, tokens, n);
    GreedyStep(style, tokens);
    var longest := LineFrom(style, tokens, 1);
    if n < longest {
      ExtendsBound(style, tokens, longest);
      ExtendsLess(style, tokens, longest, n + 1);
    }
  }

  // ---------------------------------------------------------------------------------------------
  // The greedy layout is a layout, and the shortest one

  lemma RestFits(style: Style, tokens: seq<string>, k: nat)
    requires AllFit(style, tokens) && k <= |tokens|
    ensures AllFit(style, tokens[k..])
  {}

  lemma LayoutCons(style: Style, line: seq<string>, layout: seq<seq<string>>, rest: seq<string>)
    requires IsLayout(style, layout, rest) && Extends(style, line, |line|)
    ensures IsLayout(style, [line] + layout, line + rest)
  {
    hide Extends;
    assert ([line] + layout)[1..] == layout;
  }

  lemma LayoutRest(style: Style, layout: seq<seq<string>>, tokens: seq<string>)
    requires IsLayout(style, layout, tokens) && layout != []
    ensures Extends(style, tokens, |layout[0]|) && |layout[0]| <= |tokens| && IsLayout(style, layout[1..], tokens[|layout[0]|..])
  {
    hide Join, EndsSentence;
    var line := layout[0];
    assert tokens == line + Flatten(layout[1..]);
    assert tokens[..|line|] == line == line[..|line|] && tokens[|line|..] == Flatten(layout[1..]);
  }

  lemma NothingToLayOut(style: Style)
    ensures Greedy(style, []) == [] && IsLayout(style, [], [])
  {}

  lemma LineBounds(style: Style, tokens: seq<string>)
    requires tokens != []
    ensures 1 <= LineFrom(style, tokens, 1) <= |tokens|
    ensures tokens[..LineFrom(style, tokens, 1)] + tokens[LineFrom(style, tokens, 1)..] == tokens
    ensures |tokens[..LineFrom(style, tokens, 1)]| == LineFrom(style, tokens, 1)
  {
    hide LineFrom;
  }

  lemma {:induction false} GreedyIsLayout(style: Style, tokens: seq<string>)
    requires AllFit(style, tokens)
    ensures IsLayout(style, Greedy(style, tokens), tokens)
    decreases |tokens|
  {
    hide *;
    if tokens == [] {
      NothingToLayOut(style);
    } else {
      var n := LineFrom(style, tokens, 1);
      LineBounds(style, tokens);
      LongestLine(style, tokens, n);
      LineExtends(style, tokens, n);
      RestFits(style, tokens, n);
      GreedyIsLayout(style, tokens[n..]);
      LayoutCons(style, tokens[..n], Greedy(style, tokens[n..]), tokens[n..]);
      GreedyStep(style, tokens);
    }
  }

  lemma LineExtends(style: Style, tokens: seq<string>, n: nat)
    requires Extends(style, tokens, n)
    ensures Extends(style, tokens[..n], n)
  {
    hide Join, EndsSentence;
    assert tokens[..n][..n] == tokens[..n];
  }

  lemma Slice(tokens: seq<string>, k: nat, m: nat)
    requires k + m <= |tokens|
    ensures tokens[k..][m..] == tokens[k + m..] && |tokens[k..]| == |tokens| - k
  {}

  /** Fewer tokens never need more lines. */
  lemma {:induction false} GreedyMonotone(style: Style, tokens: seq<string>, k: nat)
    requires AllFit(style, tokens) && k <= |tokens|
    ensures |Greedy(style, tokens[k..])| <= |Greedy(style, tokens)|
    decreases |tokens|
  {
    hide *;
    if k == |tokens| {
      NothingToLayOut(style);
      assert tokens[k..] == [];
    } else {
      var n := LineFrom(style, tokens, 1);
      LineBounds(style, tokens);
      LongestLine(style, tokens, n);
      RestFits(style, tokens, n);
      RestFits(style, tokens, k);
      GreedyStep(style, tokens);
      Slice(tokens, k, 0);
      Slice(tokens, n, 0);
      if k < n {
        var rest := tokens[k..];
        GreedyStep(style, rest);
        ExtendsRest(style, tokens, n, k);
        LongestLine(style, rest, n - k);
        LineBounds(style, rest);
        var m := LineFrom(style, rest, 1);
        Slice(tokens, k, m);
        Slice(tokens, n, k + m - n);
        GreedyMonotone(style, tokens[n..], k + m - n);
      } else {
        Slice(tokens, n, k - n);
        GreedyMonotone(style, tokens[n..], k - n);
      }
    }
  }

  lemma GreedyStep(style: Style, tokens: seq<string>)
    requires tokens != []
    ensures Greedy(style, tokens) == [tokens[..LineFrom(style, tokens, 1)]] + Greedy(style, tokens[LineFrom(style, tokens, 1)..])
  {
    hide LineFrom;
  }

  /** The line ends where it has to: behind a sentence, before a token that does not fit, or at the end. */
  ghost predicate EndsRight(style: Style, line: seq<string>, rest: seq<string>) {
    && line != [] && |Join(line)| <= style.width
    && (forall i :: 0 <= i < |line| - 1 ==> !BreaksAfter(style.unicode, line[i]))
    && (rest != [] ==> BreaksAfter(style.unicode, line[|line| - 1]) || |Join(line)| + 1 + |rest[0]| > style.width)
  }

  ghost predicate WellBroken(style: Style, layout: seq<seq<string>>) {
    forall i :: 0 <= i < |layout| ==> EndsRight(style, layout[i], Flatten(layout[i + 1..]))
  }

  lemma EndsRightAt(style: Style, tokens: seq<string>, n: nat)
    requires Extends(style, tokens, n) && (n < |tokens| ==> !Extends(style, tokens, n + 1))
    ensures EndsRight(style, tokens[..n], tokens[n..])
  {
    hide Join, IsSentenceEnd, BreaksAfter;
    forall i | 0 <= i < n
      ensures BreaksAfter(style.unicode, tokens[i]) <==> EndsSentence(style, tokens[i])
    {
      BreaksAfterIs(style.unicode, tokens[i]);
    }
    if n < |tokens| {
      assert tokens[..n + 1] == tokens[..n] + [tokens[n]];
      JoinAppend(tokens[..n], [tokens[n]]);
      JoinOne(tokens[n]);
    }
  }

  lemma WellBrokenCons(style: Style, line: seq<string>, layout: seq<seq<string>>, rest: seq<string>)
    requires WellBroken(style, layout) && EndsRight(style, line, rest) && Flatten(layout) == rest
    ensures WellBroken(style, [line] + layout)
  {
    hide EndsRight, Flatten;
    var longer := [line] + layout;
    assert longer[1..] == layout;
    forall i | 0 <= i < |longer|
      ensures EndsRight(style, longer[i], Flatten(longer[i + 1..]))
    {
      if i > 0 {
        assert longer[i + 1..] == layout[i..];
        assert EndsRight(style, layout[i - 1], Flatten(layout[i - 1 + 1..]));
      }
    }
  }

  lemma NothingBroken(style: Style)
    ensures WellBroken(style, [])
  {}

  lemma LayoutFlattens(style: Style, layout: seq<seq<string>>, tokens: seq<string>)
    requires IsLayout(style, layout, tokens)
    ensures Flatten(layout) == tokens
  {}

  /** The greedy lines end exactly where they have to. */
  lemma {:induction false} GreedyEndsRight(style: Style, tokens: seq<string>)
    requires AllFit(style, tokens)
    ensures WellBroken(style, Greedy(style, tokens)) && Flatten(Greedy(style, tokens)) == tokens
    decreases |tokens|
  {
    hide *;
    GreedyIsLayout(style, tokens);
    LayoutFlattens(style, Greedy(style, tokens), tokens);
    if tokens == [] {
      NothingToLayOut(style);
      NothingBroken(style);
    } else {
      var n := LineFrom(style, tokens, 1);
      LineBounds(style, tokens);
      OneExtends(style, tokens);
      LineFromIs(style, tokens, 1);
      EndsRightAt(style, tokens, n);
      RestFits(style, tokens, n);
      GreedyEndsRight(style, tokens[n..]);
      GreedyStep(style, tokens);
      WellBrokenCons(style, tokens[..n], Greedy(style, tokens[n..]), tokens[n..]);
    }
  }

  /** No layout of the same tokens has fewer lines. */
  lemma {:induction false} GreedyIsShortest(style: Style, tokens: seq<string>, layout: seq<seq<string>>)
    requires AllFit(style, tokens) && IsLayout(style, layout, tokens)
    ensures |Greedy(style, tokens)| <= |layout|
    decreases |layout|
  {
    hide *;
    if tokens == [] {
      NothingToLayOut(style);
    } else {
      var n := LineFrom(style, tokens, 1);
      LayoutNotEmpty(style, layout, tokens);
      LayoutRest(style, layout, tokens);
      var m := |layout[0]|;
      LineBounds(style, tokens);
      LongestLine(style, tokens, m);
      RestFits(style, tokens, m);
      GreedyStep(style, tokens);
      GreedyIsShortest(style, tokens[m..], layout[1..]);
      GreedyMonotone(style, tokens[m..], n - m);
      Slice(tokens, m, n - m);
    }
  }

  lemma LayoutNotEmpty(style: Style, layout: seq<seq<string>>, tokens: seq<string>)
    requires IsLayout(style, layout, tokens) && tokens != []
    ensures layout != []
  {}

  // ---------------------------------------------------------------------------------------------
  // The wrapping loop

  /** An open line: it fits, nothing in it ends a sentence, and the greedy layout goes on from it. */
  ghost predicate Opened(style: Style, tokens: seq<string>, i: nat, done: seq<seq<string>>, line: seq<string>) {
    && i <= |tokens|
    && Greedy(style, tokens) == done + Greedy(style, line + tokens[i..])
    && (line != [] ==> Extends(style, line + tokens[i..], |line|))
    && forall j :: 0 <= j < |line| ==> !EndsSentence(style, line[j])
  }

  lemma OpenedFirst(style: Style, tokens: seq<string>)
    ensures Opened(style, tokens, 0, [], [])
  {
    assert [] + tokens[0..] == tokens;
    assert [] + Greedy(style, tokens) == Greedy(style, tokens);
  }

  /** The next token joins the open line, or begins one. */
  lemma OpenedJoins(style: Style, tokens: seq<string>, i: nat, done: seq<seq<string>>, line: seq<string>)
    requires Opened(style, tokens, i, done, line) && i < |tokens|
    requires |Join(line + [tokens[i]])| <= style.width
    ensures !EndsSentence(style, tokens[i]) ==> Opened(style, tokens, i + 1, done, line + [tokens[i]])
    ensures Extends(style, line + [tokens[i]] + tokens[i + 1..], |line| + 1)
    ensures line + tokens[i..] == line + [tokens[i]] + tokens[i + 1..]
  {
    hide Join, EndsSentence, Greedy;
    var more := line + [tokens[i]];
    var all := more + tokens[i + 1..];
    assert line + tokens[i..] == all && all[..|more|] == more;
    assert forall j :: 0 <= j < |line| ==> all[j] == line[j];
  }

  lemma Halves(line: seq<string>, rest: seq<string>)
    ensures (line + rest)[..|line|] == line && (line + rest)[|line|..] == rest
  {}

  lemma OpenedEmpty(style: Style, tokens: seq<string>, i: nat, done: seq<seq<string>>, line: seq<string>)
    requires i <= |tokens| && Greedy(style, tokens) == done + ([line] + Greedy(style, tokens[i..]))
    ensures Opened(style, tokens, i, done + [line], [])
  {
    hide Greedy;
    assert done + ([line] + Greedy(style, tokens[i..])) == done + [line] + Greedy(style, tokens[i..]);
    assert [] + tokens[i..] == tokens[i..];
  }

  /** A line is complete when it cannot be extended. */
  lemma Completed(style: Style, tokens: seq<string>, i: nat, done: seq<seq<string>>, before: seq<string>, line: seq<string>)
    requires i <= |tokens| && AllFit(style, before) && line != [] && before == line + tokens[i..]
    requires Greedy(style, tokens) == done + Greedy(style, before)
    requires Extends(style, before, |line|)
    requires i == |tokens| || !Extends(style, before, |line| + 1)
    ensures Opened(style, tokens, i, done + [line], [])
  {
    hide *;
    Halves(line, tokens[i..]);
    assert i == |tokens| ==> |line| == |before|;
    LineIs(style, before, |line|);
    OpenedEmpty(style, tokens, i, done, line);
  }

  lemma TooLong(style: Style, tokens: seq<string>, i: nat, line: seq<string>)
    requires i < |tokens| && line != [] && |Join(line + [tokens[i]])| > style.width
    ensures !Extends(style, line + tokens[i..], |line| + 1)
  {
    hide Join, EndsSentence;
    assert (line + tokens[i..])[..|line| + 1] == line + [tokens[i]];
  }

  lemma SentenceStops(style: Style, line: seq<string>, rest: seq<string>)
    requires line != [] && EndsSentence(style, line[|line| - 1])
    ensures !Extends(style, line + rest, |line| + 1)
  {
    hide Join, EndsSentence;
    assert (line + rest)[|line| - 1] == line[|line| - 1];
  }

  lemma FitsTogether(style: Style, tokens: seq<string>, i: nat, done: seq<seq<string>>, line: seq<string>)
    requires AllFit(style, tokens) && Opened(style, tokens, i, done, line) && AllFit(style, line)
    ensures AllFit(style, line + tokens[i..])
    ensures i < |tokens| ==> AllFit(style, line + [tokens[i]]) && AllFit(style, line + [tokens[i]] + tokens[i + 1..])
  {
    hide Greedy, Extends, EndsSentence;
  }

  lemma JoinNext(line: seq<string>, token: string)
    ensures Join([]) == "" && Join([token]) == token
    ensures line != [] ==> Join(line + [token]) == Join(line) + " " + token
  {
    JoinOne(token);
    if line != [] {
      JoinAppend(line, [token]);
    }
  }

  lemma LinesNext(done: seq<seq<string>>, line: seq<string>)
    ensures Lines(done + [line]) == Lines(done) + [Join(line)]
  {}

  lemma JoinVisible(line: seq<string>)
    requires NotEmpty(line)
    ensures Join(line) == "" <==> line == []
  {
    hide *;
    if line == [] {
      JoinNext([], "");
    } else {
      HeadVisible(line);
    }
  }

  lemma HeadVisible(line: seq<string>)
    requires NotEmpty(line) && line != []
    ensures Join(line) != ""
  {}

  /** Wraps a paragraph, or gives up when a token is wider than a line. */
  method Wrap(style: Style, text: string) returns (r: Option<seq<string>>)
    ensures r.Some? <==> AllFit(style, Tokens(text))
    ensures r.Some? ==> r.value == Lines(Greedy(style, Tokens(text)))
    ensures r.Some? ==> exists layout :: r.value == Lines(layout) && Flatten(layout) == Tokens(text) && WellBroken(style, layout)
  {
    hide *;
    var tokens := Tokenize(text);
    TokensNotEmpty(text);
    for i := 0 to |tokens|
      invariant forall j :: 0 <= j < i ==> |tokens[j]| <= style.width
    {
      if |tokens[i]| > style.width {
        NotAll(style, tokens, i);
        return None;
      }
    }
    AllFitFrom(style, tokens);
    GreedyEndsRight(style, tokens);
    var lines := WrapTokens(style, tokens);
    return Some(lines);
  }

  lemma NotAll(style: Style, tokens: seq<string>, i: nat)
    requires i < |tokens| && |tokens[i]| > style.width
    ensures !AllFit(style, tokens)
  {}

  lemma AllFitFrom(style: Style, tokens: seq<string>)
    requires forall j :: 0 <= j < |tokens| ==> |tokens[j]| <= style.width
    ensures AllFit(style, tokens)
  {}

  method WrapTokens(style: Style, tokens: seq<string>) returns (lines: seq<string>)
    requires AllFit(style, tokens) && NotEmpty(tokens)
    ensures lines == Lines(Greedy(style, tokens))
  {
    hide *;
    lines := [];
    var current := "";
    ghost var done: seq<seq<string>>, line: seq<string> := [], [];
    OpenedFirst(style, tokens);
    NothingWrapped(style);
    for i := 0 to |tokens|
      invariant Opened(style, tokens, i, done, line) && lines == Lines(done) && current == Join(line)
      invariant NotEmpty(line) && AllFit(style, line)
    {
      var token := tokens[i];
      JoinVisible(line);
      JoinNext(line, token);
      TokenAt(style, tokens, i, line);
      FitsTogether(style, tokens, i, done, line);
      ghost var done0, line0 := done, line;
      if current == "" {
        current := token;
        line := [token];
        assert [] + [token] == [token];
      } else if |current| + 1 + |token| <= style.width {
        current := current + " " + token;
        line := line + [token];
      } else {
        lines := lines + [current];
        current := token;
        CompleteFull(style, tokens, i, done, line);
        LinesNext(done, line);
        done, line := done + [line], [token];
        done0, line0 := done, [];
        JoinNext([], token);
        FitsTogether(style, tokens, i, done0, line0);
        assert [] + [token] == [token];
      }
      OpenedJoins(style, tokens, i, done0, line0);
      if IsSentenceEnd(style.unicode, token) {
        lines := lines + [current];
        current := "";
        CompleteSentence(style, tokens, i, done0, line0);
        LinesNext(done, line);
        done, line := done + [line], [];
        NothingWrapped(style);
      } else {
        NotSentence(style, token);
      }
    }
    JoinVisible(line);
    FitsTogether(style, tokens, |tokens|, done, line);
    if current != "" {
      lines := lines + [current];
      CompleteLast(style, tokens, done, line);
      LinesNext(done, line);
      done := done + [line];
    }
    AllDone(style, tokens, done);
  }

  lemma NothingWrapped(style: Style)
    ensures Lines([]) == [] && Join([]) == "" && NotEmpty([]) && AllFit(style, [])
  {}

  lemma NotSentence(style: Style, token: string)
    requires !IsSentenceEnd(style.unicode, token)
    ensures !EndsSentence(style, token)
  {}

  lemma TokenAt(style: Style, tokens: seq<string>, i: nat, line: seq<string>)
    requires AllFit(style, tokens) && NotEmpty(tokens) && i < |tokens| && NotEmpty(line) && AllFit(style, line)
    ensures tokens[i] != "" && |tokens[i]| <= style.width
    ensures NotEmpty(line + [tokens[i]]) && AllFit(style, line + [tokens[i]]) && NotEmpty([tokens[i]]) && AllFit(style, [tokens[i]])
  {}

  lemma CompleteFull(style: Style, tokens: seq<string>, i: nat, done: seq<seq<string>>, line: seq<string>)
    requires Opened(style, tokens, i, done, line) && i < |tokens| && line != [] && AllFit(style, line + tokens[i..])
    requires |Join(line + [tokens[i]])| > style.width
    ensures Opened(style, tokens, i, done + [line], [])
  {
    hide Extends, Greedy, Join, EndsSentence;
    TooLong(style, tokens, i, line);
    Completed(style, tokens, i, done, line + tokens[i..], line);
  }

  lemma CompleteSentence(style: Style, tokens: seq<string>, i: nat, done: seq<seq<string>>, line: seq<string>)
    requires Opened(style, tokens, i, done, line) && i < |tokens| && IsSentenceEnd(style.unicode, tokens[i])
    requires AllFit(style, line + [tokens[i]] + tokens[i + 1..])
    requires Extends(style, line + [tokens[i]] + tokens[i + 1..], |line| + 1) && line + tokens[i..] == line + [tokens[i]] + tokens[i + 1..]
    ensures Opened(style, tokens, i + 1, done + [line + [tokens[i]]], [])
  {
    hide Extends, Greedy, Join, IsSentenceEnd;
    var more := line + [tokens[i]];
    SentenceStops(style, more, tokens[i + 1..]);
    Completed(style, tokens, i + 1, done, more + tokens[i + 1..], more);
  }

  lemma CompleteLast(style: Style, tokens: seq<string>, done: seq<seq<string>>, line: seq<string>)
    requires Opened(style, tokens, |tokens|, done, line) && line != [] && AllFit(style, line + tokens[|tokens|..])
    ensures Opened(style, tokens, |tokens|, done + [line], [])
  {
    hide Extends, Greedy, Join, EndsSentence;
    Completed(style, tokens, |tokens|, done, line + tokens[|tokens|..], line);
  }

  lemma AllDone(style: Style, tokens: seq<string>, done: seq<seq<string>>)
    requires Opened(style, tokens, |tokens|, done, [])
    ensures Greedy(style, tokens) == done
  {
    assert [] + tokens[|tokens|..] == [];
    assert done + [] == done;
  }

  // ---------------------------------------------------------------------------------------------
  // The reflowed paragraph

  lemma {:induction false} LinesJoined(layout: seq<seq<string>>)
    requires forall i :: 0 <= i < |layout| ==> layout[i] != []
    ensures Join(Lines(layout)) == Join(Flatten(layout))
    ensures layout != [] ==> Flatten(layout) != []
  {
    if layout != [] {
      var rest := layout[1..];
      assert Lines(layout) == [Join(layout[0])] + Lines(rest);
      LinesJoined(rest);
      hide Lines;
      JoinOne(Join(layout[0]));
      if rest == [] {
        assert layout[0] + [] == layout[0] && [Join(layout[0])] + Lines(rest) == [Join(layout[0])] by {
          assert |Lines(rest)| == 0;
        }
      } else {
        JoinAppend([Join(layout[0])], Lines(rest));
        JoinAppend(layout[0], Flatten(rest));
      }
    }
  }

  lemma LayoutLines(style: Style, layout: seq<seq<string>>, tokens: seq<string>)
    requires IsLayout(style, layout, tokens)
    ensures Join(Lines(layout)) == Join(tokens)
  {
    hide Join, EndsSentence;
    LinesJoined(layout);
  }

  /** Wrapping the wrapped lines again changes nothing, and nothing visible is lost, added or moved. */
  lemma ReflowIsFixed(style: Style, text: string)
    requires AllFit(style, Tokens(text))
    ensures var again := Join(Lines(Greedy(style, Tokens(text))));
      && Tokens(again) == Tokens(text)
      && Greedy(style, Tokens(again)) == Greedy(style, Tokens(text))
      && Visible(again) == Visible(text)
  {
    hide *;
    GreedyIsLayout(style, Tokens(text));
    LayoutLines(style, Greedy(style, Tokens(text)), Tokens(text));
    TokensOfJoined(text);
    VisibleKept(text);
  }

  /** Every line fits, ends no later than a sentence does, and no such layout has fewer lines. */
  lemma ReflowIsBest(style: Style, text: string, layout: seq<seq<string>>)
    requires AllFit(style, Tokens(text))
    ensures IsLayout(style, Greedy(style, Tokens(text)), Tokens(text))
    ensures forall i :: 0 <= i < |Lines(Greedy(style, Tokens(text)))| ==> |Lines(Greedy(style, Tokens(text)))[i]| <= style.width
    ensures IsLayout(style, layout, Tokens(text)) ==> |Lines(Greedy(style, Tokens(text)))| <= |layout|
  {
    GreedyIsLayout(style, Tokens(text));
    if IsLayout(style, layout, Tokens(text)) {
      GreedyIsShortest(style, Tokens(text), layout);
    }
    hide Tokens, Greedy, Join, EndsSentence, AllFit, Flatten;
    var best := Greedy(style, Tokens(text));
    forall i | 0 <= i < |best|
      ensures |Lines(best)[i]| <= style.width
    {
      assert best[i][..|best[i]|] == best[i];
    }
  }
}
