// The recogniser of return types in API pattern pages, and the grammar it accepts.
module ReturnTypes {
  import opened ParagraphTokens
  import opened TypeBrackets

  // ---------------------------------------------------------------------------------------------
  // Grammar

  /** Qualified names are left to a predicate; they consist of plain characters. */
  datatype Syntax = Syntax(isName: string -> bool)

  predicate Plain(c: char) {
    c !in "<>,&*[]/- " && !IsSpace(c)
  }

  ghost predicate Sane(syntax: Syntax) {
    forall s :: syntax.isName(s) ==> s != "" && forall i :: 0 <= i < |s| ==> Plain(s[i])
  }

  datatype Suffix = Value | Reference | Forwarding | Address

  datatype Type = Type(bracketed: bool, constant: bool, base: string, arguments: seq<Argument>, suffix: Suffix)

  /** A template argument with the white space around it. */
  datatype Argument = Argument(before: string, inner: Type, after: string)

  function SuffixText(s: Suffix): string {
    match s
    case Value => ""
    case Reference => "&"
    case Forwarding => "&&"
    case Address => "*"
  }

  function ShowAll(arguments: seq<Argument>): (r: seq<string>)
    ensures |r| == |arguments|
    decreases arguments, 0
  {
    seq(|arguments|, i requires 0 <= i < |arguments| => ShowArgument(arguments[i]))
  }

  function ShowArgument(a: Argument): string
    decreases a, 0
  {
    a.before + Show(a.inner) + a.after
  }

  function ShowTemplate(t: Type): string
    decreases t, 0
  {
    if t.arguments == [] then "" else "<" + JoinCommas(ShowAll(t.arguments)) + ">"
  }

  function Core(t: Type): string
    decreases t, 1
  {
    t.base + ShowTemplate(t)
  }

  function Qualified(t: Type): string
    decreases t, 2
  {
    (if t.constant then "const " else "") + (Core(t) + SuffixText(t.suffix))
  }

  /** The text of a type. */
  function Show(t: Type): string
    decreases t, 3
  {
    if t.bracketed then "[" + Qualified(t) + "]" else Qualified(t)
  }

  ghost predicate AllSpace(s: string) {
    forall i :: 0 <= i < |s| ==> IsSpace(s[i])
  }

  ghost predicate WellFormed(syntax: Syntax, t: Type)
    decreases t
  {
    && syntax.isName(t.base)
    && forall i :: 0 <= i < |t.arguments| ==>
         AllSpace(t.arguments[i].before) && AllSpace(t.arguments[i].after) && WellFormed(syntax, t.arguments[i].inner)
  }

  // ---------------------------------------------------------------------------------------------
  // Recogniser

  /** Whether " -> " occurs. */
  predicate HasArrow(s: string) {
    exists i :: 0 <= i && i + 4 <= |s| && s[i] == ' ' && s[i + 1] == '-' && s[i + 2] == '>' && s[i + 3] == ' '
  }

  function WithoutBrackets(s: string): (r: string)
    ensures |r| <= |s|
  {
    if |s| > 1 && s[0] == '[' && s[|s| - 1] == ']' then s[1..|s| - 1] else s
  }

  function WithoutConst(s: string): (r: string)
    ensures |r| <= |s|
  {
    if "const " <= s then s[6..] else s
  }

  function WithoutSuffix(s: string): (r: string)
    ensures |r| <= |s|
  {
    if |s| >= 2 && s[|s| - 2] == '&' && s[|s| - 1] == '&' then s[..|s| - 2]
    else if |s| >= 1 && (s[|s| - 1] == '&' || s[|s| - 1] == '*') then s[..|s| - 1]
    else s
  }

  function Trimmed(s: string): (r: string)
    ensures |r| <= |s|
  {
    WithoutSuffix(WithoutConst(WithoutBrackets(s)))
  }

  function FindOpen(s: string): (n: nat)
    ensures n <= |s| && (n < |s| ==> s[n] == '<') && forall i :: 0 <= i < n ==> s[i] != '<'
  {
    if s == "" || s[0] == '<' then 0 else 1 + FindOpen(s[1..])
  }

  function StripEnd(s: string): (r: string)
    ensures |r| <= |s| && s[..|r|] == r
    ensures r != "" ==> !IsSpace(r[|r| - 1])
  {
    if s == "" || !IsSpace(s[|s| - 1]) then s else StripEnd(s[..|s| - 1])
  }

  function Strip(s: string): (r: string)
    ensures |r| <= |s|
  {
    StripEnd(SkipSpace(s))
  }

  predicate IsReturnType(syntax: Syntax, value: string)
    decreases |value|, 1
  {
    && value != "" && '/' !in value && !HasArrow(value)
    && var v := Trimmed(value);
       (syntax.isName(v)
        || (var n := FindOpen(v);
            0 < n < |v| && v[|v| - 1] == '>' && syntax.isName(v[..n]) && ValidTemplateArguments(syntax, v[n..])))
  }

  predicate ValidTemplateArguments(syntax: Syntax, value: string)
    requires value != ""
    decreases |value|, 0
  {
    Enclosed(value) &&
    var arguments := SplitTopLevel(value[1..|value| - 1]);
    arguments != [] && forall i :: 0 <= i < |arguments| ==> (PieceBound(value, i); IsReturnType(syntax, Strip(arguments[i])))
  }

  lemma PieceBound(value: string, i: nat)
    requires |value| > 2 && i < |SplitTopLevel(value[1..|value| - 1])|
    ensures |SplitTopLevel(value[1..|value| - 1])[i]| <= |value| - 2
  {
    PieceShort(value[1..|value| - 1], i);
  }

  // ---------------------------------------------------------------------------------------------
  // Everything the recogniser accepts is a type

  function SuffixOf(s: string): Suffix {
    if |s| >= 2 && s[|s| - 2] == '&' && s[|s| - 1] == '&' then Forwarding
    else if |s| >= 1 && s[|s| - 1] == '&' then Reference
    else if |s| >= 1 && s[|s| - 1] == '*' then Address
    else Value
  }

  lemma BracketsBack(s: string)
    ensures s == if |s| > 1 && s[0] == '[' && s[|s| - 1] == ']' then "[" + WithoutBrackets(s) + "]" else WithoutBrackets(s)
  {}

  lemma ConstBack(s: string)
    ensures s == (if "const " <= s then "const " else "") + WithoutConst(s)
  {
    PrefixBack("", s);
    if "const " <= s {
      PrefixBack("const ", s);
    }
  }

  lemma PrefixBack(p: string, s: string)
    requires p <= s
    ensures s == p + s[|p|..]
  {}

  lemma SuffixBack(s: string)
    ensures s == WithoutSuffix(s) + SuffixText(SuffixOf(s))
  {
    if SuffixOf(s) == Value {
      assert s + "" == s;
    }
  }

  lemma SkipStep(s: string)
    ensures SkipSpace(s) == if s == "" || !IsSpace(s[0]) then s else SkipSpace(s[1..])
  {
    hide IsSpace;
  }

  lemma SpaceBefore(c: char, s: string)
    requires IsSpace(c) && AllSpace(s)
    ensures AllSpace([c] + s)
  {
    hide IsSpace;
  }

  lemma {:induction false} SkipBack(s: string) returns (before: string)
    ensures AllSpace(before) && s == before + SkipSpace(s)
  {
    hide IsSpace, SkipSpace;
    SkipStep(s);
    if s == "" || !IsSpace(s[0]) {
      before := "";
      assert "" + s == s;
    } else {
      var rest := SkipBack(s[1..]);
      before := [s[0]] + rest;
      SpaceBefore(s[0], rest);
      assert s == [s[0]] + s[1..];
      Regroup([s[0]], rest, SkipSpace(s));
      hide AllSpace;
    }
  }

  lemma {:induction false} StripEndBack(s: string) returns (after: string)
    ensures AllSpace(after) && s == StripEnd(s) + after
  {
    hide IsSpace;
    if s == "" || !IsSpace(s[|s| - 1]) {
      after := "";
      assert s + "" == s;
    } else {
      var rest := StripEndBack(s[..|s| - 1]);
      after := rest + [s[|s| - 1]];
      assert s == s[..|s| - 1] + [s[|s| - 1]];
    }
  }

  lemma StripBack(s: string) returns (before: string, after: string)
    ensures AllSpace(before) && AllSpace(after) && s == before + Strip(s) + after
  {
    hide AllSpace, SkipSpace, StripEnd;
    before := SkipBack(s);
    after := StripEndBack(SkipSpace(s));
  }

  lemma EnclosedBack(s: string)
    requires Enclosed(s)
    ensures s[|s| - 1] == '>' && s == "<" + s[1..|s| - 1] + ">" && IsNested(s[1..|s| - 1])
  {
    hide Depth;
    var (n, inner) := (|s| - 1, s[1..|s| - 1]);
    DepthNext(s, n);
    WeightOf(s[n]);
    assert s[..n + 1] == s;
    forall i | 0 <= i <= |inner|
      ensures Depth(inner[..i]) == Depth(s[..i + 1]) - 1
    {
      DepthInside(s, i);
    }
    assert inner[..|inner|] == inner;
  }

  lemma DepthInside(s: string, i: nat)
    requires s != "" && s[0] == '<' && i < |s|
    ensures Depth(s[1..i + 1]) == Depth(s[..i + 1]) - 1
    ensures i < |s| - 1 ==> s[1..|s| - 1][..i] == s[1..i + 1]
    ensures i == |s| - 2 ==> s[1..|s| - 1] == s[1..i + 1]
  {
    DepthOne(s);
    DepthJoin(s[..1], s[1..i + 1]);
    assert s[..1] + s[1..i + 1] == s[..i + 1];
  }

  /** A type for every text the recogniser accepts. */
  lemma {:induction false} Parse(syntax: Syntax, value: string) returns (t: Type)
    requires IsReturnType(syntax, value)
    ensures WellFormed(syntax, t) && Show(t) == value
    decreases |value|, 1
  {
    hide HasArrow, WithoutBrackets, WithoutConst, WithoutSuffix, WellFormed, Show, FindOpen, Enclosed;
    var a := WithoutBrackets(value);
    var b := WithoutConst(a);
    var v := WithoutSuffix(b);
    var bracketed := |value| > 1 && value[0] == '[' && value[|value| - 1] == ']';
    var constant := "const " <= a;
    BracketsBack(value);
    ConstBack(a);
    SuffixBack(b);
    if syntax.isName(v) {
      t := Type(bracketed, constant, v, [], SuffixOf(b));
      NameOnly(syntax, t);
    } else {
      var n := FindOpen(v);
      var arguments := ParseArguments(syntax, v[n..]);
      t := Type(bracketed, constant, v[..n], arguments, SuffixOf(b));
      WithArguments(syntax, t, v, n);
    }
    ShowIs(t);
  }

  lemma ShowIs(t: Type)
    ensures Show(t) == if t.bracketed then "[" + ((if t.constant then "const " else "") + (Core(t) + SuffixText(t.suffix))) + "]"
                       else (if t.constant then "const " else "") + (Core(t) + SuffixText(t.suffix))
  {
    hide Core, SuffixText;
  }

  lemma NameOnly(syntax: Syntax, t: Type)
    requires t.arguments == [] && syntax.isName(t.base)
    ensures Core(t) == t.base && WellFormed(syntax, t)
  {
    assert t.base + "" == t.base;
  }

  ghost predicate ArgumentsFormed(syntax: Syntax, arguments: seq<Argument>) {
    forall i :: 0 <= i < |arguments| ==>
      AllSpace(arguments[i].before) && AllSpace(arguments[i].after) && WellFormed(syntax, arguments[i].inner)
  }

  lemma WithArguments(syntax: Syntax, t: Type, v: string, n: nat)
    requires n <= |v| && t.base == v[..n] && syntax.isName(t.base) && t.arguments != [] && ArgumentsFormed(syntax, t.arguments)
    requires "<" + JoinCommas(ShowAll(t.arguments)) + ">" == v[n..]
    ensures Core(t) == v && WellFormed(syntax, t)
  {
    hide JoinCommas, ShowAll;
    assert v == v[..n] + v[n..];
  }

  ghost predicate AllReturnTypes(syntax: Syntax, parts: seq<string>) {
    forall i :: 0 <= i < |parts| ==> IsReturnType(syntax, Strip(parts[i]))
  }

  lemma AllReturnTypesAt(syntax: Syntax, parts: seq<string>, i: nat)
    requires AllReturnTypes(syntax, parts) && i < |parts|
    ensures IsReturnType(syntax, Strip(parts[i]))
  {}

  lemma ArgumentParts(syntax: Syntax, value: string)
    requires value != "" && ValidTemplateArguments(syntax, value)
    ensures |value| > 2 && "<" + JoinCommas(Pieces(value[1..|value| - 1])) + ">" == value
    ensures Pieces(value[1..|value| - 1]) != [] && Pieces(value[1..|value| - 1]) == SplitTopLevel(value[1..|value| - 1])
    ensures AllReturnTypes(syntax, Pieces(value[1..|value| - 1]))
  {
    EnclosedBack(value);
    var inner := value[1..|value| - 1];
    hide IsNested, Depth, Pieces, PiecesCut, JoinCommas, Strip, IsReturnType;
    SplitIs(inner);
    PiecesJoined(inner);
  }

  lemma FormedNext(syntax: Syntax, arguments: seq<Argument>, a: Argument)
    requires ArgumentsFormed(syntax, arguments) && AllSpace(a.before) && AllSpace(a.after) && WellFormed(syntax, a.inner)
    ensures ArgumentsFormed(syntax, arguments + [a])
  {
    hide WellFormed, AllSpace;
  }

  lemma FormedNone(syntax: Syntax)
    ensures ArgumentsFormed(syntax, [])
  {}

  lemma {:induction false} ParseArguments(syntax: Syntax, value: string) returns (arguments: seq<Argument>)
    requires value != "" && ValidTemplateArguments(syntax, value)
    ensures arguments != [] && ArgumentsFormed(syntax, arguments)
    ensures "<" + JoinCommas(ShowAll(arguments)) + ">" == value
    decreases |value|, 0
  {
    hide *;
    ArgumentParts(syntax, value);
    FormedNone(syntax);
    var parts := Pieces(value[1..|value| - 1]);
    arguments := [];
    while |arguments| < |parts|
      invariant |arguments| <= |parts| && ArgumentsFormed(syntax, arguments)
      invariant forall i :: 0 <= i < |arguments| ==> ShowArgument(arguments[i]) == parts[i]
    {
      var i := |arguments|;
      PieceBound(value, i);
      AllReturnTypesAt(syntax, parts, i);
      var argument := ParseArgument(syntax, parts[i]);
      FormedNext(syntax, arguments, argument);
      arguments := arguments + [argument];
    }
    ShowAllIs(arguments, parts);
  }

  lemma ShowAllIs(arguments: seq<Argument>, parts: seq<string>)
    requires |arguments| == |parts| && forall i :: 0 <= i < |arguments| ==> ShowArgument(arguments[i]) == parts[i]
    ensures ShowAll(arguments) == parts
  {
    hide ShowArgument;
  }

  lemma StripShort(s: string)
    ensures |Strip(s)| <= |s|
  {}

  lemma {:induction false} ParseArgument(syntax: Syntax, part: string) returns (a: Argument)
    requires IsReturnType(syntax, Strip(part))
    ensures AllSpace(a.before) && AllSpace(a.after) && WellFormed(syntax, a.inner) && ShowArgument(a) == part
    decreases |part|, 2
  {
    StripShort(part);
    hide Strip, AllSpace, WellFormed, IsReturnType, Show;
    var before, after := StripBack(part);
    var inner := Parse(syntax, Strip(part));
    a := Argument(before, inner, after);
  }

  // ---------------------------------------------------------------------------------------------
  // Every type is accepted

  /** No character that the recogniser refuses outright. */
  ghost predicate Clean(s: string) {
    '/' !in s && '-' !in s
  }

  /** Brackets match, and commas stand inside them. */
  ghost predicate Sound(s: string) {
    Clean(s) && IsNested(s) && NoTopComma(s)
  }

  ghost predicate NoBrackets(s: string) {
    forall i :: 0 <= i < |s| ==> s[i] !in "<>,/-"
  }

  lemma {:induction false} FlatDepth(s: string)
    requires NoBrackets(s)
    ensures Depth(s) == 0
  {
    if s != "" {
      FlatDepth(s[..|s| - 1]);
    }
  }

  lemma FlatSound(s: string)
    requires NoBrackets(s)
    ensures Sound(s)
  {
    hide Depth;
    FlatDepth(s);
    forall i | 0 <= i < |s|
      ensures Depth(s[..i]) == 0
    {
      FlatDepth(s[..i]);
    }
  }

  lemma DepthSplit(a: string, b: string, i: nat)
    requires i <= |a| + |b|
    ensures i <= |a| ==> (a + b)[..i] == a[..i]
    ensures i >= |a| ==> Depth((a + b)[..i]) == Depth(a) + Depth(b[..i - |a|])
  {
    hide Depth;
    if i >= |a| {
      assert (a + b)[..i] == a + b[..i - |a|];
      DepthJoin(a, b[..i - |a|]);
    }
  }

  lemma NestedJoin(a: string, b: string)
    requires IsNested(a) && IsNested(b)
    ensures IsNested(a + b)
  {
    hide Depth;
    DepthJoin(a, b);
    forall i | 0 <= i < |a + b|
      ensures Depth((a + b)[..i]) >= 0
    {
      DepthSplit(a, b, i);
      assert a[..|a|] == a;
    }
  }

  lemma SoundJoin(a: string, b: string)
    requires Sound(a) && Sound(b)
    ensures Sound(a + b)
  {
    NestedJoin(a, b);
    hide Depth, IsNested;
    SoundDepth(a);
    forall i | 0 <= i < |a + b| && (a + b)[i] == ','
      ensures Depth((a + b)[..i]) != 0
    {
      DepthSplit(a, b, i);
      if i >= |a| {
        assert b[i - |a|] == ',';
      } else {
        assert a[i] == ',';
      }
    }
  }

  lemma SoundDepth(a: string)
    requires Sound(a)
    ensures Depth(a) == 0 && NoTopComma(a) && IsNested(a) && Clean(a)
  {
    hide Depth;
  }

  /** A template list: its commas are inside the brackets. */
  lemma BracketSound(inner: string)
    requires Clean(inner) && IsNested(inner) && inner != ""
    ensures Sound("<" + inner + ">") && Enclosed("<" + inner + ">")
  {
    var s := "<" + inner + ">";
    assert Depth("<") == 1 && Depth(">") == -1 by {
      DepthOne("<");
      DepthOne(">");
      assert "<"[..1] == "<" && ">"[..1] == ">";
    }
    hide Depth;
    assert inner[..|inner|] == inner;
    forall i | 0 < i < |s|
      ensures Depth(s[..i]) > 0
    {
      assert s[..i] == "<" + inner[..i - 1];
      DepthJoin("<", inner[..i - 1]);
    }
    DepthJoin("<" + inner, ">");
    DepthJoin("<", inner);
    DepthNone();
    assert s[..0] == "";
    BracketCommas(s);
  }

  lemma BracketCommas(s: string)
    requires s != "" && s[0] == '<' && forall i :: 0 < i < |s| ==> Depth(s[..i]) > 0
    ensures NoTopComma(s)
  {
    hide Depth;
  }

  lemma {:induction false} JoinedSound(parts: seq<string>)
    requires forall i :: 0 <= i < |parts| ==> Sound(parts[i])
    ensures Clean(JoinCommas(parts)) && IsNested(JoinCommas(parts))
  {
    hide Sound, IsNested, Depth;
    if parts == [] {
      FlatSound("");
      SoundDepth("");
    } else {
      SoundDepth(parts[0]);
      if |parts| > 1 {
        JoinedSound(parts[1..]);
        CommaNested();
        NestedJoin(parts[0], ",");
        NestedJoin(parts[0] + ",", JoinCommas(parts[1..]));
      }
    }
  }

  lemma CommaNested()
    ensures IsNested(",")
  {
    DepthOne(",");
    assert ","[..1] == "," && ","[..0] == "";
  }

  lemma NameSound(syntax: Syntax, name: string)
    requires Sane(syntax) && syntax.isName(name)
    ensures name != "" && Sound(name) && forall i :: 0 <= i < |name| ==> Plain(name[i])
  {
    hide Sound, Depth;
    FlatSound(name);
  }

  lemma SpaceSound(s: string)
    requires AllSpace(s)
    ensures Sound(s)
  {
    hide Sound, Depth;
    FlatSound(s);
  }

  lemma PiecesOfSuffix(s: Suffix)
    ensures Sound(SuffixText(s)) && Sound("const ") && Sound("") && Sound("[") && Sound("]")
  {
    hide Sound, Depth;
    FlatSound(SuffixText(s));
    FlatSound("const ");
    FlatSound("");
    FlatSound("[");
    FlatSound("]");
  }

  /** A text that white space around it does not change. */
  ghost predicate Tight(s: string) {
    s != "" && !IsSpace(s[0]) && !IsSpace(s[|s| - 1])
  }

  lemma FormedParts(syntax: Syntax, t: Type)
    requires WellFormed(syntax, t)
    ensures syntax.isName(t.base) && ArgumentsFormed(syntax, t.arguments)
  {
    hide AllSpace;
  }

  /** The template list of a type, and its whole text, are sound. */
  lemma {:induction false} ShowSound(syntax: Syntax, t: Type)
    requires Sane(syntax) && WellFormed(syntax, t)
    ensures Sound(Show(t)) && Sound(ShowTemplate(t))
    decreases t, 1
  {
    FormedParts(syntax, t);
    NameSound(syntax, t.base);
    hide Sound, WellFormed, Sane, ShowAll, Plain, JoinCommas;
    PiecesOfSuffix(t.suffix);
    if t.arguments != [] {
      ShowAllSound(syntax, t.arguments);
      InnerNotEmpty(syntax, t.arguments);
      JoinedSound(ShowAll(t.arguments));
      BracketSound(JoinCommas(ShowAll(t.arguments)));
    }
    hide Show, Qualified, ShowTemplate, Core, SuffixText;
    ShowIs(t);
    CoreIs(t);
    SoundJoin(t.base, ShowTemplate(t));
    SoundJoin(Core(t), SuffixText(t.suffix));
    var rest := Core(t) + SuffixText(t.suffix);
    SoundJoin(if t.constant then "const " else "", rest);
    var all := (if t.constant then "const " else "") + rest;
    SoundJoin("[", all);
    SoundJoin("[" + all, "]");
  }

  lemma CoreIs(t: Type)
    ensures Core(t) == t.base + ShowTemplate(t)
    ensures ShowTemplate(t) == if t.arguments == [] then "" else "<" + JoinCommas(ShowAll(t.arguments)) + ">"
  {
    hide JoinCommas, ShowAll;
  }

  lemma FormedAt(syntax: Syntax, arguments: seq<Argument>, i: nat)
    requires ArgumentsFormed(syntax, arguments) && i < |arguments|
    ensures AllSpace(arguments[i].before) && AllSpace(arguments[i].after) && WellFormed(syntax, arguments[i].inner)
  {
    hide AllSpace, WellFormed;
  }

  lemma {:induction false} ShowAllSound(syntax: Syntax, arguments: seq<Argument>)
    requires Sane(syntax) && ArgumentsFormed(syntax, arguments)
    ensures forall i :: 0 <= i < |ShowAll(arguments)| ==> Sound(ShowAll(arguments)[i])
    decreases arguments, 0
  {
    hide Sound, WellFormed, Sane, AllSpace, ArgumentsFormed, Show;
    forall i | 0 <= i < |ShowAll(arguments)|
      ensures Sound(ShowAll(arguments)[i])
    {
      FormedAt(syntax, arguments, i);
      var a := arguments[i];
      ShowSound(syntax, a.inner);
      SpaceSound(a.before);
      SpaceSound(a.after);
      SoundJoin(a.before, Show(a.inner));
      SoundJoin(a.before + Show(a.inner), a.after);
    }
  }

  lemma ShowNotEmpty(syntax: Syntax, t: Type)
    requires Sane(syntax) && syntax.isName(t.base)
    ensures Show(t) != ""
  {
    NameSound(syntax, t.base);
    hide *;
    CoreIs(t);
    ShowIs(t);
  }

  lemma InnerNotEmpty(syntax: Syntax, arguments: seq<Argument>)
    requires Sane(syntax) && ArgumentsFormed(syntax, arguments) && arguments != []
    ensures JoinCommas(ShowAll(arguments)) != ""
  {
    FormedAt(syntax, arguments, 0);
    FormedParts(syntax, arguments[0].inner);
    ShowNotEmpty(syntax, arguments[0].inner);
    hide Sane, WellFormed, Show;
    assert ShowAll(arguments)[0] == ShowArgument(arguments[0]);
  }

  /** What the core of a type begins and ends with. */
  ghost predicate CoreShape(s: string) {
    s != "" && Plain(s[0]) && (Plain(s[|s| - 1]) || s[|s| - 1] == '>')
    && forall i :: 0 <= i < |s| && (forall j :: 0 <= j <= i ==> s[j] != '<') ==> s[i] != ' '
  }

  lemma CoreHasShape(syntax: Syntax, t: Type)
    requires Sane(syntax) && syntax.isName(t.base)
    ensures CoreShape(Core(t)) && |t.base| <= |Core(t)| && Core(t)[..|t.base|] == t.base
    ensures t.arguments != [] ==> |t.base| < |Core(t)| && Core(t)[|t.base|] == '<' && Core(t)[|Core(t)| - 1] == '>' && Core(t)[|t.base|..] == ShowTemplate(t)
    ensures t.arguments == [] ==> Core(t) == t.base
  {
    NameSound(syntax, t.base);
    CoreIs(t);
    hide Sane, Sound, ShowTemplate, Core, ShowAll, JoinCommas;
    var (core, list) := (Core(t), ShowTemplate(t));
    assert core[..|t.base|] == t.base && core[|t.base|..] == list;
    assert forall i :: 0 <= i < |t.base| ==> core[i] == t.base[i];
    if t.arguments == [] {
      assert t.base + "" == t.base;
    } else {
      assert list[0] == '<' && list[|list| - 1] == '>' && core[|t.base|] == list[0] && core[|core| - 1] == list[|list| - 1];
    }
  }

  lemma PlainIs(c: char)
    requires Plain(c)
    ensures c != '&' && c != '*' && c != '[' && c != ']' && c != '<' && c != ' ' && !IsSpace(c)
  {}

  lemma SuffixGoes(core: string, s: Suffix)
    requires CoreShape(core)
    ensures WithoutSuffix(core + SuffixText(s)) == core
  {
    if Plain(core[|core| - 1]) {
      PlainIs(core[|core| - 1]);
    }
    hide Plain;
    var all := core + SuffixText(s);
    assert all[..|core|] == core;
    assert all[|core| - 1] == core[|core| - 1];
    match s
    case Value => assert all == core;
    case Reference => assert all[|core|] == '&';
    case Forwarding => assert all[|core|] == '&' && all[|core| + 1] == '&';
    case Address => assert all[|core|] == '*';
  }

  lemma ConstGoes(core: string, s: Suffix, constant: bool)
    requires CoreShape(core)
    ensures WithoutConst((if constant then "const " else "") + (core + SuffixText(s))) == core + SuffixText(s)
  {
    var rest := core + SuffixText(s);
    if constant {
      assert ("const " + rest)[..6] == "const " && ("const " + rest)[6..] == rest;
    } else {
      assert "" + rest == rest;
      NoConst(core, s);
    }
  }

  lemma DiffersFromConst(core: string, rest: string) returns (k: nat)
    requires CoreShape(core) && |core| <= |rest| && |rest| >= 6
    requires forall i :: 0 <= i < |core| ==> rest[i] == core[i]
    requires forall i :: |core| <= i < |rest| ==> rest[i] == '&' || rest[i] == '*'
    ensures k < 6 && rest[k] != "const "[k]
  {
    hide Plain;
    assert forall i :: 0 <= i < 6 ==> "const "[i] != '<' && "const "[i] != '&' && "const "[i] != '*';
    if |core| <= 5 {
      k := 5;
    } else if core[5] != ' ' {
      k := 5;
    } else {
      k :| 0 <= k <= 5 && core[k] == '<';
    }
  }

  lemma NoConst(core: string, s: Suffix)
    requires CoreShape(core)
    ensures !("const " <= core + SuffixText(s))
  {
    hide CoreShape;
    var rest := core + SuffixText(s);
    if |rest| >= 6 {
      var k := DiffersFromConst(core, rest);
    }
  }

  lemma BracketsGo(syntax: Syntax, t: Type)
    requires CoreShape(Core(t))
    ensures WithoutBrackets(Show(t)) == (if t.constant then "const " else "") + (Core(t) + SuffixText(t.suffix))
    ensures Tight(Show(t))
  {
    ShowIs(t);
    hide Show, Core;
    var core := Core(t);
    PlainIs(core[0]);
    if Plain(core[|core| - 1]) {
      PlainIs(core[|core| - 1]);
    }
    hide Plain;
    var all := (if t.constant then "const " else "") + (core + SuffixText(t.suffix));
    assert all[0] == (if t.constant then 'c' else core[0]);
    assert SuffixText(t.suffix) == "" ==> core + SuffixText(t.suffix) == core && all[|all| - 1] == core[|core| - 1];
    assert SuffixText(t.suffix) != "" ==> all[|all| - 1] == SuffixText(t.suffix)[|SuffixText(t.suffix)| - 1];
    if t.bracketed {
      var s := "[" + all + "]";
      assert s[0] == '[' && s[|s| - 1] == ']' && s[1..|s| - 1] == all;
    }
  }

  lemma {:induction false} StripEndOf(s: string, after: string)
    requires AllSpace(after) && (s == "" || !IsSpace(s[|s| - 1]))
    ensures StripEnd(s + after) == s
    decreases |after|
  {
    hide IsSpace;
    if after == "" {
      assert s + after == s;
    } else {
      assert (s + after)[..|s + after| - 1] == s + after[..|after| - 1];
      assert IsSpace(after[|after| - 1]);
      StripEndOf(s, after[..|after| - 1]);
    }
  }

  lemma {:induction false} SkipOf(before: string, s: string)
    requires AllSpace(before) && (s == "" || !IsSpace(s[0]))
    ensures SkipSpace(before + s) == s
    decreases |before|
  {
    hide IsSpace, SkipSpace;
    SkipStep(before + s);
    if before == "" {
      assert before + s == s;
    } else {
      assert (before + s)[1..] == before[1..] + s;
      SkipOf(before[1..], s);
    }
  }

  lemma StripOf(before: string, s: string, after: string)
    requires AllSpace(before) && AllSpace(after) && Tight(s)
    ensures Strip(before + s + after) == s
  {
    hide IsSpace, AllSpace;
    SkipOf(before, s + after);
    assert before + (s + after) == before + s + after && (s + after)[0] == s[0];
    StripEndOf(s, after);
  }

  lemma CleanAccepted(s: string)
    requires Clean(s) && s != ""
    ensures '/' !in s && !HasArrow(s)
  {}

  lemma FindOpenIs(s: string, n: nat)
    requires n < |s| && s[n] == '<' && forall i :: 0 <= i < n ==> s[i] != '<'
    ensures FindOpen(s) == n
  {
    hide FindOpen;
    var m := FindOpen(s);
    assert m >= n;
    assert m <= n;
  }

  lemma ShowTrims(syntax: Syntax, t: Type)
    requires Sane(syntax) && syntax.isName(t.base)
    ensures Trimmed(Show(t)) == Core(t) && Tight(Show(t))
  {
    hide *;
    CoreHasShape(syntax, t);
    BracketsGo(syntax, t);
    ConstGoes(Core(t), t.suffix, t.constant);
    SuffixGoes(Core(t), t.suffix);
    TrimmedIs(Show(t));
  }

  lemma ShowAllowed(syntax: Syntax, t: Type)
    requires Sane(syntax) && WellFormed(syntax, t)
    ensures Show(t) != "" && '/' !in Show(t) && !HasArrow(Show(t))
  {
    FormedParts(syntax, t);
    hide *;
    ShowSound(syntax, t);
    SoundDepth(Show(t));
    ShowNotEmpty(syntax, t);
    CleanAccepted(Show(t));
  }

  /** The text of every well-formed type is accepted. */
  lemma {:induction false} Accepts(syntax: Syntax, t: Type)
    requires Sane(syntax) && WellFormed(syntax, t)
    ensures IsReturnType(syntax, Show(t)) && Tight(Show(t))
    decreases t, 1
  {
    hide *;
    FormedParts(syntax, t);
    ShowTrims(syntax, t);
    ShowAllowed(syntax, t);
    CoreHasShape(syntax, t);
    if t.arguments != [] {
      AcceptsTemplate(syntax, t);
      BaseOpens(syntax, t);
      AcceptedTemplate(syntax, Show(t), Core(t), |t.base|);
    } else {
      AcceptedName(syntax, Show(t));
    }
  }

  lemma BaseOpens(syntax: Syntax, t: Type)
    requires Sane(syntax) && syntax.isName(t.base) && t.arguments != []
    ensures FindOpen(Core(t)) == |t.base| && t.base != ""
  {
    CoreHasShape(syntax, t);
    NameSound(syntax, t.base);
    hide Sane, Sound, Core, ShowTemplate;
    forall i | 0 <= i < |t.base|
      ensures Core(t)[i] != '<'
    {
      PlainIs(t.base[i]);
      assert Core(t)[..|t.base|][i] == t.base[i];
    }
    FindOpenIs(Core(t), |t.base|);
  }

  lemma TrimmedIs(s: string)
    ensures Trimmed(s) == WithoutSuffix(WithoutConst(WithoutBrackets(s)))
  {}

  lemma AcceptedName(syntax: Syntax, value: string)
    requires value != "" && '/' !in value && !HasArrow(value) && syntax.isName(Trimmed(value))
    ensures IsReturnType(syntax, value)
  {
    hide Trimmed, FindOpen, ValidTemplateArguments, HasArrow;
  }

  lemma AcceptedTemplate(syntax: Syntax, value: string, core: string, n: nat)
    requires value != "" && '/' !in value && !HasArrow(value) && Trimmed(value) == core
    requires FindOpen(core) == n && 0 < n < |core| && core[|core| - 1] == '>'
    requires syntax.isName(core[..n]) && ValidTemplateArguments(syntax, core[n..])
    ensures IsReturnType(syntax, value)
  {
    hide Trimmed, FindOpen, ValidTemplateArguments, HasArrow;
  }

  lemma {:induction false} AcceptsTemplate(syntax: Syntax, t: Type)
    requires Sane(syntax) && WellFormed(syntax, t) && t.arguments != []
    ensures ShowTemplate(t) != "" && ValidTemplateArguments(syntax, ShowTemplate(t))
    decreases t, 0
  {
    FormedParts(syntax, t);
    CoreIs(t);
    var parts := ShowAll(t.arguments);
    var inner := JoinCommas(parts);
    ShowAllSound(syntax, t.arguments);
    InnerNotEmpty(syntax, t.arguments);
    hide *;
    JoinedSound(parts);
    BracketSound(inner);
    AllSound(parts);
    PiecesOfJoined(parts);
    SplitIs(inner);
    AcceptsAll(syntax, t.arguments);
    TemplateFrom(syntax, ShowTemplate(t), inner, parts);
  }

  lemma AllSound(parts: seq<string>)
    requires forall i :: 0 <= i < |parts| ==> Sound(parts[i])
    ensures forall i :: 0 <= i < |parts| ==> NoTopComma(parts[i]) && Depth(parts[i]) == 0
  {
    hide Sound;
    forall i | 0 <= i < |parts|
      ensures NoTopComma(parts[i]) && Depth(parts[i]) == 0
    {
      SoundDepth(parts[i]);
    }
  }

  lemma TemplateFrom(syntax: Syntax, value: string, inner: string, parts: seq<string>)
    requires value == "<" + inner + ">" && Enclosed(value) && SplitTopLevel(inner) == parts && parts != []
    requires AllReturnTypes(syntax, parts)
    ensures ValidTemplateArguments(syntax, value)
  {
    hide Enclosed, SplitTopLevel, IsReturnType, Strip;
    assert value[1..|value| - 1] == inner;
    EnclosedLong(value);
  }

  lemma EnclosedLong(s: string)
    requires Enclosed(s)
    ensures |s| > 2
  {}

  lemma {:induction false} AcceptsAll(syntax: Syntax, arguments: seq<Argument>)
    requires Sane(syntax) && ArgumentsFormed(syntax, arguments)
    ensures AllReturnTypes(syntax, ShowAll(arguments))
    decreases arguments, 0
  {
    hide Sane, ArgumentsFormed, WellFormed, AllSpace, IsReturnType, Strip, Show, Tight;
    forall i | 0 <= i < |ShowAll(arguments)|
      ensures IsReturnType(syntax, Strip(ShowAll(arguments)[i]))
    {
      FormedAt(syntax, arguments, i);
      var a := arguments[i];
      Accepts(syntax, a.inner);
      StripOf(a.before, Show(a.inner), a.after);
    }
  }

  /** The recogniser accepts exactly the texts of the types of the grammar. */
  lemma RecognisesTheGrammar(syntax: Syntax, value: string)
    requires Sane(syntax)
    ensures IsReturnType(syntax, value) <==> exists t :: WellFormed(syntax, t) && Show(t) == value
  {
    hide *;
    if IsReturnType(syntax, value) {
      var t := Parse(syntax, value);
    }
    forall t | WellFormed(syntax, t) && Show(t) == value
      ensures IsReturnType(syntax, value)
    {
      Accepts(syntax, t);
    }
  }

  // ---------------------------------------------------------------------------------------------
  // The recogniser with its loops

  method CheckReturnType(syntax: Syntax, value: string) returns (r: bool)
    ensures r == IsReturnType(syntax, value)
    decreases |value|, 1
  {
    hide HasArrow, Trimmed, ValidTemplateArguments;
    if value == "" || '/' in value || HasArrow(value) {
      return false;
    }
    var v := Trimmed(value);
    if syntax.isName(v) {
      return true;
    }
    var n := FindOpen(v);
    if n == |v| || n == 0 || v[|v| - 1] != '>' {
      return false;
    }
    if !syntax.isName(v[..n]) {
      return false;
    }
    r := CheckTemplateArguments(syntax, v[n..]);
  }

  method CheckTemplateArguments(syntax: Syntax, value: string) returns (r: bool)
    requires value != ""
    ensures r == ValidTemplateArguments(syntax, value)
    decreases |value|, 0
  {
    hide Depth, IsReturnType, SplitTopLevel, Strip;
    var balanced := BalancedTemplateArguments(value);
    if !balanced {
      return false;
    }
    var arguments := Split(value[1..|value| - 1]);
    if arguments == [] {
      return false;
    }
    for i := 0 to |arguments|
      invariant forall j :: 0 <= j < i ==> IsReturnType(syntax, Strip(arguments[j]))
    {
      PieceBound(value, i);
      StripShort(arguments[i]);
      var valid := CheckReturnType(syntax, Strip(arguments[i]));
      if !valid {
        return false;
      }
    }
    return true;
  }
}
