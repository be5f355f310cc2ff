// Angle brackets in a type: nesting depth, balance, and splitting at top-level commas.
module TypeBrackets {

  /** Opening minus closing angle brackets. */
  function Depth(s: string): int {
    if s == "" then 0 else Depth(s[..|s| - 1]) + Weight(s[|s| - 1])
  }

  function Weight(c: char): int {
    if c == '<' then 1 else if c == '>' then -1 else 0
  }

  lemma DepthNext(s: string, i: nat)
    requires i < |s|
    ensures Depth(s[..i + 1]) == Depth(s[..i]) + Weight(s[i])
  {
    assert s[..i + 1][..i] == s[..i];
  }

  lemma {:induction false} DepthJoin(a: string, b: string)
    ensures Depth(a + b) == Depth(a) + Depth(b)
    decreases |b|
  {
    hide Weight;
    if b == "" {
      assert a + b == a;
    } else {
      DepthJoin(a, b[..|b| - 1]);
      assert (a + b)[..|a + b| - 1] == a + b[..|b| - 1];
    }
  }

  /** One pair of brackets around everything, and something inside. */
  predicate Enclosed(s: string) {
    && |s| > 2 && s[0] == '<' && Depth(s) == 0
    && forall i :: 0 < i < |s| ==> Depth(s[..i]) > 0
  }

  method BalancedTemplateArguments(value: string) returns (r: bool)
    ensures r <==> value == "" || Enclosed(value)
  {
    hide Depth;
    DepthNone();
    var depth := 0;
    for index := 0 to |value|
      invariant depth == Depth(value[..index])
      invariant forall i :: 0 < i <= index ==> Depth(value[..i]) > 0 || i == |value|
      invariant 0 < index < |value| ==> depth > 0
      invariant index > 0 ==> value[0] == '<'
      invariant depth >= 0
    {
      DepthNext(value, index);
      DepthOne(value);
      if value[index] == '<' {
        depth := depth + 1;
      } else if value[index] == '>' {
        depth := depth - 1;
        if depth < 0 || (depth == 0 && index != |value| - 1) {
          return false;
        }
      } else if depth == 0 {
        return false;
      }
    }
    assert value[..|value|] == value;
    ShortTexts(value);
    return depth == 0 && value != "<>";
  }

  lemma DepthNone()
    ensures Depth("") == 0
  {}

  lemma DepthOne(s: string)
    requires s != ""
    ensures Depth(s[..1]) == Weight(s[0]) && Depth(s[..0]) == 0
  {
    assert s[..1][..0] == "";
  }

  lemma ShortTexts(s: string)
    ensures |s| == 1 && s[0] == '<' ==> Depth(s) == 1
    ensures |s| == 2 && s[0] == '<' && Depth(s) == 0 ==> s == "<>"
    ensures |s| > 2 ==> s != "<>"
  {
    if |s| > 0 {
      DepthOne(s);
    }
    if |s| == 1 {
      assert s[..1] == s;
    } else if |s| == 2 {
      DepthNext(s, 1);
      assert s[..2] == s == [s[0], s[1]];
    }
  }

  // ---------------------------------------------------------------------------------------------
  // Splitting

  /** The first comma outside all brackets, from an index on. */
  function CommaFrom(s: string, i: nat): (r: nat)
    requires i <= |s|
    ensures i <= r <= |s|
    ensures r < |s| ==> s[r] == ',' && Depth(s[..r]) == 0
    ensures forall j :: i <= j < r ==> !(s[j] == ',' && Depth(s[..j]) == 0)
    decreases |s| - i
  {
    if i == |s| || (s[i] == ',' && Depth(s[..i]) == 0) then i else CommaFrom(s, i + 1)
  }

  /** The parts between the commas outside all brackets. */
  function Pieces(s: string): (r: seq<string>)
    ensures r != []
    decreases |s|, 1
  {
    PiecesCut(s, CommaFrom(s, 0))
  }

  function PiecesCut(s: string, n: nat): (r: seq<string>)
    requires n <= |s|
    ensures r != []
    decreases |s|, 0
  {
    if n == |s| then [s] else [s[..n]] + Pieces(s[n + 1..])
  }

  function JoinCommas(parts: seq<string>): string {
    if parts == [] then "" else if |parts| == 1 then parts[0] else parts[0] + "," + JoinCommas(parts[1..])
  }

  lemma {:induction false} PiecesJoined(s: string)
    ensures JoinCommas(Pieces(s)) == s
    decreases |s|
  {
    hide CommaFrom, Pieces, PiecesCut;
    var n := CommaFrom(s, 0);
    PiecesAre(s, n);
    if n < |s| {
      PiecesJoined(s[n + 1..]);
      var rest := Pieces(s[n + 1..]);
      assert ([s[..n]] + rest)[1..] == rest;
      assert s == s[..n] + "," + s[n + 1..];
    }
  }

  lemma {:induction false} PieceShort(s: string, i: nat)
    requires i < |Pieces(s)|
    ensures |Pieces(s)[i]| <= |s|
    decreases |s|
  {
    hide CommaFrom, Pieces, PiecesCut;
    var n := CommaFrom(s, 0);
    PiecesAre(s, n);
    if n < |s| && i > 0 {
      PieceShort(s[n + 1..], i - 1);
    }
  }

  /** No comma stands outside the brackets. */
  ghost predicate NoTopComma(s: string) {
    forall i :: 0 <= i < |s| && s[i] == ',' ==> Depth(s[..i]) != 0
  }

  lemma CommaIs(s: string, n: nat)
    requires n <= |s| && NoTopComma(s[..n]) && (n < |s| ==> s[n] == ',' && Depth(s[..n]) == 0)
    ensures CommaFrom(s, 0) == n
  {
    hide Depth;
    forall j | 0 <= j < n
      ensures !(s[j] == ',' && Depth(s[..j]) == 0)
    {
      assert s[..n][j] == s[j] && s[..n][..j] == s[..j];
    }
    hide CommaFrom;
  }

  lemma PiecesAre(s: string, n: nat)
    requires CommaFrom(s, 0) == n
    ensures n <= |s| && Pieces(s) == if n == |s| then [s] else [s[..n]] + Pieces(s[n + 1..])
  {
    hide CommaFrom, Pieces;
    PiecesFirst(s);
    PiecesRest(s, n);
  }

  lemma PiecesFirst(s: string)
    ensures Pieces(s) == PiecesCut(s, CommaFrom(s, 0))
  {
    hide CommaFrom, PiecesCut;
  }

  lemma PiecesRest(s: string, n: nat)
    requires n <= |s|
    ensures PiecesCut(s, n) == if n == |s| then [s] else [s[..n]] + Pieces(s[n + 1..])
  {
    hide Pieces;
  }

  lemma JoinFirst(first: string, rest: seq<string>)
    requires rest != []
    ensures var s := JoinCommas([first] + rest);
      && s == first + "," + JoinCommas(rest)
      && s[..|first|] == first && |first| < |s| && s[|first|] == ',' && s[|first| + 1..] == JoinCommas(rest)
  {
    assert ([first] + rest)[1..] == rest;
  }

  /** Joining parts without commas of their own and splitting again gives the parts. */
  lemma {:induction false} PiecesOfJoined(parts: seq<string>)
    requires parts != [] && forall i :: 0 <= i < |parts| ==> NoTopComma(parts[i]) && Depth(parts[i]) == 0
    ensures Pieces(JoinCommas(parts)) == parts
    decreases |parts|
  {
    var first := parts[0];
    hide CommaFrom, Depth, NoTopComma, Pieces;
    if |parts| == 1 {
      assert parts == [first] && first[..|first|] == first;
      CommaIs(first, |first|);
      PiecesAre(first, |first|);
    } else {
      var rest := parts[1..];
      assert parts == [first] + rest;
      hide JoinCommas;
      PiecesOfJoined(rest);
      JoinFirst(first, rest);
      CommaIs(JoinCommas(parts), |first|);
      PiecesAre(JoinCommas(parts), |first|);
    }
  }

  /** What the loop returns: nothing for brackets that do not match. */
  function SplitTopLevel(s: string): seq<string> {
    if IsNested(s) then Pieces(s) else []
  }

  /** Brackets close only what was opened, and all of it. */
  predicate IsNested(s: string) {
    Depth(s) == 0 && forall i :: 0 <= i < |s| ==> Depth(s[..i]) >= 0
  }

  lemma PiecesStep(s: string, start: nat, index: nat)
    requires start <= index <= |s| && CommaFrom(s, start) >= index
    ensures index < |s| && !(s[index] == ',' && Depth(s[..index]) == 0) ==> CommaFrom(s, start) >= index + 1
    ensures index < |s| && s[index] == ',' && Depth(s[..index]) == 0 ==> CommaFrom(s, start) == index
    ensures index == |s| ==> CommaFrom(s, start) == |s|
  {
    CommaReaches(s, start, index);
  }

  lemma {:induction false} CommaReaches(s: string, start: nat, index: nat)
    requires start <= index <= |s| && CommaFrom(s, start) >= index
    ensures CommaFrom(s, start) == CommaFrom(s, index)
    decreases index - start
  {
    hide Depth;
    if start < index {
      CommaReaches(s, start + 1, index);
    }
  }

  /** The pieces from a start that no bracket is open at. */
  function PiecesFrom(s: string, start: nat): (r: seq<string>)
    requires start <= |s|
    ensures r != []
    decreases |s| - start
  {
    var n := CommaFrom(s, start);
    if n == |s| then [s[start..]] else [s[start..n]] + PiecesFrom(s, n + 1)
  }

  lemma {:induction false} CommaShift(s: string, start: nat, i: nat)
    requires start <= i <= |s| && Depth(s[..start]) == 0
    ensures CommaFrom(s[start..], i - start) == CommaFrom(s, i) - start
    decreases |s| - i
  {
    hide Depth;
    if i < |s| {
      DepthJoin(s[..start], s[start..i]);
      assert s[..start] + s[start..i] == s[..i] && s[start..][..i - start] == s[start..i];
      CommaShift(s, start, i + 1);
    }
  }

  lemma {:induction false} PiecesShift(s: string, start: nat)
    requires start <= |s| && Depth(s[..start]) == 0
    ensures PiecesFrom(s, start) == Pieces(s[start..])
    decreases |s| - start
  {
    hide CommaFrom, Depth, Pieces, PiecesCut;
    CommaShift(s, start, start);
    var n := CommaFrom(s, start);
    PiecesAre(s[start..], n - start);
    if n < |s| {
      CommaDepth(s, n);
      PiecesShift(s, n + 1);
      assert s[start..][n - start + 1..] == s[n + 1..] && s[start..][..n - start] == s[start..n];
    }
  }

  lemma CommaDepth(s: string, n: nat)
    requires n < |s| && s[n] == ',' && Depth(s[..n]) == 0
    ensures Depth(s[..n + 1]) == 0
  {
    DepthNext(s, n);
  }

  lemma PiecesFromIs(s: string, start: nat)
    requires start <= |s|
    ensures PiecesFrom(s, start) ==
      if CommaFrom(s, start) == |s| then [s[start..]] else [s[start..CommaFrom(s, start)]] + PiecesFrom(s, CommaFrom(s, start) + 1)
  {
    hide CommaFrom;
  }

  method Split(value: string) returns (result: seq<string>)
    ensures result == SplitTopLevel(value)
  {
    hide *;
    result := [];
    var start: nat := 0;
    var depth := 0;
    DepthNone();
    assert value[0..] == value && value[..0] == "";
    PiecesShift(value, 0);
    for index := 0 to |value|
      invariant start <= index && depth == Depth(value[..index]) && CommaFrom(value, start) >= index
      invariant forall i :: 0 <= i <= index ==> Depth(value[..i]) >= 0
      invariant Pieces(value) == result + PiecesFrom(value, start)
    {
      DepthNext(value, index);
      WeightOf(value[index]);
      PiecesStep(value, start, index);
      if value[index] == '<' {
        depth := depth + 1;
      } else if value[index] == '>' {
        depth := depth - 1;
        if depth < 0 {
          Broken(value, index + 1);
          SplitIs(value);
          return [];
        }
      } else if depth == 0 && value[index] == ',' {
        PiecesFromIs(value, start);
        Grouped(result, value[start..index], PiecesFrom(value, index + 1));
        result := result + [value[start..index]];
        start := index + 1;
      }
    }
    assert value[..|value|] == value;
    PiecesStep(value, start, |value|);
    PiecesFromIs(value, start);
    Unbroken(value);
    SplitIs(value);
    if depth != 0 {
      return [];
    }
    return result + [value[start..]];
  }

  lemma SplitIs(s: string)
    ensures SplitTopLevel(s) == if IsNested(s) then Pieces(s) else []
  {
    hide IsNested, Pieces;
  }

  lemma WeightOf(c: char)
    ensures Weight(c) == if c == '<' then 1 else if c == '>' then -1 else 0
  {}

  lemma Unbroken(s: string)
    requires forall i :: 0 <= i <= |s| ==> Depth(s[..i]) >= 0
    ensures IsNested(s) <==> Depth(s) == 0
  {
    hide Depth;
  }

  lemma Grouped(a: seq<string>, b: string, c: seq<string>)
    ensures a + ([b] + c) == a + [b] + c
  {}

  lemma Broken(s: string, i: nat)
    requires i <= |s| && Depth(s[..i]) < 0
    ensures !IsNested(s)
  {
    hide Depth;
    if i == |s| {
      assert s[..i] == s;
    }
  }
}
