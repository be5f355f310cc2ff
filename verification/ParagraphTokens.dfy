// Tokens of a reStructuredText paragraph: words, inline literals and roles.
module ParagraphTokens {
  import opened Wrappers

  // ---------------------------------------------------------------------------------------------
  // Characters

  /** White space as Python sees it. */
  predicate IsSpace(c: char) {
    var n := c as int;
    || 0x09 <= n <= 0x0D || 0x1C <= n <= 0x20 || n == 0x85 || n == 0xA0 || n == 0x1680
    || 0x2000 <= n <= 0x200A || n == 0x2028 || n == 0x2029 || n == 0x202F || n == 0x205F || n == 0x3000
  }

  predicate IsTrailing(c: char) {
    c == ',' || c == '.' || c == ';' || c == ':'
  }

  predicate IsLetter(c: char) {
    'A' <= c <= 'Z' || 'a' <= c <= 'z'
  }

  predicate IsNameCharacter(c: char) {
    IsLetter(c) || '0' <= c <= '9' || c == '_' || c == '-'
  }

  const TICK: char := '`'

  // ---------------------------------------------------------------------------------------------
  // Lengths at the beginning of a text

  /** How many characters at the beginning are not white space. */
  function RunLength(s: string): (n: nat)
    ensures n <= |s|
  {
    if s == "" || IsSpace(s[0]) then 0 else 1 + RunLength(s[1..])
  }

  function TrailLength(s: string): (n: nat)
    ensures n <= |s|
  {
    if s == "" || !IsTrailing(s[0]) then 0 else 1 + TrailLength(s[1..])
  }

  function NameLength(s: string): (n: nat)
    ensures n <= |s|
  {
    if s == "" || !IsNameCharacter(s[0]) then 0 else 1 + NameLength(s[1..])
  }

  /** Where the first backtick is. */
  function FindTick(s: string): (r: Option<nat>)
    ensures r.Some? ==> r.value < |s|
  {
    if s == "" then None
    else if s[0] == TICK then Some(0)
    else match FindTick(s[1..]) case None => None case Some(n) => Some(n + 1)
  }

  predicate StartsLiteral(s: string) {
    |s| >= 2 && s[0] == TICK && s[1] == TICK
  }

  /** Where the first two adjacent backticks are. */
  function FindTicks(s: string): (r: Option<nat>)
    ensures r.Some? ==> r.value + 2 <= |s|
  {
    if s == "" then None
    else if StartsLiteral(s) then Some(0)
    else match FindTicks(s[1..]) case None => None case Some(n) => Some(n + 1)
  }

  /** Names separated by colons up to a colon and a backtick: what follows the first colon of a role. */
  function NamesLength(s: string): (r: Option<nat>)
    ensures r.Some? ==> 3 <= r.value <= |s|
    decreases |s|, 1
  {
    if s == "" || !IsLetter(s[0]) then None else NamesAfter(s, 1 + NameLength(s[1..]))
  }

  /** What follows a name of n characters. */
  function NamesAfter(s: string, n: nat): (r: Option<nat>)
    requires 0 < n <= |s|
    ensures r.Some? ==> n + 2 <= r.value <= |s|
    decreases |s|, 0
  {
    if n + 1 >= |s| || s[n] != ':' then None
    else if s[n + 1] == TICK then Some(n + 2)
    else match NamesLength(s[n + 1..]) case None => None case Some(m) => Some(n + 1 + m)
  }

  function RoleLength(s: string): (r: Option<nat>)
    ensures r.Some? ==> r.value <= |s|
  {
    if s == "" || s[0] != ':' then None
    else match NamesLength(s[1..]) case None => None case Some(m) => Some(m + 1)
  }

  /** An inline literal or a role with its text, if the text begins with one that is closed. */
  function AtomicLength(s: string): (r: Option<nat>)
    ensures r.Some? ==> 0 < r.value <= |s|
  {
    if StartsLiteral(s) then
      match FindTicks(s[2..]) case None => None case Some(n) => Some(n + 4)
    else
      match RoleLength(s)
      case None => None
      case Some(m) => match FindTick(s[m..]) case None => None case Some(n) => Some(m + n + 1)
  }

  /** Markup or a word, with the punctuation after it. */
  function TokenLength(s: string): (n: nat)
    requires s != "" && !IsSpace(s[0])
    ensures 0 < n <= |s|
  {
    var n := if AtomicLength(s).Some? then AtomicLength(s).value else 1 + RunLength(s[1..]);
    n + TrailLength(s[n..])
  }

  function SkipSpace(s: string): (r: string)
    ensures |r| <= |s| && (r != "" ==> !IsSpace(r[0]))
  {
    if s == "" || !IsSpace(s[0]) then s else SkipSpace(s[1..])
  }

  /** The tokens of a paragraph. */
  function Tokens(s: string): seq<string>
    decreases |s|
  {
    var t := SkipSpace(s);
    if t == "" then [] else
      var n := TokenLength(t);
      [t[..n]] + Tokens(t[n..])
  }

  /** Tokens on one line. */
  function Join(tokens: seq<string>): string {
    if tokens == [] then ""
    else if |tokens| == 1 then tokens[0]
    else tokens[0] + " " + Join(tokens[1..])
  }

  // ---------------------------------------------------------------------------------------------
  // What a match depends on

  /** A place where a word ends: the end of the text, or white space. */
  ghost predicate EndsAt(s: string, n: nat) {
    n <= |s| && (n < |s| ==> IsSpace(s[n]))
  }

  ghost predicate NoSpace(s: string) {
    forall i :: 0 <= i < |s| ==> !IsSpace(s[i])
  }

  ghost predicate NoTick(s: string) {
    forall i :: 0 <= i < |s| ==> s[i] != TICK
  }

  ghost predicate NoTicks(s: string) {
    forall i :: 0 <= i < |s| - 1 ==> !(s[i] == TICK && s[i + 1] == TICK)
  }

  lemma {:induction false} TickFound(s: string)
    ensures FindTick(s).None? <==> NoTick(s)
  {
    if s != "" {
      TickFound(s[1..]);
      if NoTick(s[1..]) && s[0] != TICK {
        forall i | 0 <= i < |s|
          ensures s[i] != TICK
        {
          if i > 0 {
            assert s[i] == s[1..][i - 1];
          }
        }
      }
    }
  }

  lemma {:induction false} TicksFound(s: string)
    ensures FindTicks(s).None? <==> NoTicks(s)
  {
    if s != "" {
      TicksFound(s[1..]);
      if NoTicks(s[1..]) && !StartsLiteral(s) {
        forall i | 0 <= i < |s| - 1
          ensures !(s[i] == TICK && s[i + 1] == TICK)
        {
          if i > 0 {
            assert s[i] == s[1..][i - 1] && s[i + 1] == s[1..][i];
          }
        }
      }
      if !NoTicks(s[1..]) {
        var i :| 0 <= i < |s[1..]| - 1 && s[1..][i] == TICK && s[1..][i + 1] == TICK;
        assert s[i + 1] == TICK && s[i + 2] == TICK;
      }
    }
  }

  /** Two texts that begin alike. */
  ghost predicate Alike(s: string, t: string, n: nat) {
    n <= |s| && n <= |t| && forall i :: 0 <= i < n ==> s[i] == t[i]
  }

  lemma AlikeRest(s: string, t: string, n: nat, k: nat)
    requires Alike(s, t, n) && k <= n
    ensures Alike(s[k..], t[k..], n - k)
  {}

  lemma {:induction false} TickAlike(s: string, t: string, n: nat)
    requires FindTick(s) == Some(n) && Alike(s, t, n + 1)
    ensures FindTick(t) == Some(n)
  {
    if s[0] != TICK {
      AlikeRest(s, t, n + 1, 1);
      TickAlike(s[1..], t[1..], n - 1);
    }
  }

  lemma {:induction false} TicksAlike(s: string, t: string, n: nat)
    requires FindTicks(s) == Some(n) && Alike(s, t, n + 2)
    ensures FindTicks(t) == Some(n)
  {
    if !StartsLiteral(s) {
      AlikeRest(s, t, n + 2, 1);
      TicksAlike(s[1..], t[1..], n - 1);
    }
  }

  lemma {:induction false} NameAlike(s: string, t: string, n: nat)
    requires NameLength(s) == n && n < |s| && Alike(s, t, n + 1)
    ensures NameLength(t) == n
  {
    if n > 0 {
      AlikeRest(s, t, n + 1, 1);
      NameAlike(s[1..], t[1..], n - 1);
    }
  }

  lemma NamesFirst(s: string)
    ensures NamesLength(s) == if s == "" || !IsLetter(s[0]) then None else NamesAfter(s, 1 + NameLength(s[1..]))
  {
    hide NamesAfter, NameLength, IsLetter;
  }

  lemma NamesRest(s: string, n: nat)
    requires 0 < n <= |s|
    ensures NamesAfter(s, n) ==
      if n + 1 >= |s| || s[n] != ':' then None
      else if s[n + 1] == TICK then Some(n + 2)
      else match NamesLength(s[n + 1..]) case None => None case Some(m) => Some(n + 1 + m)
  {
    hide NamesLength;
  }

  /** The parts of a match: a name, a colon, and either the backtick or more names. */
  lemma NamesParts(s: string, m: nat)
    requires NamesLength(s) == Some(m)
    ensures var n := 1 + NameLength(s[1..]);
      && s != "" && IsLetter(s[0]) && n + 1 < m <= |s| && s[n] == ':'
      && (s[n + 1] == TICK ==> m == n + 2)
      && (s[n + 1] != TICK ==> NamesLength(s[n + 1..]) == Some(m - n - 1))
  {
    hide *;
    NamesFirst(s);
    NamesRest(s, 1 + NameLength(s[1..]));
  }

  lemma NamesFrom(s: string, n: nat)
    requires s != "" && IsLetter(s[0]) && 1 + NameLength(s[1..]) == n && n + 1 < |s| && s[n] == ':'
    ensures s[n + 1] == TICK ==> NamesLength(s) == Some(n + 2)
    ensures s[n + 1] != TICK && NamesLength(s[n + 1..]).Some? ==> NamesLength(s) == Some(n + 1 + NamesLength(s[n + 1..]).value)
  {
    hide *;
    NamesFirst(s);
    NamesRest(s, n);
  }

  lemma {:induction false} NamesAlike(s: string, t: string, m: nat)
    requires NamesLength(s) == Some(m) && Alike(s, t, m)
    ensures NamesLength(t) == Some(m)
    decreases |s|
  {
    hide NamesLength, NamesAfter, NameLength, IsLetter;
    NamesParts(s, m);
    var n := 1 + NameLength(s[1..]);
    AlikeRest(s, t, m, 1);
    AlikeRest(s, t, m, n + 1);
    NameAlike(s[1..], t[1..], n - 1);
    if s[n + 1] != TICK {
      NamesAlike(s[n + 1..], t[n + 1..], m - n - 1);
    }
    NamesFrom(t, n);
  }

  lemma {:induction false} NameNoSpace(s: string)
    ensures NoSpace(s[..NameLength(s)])
  {
    if s != "" && IsNameCharacter(s[0]) {
      NameNoSpace(s[1..]);
      var n := NameLength(s);
      forall i | 0 <= i < n
        ensures !IsSpace(s[i])
      {
        if i > 0 {
          assert s[i] == s[1..][..n - 1][i - 1];
        }
      }
    }
  }

  /** The beginning of a role has no white space. */
  lemma {:induction false} NamesNoSpace(s: string, m: nat)
    requires NamesLength(s) == Some(m)
    ensures NoSpace(s[..m])
    decreases |s|
  {
    hide NamesLength, NamesAfter, NameLength;
    NamesParts(s, m);
    var n := 1 + NameLength(s[1..]);
    NameNoSpace(s[1..]);
    assert forall i :: 0 < i < n ==> s[i] == s[1..][..n - 1][i - 1];
    if s[n + 1] != TICK {
      NamesNoSpace(s[n + 1..], m - n - 1);
      assert forall i :: n < i < m ==> s[i] == s[n + 1..][..m - n - 1][i - n - 1];
    }
  }

  // ---------------------------------------------------------------------------------------------
  // A token stays the same token when what follows it changes

  lemma AtomicAlike(s: string, t: string, n: nat)
    requires AtomicLength(s) == Some(n) && Alike(s, t, n)
    ensures AtomicLength(t) == Some(n)
  {
    hide NamesLength, NamesAfter, FindTicks, FindTick;
    if StartsLiteral(s) {
      AlikeRest(s, t, n, 2);
      TicksAlike(s[2..], t[2..], n - 4);
    } else {
      var m := RoleLength(s).value;
      RoleIs(s, m);
      AlikeRest(s, t, n, m);
      TickAlike(s[m..], t[m..], n - m - 1);
      RoleAlike(s, t, m);
    }
  }

  lemma RoleIs(s: string, m: nat)
    requires RoleLength(s) == Some(m)
    ensures m > 1 && s[0] == ':' && NamesLength(s[1..]) == Some(m - 1)
  {}

  lemma RoleAlike(s: string, t: string, m: nat)
    requires RoleLength(s) == Some(m) && Alike(s, t, m)
    ensures RoleLength(t) == Some(m) && !StartsLiteral(t)
  {
    RoleIs(s, m);
    AlikeRest(s, t, m, 1);
    NamesAlike(s[1..], t[1..], m - 1);
  }

  /** What follows a word brings no backtick that closes it. */
  ghost predicate ClosesNothing(s: string, t: string) {
    (NoTick(s) ==> NoTick(t)) && (NoTicks(s) ==> NoTicks(t))
  }

  lemma NoTicksJoin(s: string, t: string, k: nat, n: nat)
    requires k <= n <= |s| && n <= |t| && NoTicks(s[k..]) && Alike(s, t, n) && EndsAt(t, n) && NoTicks(t[n..])
    ensures NoTicks(t[k..])
  {
    forall i | 0 <= i < |t[k..]| - 1
      ensures !(t[k..][i] == TICK && t[k..][i + 1] == TICK)
    {
      if k + i + 1 < n {
        assert s[k..][i] == t[k + i] && s[k..][i + 1] == t[k + i + 1];
      } else if k + i >= n {
        assert t[n..][k + i - n] == t[k + i] && t[n..][k + i + 1 - n] == t[k + i + 1];
      }
    }
  }

  lemma NoTicksRest(s: string, k: nat, n: nat)
    requires k <= n <= |s| && NoTicks(s[k..])
    ensures NoTicks(s[n..])
  {
    forall i | 0 <= i < |s[n..]| - 1
      ensures !(s[n..][i] == TICK && s[n..][i + 1] == TICK)
    {
      assert s[n..][i] == s[k..][n - k + i] && s[n..][i + 1] == s[k..][n - k + i + 1];
    }
  }

  lemma NoTickJoin(s: string, t: string, k: nat, n: nat)
    requires k <= n <= |s| && n <= |t| && NoTick(s[k..]) && Alike(s, t, n) && NoTick(t[n..])
    ensures NoTick(t[k..])
  {
    forall i | 0 <= i < |t[k..]|
      ensures t[k..][i] != TICK
    {
      if k + i < n {
        assert s[k..][i] == t[k + i];
      } else {
        assert t[n..][k + i - n] == t[k + i];
      }
    }
  }

  lemma NoTickRest(s: string, k: nat, n: nat)
    requires k <= n <= |s| && NoTick(s[k..])
    ensures NoTick(s[n..])
  {
    forall i | 0 <= i < |s[n..]|
      ensures s[n..][i] != TICK
    {
      assert s[n..][i] == s[k..][n - k + i];
    }
  }

  lemma LiteralStays(s: string, t: string, n: nat)
    requires StartsLiteral(t) && n > 0 && Alike(s, t, n) && EndsAt(t, n)
    ensures n >= 2 && StartsLiteral(s)
  {}

  lemma RoleWithin(t: string, m: nat, n: nat)
    requires RoleLength(t) == Some(m) && 0 < n <= |t| && EndsAt(t, n)
    ensures m <= n
  {
    RoleIs(t, m);
    NamesNoSpace(t[1..], m - 1);
    assert forall i :: 1 <= i < m ==> t[i] == t[1..][..m - 1][i - 1] && !IsSpace(t[i]);
  }

  /** Markup that was not closed stays unclosed. */
  lemma UnclosedStays(s: string, t: string, n: nat)
    requires AtomicLength(s).None? && 0 < n && Alike(s, t, n) && EndsAt(t, n) && ClosesNothing(s[n..], t[n..])
    ensures AtomicLength(t).None?
  {
    hide IsSpace, NamesLength, NamesAfter;
    if StartsLiteral(t) {
      LiteralStays(s, t, n);
      TicksFound(s[2..]);
      TicksFound(t[2..]);
      NoTicksRest(s, 2, n);
      NoTicksJoin(s, t, 2, n);
    } else if RoleLength(t).Some? {
      var m := RoleLength(t).value;
      RoleWithin(t, m, n);
      RoleAlike(t, s, m);
      TickFound(s[m..]);
      TickFound(t[m..]);
      NoTickRest(s, m, n);
      NoTickJoin(s, t, m, n);
    }
  }

  lemma EndsRest(t: string, n: nat, k: nat)
    requires EndsAt(t, n) && k <= n
    ensures EndsAt(t[k..], n - k)
  {}

  lemma {:induction false} RunAlike(s: string, t: string, n: nat)
    requires RunLength(s) == n && Alike(s, t, n) && EndsAt(t, n)
    ensures RunLength(t) == n
    decreases n
  {
    hide IsSpace;
    if n > 0 {
      AlikeRest(s, t, n, 1);
      EndsRest(t, n, 1);
      RunAlike(s[1..], t[1..], n - 1);
    }
  }

  lemma SpaceTrails(c: char)
    requires IsSpace(c)
    ensures !IsTrailing(c)
  {}

  lemma {:induction false} TrailAlike(s: string, t: string, n: nat)
    requires TrailLength(s) == n && Alike(s, t, n) && EndsAt(t, n)
    ensures TrailLength(t) == n
    decreases n
  {
    hide IsSpace, IsTrailing;
    if n > 0 {
      AlikeRest(s, t, n, 1);
      EndsRest(t, n, 1);
      TrailAlike(s[1..], t[1..], n - 1);
    } else if t != "" {
      SpaceTrails(t[0]);
    }
  }

  lemma {:induction false} RunEnds(s: string)
    ensures EndsAt(s, RunLength(s))
  {
    if s != "" && !IsSpace(s[0]) {
      RunEnds(s[1..]);
    }
  }

  lemma EndsTrail(s: string, n: nat)
    requires EndsAt(s, n)
    ensures TrailLength(s[n..]) == 0
  {}

  /** The length of a token is the same in front of any text that ends it and closes no markup. */
  lemma TokenStays(s: string, t: string, k: nat)
    requires s != "" && t != "" && !IsSpace(s[0]) && TokenLength(s) == k
    requires Alike(s, t, k) && EndsAt(t, k) && ClosesNothing(s[k..], t[k..])
    ensures !IsSpace(t[0]) && TokenLength(t) == k
  {
    hide IsSpace, ClosesNothing, AtomicLength, EndsAt;
    if AtomicLength(s).Some? {
      var n := AtomicLength(s).value;
      AlikeShorter(s, t, k, n);
      AtomicAlike(s, t, n);
      AlikeRest(s, t, k, n);
      EndsRest(t, k, n);
      TrailAlike(s[n..], t[n..], k - n);
    } else {
      var n := 1 + RunLength(s[1..]);
      RunEnds(s[1..]);
      EndsTrail(s[1..], n - 1);
      assert s[1..][n - 1..] == s[n..];
      UnclosedStays(s, t, k);
      AlikeRest(s, t, k, 1);
      EndsRest(t, k, 1);
      RunAlike(s[1..], t[1..], n - 1);
      EndsTrail(t, n);
    }
  }

  lemma AlikeShorter(s: string, t: string, k: nat, n: nat)
    requires Alike(s, t, k) && n <= k
    ensures Alike(s, t, n)
  {}

  // ---------------------------------------------------------------------------------------------
  // Joining tokens and cutting them again

  lemma TokensStep(s: string)
    ensures Tokens(s) ==
      if SkipSpace(s) == "" then []
      else [SkipSpace(s)[..TokenLength(SkipSpace(s))]] + Tokens(SkipSpace(s)[TokenLength(SkipSpace(s))..])
  {}

  /** What is written after a token: nothing, or a space and the next tokens. */
  function Following(tokens: seq<string>): string {
    if tokens == [] then "" else " " + Join(tokens)
  }

  lemma JoinStep(token: string, tokens: seq<string>)
    ensures Join([token] + tokens) == token + Following(tokens)
  {
    assert ([token] + tokens)[1..] == tokens;
    assert token + "" == token;
  }

  lemma {:induction false} SkipFree(s: string)
    ensures NoTick(s) ==> NoTick(SkipSpace(s))
    ensures NoTicks(s) ==> NoTicks(SkipSpace(s))
  {
    hide IsSpace;
    if s != "" && IsSpace(s[0]) {
      SkipFree(s[1..]);
      if NoTicks(s) {
        NoTicksRest(s, 0, 1);
        assert s[0..] == s;
      }
    }
  }

  /** A token followed by something without backticks of its own. */
  lemma FollowingFree(t: string, n: nat, rest: string)
    requires n <= |t| && (rest == "" || rest[0] == ' ')
    ensures NoTick(t) && NoTick(rest) ==> NoTick(t[..n] + rest)
    ensures NoTicks(t) && NoTicks(rest) ==> NoTicks(t[..n] + rest)
  {
    var all := t[..n] + rest;
    assert forall i :: 0 <= i < n ==> all[i] == t[i];
    assert forall i :: n <= i < |all| ==> all[i] == rest[i - n];
  }

  lemma SpaceFree(s: string)
    ensures NoTick(s) ==> NoTick(" " + s)
    ensures NoTicks(s) ==> NoTicks(" " + s)
  {
    var all := " " + s;
    assert forall i :: 1 <= i < |all| ==> all[i] == s[i - 1];
  }

  /** Joining the tokens of a text brings no backticks together. */
  lemma {:induction false} TokensFree(s: string)
    ensures ClosesNothing(s, Following(Tokens(s)))
    decreases |s|
  {
    hide TokenLength, SkipSpace, NoTick, NoTicks, Tokens, Join;
    TokensStep(s);
    var t := SkipSpace(s);
    SkipFree(s);
    NothingFree();
    if t != "" {
      var n := TokenLength(t);
      var rest := Tokens(t[n..]);
      TokensFree(t[n..]);
      DropFree(t, n);
      JoinStep(t[..n], rest);
      FollowingFree(t, n, Following(rest));
      SpaceFree(t[..n] + Following(rest));
    }
  }

  lemma NothingFree()
    ensures NoTick("") && NoTicks("")
  {}

  lemma DropFree(t: string, n: nat)
    requires n <= |t|
    ensures NoTick(t) ==> NoTick(t[n..])
    ensures NoTicks(t) ==> NoTicks(t[n..])
  {
    if NoTicks(t) {
      assert t[0..] == t;
      NoTicksRest(t, 0, n);
    }
  }

  lemma AlikeStart(t: string, n: nat, rest: string)
    requires 0 < n <= |t| && (rest == "" || rest[0] == ' ')
    ensures Alike(t, t[..n] + rest, n) && EndsAt(t[..n] + rest, n)
    ensures (t[..n] + rest)[n..] == rest && (t[..n] + rest)[..n] == t[..n] && (t[..n] + rest)[0] == t[0]
  {}

  lemma SkipOne(s: string)
    ensures SkipSpace(" " + s) == SkipSpace(s)
  {
    assert (" " + s)[1..] == s;
  }

  lemma SkipNothing(s: string)
    requires s == "" || !IsSpace(s[0])
    ensures SkipSpace(s) == s
  {}

  /** Cutting joined tokens gives the tokens. */
  lemma {:induction false} TokensOfJoined(s: string)
    ensures Tokens(Join(Tokens(s))) == Tokens(s)
    ensures Tokens(Following(Tokens(s))) == Tokens(s)
    decreases |s|
  {
    hide TokenLength, SkipSpace, Tokens, Join, Alike, EndsAt, ClosesNothing, IsSpace;
    TokensStep(s);
    var t := SkipSpace(s);
    if t == "" {
      JoinNothing();
      TokensNothing();
    } else {
      var n := TokenLength(t);
      var rest := Tokens(t[n..]);
      var u := t[..n] + Following(rest);
      TokensOfJoined(t[n..]);
      TokensFree(t[n..]);
      JoinStep(t[..n], rest);
      AlikeStart(t, n, Following(rest));
      TokenStays(t, u, n);
      SkipNothing(u);
      SkipOne(u);
      TokensStep(u);
      TokensStep(" " + u);
    }
  }

  lemma JoinNothing()
    ensures Join([]) == "" && Following([]) == ""
  {}

  lemma TokensNothing()
    ensures Tokens("") == []
  {}

  // ---------------------------------------------------------------------------------------------
  // What is kept

  function Visible(s: string): string {
    if s == "" then "" else if IsSpace(s[0]) then Visible(s[1..]) else [s[0]] + Visible(s[1..])
  }

  lemma VisibleStep(s: string)
    requires s != ""
    ensures Visible(s) == (if IsSpace(s[0]) then "" else [s[0]]) + Visible(s[1..])
  {
    hide IsSpace;
    assert "" + Visible(s[1..]) == Visible(s[1..]);
  }

  lemma VisibleNothing(s: string)
    ensures Visible("") == "" && "" + s == s
  {}

  lemma Regroup(a: string, b: string, c: string)
    ensures a + (b + c) == a + b + c
  {}

  lemma {:induction false} VisibleJoin(a: string, b: string)
    ensures Visible(a + b) == Visible(a) + Visible(b)
  {
    hide IsSpace, Visible;
    if a == "" {
      VisibleNothing(b);
      VisibleNothing(Visible(b));
    } else {
      VisibleJoin(a[1..], b);
      assert (a + b)[1..] == a[1..] + b && (a + b)[0] == a[0];
      VisibleStep(a);
      VisibleStep(a + b);
      Regroup(if IsSpace(a[0]) then "" else [a[0]], Visible(a[1..]), Visible(b));
    }
  }

  lemma {:induction false} VisibleSkip(s: string)
    ensures Visible(SkipSpace(s)) == Visible(s)
  {
    hide IsSpace;
    if s != "" && IsSpace(s[0]) {
      VisibleSkip(s[1..]);
    }
  }

  lemma VisibleSpace(s: string)
    ensures Visible(" " + s) == Visible(s)
  {
    assert (" " + s)[1..] == s;
  }

  /** Tokens on a line have the visible characters of the text, in order. */
  lemma {:induction false} VisibleKept(s: string)
    ensures Visible(Join(Tokens(s))) == Visible(s)
    ensures Visible(Following(Tokens(s))) == Visible(s)
    decreases |s|
  {
    hide TokenLength, SkipSpace, Tokens, Join, IsSpace, Visible;
    TokensStep(s);
    var t := SkipSpace(s);
    VisibleSkip(s);
    if t == "" {
      JoinNothing();
    } else {
      var n := TokenLength(t);
      var rest := Tokens(t[n..]);
      VisibleKept(t[n..]);
      JoinStep(t[..n], rest);
      VisibleJoin(t[..n], Following(rest));
      VisibleJoin(t[..n], t[n..]);
      assert t == t[..n] + t[n..];
      VisibleSpace(t[..n] + Following(rest));
    }
  }

  ghost predicate NotEmpty(tokens: seq<string>) {
    forall i :: 0 <= i < |tokens| ==> tokens[i] != ""
  }

  lemma {:induction false} TokensNotEmpty(s: string)
    ensures NotEmpty(Tokens(s))
    decreases |s|
  {
    hide TokenLength, SkipSpace, Tokens;
    TokensStep(s);
    var t := SkipSpace(s);
    if t != "" {
      TokensNotEmpty(t[TokenLength(t)..]);
    }
  }
}
