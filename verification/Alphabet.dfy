// The characters of transformed rules and their tokens.
//
// The generator numbers the characters by their place in a string; the runtime lookup computes the
// character of a token from ranges. The lemmas at the end show that the two agree.
module Alphabet {
  import opened Wrappers

  const EXCEPTION_TOKEN: nat := 2
  const FIRST_CHARACTER_TOKEN: nat := 3

  predicate IsCharacter(c: char) {
    c == '-' || c == '.' || '0' <= c <= '9' || 'a' <= c <= 'z'
  }

  function CharacterToken(c: char): (r: nat)
    requires IsCharacter(c)
    ensures FIRST_CHARACTER_TOKEN <= r && TokenCharacter(r) == Some(c)
  {
    if c == '-' then 3
    else if c == '.' then 4
    else if c <= '9' then c as int - '0' as int + 5
    else c as int - 'a' as int + 15
  }

  function TokenCharacter(token: nat): (r: Option<char>)
    ensures r.Some? ==> IsCharacter(r.value)
  {
    if token == 3 then Some('-')
    else if token == 4 then Some('.')
    else if 5 <= token <= 14 then Some((token - 5 + '0' as int) as char)
    else if 15 <= token <= 40 then Some((token - 15 + 'a' as int) as char)
    else None
  }

  /** The generator's numbering: the characters in ascending order, from the first character token on. */
  function Characters(): string {
    "-.0123456789abcdefghijklmnopqrstuvwxyz"
  }

  lemma CharactersSize()
    ensures |Characters()| == 38
  {}

  lemma CharacterAt(i: nat)
    requires i < |Characters()|
    ensures TokenCharacter(FIRST_CHARACTER_TOKEN + i) == Some(Characters()[i])
  {}

  lemma CharacterPlace(c: char)
    requires IsCharacter(c)
    ensures var i := CharacterToken(c) - FIRST_CHARACTER_TOKEN; i < |Characters()| && Characters()[i] == c
  {
    hide Characters;
    CharactersSize();
    CharacterAt(CharacterToken(c) - FIRST_CHARACTER_TOKEN);
  }

  lemma CharacterListed(c: char)
    ensures c in Characters() <==> IsCharacter(c)
  {
    if IsCharacter(c) {
      CharacterPlace(c);
    }
    hide Characters;
    if i :| 0 <= i < |Characters()| && Characters()[i] == c {
      CharacterAt(i);
    }
  }

  lemma TokenOutside(token: nat)
    requires !(FIRST_CHARACTER_TOKEN <= token < FIRST_CHARACTER_TOKEN + |Characters()|)
    ensures TokenCharacter(token) == None
  {
    CharactersSize();
    hide Characters;
  }

  /** Both numberings describe the same characters. */
  lemma AlphabetsAgree(c: char, token: nat)
    ensures c in Characters() <==> IsCharacter(c)
    ensures TokenCharacter(token) == Some(c) <==>
              FIRST_CHARACTER_TOKEN <= token < FIRST_CHARACTER_TOKEN + |Characters()|
              && Characters()[token - FIRST_CHARACTER_TOKEN] == c
  {
    hide Characters, TokenCharacter, IsCharacter;
    CharacterListed(c);
    if FIRST_CHARACTER_TOKEN <= token < FIRST_CHARACTER_TOKEN + |Characters()| {
      CharacterAt(token - FIRST_CHARACTER_TOKEN);
    } else {
      TokenOutside(token);
    }
  }
}
