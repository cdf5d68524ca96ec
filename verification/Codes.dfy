/** Short codes: how they are generated, and which ones the service accepts. */
module Codes {
  import opened Prelude
  import Rules
  import Text

  const LOWER := "abcdefghijklmnopqrstuvwxyz"
  const UPPER := "ABCDEFGHIJKLMNOPQRSTUVWXYZ"
  const NUMERALS := "0123456789"
  const ALPHABET: string := LOWER + UPPER + NUMERALS

  predicate IsAlphanumeric(c: char) {
    'A' <= c <= 'Z' || 'a' <= c <= 'z' || '0' <= c <= '9'
  }

  /** Codes are 4 to 32 ASCII letters and digits. */
  predicate WellFormed(code: string) {
    4 <= |code| <= 32 && forall i :: 0 <= i < |code| ==> IsAlphanumeric(code[i])
  }

  /** The code a request names, trimmed and checked. */
  function ValidateCode(raw: string): Result<string, Rules.Error> {
    var code := Text.TrimSpace(raw);
    if code == "" || !WellFormed(code) then Err(Rules.Invalid("code")) else Ok(code)
  }

  /** The alias a request asks for; a blank one means none. */
  function NormalizeAlias(raw: string): Result<string, Rules.Error> {
    var alias := Text.TrimSpace(raw);
    if alias == "" then Ok("")
    else if !WellFormed(alias) then Err(Rules.Invalid("alias"))
    else Ok(alias)
  }

  /** What the source of randomness yields for each position: an index below the alphabet's
      length, or nothing when reading fails. */
  predicate Draws(draws: seq<Option<nat>>, length: int) {
    && |draws| >= length
    && forall i :: 0 <= i < |draws| && draws[i].Some? ==> draws[i].value < |ALPHABET|
  }

  predicate ReadingFails(draws: seq<Option<nat>>, length: int)
    requires Draws(draws, length)
  {
    exists i :: 0 <= i < length && draws[i].None?
  }

  /** The letters that the draws pick, if they can all be read. */
  function GeneratedCode(length: nat, draws: seq<Option<nat>>): (code: Option<string>)
    requires Draws(draws, length)
    ensures code.Some? <==> !ReadingFails(draws, length)
    ensures code.Some? ==> |code.value| == length && forall i :: 0 <= i < length ==> code.value[i] in ALPHABET
  {
    if ReadingFails(draws, length) then None
    else Some(seq(length, i requires 0 <= i < length => ALPHABET[draws[i].value]))
  }

  /** Fills a buffer with one letter of the alphabet per draw. */
  method Generate(length: int, draws: seq<Option<nat>>) returns (result: Result<string, Rules.Error>)
    requires Draws(draws, length)
    ensures result == if length > 0 && GeneratedCode(length, draws).Some? then Ok(GeneratedCode(length, draws).value)
                      else Err(Rules.Unavailable)
  {
    if length <= 0 {
      return Err(Rules.Unavailable);
    }
    var buffer := new char[length];
    for i := 0 to length
      invariant forall j :: 0 <= j < i ==> draws[j].Some? && buffer[j] == ALPHABET[draws[j].value]
    {
      if draws[i].None? {
        return Err(Rules.Unavailable);
      }
      buffer[i] := ALPHABET[draws[i].value];
    }
    assert buffer[..] == GeneratedCode(length, draws).value;
    return Ok(buffer[..]);
  }

  // ---------------------------------------------------------------- the alphabet

  /** Where a letter stands in the alphabet: small letters, capitals, digits. */
  function Position(c: char): (n: nat)
    requires IsAlphanumeric(c)
    ensures n < 62
  {
    if 'a' <= c <= 'z' then (c - 'a') as nat
    else if 'A' <= c <= 'Z' then (c - 'A') as nat + 26
    else (c - '0') as nat + 52
  }

  /** The alphabet holds every ASCII letter and digit once, and nothing else. */
  lemma AlphabetIs(c: char, n: nat)
    ensures |ALPHABET| == 62
    ensures n < 62 && ALPHABET[n] == c <==> IsAlphanumeric(c) && Position(c) == n
  {
    LettersInOrder();
    if n < 62 {
      assert ALPHABET[n] == if n < 26 then LOWER[n] else if n < 52 then UPPER[n - 26] else NUMERALS[n - 52];
    }
  }

  lemma LettersInOrder()
    ensures |LOWER| == |UPPER| == 26 && |NUMERALS| == 10
    ensures forall n :: 0 <= n < 26 ==> LOWER[n] == 'a' + n as char && UPPER[n] == 'A' + n as char
    ensures forall n :: 0 <= n < 10 ==> NUMERALS[n] == '0' + n as char
  {
  }

  lemma InAlphabetIff(c: char)
    ensures c in ALPHABET <==> IsAlphanumeric(c)
  {
    AlphabetIs(c, 0);
    if c in ALPHABET {
      var n :| 0 <= n < |ALPHABET| && ALPHABET[n] == c;
      AlphabetIs(c, n);
    }
    if IsAlphanumeric(c) {
      AlphabetIs(c, Position(c));
    }
  }

  /** The draws that yield a code. */
  function DrawsOf(code: string): seq<Option<nat>>
    requires forall i :: 0 <= i < |code| ==> IsAlphanumeric(code[i])
  {
    seq(|code|, i requires 0 <= i < |code| => Some(Position(code[i])))
  }

  /** Every text of letters and digits comes from exactly one sequence of draws, so that equally
      likely draws make equally likely codes. */
  lemma EveryCodeIsDrawnOnce(code: string, draws: seq<Option<nat>>)
    requires forall i :: 0 <= i < |code| ==> IsAlphanumeric(code[i])
    requires |draws| == |code|
    ensures Draws(draws, |code|) && GeneratedCode(|code|, draws) == Some(code) <==> draws == DrawsOf(code)
  {
    forall i | 0 <= i < |code|
      ensures Position(code[i]) < |ALPHABET| && ALPHABET[Position(code[i])] == code[i]
    {
      AlphabetIs(code[i], Position(code[i]));
    }
    if Draws(draws, |code|) && GeneratedCode(|code|, draws) == Some(code) {
      forall i | 0 <= i < |code| ensures draws[i] == DrawsOf(code)[i] {
        AlphabetIs(code[i], draws[i].value);
      }
    }
    if draws == DrawsOf(code) {
      assert Draws(draws, |code|);
      assert GeneratedCode(|code|, draws).value == code;
    }
  }

  /** Letters of the alphabet make a well-formed code when there are 4 to 32 of them. */
  lemma LettersAreWellFormed(code: string)
    requires 4 <= |code| <= 32 && forall i :: 0 <= i < |code| ==> code[i] in ALPHABET
    ensures WellFormed(code)
  {
    forall i | 0 <= i < |code| ensures IsAlphanumeric(code[i]) {
      InAlphabetIff(code[i]);
    }
  }

  // ---------------------------------------------------------------- what requests may name

  lemma WellFormedIff(code: string)
    ensures WellFormed(code) <==> 4 <= |code| <= 32 && forall c :: c in code ==> c in ALPHABET
  {
    forall c: char ensures c in ALPHABET <==> IsAlphanumeric(c) {
      InAlphabetIff(c);
    }
  }

  /** Whatever white space is around it, a code is accepted exactly when it has 4 to 32 letters of
      the alphabet and nothing else; any other is invalid. */
  lemma ValidateCodeIs(left: string, code: string, right: string)
    requires Text.AllSpace(left) && Text.AllSpace(right) && Text.NoOuterSpace(code)
    ensures ValidateCode(left + code + right)
         == if 4 <= |code| <= 32 && forall c :: c in code ==> c in ALPHABET then Ok(code)
            else Err(Rules.Invalid("code"))
  {
    Text.TrimSpaceDrops(left, code, right);
    WellFormedIff(code);
  }

  /** The same for an alias, which may be blank. */
  lemma NormalizeAliasIs(left: string, alias: string, right: string)
    requires Text.AllSpace(left) && Text.AllSpace(right) && Text.NoOuterSpace(alias)
    ensures NormalizeAlias(left + alias + right)
         == if alias == "" || (4 <= |alias| <= 32 && forall c :: c in alias ==> c in ALPHABET) then Ok(alias)
            else Err(Rules.Invalid("alias"))
  {
    Text.TrimSpaceDrops(left, alias, right);
    WellFormedIff(alias);
  }

  /** Validation leaves a well-formed code alone, so whoever names it finds it. */
  lemma WellFormedIsFixed(code: string)
    ensures ValidateCode(code) == Ok(code) <==> WellFormed(code)
  {
    if WellFormed(code) {
      assert Text.TrimLeft(code) == code;
      assert Text.TrimRight(code) == code;
    }
  }

  /** What is accepted as an alias or a code is a fixed point of validation. */
  lemma AcceptedIsFixed(raw: string)
    ensures NormalizeAlias(raw).Ok? && NormalizeAlias(raw).value != "" ==>
              ValidateCode(NormalizeAlias(raw).value) == NormalizeAlias(raw)
    ensures ValidateCode(raw).Ok? ==> ValidateCode(ValidateCode(raw).value) == ValidateCode(raw)
  {
    if NormalizeAlias(raw).Ok? {
      WellFormedIsFixed(NormalizeAlias(raw).value);
    }
    if ValidateCode(raw).Ok? {
      WellFormedIsFixed(ValidateCode(raw).value);
    }
  }
}
