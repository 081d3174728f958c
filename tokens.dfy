/**
 * The bearer-token generator of the security controller
 * (`SecurityController::generateToken`): twenty draws, each an index into the
 * 62 symbols `A-Z`, `a-z`, `0-9`, appended one at a time. The random source
 * (`mt_rand`) is injected as the sequence of indices it returns.
 */
module Tokens {

  /** Number of loop iterations of the generator, hence the token length. */
  const TokenLength: nat := 20

  /**
   * The characters with codes lo..hi inclusive, as PHP's `range` builds them.
   * (`range('0','9')` gives the integers 0..9; appending them to the token
   * string writes the same digit characters.)
   */
  function Range(lo: int, hi: int): (r: seq<char>)
    requires 0 <= lo <= hi < 128
    ensures |r| == hi - lo + 1
    ensures forall i :: 0 <= i < |r| ==> r[i] as int == lo + i
  {
    seq(hi - lo + 1, i requires 0 <= i <= hi - lo => (lo + i) as char)
  }

  predicate IsUpper(c: char) { 'A' <= c <= 'Z' }
  predicate IsLower(c: char) { 'a' <= c <= 'z' }
  predicate IsDigit(c: char) { '0' <= c <= '9' }

  /** A symbol of the token alphabet. */
  predicate IsSymbol(c: char) { IsUpper(c) || IsLower(c) || IsDigit(c) }

  /** `array_merge(range('A','Z'), range('a','z'), range('0','9'))`. */
  function Characters(): seq<char>
  {
    Range('A' as int, 'Z' as int) + Range('a' as int, 'z' as int) + Range('0' as int, '9' as int)
  }

  /** The position of a symbol in `Characters()`. */
  function IndexOf(c: char): (k: nat)
    requires IsSymbol(c)
    ensures k < |Characters()| && Characters()[k] == c
  {
    CharacterAt(0);
    if IsUpper(c) then
      CharacterAt(c as int - 'A' as int); c as int - 'A' as int
    else if IsLower(c) then
      CharacterAt(26 + c as int - 'a' as int); 26 + c as int - 'a' as int
    else
      CharacterAt(52 + c as int - '0' as int); 52 + c as int - '0' as int
  }

  /** The alphabet has 62 entries, laid out as upper case, lower case, digits. */
  lemma CharacterAt(k: int)
    requires 0 <= k < 62
    ensures |Characters()| == 62
    ensures Characters()[k] as int ==
      if k < 26 then 'A' as int + k
      else if k < 52 then 'a' as int + (k - 26)
      else '0' as int + (k - 52)
  {
    var upper, lower, digits := Range('A' as int, 'Z' as int), Range('a' as int, 'z' as int), Range('0' as int, '9' as int);
    assert Characters() == upper + lower + digits;
    if k < 26 {
      assert Characters()[k] == upper[k];
    } else if k < 52 {
      assert Characters()[k] == lower[k - 26];
    } else {
      assert Characters()[k] == digits[k - 52];
    }
  }

  /** Exactly the alphanumeric characters are in the alphabet, each once. */
  lemma CharactersAreTheAlphabet()
    ensures |Characters()| == 62
    ensures forall c :: c in Characters() <==> IsSymbol(c)
    ensures forall i, j :: 0 <= i < j < |Characters()| ==> Characters()[i] != Characters()[j]
  {
    CharacterAt(0);
    forall c | c in Characters() ensures IsSymbol(c) {
      var k :| 0 <= k < |Characters()| && Characters()[k] == c;
      CharacterAt(k);
    }
    forall c | IsSymbol(c) ensures c in Characters() {
      var k := IndexOf(c);
    }
    forall i, j | 0 <= i < j < |Characters()| ensures Characters()[i] != Characters()[j] {
      CharacterAt(i);
      CharacterAt(j);
    }
  }

  /** What the injected `mt_rand(0, 61)` may return: twenty indices in 0..61. */
  predicate ValidDraws(draws: seq<int>)
  {
    |draws| == TokenLength && forall i :: 0 <= i < |draws| ==> 0 <= draws[i] < 62
  }

  /** A well-formed token: twenty symbols of the alphabet. */
  predicate ValidToken(t: string)
  {
    |t| == TokenLength && forall i :: 0 <= i < |t| ==> IsSymbol(t[i])
  }

  /** The token that a given sequence of draws produces. */
  function TokenOf(draws: seq<int>): (t: string)
    requires ValidDraws(draws)
    ensures ValidToken(t)
  {
    CharacterAt(0);
    var t := seq(TokenLength, i requires 0 <= i < TokenLength => Characters()[draws[i]]);
    assert forall i :: 0 <= i < |t| ==> IsSymbol(t[i]) by {
      CharactersAreTheAlphabet();
    }
    t
  }

  /** The draws that produce a given token. */
  function DrawsOf(t: string): (draws: seq<int>)
    requires ValidToken(t)
    ensures ValidDraws(draws)
  {
    seq(|t|, i requires 0 <= i < |t| => IndexOf(t[i]) as int)
  }

  /**
   * Every well-formed token comes from exactly one sequence of draws, so
   * uniform draws give every one of the 62^20 tokens the same chance.
   */
  lemma {:induction false} DrawsTokenBijection(draws: seq<int>, t: string)
    requires ValidDraws(draws) && ValidToken(t)
    ensures DrawsOf(TokenOf(draws)) == draws
    ensures TokenOf(DrawsOf(t)) == t
  {
    CharactersAreTheAlphabet();
    var d := DrawsOf(TokenOf(draws));
    forall i | 0 <= i < TokenLength ensures d[i] == draws[i] {
      var k := IndexOf(TokenOf(draws)[i]);
      assert Characters()[k] == Characters()[draws[i]];
    }
  }

  /** Different draws give different tokens. */
  lemma DistinctDrawsDistinctTokens(d1: seq<int>, d2: seq<int>)
    requires ValidDraws(d1) && ValidDraws(d2) && d1 != d2
    ensures TokenOf(d1) != TokenOf(d2)
  {
    DrawsTokenBijection(d1, TokenOf(d2));
    DrawsTokenBijection(d2, TokenOf(d1));
  }

  /**
   * `generateToken`: append `Characters()[rand]` twenty times, `rand` being
   * the next injected draw.
   */
  method GenerateToken(draws: seq<int>) returns (token: string)
    requires ValidDraws(draws)
    ensures token == TokenOf(draws)
    ensures ValidToken(token)
  {
    token := "";
    var characters := Characters();
    CharacterAt(0);
    var max := |characters| - 1;
    for i := 0 to TokenLength
      invariant token == TokenOf(draws)[..i]
    {
      var rand := draws[i];
      assert 0 <= rand <= max;
      token := token + [characters[rand]];
    }
  }
}
