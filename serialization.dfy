/**
 * PHP's `serialize`/`unserialize` for what the user entity stores in the
 * session: a list of scalars, each `null`, an integer or a string.
 *
 *   null      N;
 *   integer   i:<decimal>;
 *   string    s:<length>:"<characters>";
 *   list      a:<count>:{i:0;<value>i:1;<value>...}
 *
 * One character stands for one byte.
 */
module Serialization {
  import opened Wrappers

  datatype Scalar = Null | Int(i: int) | Str(s: string)

  predicate IsDigit(c: char) { '0' <= c <= '9' }

  predicate AllDigits(s: string) { forall i :: 0 <= i < |s| ==> IsDigit(s[i]) }

  function Digit(d: nat): (c: char)
    requires d < 10
    ensures IsDigit(c) && c as int - '0' as int == d
  {
    ('0' as int + d) as char
  }

  /** Decimal notation of a natural number, without leading zeros. */
  function NatToString(n: nat): (r: string)
    ensures |r| > 0 && AllDigits(r)
  {
    if n < 10 then [Digit(n)] else NatToString(n / 10) + [Digit(n % 10)]
  }

  /** The number a string of decimal digits denotes. */
  function StringToNat(s: string): nat
    requires AllDigits(s)
  {
    if s == [] then 0 else StringToNat(s[..|s| - 1]) * 10 + (s[|s| - 1] as int - '0' as int)
  }

  lemma {:induction false} NatStringRoundTrip(n: nat)
    ensures StringToNat(NatToString(n)) == n
  {
    if n >= 10 {
      NatStringRoundTrip(n / 10);
      var s := NatToString(n);
      assert s[..|s| - 1] == NatToString(n / 10);
    }
  }

  function IntToString(i: int): string
  {
    if i < 0 then "-" + NatToString(-i) else NatToString(i)
  }

  function EncodeScalar(v: Scalar): string
  {
    match v
    case Null => "N;"
    case Int(i) => "i:" + IntToString(i) + ";"
    case Str(s) => "s:" + NatToString(|s|) + ":\"" + s + "\";"
  }

  /** `i:k;<value>`, one entry of a list. */
  function EncodeEntry(v: Scalar, k: nat): string
  {
    "i:" + NatToString(k) + ";" + EncodeScalar(v)
  }

  /** The entries of a list, keys counting up from k. */
  function EncodeEntries(vs: seq<Scalar>, k: nat): string
    decreases |vs|
  {
    if vs == [] then "" else EncodeEntry(vs[0], k) + EncodeEntries(vs[1..], k + 1)
  }

  /** `serialize` of a list: `a:<count>:{<entries>}`. */
  function Serialize(vs: seq<Scalar>): (r: string)
    ensures |r| >= 6 && r[..2] == "a:" && r[|r| - 1] == '}'
  {
    "a:" + NatToString(|vs|) + ":{" + EncodeEntries(vs, 0) + "}"
  }

  // Parsing. Each parser returns what it read and the rest of the input.

  /** The length of the longest prefix of decimal digits. */
  function DigitRun(s: string): (k: nat)
    ensures k <= |s| && AllDigits(s[..k])
    ensures k < |s| ==> !IsDigit(s[k])
  {
    if s != [] && IsDigit(s[0]) then
      var k := 1 + DigitRun(s[1..]);
      assert s[..k] == [s[0]] + s[1..][..k - 1];
      k
    else 0
  }

  /** The input after the literal `lit`, if it starts with it. */
  function Expect(s: string, lit: string): Option<string>
    decreases lit
  {
    if lit == [] then Some(s)
    else if s != [] && s[0] == lit[0] then Expect(s[1..], lit[1..])
    else None
  }

  /** What Expect returns is what follows the literal. */
  lemma {:induction false} ExpectSound(s: string, lit: string)
    ensures Expect(s, lit).Some? ==> s == lit + Expect(s, lit).value
    decreases lit
  {
    if lit != [] && s != [] && s[0] == lit[0] {
      ExpectSound(s[1..], lit[1..]);
      assert s == [s[0]] + s[1..];
    }
  }

  function ParseNat(s: string): Option<(nat, string)>
  {
    var k := DigitRun(s);
    if k == 0 then None else Some((StringToNat(s[..k]), s[k..]))
  }

  function ParseInt(s: string): Option<(int, string)>
  {
    if s != [] && s[0] == '-' then
      var (n, rest) :- ParseNat(s[1..]);
      var m: int := n;
      var negated: (int, string) := (-m, rest);
      Some(negated)
    else
      ParseNat(s)
  }

  /** `i:<decimal>;` */
  function ParseIntValue(s: string): Option<(Scalar, string)>
  {
    var afterTag :- Expect(s, "i:");
    var (i, afterDigits) :- ParseInt(afterTag);
    var rest :- Expect(afterDigits, ";");
    Some((Int(i), rest))
  }

  /** `s:<length>:"<characters>";` */
  function ParseStringValue(s: string): Option<(Scalar, string)>
  {
    var afterTag :- Expect(s, "s:");
    var (n, afterLength) :- ParseNat(afterTag);
    var body :- Expect(afterLength, ":\"");
    if n <= |body| then
      var rest :- Expect(body[n..], "\";");
      Some((Str(body[..n]), rest))
    else None
  }

  /** One value, chosen by its type letter. */
  function ParseScalar(s: string): Option<(Scalar, string)>
  {
    if s == [] then None
    else if s[0] == 'N' then
      var rest :- Expect(s, "N;");
      Some((Null, rest))
    else if s[0] == 'i' then ParseIntValue(s)
    else if s[0] == 's' then ParseStringValue(s)
    else None
  }

  /** `i:k;<value>`: an entry whose key is k. */
  function ParseEntry(s: string, k: nat): Option<(Scalar, string)>
  {
    var afterTag :- Expect(s, "i:");
    var (key, afterKey) :- ParseNat(afterTag);
    var afterSemi :- Expect(afterKey, ";");
    if key != k then None else ParseScalar(afterSemi)
  }

  /** n entries whose keys count up from k. */
  function ParseEntries(s: string, k: nat, n: nat): Option<(seq<Scalar>, string)>
    decreases n
  {
    if n == 0 then Some(([], s))
    else
      var (v, afterEntry) :- ParseEntry(s, k);
      var (vs, rest) :- ParseEntries(afterEntry, k + 1, n - 1);
      Some(([v] + vs, rest))
  }

  /**
   * `unserialize`, for input holding a list of null, integer and string
   * entries; any other input is `None`. (PHP returns other values for other
   * well-formed input, but `list()` turns every non-array into four nulls, as
   * it does `false`.) Data after the closing brace is ignored.
   */
  function Unserialize(s: string): (r: Option<seq<Scalar>>)
    ensures r.Some? ==> |s| >= 2 && s[..2] == "a:"
  {
    ExpectSound(s, "a:");
    var afterTag :- Expect(s, "a:");
    var (n, afterCount) :- ParseNat(afterTag);
    var afterOpen :- Expect(afterCount, ":{");
    var (vs, afterEntries) :- ParseEntries(afterOpen, 0, n);
    var _ :- Expect(afterEntries, "}");
    Some(vs)
  }

  // The round trip.

  lemma {:induction false} ExpectPrefix(lit: string, rest: string)
    ensures Expect(lit + rest, lit) == Some(rest)
    decreases lit
  {
    if lit != [] {
      assert (lit + rest)[0] == lit[0];
      assert (lit + rest)[1..] == lit[1..] + rest;
      ExpectPrefix(lit[1..], rest);
    } else {
      assert lit + rest == rest;
    }
  }

  lemma {:induction false} DigitRunOfDigits(d: string, rest: string)
    requires AllDigits(d)
    requires rest == [] || !IsDigit(rest[0])
    ensures DigitRun(d + rest) == |d|
  {
    if d != [] {
      assert (d + rest)[1..] == d[1..] + rest;
      DigitRunOfDigits(d[1..], rest);
    }
  }

  lemma NatParse(n: nat, rest: string)
    requires rest == [] || !IsDigit(rest[0])
    ensures ParseNat(NatToString(n) + rest) == Some((n, rest))
  {
    var d := NatToString(n);
    DigitRunOfDigits(d, rest);
    assert (d + rest)[..|d|] == d;
    assert (d + rest)[|d|..] == rest;
    NatStringRoundTrip(n);
  }

  /** ParseInt on a minus sign followed by a number. */
  lemma MinusStep(s: string, digits: string, n: nat, rest: string)
    requires s == "-" + digits
    requires ParseNat(digits) == Some((n, rest))
    ensures ParseInt(s) == Some((-(n as int), rest))
  {
    assert s[0] == '-' && s[1..] == digits;
  }

  lemma NegativeIntParse(i: int, rest: string)
    requires i < 0
    requires rest == [] || !IsDigit(rest[0])
    ensures ParseInt(IntToString(i) + rest) == Some((i, rest))
  {
    var digits := NatToString(-i) + rest;
    assert IntToString(i) + rest == "-" + digits;
    NatParse(-i, rest);
    MinusStep(IntToString(i) + rest, digits, -i, rest);
  }

  lemma NonNegativeIntParse(i: int, rest: string)
    requires i >= 0
    requires rest == [] || !IsDigit(rest[0])
    ensures ParseInt(IntToString(i) + rest) == Some((i, rest))
  {
    var d := NatToString(i);
    assert IntToString(i) == d;
    assert (d + rest)[0] == d[0];
    assert IsDigit(d[0]);
    NatParse(i, rest);
  }

  lemma IntParse(i: int, rest: string)
    requires rest == [] || !IsDigit(rest[0])
    ensures ParseInt(IntToString(i) + rest) == Some((i, rest))
  {
    if i < 0 {
      NegativeIntParse(i, rest);
    } else {
      NonNegativeIntParse(i, rest);
    }
  }

  lemma IntScalarParse(i: int, rest: string)
    ensures ParseScalar(EncodeScalar(Int(i)) + rest) == Some((Int(i), rest))
  {
    var s := EncodeScalar(Int(i)) + rest;
    var afterTag := IntToString(i) + (";" + rest);
    assert s == "i:" + afterTag;
    assert s[0] == 'i';
    ExpectPrefix("i:", afterTag);
    IntParse(i, ";" + rest);
    ExpectPrefix(";", rest);
  }

  lemma StrScalarParse(str: string, rest: string)
    ensures ParseScalar(EncodeScalar(Str(str)) + rest) == Some((Str(str), rest))
  {
    var s := EncodeScalar(Str(str)) + rest;
    var body := str + ("\";" + rest);
    var afterTag := NatToString(|str|) + (":\"" + body);
    assert s == "s:" + afterTag;
    ExpectPrefix("s:", afterTag);
    NatParse(|str|, ":\"" + body);
    ExpectPrefix(":\"", body);
    assert body[..|str|] == str;
    assert body[|str|..] == "\";" + rest;
    ExpectPrefix("\";", rest);
    StrStep(s, afterTag, ":\"" + body, body, str, rest);
  }

  /** ParseScalar on a string value, from what its parts read. */
  lemma StrStep(s: string, afterTag: string, afterLength: string, body: string, str: string, rest: string)
    requires Expect(s, "s:") == Some(afterTag)
    requires ParseNat(afterTag) == Some((|str|, afterLength))
    requires Expect(afterLength, ":\"") == Some(body)
    requires |str| <= |body| && body[..|str|] == str
    requires Expect(body[|str|..], "\";") == Some(rest)
    ensures ParseScalar(s) == Some((Str(str), rest))
  {
    assert s != [] && s[0] == 's';
  }

  lemma ScalarParse(v: Scalar, rest: string)
    ensures ParseScalar(EncodeScalar(v) + rest) == Some((v, rest))
  {
    match v
    case Null => ExpectPrefix("N;", rest);
    case Int(i) => IntScalarParse(i, rest);
    case Str(str) => StrScalarParse(str, rest);
  }

  lemma EntryParse(v: Scalar, k: nat, rest: string)
    ensures ParseEntry(EncodeEntry(v, k) + rest, k) == Some((v, rest))
  {
    var afterSemi := EncodeScalar(v) + rest;
    assert EncodeEntry(v, k) + rest == "i:" + (NatToString(k) + (";" + afterSemi));
    ScalarParse(v, rest);
    KeyStep(k, afterSemi, v, rest);
  }

  /** An entry with key k, whatever follows the key. */
  lemma KeyStep(k: nat, afterSemi: string, v: Scalar, rest: string)
    requires ParseScalar(afterSemi) == Some((v, rest))
    ensures ParseEntry("i:" + (NatToString(k) + (";" + afterSemi)), k) == Some((v, rest))
  {
    var afterTag := NatToString(k) + (";" + afterSemi);
    ExpectPrefix("i:", afterTag);
    NatParse(k, ";" + afterSemi);
    ExpectPrefix(";", afterSemi);
    EntryStep("i:" + afterTag, k, afterTag, afterSemi);
  }

  /** ParseEntry from what its parts read. */
  lemma EntryStep(s: string, k: nat, afterTag: string, afterSemi: string)
    requires Expect(s, "i:") == Some(afterTag)
    requires ParseNat(afterTag) == Some((k, ";" + afterSemi))
    requires Expect(";" + afterSemi, ";") == Some(afterSemi)
    ensures ParseEntry(s, k) == ParseScalar(afterSemi)
  {
  }

  lemma {:induction false} EntriesParse(vs: seq<Scalar>, k: nat, rest: string)
    ensures ParseEntries(EncodeEntries(vs, k) + rest, k, |vs|) == Some((vs, rest))
    decreases |vs|
  {
    if vs == [] {
      assert EncodeEntries(vs, k) + rest == rest;
    } else {
      var tail := EncodeEntries(vs[1..], k + 1) + rest;
      assert EncodeEntries(vs, k) + rest == EncodeEntry(vs[0], k) + tail;
      EntryParse(vs[0], k, tail);
      EntriesParse(vs[1..], k + 1, rest);
      assert [vs[0]] + vs[1..] == vs;
    }
  }

  /** `unserialize(serialize(vs))` gives back `vs`. */
  lemma SerializeRoundTrip(vs: seq<Scalar>)
    ensures Unserialize(Serialize(vs)) == Some(vs)
  {
    var entries := EncodeEntries(vs, 0) + "}";
    var s := Serialize(vs);
    assert s == "a:" + (NatToString(|vs|) + (":{" + entries));
    ExpectPrefix("a:", NatToString(|vs|) + (":{" + entries));
    NatParse(|vs|, ":{" + entries);
    ExpectPrefix(":{", entries);
    EntriesParse(vs, 0, "}");
    ExpectPrefix("}", "");
  }
}
