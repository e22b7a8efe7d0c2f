/**
  The `%q` verb of `fmt` applied to a string, which is `strconv.Quote`: the
  string as a double-quoted Go literal. Characters below 0x80 are escaped
  exactly as strconv does; characters from 0x80 up are written as they are.
  `ParseQuoted` reads such a literal back, accepting the escapes `Quote`
  writes and the other short escapes.
 */
module GoQuote {
  import opened Wrappers

  /** The letters of the short escapes `\a \b \t \n \v \f \r`, for codes 7 to 13. */
  const ShortLetters: string := "abtnvfr"

  /** The lower-case hexadecimal digit of `n`, as strconv writes it. */
  function HexDigit(n: int): (c: char)
    requires 0 <= n < 16
    ensures HexValue(c) == n
  {
    if n < 10 then ('0' as int + n) as char else ('a' as int + (n - 10)) as char
  }

  /** The value of a hexadecimal digit of either case, or -1 for any other character. */
  function HexValue(c: char): int
  {
    if '0' <= c <= '9' then c as int - '0' as int
    else if 'a' <= c <= 'f' then c as int - 'a' as int + 10
    else if 'A' <= c <= 'F' then c as int - 'A' as int + 10
    else -1
  }

  /** Not one of the control characters 0x00-0x1f and 0x7f of ASCII. */
  predicate NoAsciiControl(c: char)
  {
    c as int >= 0x20 && c as int != 0x7f
  }

  /** How one character appears inside the quotes. */
  function EscapeChar(c: char): (r: string)
    ensures 1 <= |r| <= 4
    ensures forall i :: 0 <= i < |r| ==> NoAsciiControl(r[i])
  {
    if c == '"' || c == '\\' then ['\\', c]
    else if 7 <= c as int <= 13 then ['\\', ShortLetters[c as int - 7]]
    else if c as int < 0x20 || c as int == 0x7f then
      ['\\', 'x', HexDigit(c as int / 16), HexDigit(c as int % 16)]
    else [c]
  }

  /** The characters of `s`, each escaped. */
  function EscapeBody(s: string): (r: string)
    ensures forall i :: 0 <= i < |r| ==> NoAsciiControl(r[i])
    decreases |s|
  {
    if s == [] then [] else EscapeChar(s[0]) + EscapeBody(s[1..])
  }

  /** `strconv.Quote(s)`, which `fmt.Sprintf("%q", s)` produces. */
  function Quote(s: string): (r: string)
    ensures |r| >= 2 && r[0] == '"' && r[|r| - 1] == '"'
    ensures '\n' !in r
  {
    "\"" + EscapeBody(s) + "\""
  }

  /** `c` in front of the value a parse produced. */
  function Prepend(c: char, r: Option<(string, string)>): Option<(string, string)>
  {
    match r
    case None => None
    case Some((v, rest)) => Some(([c] + v, rest))
  }

  /**
    Reads the inside of a quoted literal up to and including its closing quote:
    the value it denotes and what follows the quote. An unescaped newline, an
    unknown escape, a missing closing quote or a `\x` escape outside ASCII fails.
   */
  function ParseBody(s: string): (r: Option<(string, string)>)
    ensures r.Some? ==> |r.value.1| < |s|
    decreases |s|
  {
    if s == [] then None
    else if s[0] == '"' then Some(([], s[1..]))
    else if s[0] == '\n' then None
    else if s[0] != '\\' then Prepend(s[0], ParseBody(s[1..]))
    else if |s| < 2 then None
    else if s[1] == '"' || s[1] == '\\' then Prepend(s[1], ParseBody(s[2..]))
    else if s[1] in ShortLetters then
      var code := 7 + IndexOf(ShortLetters, s[1]);
      Prepend(code as char, ParseBody(s[2..]))
    else if s[1] == 'x' && |s| >= 4 && 0 <= HexValue(s[2]) < 8 && HexValue(s[3]) >= 0 then
      Prepend((16 * HexValue(s[2]) + HexValue(s[3])) as char, ParseBody(s[4..]))
    else None
  }

  /** The position of `c` in `s`. */
  function IndexOf(s: string, c: char): (i: nat)
    requires c in s
    ensures i < |s| && s[i] == c
    ensures forall j :: 0 <= j < i ==> s[j] != c
  {
    if s[0] == c then 0 else 1 + IndexOf(s[1..], c)
  }

  /** Reads a quoted literal at the start of `s`: its value and what follows it. */
  function ParseQuoted(s: string): (r: Option<(string, string)>)
    ensures r.Some? ==> |r.value.1| < |s|
  {
    if s != [] && s[0] == '"' then ParseBody(s[1..]) else None
  }

  /** `strconv.Unquote` on a literal that must be all of `q`. */
  function Unquote(q: string): (r: Option<string>)
    ensures r.Some? ==> |q| >= 2 && q[0] == '"' && q[|q| - 1] == '"'
  {
    ParseBodyRest(if q == [] then [] else q[1..]);
    match ParseQuoted(q)
    case Some((v, rest)) => if rest == [] then Some(v) else None
    case None => None
  }

  /** `rest` is what follows a closing quote at the end of `s`. */
  predicate AfterQuote(s: string, rest: string)
  {
    |rest| < |s| && s[|s| - |rest|..] == rest && s[|s| - |rest| - 1] == '"'
  }

  /** What follows a closing quote in a suffix of `s` follows it in `s`. */
  lemma AfterQuoteInSuffix(s: string, d: nat, rest: string)
    requires d <= |s| && AfterQuote(s[d..], rest)
    ensures AfterQuote(s, rest)
  {
    var t := s[d..];
    assert s[|s| - |rest|..] == t[|t| - |rest|..];
    assert s[|s| - |rest| - 1] == t[|t| - |rest| - 1];
  }

  /** What a successful read leaves is a suffix of its input, right after a closing quote. */
  lemma {:induction false} ParseBodyRest(s: string)
    ensures ParseBody(s).Some? ==> AfterQuote(s, ParseBody(s).value.1)
    decreases |s|
  {
    if s == [] || s[0] == '\n' {
    } else if s[0] == '"' {
      assert s[1..] == s[|s| - |s[1..]|..];
    } else if s[0] != '\\' {
      ParseBodyRest(s[1..]);
      if ParseBody(s).Some? {
        AfterQuoteInSuffix(s, 1, ParseBody(s).value.1);
      }
    } else if |s| >= 2 {
      var d := if s[1] == 'x' then 4 else 2;
      if d <= |s| {
        ParseBodyRest(s[d..]);
        if ParseBody(s).Some? {
          AfterQuoteInSuffix(s, d, ParseBody(s).value.1);
        }
      }
    }
  }

  /** Reading one escaped character gives that character back. */
  lemma ParseEscapedChar(c: char, t: string)
    ensures ParseBody(EscapeChar(c) + t) == Prepend(c, ParseBody(t))
  {
    var e := EscapeChar(c);
    var s := e + t;
    if c == '"' || c == '\\' {
      assert s[2..] == t;
    } else if 7 <= c as int <= 13 {
      var l := ShortLetters[c as int - 7];
      assert IndexOf(ShortLetters, l) == c as int - 7;
      assert s[2..] == t;
    } else if c as int < 0x20 || c as int == 0x7f {
      var hi, lo := c as int / 16, c as int % 16;
      assert s[2] == HexDigit(hi) && s[3] == HexDigit(lo);
      assert (16 * hi + lo) as char == c;
      assert s[4..] == t;
    } else {
      assert s[1..] == t;
    }
  }

  /** Reading an escaped body and its closing quote gives the string back,
      and leaves whatever followed the quote. */
  lemma {:induction false} ParseEscapeBody(s: string, rest: string)
    ensures ParseBody(EscapeBody(s) + "\"" + rest) == Some((s, rest))
    decreases |s|
  {
    if s == [] {
      assert (EscapeBody(s) + "\"" + rest)[1..] == rest;
    } else {
      assert EscapeBody(s) + "\"" + rest == EscapeChar(s[0]) + (EscapeBody(s[1..]) + "\"" + rest);
      ParseEscapedChar(s[0], EscapeBody(s[1..]) + "\"" + rest);
      ParseEscapeBody(s[1..], rest);
      assert [s[0]] + s[1..] == s;
    }
  }

  /** A quoted literal is read back as the string it quotes, whatever follows it. */
  lemma ParseQuote(s: string, rest: string)
    ensures ParseQuoted(Quote(s) + rest) == Some((s, rest))
  {
    ParseEscapeBody(s, rest);
    assert (Quote(s) + rest)[1..] == EscapeBody(s) + "\"" + rest;
  }

  /** Unquoting a quoted string returns it. */
  lemma UnquoteQuote(s: string)
    ensures Unquote(Quote(s)) == Some(s)
  {
    ParseQuote(s, "");
    assert Quote(s) + "" == Quote(s);
  }

  /** Different strings have different quoted forms. */
  lemma QuoteInjective(s: string, t: string)
    requires Quote(s) == Quote(t)
    ensures s == t
  {
    UnquoteQuote(s);
    UnquoteQuote(t);
  }

  /** The example `a"b\c`, which is quoted as `"a\"b\\c"`. */
  lemma QuoteExample()
    ensures Quote("a\"b\\c") == "\"a\\\"b\\\\c\""
  {
    assert EscapeBody("c") == "c";
    assert EscapeBody("\\c") == "\\\\c";
    assert EscapeBody("b\\c") == "b\\\\c";
    assert EscapeBody("\"b\\c") == "\\\"b\\\\c";
  }
}
