/**
  Models of the PHP built-in string functions that the builder calls:
  trim, empty, mb_strpos, str_replace (with an empty replacement), implode,
  the int-to-string conversion of the `.` operator, and preg_quote.
  PHP strings are modelled as sequences of characters.
 */
module Php {

  datatype Option<T> = None | Some(value: T)

  // ---------------------------------------------------------------------------
  // trim
  // ---------------------------------------------------------------------------

  /** The characters trim() strips when no character list is given: " \t\n\r\0\x0B". */
  predicate IsTrimChar(c: char) {
    c == ' ' || c == '\t' || c == '\n' || c == '\r' || c == '\0' || c == '\U{000B}'
  }

  /** Every character of `s` is one trim() strips. */
  predicate AllTrimChars(s: string) {
    forall i :: 0 <= i < |s| ==> IsTrimChar(s[i])
  }

  /** ltrim: drop the leading run of trim characters. */
  function TrimLeft(s: string): string
  {
    if s != [] && IsTrimChar(s[0]) then TrimLeft(s[1..]) else s
  }

  /** rtrim: drop the trailing run of trim characters. */
  function TrimRight(s: string): string
  {
    if s != [] && IsTrimChar(s[|s| - 1]) then TrimRight(s[..|s| - 1]) else s
  }

  /** trim($s): both ends stripped. */
  function Trim(s: string): string
  {
    TrimRight(TrimLeft(s))
  }

  /** ltrim keeps a suffix, removes only trim characters, and stops at the first other one. */
  lemma {:induction false} TrimLeftShape(s: string)
    ensures |TrimLeft(s)| <= |s| && TrimLeft(s) == s[|s| - |TrimLeft(s)|..]
    ensures TrimLeft(s) == [] || !IsTrimChar(TrimLeft(s)[0])
    ensures AllTrimChars(s[..|s| - |TrimLeft(s)|])
  {
    if s != [] && IsTrimChar(s[0]) {
      TrimLeftShape(s[1..]);
      var k := |s| - |TrimLeft(s)|;
      assert s[..k] == [s[0]] + s[1..][..k - 1];
    }
  }

  /** rtrim keeps a prefix, removes only trim characters, and stops at the last other one. */
  lemma {:induction false} TrimRightShape(s: string)
    ensures |TrimRight(s)| <= |s| && TrimRight(s) == s[..|TrimRight(s)|]
    ensures TrimRight(s) == [] || !IsTrimChar(TrimRight(s)[|TrimRight(s)| - 1])
    ensures AllTrimChars(s[|TrimRight(s)|..])
  {
    if s != [] && IsTrimChar(s[|s| - 1]) {
      var p := s[..|s| - 1];
      TrimRightShape(p);
      var k := |TrimRight(s)|;
      assert s[k..] == p[k..] + [s[|s| - 1]];
    }
  }

  /** trim leaves no trim character at either end. */
  lemma TrimShape(s: string)
    ensures Trim(s) == [] || (!IsTrimChar(Trim(s)[0]) && !IsTrimChar(Trim(s)[|Trim(s)| - 1]))
  {
    TrimLeftShape(s);
    TrimRightShape(TrimLeft(s));
  }

  lemma {:induction false} TrimLeftPadded(ws: string, x: string)
    requires AllTrimChars(ws)
    ensures TrimLeft(ws + x) == TrimLeft(x)
  {
    if ws != [] {
      assert (ws + x)[0] == ws[0] && IsTrimChar(ws[0]);
      assert (ws + x)[1..] == ws[1..] + x;
      assert AllTrimChars(ws[1..]);
      TrimLeftPadded(ws[1..], x);
    } else {
      assert ws + x == x;
    }
  }

  lemma {:induction false} TrimRightPadded(x: string, ws: string)
    requires AllTrimChars(ws)
    ensures TrimRight(x + ws) == TrimRight(x)
    decreases |ws|
  {
    if ws != [] {
      assert (x + ws)[|x + ws| - 1] == ws[|ws| - 1] && IsTrimChar(ws[|ws| - 1]);
      assert (x + ws)[..|x + ws| - 1] == x + ws[..|ws| - 1];
      assert AllTrimChars(ws[..|ws| - 1]);
      TrimRightPadded(x, ws[..|ws| - 1]);
    } else {
      assert x + ws == x;
    }
  }

  lemma {:induction false} TrimLeftOfRightTrimmed(x: string, ws: string)
    requires TrimLeft(x) != []
    ensures TrimLeft(x + ws) == TrimLeft(x) + ws
    decreases |x|
  {
    assert x != [];
    assert (x + ws)[0] == x[0];
    if IsTrimChar(x[0]) {
      assert (x + ws)[1..] == x[1..] + ws;
      TrimLeftOfRightTrimmed(x[1..], ws);
    }
  }

  /** Surrounding a value with trim characters does not change what trim() gives. */
  lemma {:induction false} TrimPadded(ws1: string, x: string, ws2: string)
    requires AllTrimChars(ws1) && AllTrimChars(ws2)
    ensures Trim(ws1 + x + ws2) == Trim(x)
  {
    assert ws1 + x + ws2 == ws1 + (x + ws2);
    TrimLeftPadded(ws1, x + ws2);
    if TrimLeft(x) == [] {
      TrimLeftShape(x);
      var k := |x| - |TrimLeft(x)|;
      assert x == x[..k];
      assert AllTrimChars(x + ws2);
      TrimLeftPadded(x + ws2, []);
      assert x + ws2 + [] == x + ws2;
      assert TrimLeft(x + ws2) == [];
    } else {
      TrimLeftOfRightTrimmed(x, ws2);
      TrimRightPadded(TrimLeft(x), ws2);
    }
  }

  /** A string with no trim character at either end is its own trim. */
  lemma TrimUnpadded(s: string)
    requires s == [] || (!IsTrimChar(s[0]) && !IsTrimChar(s[|s| - 1]))
    ensures Trim(s) == s
  {
    if s != [] {
      assert TrimLeft(s) == s;
      assert TrimRight(s) == s;
    }
  }

  /** trim() is idempotent. */
  lemma TrimIdempotent(s: string)
    ensures Trim(Trim(s)) == Trim(s)
  {
    TrimShape(s);
    TrimUnpadded(Trim(s));
  }

  // ---------------------------------------------------------------------------
  // empty
  // ---------------------------------------------------------------------------

  /** empty($s) for a string: true for "" and also for "0". */
  predicate Empty(s: string) {
    s == "" || s == "0"
  }

  // ---------------------------------------------------------------------------
  // mb_strpos($haystack, $needle) !== false
  // ---------------------------------------------------------------------------

  /** `needle` occurs in `haystack` as a contiguous substring. */
  predicate Contains(haystack: string, needle: string)
    decreases |haystack|
  {
    needle <= haystack || (haystack != [] && Contains(haystack[1..], needle))
  }

  /** A single character occurs as a substring exactly when it is an element. */
  lemma {:induction false} ContainsChar(s: string, c: char)
    ensures Contains(s, [c]) <==> c in s
  {
    if s != [] {
      ContainsChar(s[1..], c);
      assert s == [s[0]] + s[1..];
    }
  }

  /** A string ending in `t` contains `t`. */
  lemma {:induction false} ContainsSuffix(s: string, t: string)
    ensures Contains(s + t, t)
  {
    if s != [] {
      assert (s + t)[1..] == s[1..] + t;
      ContainsSuffix(s[1..], t);
    }
  }

  // ---------------------------------------------------------------------------
  // str_replace($needle, '', $subject)
  // ---------------------------------------------------------------------------

  /**
    str_replace with an empty replacement: one left-to-right pass that deletes
    every non-overlapping occurrence of `needle`. An empty needle leaves the
    subject as it is.
   */
  function Remove(needle: string, s: string): (r: string)
    ensures |r| <= |s|
    ensures forall i :: 0 <= i < |r| ==> r[i] in s
    decreases |s|
  {
    if needle == [] || s == [] then s
    else if needle <= s then Remove(needle, s[|needle|..])
    else [s[0]] + Remove(needle, s[1..])
  }

  /** Removing the empty needle, or a needle that does not occur, changes nothing. */
  lemma {:induction false} RemoveAbsent(needle: string, s: string)
    requires needle == [] || !Contains(s, needle)
    ensures Remove(needle, s) == s
    decreases |s|
  {
    if needle != [] && s != [] {
      RemoveAbsent(needle, s[1..]);
    }
  }

  /** Removing a single character deletes every copy of it and keeps every other character. */
  lemma {:induction false} RemoveChar(c: char, s: string)
    ensures c !in Remove([c], s)
    ensures multiset(Remove([c], s)) == multiset(s)[c := 0]
    decreases |s|
  {
    if s != [] {
      RemoveChar(c, s[1..]);
      assert s == [s[0]] + s[1..];
      if [c] <= s {
        assert s[0] == c;
      }
    }
  }

  /** Removing a single character distributes over concatenation. */
  lemma {:induction false} RemoveCharAppend(c: char, a: string, b: string)
    ensures Remove([c], a + b) == Remove([c], a) + Remove([c], b)
  {
    if a != [] {
      assert (a + b)[0] == a[0];
      assert (a + b)[1..] == a[1..] + b;
      assert [c] <= a + b <==> [c] <= a;
      RemoveCharAppend(c, a[1..], b);
    } else {
      assert a + b == b;
    }
  }

  /** No character occurs twice. */
  predicate Distinct(s: string) {
    forall i, j :: 0 <= i < j < |s| ==> s[i] != s[j]
  }

  /** Deleting substrings never introduces a repeated character. */
  lemma {:induction false} RemoveDistinct(needle: string, s: string)
    requires Distinct(s)
    ensures Distinct(Remove(needle, s))
    decreases |s|
  {
    if needle != [] && s != [] {
      if needle <= s {
        RemoveDistinct(needle, s[|needle|..]);
      } else {
        RemoveDistinct(needle, s[1..]);
        var rest := Remove(needle, s[1..]);
        assert s[0] !in s[1..];
        assert s[0] !in rest;
      }
    }
  }

  // ---------------------------------------------------------------------------
  // implode($glue, $pieces)
  // ---------------------------------------------------------------------------

  /** implode: the pieces in order, `glue` between neighbours. */
  function Implode(glue: string, pieces: seq<string>): string
  {
    if |pieces| == 0 then ""
    else if |pieces| == 1 then pieces[0]
    else pieces[0] + glue + Implode(glue, pieces[1..])
  }

  /** With an empty glue, imploding a concatenation of piece lists concatenates the results. */
  lemma {:induction false} ImplodeAppend(a: seq<string>, b: seq<string>)
    ensures Implode("", a + b) == Implode("", a) + Implode("", b)
  {
    if a == [] {
      assert a + b == b;
    } else if |a| == 1 {
      if b != [] {
        assert (a + b)[1..] == b;
      }
    } else {
      assert (a + b)[1..] == a[1..] + b;
      ImplodeAppend(a[1..], b);
    }
  }

  lemma ImplodeTwo(a: string, b: string)
    ensures Implode("", [a, b]) == a + b
  {
    assert [a, b][1..] == [b];
  }

  lemma ImplodeThree(a: string, b: string, c: string)
    ensures Implode("", [a, b, c]) == a + b + c
  {
    assert [a, b, c][1..] == [b, c];
    ImplodeTwo(b, c);
  }

  lemma ImplodeFour(a: string, b: string, c: string, d: string)
    ensures Implode("", [a, b, c, d]) == a + b + c + d
  {
    assert [a, b, c, d][1..] == [b, c, d];
    ImplodeThree(b, c, d);
  }

  /** Imploding one-character pieces with an empty glue lays their characters side by side. */
  lemma {:induction false} ImplodeSingles(pieces: seq<string>)
    requires forall i :: 0 <= i < |pieces| ==> |pieces[i]| == 1
    ensures |Implode("", pieces)| == |pieces|
    ensures forall i :: 0 <= i < |pieces| ==> Implode("", pieces)[i] == pieces[i][0]
  {
    if |pieces| > 1 {
      ImplodeSingles(pieces[1..]);
      assert Implode("", pieces) == pieces[0] + Implode("", pieces[1..]);
    }
  }

  // ---------------------------------------------------------------------------
  // Decimal rendering of integers (string interpolation of an int)
  // ---------------------------------------------------------------------------

  predicate IsDigit(c: char) {
    '0' <= c <= '9'
  }

  function DigitChar(d: nat): (c: char)
    requires d < 10
    ensures IsDigit(c)
  {
    ('0' as int + d) as char
  }

  function DigitValue(c: char): (d: nat)
    requires IsDigit(c)
    ensures d < 10
  {
    c as int - '0' as int
  }

  /** Decimal digits of `n`, most significant first, without leading zeros. */
  function NatToString(n: nat): (r: string)
    ensures r != []
    ensures forall i :: 0 <= i < |r| ==> IsDigit(r[i])
    ensures |r| > 1 ==> r[0] != '0'
  {
    if n < 10 then [DigitChar(n)] else NatToString(n / 10) + [DigitChar(n % 10)]
  }

  /** PHP's rendering of an int: a minus sign for negative values, then the digits. */
  function IntToString(i: int): (r: string)
    ensures r != [] && ',' !in r && '}' !in r
  {
    if i < 0 then "-" + NatToString(-i) else NatToString(i)
  }

  /** The value of a string of decimal digits. */
  function ParseNat(s: string): nat
    requires forall i :: 0 <= i < |s| ==> IsDigit(s[i])
  {
    if s == [] then 0 else ParseNat(s[..|s| - 1]) * 10 + DigitValue(s[|s| - 1])
  }

  /** The value of an optionally signed decimal string. */
  function ParseInt(s: string): Option<int>
  {
    if s != [] && s[0] == '-' then
      if |s| > 1 && forall i :: 1 <= i < |s| ==> IsDigit(s[i]) then Some(0 - ParseNat(s[1..])) else None
    else if s != [] && forall i :: 0 <= i < |s| ==> IsDigit(s[i]) then Some(ParseNat(s))
    else None
  }

  lemma {:induction false} NatRoundTrip(n: nat)
    ensures ParseNat(NatToString(n)) == n
  {
    if n >= 10 {
      var s := NatToString(n);
      assert s[..|s| - 1] == NatToString(n / 10);
      NatRoundTrip(n / 10);
    }
  }

  /** A negative int renders as '-' and the digits of its magnitude, which read back. */
  lemma NegativeRoundTrip(i: int)
    requires i < 0
    ensures ParseInt(IntToString(i)) == Some(i)
  {
    var digits := NatToString(-i);
    var s := "-" + digits;
    assert s[1..] == digits;
    assert forall k :: 1 <= k < |s| ==> s[k] == digits[k - 1];
    NatRoundTrip(-i);
  }

  /** A non-negative int renders as its digits, which read back. */
  lemma NonNegativeRoundTrip(i: int)
    requires i >= 0
    ensures ParseInt(IntToString(i)) == Some(i)
  {
    assert IsDigit(NatToString(i)[0]);
    NatRoundTrip(i);
  }

  /** Reading back the decimal rendering of an int gives the int. */
  lemma IntRoundTrip(i: int)
    ensures ParseInt(IntToString(i)) == Some(i)
  {
    if i < 0 {
      NegativeRoundTrip(i);
    } else {
      NonNegativeRoundTrip(i);
    }
  }

  // ---------------------------------------------------------------------------
  // preg_quote($str, $delimiter)
  // ---------------------------------------------------------------------------

  /** The characters preg_quote escapes: . \ + * ? [ ^ ] $ ( ) { } = ! < > | : - # */
  predicate IsRegexMeta(c: char) {
    c in ".\\+*?[^]$(){}=!<>|:-#"
  }

  /** A character preg_quote rewrites: a metacharacter, NUL, or the delimiter's first character. */
  predicate IsQuoted(c: char, delimiter: string) {
    c == '\0' || IsRegexMeta(c) || (delimiter != [] && c == delimiter[0])
  }

  function QuoteChar(c: char, delimiter: string): string
  {
    if c == '\0' then "\\000"
    else if IsRegexMeta(c) || (delimiter != [] && c == delimiter[0]) then ['\\', c]
    else [c]
  }

  /**
    preg_quote: a backslash before every metacharacter and before the
    delimiter, and NUL written as \000.
   */
  function PregQuote(s: string, delimiter: string): (r: string)
    ensures |r| >= |s|
  {
    if s == [] then [] else QuoteChar(s[0], delimiter) + PregQuote(s[1..], delimiter)
  }

  /** The inverse of preg_quote: \000 is NUL, a backslash takes the next character literally. */
  function Unquote(s: string): string
    decreases |s|
  {
    if s == [] then []
    else if s[0] == '\\' && |s| >= 4 && s[1..4] == "000" then ['\0'] + Unquote(s[4..])
    else if s[0] == '\\' && |s| >= 2 then [s[1]] + Unquote(s[2..])
    else [s[0]] + Unquote(s[1..])
  }

  /** Decoding the quoted form of one character gives that character back. */
  lemma UnquoteQuoteChar(c: char, delimiter: string, t: string)
    requires delimiter == [] || delimiter[0] != '0'
    ensures Unquote(QuoteChar(c, delimiter) + t) == [c] + Unquote(t)
  {
    var w := QuoteChar(c, delimiter) + t;
    if c == '\0' {
      assert w[0] == '\\' && w[1..4] == "000" && w[4..] == t;
    } else if IsRegexMeta(c) || (delimiter != [] && c == delimiter[0]) {
      assert c != '0';
      assert w[0] == '\\' && w[1] == c && w[2..] == t;
      assert !(|w| >= 4 && w[1..4] == "000");
    } else {
      assert w[0] == c && w[1..] == t;
    }
  }

  /** Quoting loses nothing: the quoted string decodes back to the input. */
  lemma {:induction false} QuoteRoundTrip(s: string, delimiter: string)
    requires delimiter == [] || delimiter[0] != '0'
    ensures Unquote(PregQuote(s, delimiter)) == s
  {
    if s != [] {
      QuoteRoundTrip(s[1..], delimiter);
      UnquoteQuoteChar(s[0], delimiter, PregQuote(s[1..], delimiter));
      assert s == [s[0]] + s[1..];
    }
  }

  /** preg_quote changes a string exactly when it holds a character it must escape. */
  lemma {:induction false} QuoteIdentity(s: string, delimiter: string)
    ensures PregQuote(s, delimiter) == s <==> forall i :: 0 <= i < |s| ==> !IsQuoted(s[i], delimiter)
  {
    if s != [] {
      QuoteIdentity(s[1..], delimiter);
      var rest := PregQuote(s[1..], delimiter);
      if IsQuoted(s[0], delimiter) {
        assert |PregQuote(s, delimiter)| > |s|;
      } else {
        assert PregQuote(s, delimiter) == [s[0]] + rest;
        assert s == [s[0]] + s[1..];
        assert (forall i :: 0 <= i < |s| ==> !IsQuoted(s[i], delimiter))
          <==> (forall i :: 0 <= i < |s[1..]| ==> !IsQuoted(s[1..][i], delimiter));
      }
    }
  }

  /** preg_quote is applied character by character, so it distributes over concatenation. */
  lemma {:induction false} QuoteAppend(a: string, b: string, delimiter: string)
    ensures PregQuote(a + b, delimiter) == PregQuote(a, delimiter) + PregQuote(b, delimiter)
  {
    if a != [] {
      assert (a + b)[0] == a[0];
      assert (a + b)[1..] == a[1..] + b;
      QuoteAppend(a[1..], b, delimiter);
    } else {
      assert a + b == b;
    }
  }
}
