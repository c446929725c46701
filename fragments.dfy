/**
  The fixed fragments that the pattern and quantifier methods append, and the
  finished literal that __toString renders (Builder.php, sections "Pattern"
  and "Quantifiers"). The Builder methods append these; the lemmas here say
  that each family of fragments can be read back unambiguously.
 */
module Fragments {
  import opened Php
  import opened Vocabulary
  import opened Flags

  // ---------------------------------------------------------------------------
  // Character-class escapes (alphaNum, whiteSpace, ..., borderOfWord)
  // ---------------------------------------------------------------------------

  /** The methods that write a backslash escape and take an `except` switch. */
  datatype ClassEscape = AlphaNum | WhiteSpace | WhiteSpaceVertical | WhiteSpaceHorizontal | Digit | BorderOfWord

  /** The escape each method appends, the opposite one when `except`. */
  function Escape(e: ClassEscape, except: bool): string
  {
    match e
    case AlphaNum => if except then "\\W" else "\\w"
    case WhiteSpace => if except then "\\S" else "\\s"
    case WhiteSpaceVertical => if except then "\\V" else "\\v"
    case WhiteSpaceHorizontal => if except then "\\H" else "\\h"
    case Digit => if except then "\\D" else "\\d"
    case BorderOfWord => if except then "\\B" else "\\b"
  }

  /** strtoupper on one ASCII character. */
  function UpperChar(c: char): char
  {
    if 'a' <= c <= 'z' then (c as int - 32) as char else c
  }

  /** strtoupper: ASCII letters to upper case, everything else kept. */
  function StrToUpper(s: string): string
  {
    seq(|s|, i requires 0 <= i < |s| => UpperChar(s[i]))
  }

  /**
    Each escape is a backslash and a letter; the `except` form is exactly the
    upper-case of the plain one, and differs from it.
   */
  lemma EscapeExceptIsUpper(e: ClassEscape)
    ensures |Escape(e, false)| == 2 && Escape(e, false)[0] == '\\'
    ensures Escape(e, true) == StrToUpper(Escape(e, false))
    ensures Escape(e, true) != Escape(e, false)
  {
    var s := Escape(e, false);
    assert StrToUpper(s)[0] == '\\';
    assert StrToUpper(s)[1] == Escape(e, true)[1];
  }

  /** Every escape is a backslash and one letter. */
  lemma EscapeShape(e: ClassEscape, except: bool)
    ensures |Escape(e, except)| == 2 && Escape(e, except)[0] == '\\'
  {
  }

  /** No two (method, except) pairs write the same escape. */
  lemma EscapeInjective(e1: ClassEscape, x1: bool, e2: ClassEscape, x2: bool)
    requires Escape(e1, x1) == Escape(e2, x2)
    ensures e1 == e2 && x1 == x2
  {
    EscapeShape(e1, x1);
    EscapeShape(e2, x2);
    assert Escape(e1, x1)[1] == Escape(e2, x2)[1];
  }

  // ---------------------------------------------------------------------------
  // look()
  // ---------------------------------------------------------------------------

  /** The assertion sign of look(): '?', then '<' when `ahead`, then '!' or '='. */
  function LookSign(ahead: bool, except: bool): (r: string)
    ensures |r| >= 2 && r[0] == '?'
    ensures ('<' in r) <==> ahead
    ensures ('!' in r) <==> except
    ensures ('=' in r) <==> !except
  {
    var sign := "?" + (if ahead then "<" else "");
    sign + (if except then "!" else "=")
  }

  /** The four signs, as the look test lists them, and no two alike. */
  lemma LookSignTable()
    ensures LookSign(false, false) == "?="
    ensures LookSign(true, false) == "?<="
    ensures LookSign(true, true) == "?<!"
    ensures LookSign(false, true) == "?!"
    ensures forall a1, x1, a2, x2 :: LookSign(a1, x1) == LookSign(a2, x2) ==> a1 == a2 && x1 == x2
  {
  }

  // ---------------------------------------------------------------------------
  // backReference()
  // ---------------------------------------------------------------------------

  /** The back reference to group `num`: a backslash and the number in decimal. */
  function BackReference(num: int): string
  {
    "\\" + IntToString(num)
  }

  /** The group number can be read back from the reference. */
  lemma BackReferenceRoundTrip(num: int)
    ensures BackReference(num)[0] == '\\'
    ensures ParseInt(BackReference(num)[1..]) == Some(num)
  {
    assert BackReference(num)[1..] == IntToString(num);
    IntRoundTrip(num);
  }

  // ---------------------------------------------------------------------------
  // Quantifiers
  // ---------------------------------------------------------------------------

  /** switchToLazy: the quantifier, with '?' appended when `lazy`. */
  function SwitchToLazy(quantifier: string, lazy: bool): string
  {
    if lazy then quantifier + "?" else quantifier
  }

  /** The quantifiers the builder writes; counts are not bounds-checked. */
  datatype Quantifier =
    | ZeroOrMore
    | OneOrMore
    | ZeroOrOne
    | Exactly(num: int)
    | AtLeast(num: int)
    | AtMax(num: int)
    | Between(min: int, max: int)

  /** The greedy token of each quantifier method. */
  function Token(q: Quantifier): string
  {
    match q
    case ZeroOrMore => "*"
    case OneOrMore => "+"
    case ZeroOrOne => "?"
    case Exactly(n) => "{" + IntToString(n) + "}"
    case AtLeast(n) => "{" + IntToString(n) + ",}"
    case AtMax(n) => "{," + IntToString(n) + "}"
    case Between(lo, hi) => "{" + IntToString(lo) + "," + IntToString(hi) + "}"
  }

  /** The first position of `c` in `s`, or |s| when it does not occur. */
  function IndexOf(s: string, c: char): (k: nat)
    ensures k <= |s|
    ensures k < |s| ==> s[k] == c
    ensures forall j :: 0 <= j < k ==> s[j] != c
  {
    if s == [] then 0 else if s[0] == c then 0 else 1 + IndexOf(s[1..], c)
  }

  /** Reads the inside of a brace quantifier. */
  function ParseBraces(inner: string): Option<Quantifier>
  {
    if inner != [] && inner[0] == ',' then
      match ParseInt(inner[1..])
      case Some(n) => Some(AtMax(n))
      case None => None
    else if inner != [] && inner[|inner| - 1] == ',' then
      match ParseInt(inner[..|inner| - 1])
      case Some(n) => Some(AtLeast(n))
      case None => None
    else if ',' in inner then
      var k := IndexOf(inner, ',');
      match (ParseInt(inner[..k]), ParseInt(inner[k + 1..]))
      case (Some(lo), Some(hi)) => Some(Between(lo, hi))
      case _ => None
    else
      match ParseInt(inner)
      case Some(n) => Some(Exactly(n))
      case None => None
  }

  /** Reads a greedy token back. */
  function ParseToken(t: string): Option<Quantifier>
  {
    if t == "*" then Some(ZeroOrMore)
    else if t == "+" then Some(OneOrMore)
    else if t == "?" then Some(ZeroOrOne)
    else if |t| >= 2 && t[0] == '{' && t[|t| - 1] == '}' then ParseBraces(t[1..|t| - 1])
    else None
  }

  /** Reads a quantifier and its laziness back from what a quantifier method writes. */
  function ParseQuantifier(s: string): Option<(Quantifier, bool)>
  {
    if |s| >= 2 && s[|s| - 1] == '?' then
      match ParseToken(s[..|s| - 1])
      case Some(q) => Some((q, true))
      case None => None
    else
      match ParseToken(s)
      case Some(q) => Some((q, false))
      case None => None
  }

  lemma ExactlyRoundTrip(n: int)
    ensures ParseBraces(IntToString(n)) == Some(Exactly(n))
  {
    IntRoundTrip(n);
  }

  lemma AtLeastRoundTrip(n: int)
    ensures ParseBraces(IntToString(n) + ",") == Some(AtLeast(n))
  {
    var s := IntToString(n);
    var inner := s + ",";
    assert inner[..|inner| - 1] == s;
    assert inner[0] == s[0];
    IntRoundTrip(n);
  }

  lemma AtMaxRoundTrip(n: int)
    ensures ParseBraces("," + IntToString(n)) == Some(AtMax(n))
  {
    var inner := "," + IntToString(n);
    assert inner[1..] == IntToString(n);
    IntRoundTrip(n);
  }

  lemma BetweenRoundTrip(lo: int, hi: int)
    ensures ParseBraces(IntToString(lo) + "," + IntToString(hi)) == Some(Between(lo, hi))
  {
    var a := IntToString(lo);
    var b := IntToString(hi);
    var inner := a + "," + b;
    assert inner[0] == a[0];
    assert inner[|inner| - 1] == b[|b| - 1];
    assert inner[|a|] == ',';
    assert IndexOf(inner, ',') == |a| by {
      assert forall j :: 0 <= j < |a| ==> inner[j] == a[j];
    }
    assert inner[..|a|] == a;
    assert inner[|a| + 1..] == b;
    IntRoundTrip(lo);
    IntRoundTrip(hi);
  }

  lemma BracesRoundTrip(q: Quantifier)
    requires q.Exactly? || q.AtLeast? || q.AtMax? || q.Between?
    ensures var t := Token(q);
      |t| >= 2 && t[0] == '{' && t[|t| - 1] == '}' && ParseBraces(t[1..|t| - 1]) == Some(q)
  {
    var t := Token(q);
    match q
    case Exactly(n) =>
      assert t[1..|t| - 1] == IntToString(n);
      ExactlyRoundTrip(n);
    case AtLeast(n) =>
      assert t[1..|t| - 1] == IntToString(n) + ",";
      AtLeastRoundTrip(n);
    case AtMax(n) =>
      assert t[1..|t| - 1] == "," + IntToString(n);
      AtMaxRoundTrip(n);
    case Between(lo, hi) =>
      assert t[1..|t| - 1] == IntToString(lo) + "," + IntToString(hi);
      BetweenRoundTrip(lo, hi);
  }

  /**
    Every quantifier method's output reads back as the quantifier and the
    laziness it was asked for: the tokens are unambiguous.
   */
  lemma QuantifierRoundTrip(q: Quantifier, lazy: bool)
    ensures ParseQuantifier(SwitchToLazy(Token(q), lazy)) == Some((q, lazy))
  {
    var t := Token(q);
    if q.Exactly? || q.AtLeast? || q.AtMax? || q.Between? {
      BracesRoundTrip(q);
      assert t != "*" && t != "+" && t != "?";
      assert ParseToken(t) == Some(q);
    }
    if lazy {
      var s := t + "?";
      assert s[..|s| - 1] == t;
    }
  }

  // ---------------------------------------------------------------------------
  // __toString()
  // ---------------------------------------------------------------------------

  /** The finished literal: delimiter, pattern, delimiter, flags. */
  function Render(delimiter: string, pattern: string, flags: string): string
  {
    delimiter + pattern + delimiter + flags
  }

  /** The last position of `c` in `s`, or -1 when it does not occur. */
  function LastIndexOf(s: string, c: char): (k: int)
    ensures -1 <= k < |s|
    ensures k >= 0 ==> s[k] == c
    ensures forall j :: k < j < |s| ==> s[j] != c
  {
    if s == [] then -1
    else if s[|s| - 1] == c then |s| - 1
    else LastIndexOf(s[..|s| - 1], c)
  }

  /**
    One way to split a rendered literal: the first character is the
    delimiter, its last occurrence closes the pattern, the rest is flags.
    RenderRoundTrip shows that Render is injective under its conditions.
   */
  function SplitLiteral(s: string): Option<(string, string, string)>
  {
    if s == [] then None
    else
      var k := LastIndexOf(s, s[0]);
      if k <= 0 then None else Some(([s[0]], s[1..k], s[k + 1..]))
  }

  /**
    A rendered literal splits back into its delimiter, pattern and flags
    whenever the flags do not contain the delimiter; the pattern may.
   */
  lemma {:induction false} RenderRoundTrip(delimiter: string, pattern: string, flags: string)
    requires |delimiter| == 1 && delimiter[0] !in flags
    ensures SplitLiteral(Render(delimiter, pattern, flags)) == Some((delimiter, pattern, flags))
  {
    var s := Render(delimiter, pattern, flags);
    var c := delimiter[0];
    var k := |pattern| + 1;
    assert s[0] == c && s[k] == c;
    assert forall j :: k < j < |s| ==> s[j] == flags[j - k - 1];
    assert LastIndexOf(s, c) == k;
    assert s[1..k] == pattern;
    assert s[k + 1..] == flags;
    assert [c] == delimiter;
  }

  /**
    The builder's own literals always split back: its delimiters are never
    flag letters, and the flags it maintains hold only flag letters.
   */
  lemma BuilderLiteralSplits(delimiter: string, pattern: string, flags: string)
    requires delimiter in VALID_DELIMITERS && WellFormed(flags)
    ensures SplitLiteral(Render(delimiter, pattern, flags)) == Some((delimiter, pattern, flags))
  {
    DelimiterShape(delimiter);
    assert delimiter[0] !in flags;
    RenderRoundTrip(delimiter, pattern, flags);
  }
}
