/**
  The builder itself (Builder.php): the process-wide default delimiter,
  held by a Config object, and the Builder class with its delimiter, pattern
  and flags fields. Every method changes the fields as the PHP method does
  and is proved against the functions of the Flags, Modifiers and Fragments
  modules. A method that throws in PHP returns Err here; the fields then
  hold what PHP leaves in them at the throw.
 */
module Regent {
  import opened Php
  import opened Vocabulary
  import opened Flags
  import opened Modifiers
  import opened Fragments

  /** Success or the error, without a value. */
  function Outcome<T>(x: Result<T>): Result<()>
  {
    if x.Ok? then Ok(()) else Err(x.error)
  }

  /** The pattern after an operation that yields the new pattern or leaves the old one on an error. */
  function PatternAfter(x: Result<string>, previous: string): string
  {
    if x.Ok? then x.value else previous
  }

  /** The process-wide default delimiter (the static $delimiterDefault). */
  class Config {
    var delimiterDefault: string

    predicate Valid()
      reads this
    {
      delimiterDefault in VALID_DELIMITERS
    }

    /** A fresh process starts with "~". */
    constructor ()
      ensures Valid() && delimiterDefault == DELIMITER_DEFAULT
    {
      delimiterDefault := DELIMITER_DEFAULT;
    }

    /** getDelimiterDefault: always an accepted delimiter. */
    function GetDelimiterDefault(): (d: string)
      reads this
      requires Valid()
      ensures d in VALID_DELIMITERS && !Empty(d)
    {
      DelimiterShape(delimiterDefault);
      delimiterDefault
    }

    /** setDelimiterDefault: validate, then store the trimmed value; a refused value changes nothing. */
    method SetDelimiterDefault(newDelimiter: string) returns (r: Result<()>)
      requires Valid()
      modifies this
      ensures Valid()
      ensures r == Outcome(ValidateDelimiter(newDelimiter))
      ensures delimiterDefault == if r.Ok? then Trim(newDelimiter) else old(delimiterDefault)
    {
      var v := ValidateDelimiter(newDelimiter);
      if v.Err? {
        return Err(v.error);
      }
      delimiterDefault := v.value;
      r := Ok(());
    }
  }

  class Builder {
    const config: Config
    var delimiter: Option<string>
    var pattern: string
    var flags: string

    /** The instance's own delimiter, when set, is an accepted one, and so is the default. */
    predicate Valid()
      reads this, config
    {
      config.Valid() && (delimiter.Some? ==> delimiter.value in VALID_DELIMITERS)
    }

    /** What getDelimiter returns: the instance's own delimiter, or else the current default. */
    function CurrentDelimiter(): (d: string)
      reads this, config
      requires Valid()
      ensures d in VALID_DELIMITERS
      ensures delimiter.Some? ==> d == delimiter.value
      ensures delimiter.None? ==> d == config.delimiterDefault
    {
      if delimiter.None? || Empty(delimiter.value) then config.delimiterDefault
      else
        DelimiterShape(delimiter.value);
        delimiter.value
    }

    /** What quote() turns `s` into. */
    function Quoted(s: string, quote: bool): string
      reads this, config
      requires Valid()
    {
      if quote then PregQuote(s, CurrentDelimiter()) else s
    }

    /** The delimiter field after quote(): quoting resolves it through getDelimiter. */
    function DelimiterAfterQuote(quote: bool): Option<string>
      reads this, config
      requires Valid()
    {
      if quote then Some(CurrentDelimiter()) else delimiter
    }

    /** __construct with an already validated delimiter. */
    constructor (config: Config, delimiter: string)
      requires config.Valid() && delimiter in VALID_DELIMITERS
      ensures Valid() && this.config == config
      ensures this.delimiter == Some(delimiter) && pattern == "" && flags == ""
    {
      this.config := config;
      this.delimiter := Some(delimiter);
      pattern := "";
      flags := "";
    }

    /**
      init: without an argument the builder takes the default delimiter at
      this moment; with one, the trimmed argument if it is accepted, and
      InvalidDelimiter otherwise.
     */
    static method Init(config: Config, delimiter: Option<string> := None) returns (r: Result<Builder>)
      requires config.Valid()
      ensures r.Ok? <==> delimiter.None? || ValidateDelimiter(delimiter.value).Ok?
      ensures r.Err? ==> delimiter.Some? && r.error == InvalidDelimiter(Trim(delimiter.value))
      ensures r.Ok? ==> fresh(r.value) && r.value.Valid() && r.value.config == config
      ensures r.Ok? ==> r.value.pattern == "" && r.value.flags == ""
      ensures r.Ok? ==> r.value.delimiter == Some(if delimiter.None? then config.delimiterDefault else Trim(delimiter.value))
    {
      if delimiter.None? {
        var b := new Builder(config, config.delimiterDefault);
        return Ok(b);
      }
      var v := ValidateDelimiter(delimiter.value);
      if v.Err? {
        return Err(v.error);
      }
      var b := new Builder(config, v.value);
      r := Ok(b);
    }

    /** clear: empty the pattern and the flags, and with `withDelimiter` drop the instance's delimiter. */
    method Clear(withDelimiter: bool := false)
      requires Valid()
      modifies this
      ensures Valid()
      ensures pattern == "" && flags == ""
      ensures delimiter == if withDelimiter then None else old(delimiter)
    {
      if withDelimiter {
        delimiter := None;
      }
      ClearPattern();
      ClearFlags();
    }

    /** getDelimiter: the current delimiter, which is stored in the instance from then on. */
    method GetDelimiter() returns (d: string)
      requires Valid()
      modifies this`delimiter
      ensures Valid()
      ensures d == old(CurrentDelimiter()) && delimiter == Some(d)
      ensures d in VALID_DELIMITERS && !Empty(d)
    {
      if delimiter.None? || Empty(delimiter.value) {
        delimiter := Some(config.delimiterDefault);
      }
      d := delimiter.value;
      DelimiterShape(d);
    }

    /** __toString: delimiter, pattern, delimiter, flags. */
    method ToString() returns (s: string)
      requires Valid()
      modifies this`delimiter
      ensures Valid()
      ensures s == Render(old(CurrentDelimiter()), pattern, flags)
      ensures delimiter == Some(old(CurrentDelimiter()))
    {
      var open := GetDelimiter();
      var close := GetDelimiter();
      s := open + pattern + close + flags;
    }

    // -------------------------------------------------------------------------
    // Inline modifiers
    // -------------------------------------------------------------------------

    /**
      insertModifiers: validate each active, then each deactive value, and
      append "(?", the new active modifiers, '-' before the first new
      deactive one, the new deactive modifiers and ")". On an error the
      pattern is unchanged.
     */
    method InsertModifiers(activeModifiers: seq<string> := [], deactiveModifiers: seq<string> := []) returns (r: Result<()>)
      requires Valid()
      modifies this`pattern
      ensures Valid()
      ensures r == Outcome(Modifiers.InsertModifiers(old(pattern), activeModifiers, deactiveModifiers))
      ensures pattern == PatternAfter(Modifiers.InsertModifiers(old(pattern), activeModifiers, deactiveModifiers), old(pattern))
    {
      if activeModifiers == [] && deactiveModifiers == [] {
        return Err(NoModifiersProvided);
      }
      ActiveCheckedFirst(pattern, activeModifiers, deactiveModifiers);
      DeactiveCheckedNext(pattern, activeModifiers, deactiveModifiers);
      var on := WriteActive(activeModifiers);
      if on.Err? {
        return Err(on.error);
      }
      var result := WriteDeactive(TrimAll(activeModifiers), deactiveModifiers, on.value);
      if result.Err? {
        return Err(result.error);
      }
      InsertModifiersBuilt(pattern, activeModifiers, deactiveModifiers);
      Concat([pattern] + (result.value + [")"]));
      r := Ok(());
    }

    /**
      The pass of insertModifiers over the active list: "(?" followed by
      each trimmed active modifier not written yet, or the first invalid one.
     */
    static method WriteActive(activeModifiers: seq<string>) returns (r: Result<seq<string>>)
      ensures r.Ok? <==> AllModifiers(TrimAll(activeModifiers))
      ensures r.Ok? ==> r.value == ["(?"] + GroupOn(TrimAll(activeModifiers))
      ensures r.Err? ==> var k := FirstInvalidModifier(activeModifiers);
        k < |activeModifiers| && r.error == InvalidModifier(Trim(activeModifiers[k]))
    {
      ghost var ta := TrimAll(activeModifiers);
      var result := ["(?"];
      var i := 0;
      while i < |activeModifiers|
        invariant 0 <= i <= |activeModifiers|
        invariant AllModifiers(ta[..i])
        invariant result == ["(?"] + Unseen(ta[..i], [])
      {
        var v := ValidateModifier(activeModifiers[i]);
        if v.Err? {
          FirstInvalidAt(activeModifiers, i);
          FirstInvalidNone(activeModifiers);
          return Err(v.error);
        }
        var modifier := v.value;
        assert ta[..i + 1] == ta[..i] + [modifier];
        AllModifiersSnoc(ta[..i], modifier);
        OnStep(ta[..i], modifier);
        if modifier !in result {
          result := result + [modifier];
        }
        i := i + 1;
      }
      assert ta[..i] == ta;
      r := Ok(result);
    }

    /**
      The pass of insertModifiers over the deactive list, after the active
      pieces `written`: '-' before the first trimmed deactive modifier not
      written yet and each such modifier, or the first invalid one.
     */
    static method WriteDeactive(ghost active: seq<string>, deactiveModifiers: seq<string>, written: seq<string>)
      returns (r: Result<seq<string>>)
      requires written == ["(?"] + GroupOn(active)
      ensures r.Ok? <==> AllModifiers(TrimAll(deactiveModifiers))
      ensures r.Ok? ==> r.value + [")"] == GroupParts(active, TrimAll(deactiveModifiers))
      ensures r.Err? ==> var k := FirstInvalidModifier(deactiveModifiers);
        k < |deactiveModifiers| && r.error == InvalidModifier(Trim(deactiveModifiers[k]))
    {
      ghost var td := TrimAll(deactiveModifiers);
      var result := written;
      var deactiveMarked := false;
      var j := 0;
      assert td[..0] == [];
      while j < |deactiveModifiers|
        invariant 0 <= j <= |deactiveModifiers|
        invariant AllModifiers(td[..j])
        invariant deactiveMarked <==> Unseen(td[..j], active) != []
        invariant result == OffWritten(active, td[..j], deactiveMarked)
      {
        var v := ValidateModifier(deactiveModifiers[j]);
        if v.Err? {
          FirstInvalidAt(deactiveModifiers, j);
          FirstInvalidNone(deactiveModifiers);
          return Err(v.error);
        }
        var modifier := v.value;
        assert td[..j + 1] == td[..j] + [modifier];
        AllModifiersSnoc(td[..j], modifier);
        OffMember(active, td[..j], modifier, deactiveMarked);
        OffAppend(active, td[..j], modifier, deactiveMarked);
        if modifier !in result {
          if !deactiveMarked {
            result := result + ["-"];
            deactiveMarked := true;
          }
          result := result + [modifier];
        }
        j := j + 1;
      }
      assert td[..j] == td;
      OffDone(active, td, deactiveMarked);
      r := Ok(result);
    }

    // -------------------------------------------------------------------------
    // Flags
    // -------------------------------------------------------------------------

    /**
      flag: in add mode validate the trimmed value and append it unless
      that would repeat it; in remove mode delete every occurrence of the
      untrimmed value.
     */
    method Flag(flag: string, add: bool := true) returns (r: Result<()>)
      requires Valid()
      modifies this`flags
      ensures Valid()
      ensures var step := FlagStep(old(flags), flag, add);
        r == Outcome(step) && flags == if step.Ok? then step.value else old(flags)
    {
      if add {
        var v := ValidateFlag(flag);
        if v.Err? {
          return Err(v.error);
        }
        var f := v.value;
        if Empty(flags) || (!Empty(f) && !Contains(flags, f)) {
          flags := flags + f;
        }
      } else {
        flags := Remove(flag, flags);
      }
      r := Ok(());
    }

    /** massFlags: refuse an empty list, then flag() each value in order, stopping at the first error. */
    method MassFlags(fs: seq<string>, add: bool := true) returns (r: Result<()>)
      requires Valid()
      modifies this`flags
      ensures Valid()
      ensures var a := Flags.MassFlags(old(flags), fs, add);
        r == a.outcome && flags == a.flags
    {
      if fs == [] {
        return Err(NoFlagsProvided);
      }
      var i := 0;
      while i < |fs|
        invariant i <= |fs|
        invariant ApplyFlags(old(flags), fs, add) == ApplyFlags(flags, fs[i..], add)
      {
        assert fs[i..][1..] == fs[i + 1..];
        var step := Flag(fs[i], add);
        if step.Err? {
          return step;
        }
        i := i + 1;
      }
      r := Ok(());
    }

    /** massFlagsAssoc: like massFlags, each value with its own add/remove mode. */
    method MassFlagsAssoc(entries: seq<(string, bool)>) returns (r: Result<()>)
      requires Valid()
      modifies this`flags
      ensures Valid()
      ensures var a := Flags.MassFlagsAssoc(old(flags), entries);
        r == a.outcome && flags == a.flags
    {
      if entries == [] {
        return Err(NoFlagsProvided);
      }
      var i := 0;
      while i < |entries|
        invariant i <= |entries|
        invariant ApplyFlagsAssoc(old(flags), entries) == ApplyFlagsAssoc(flags, entries[i..])
      {
        assert entries[i..][1..] == entries[i + 1..];
        var (flag, add) := entries[i];
        var step := Flag(flag, add);
        if step.Err? {
          return step;
        }
        i := i + 1;
      }
      r := Ok(());
    }

    /** inlineFlags: massFlags over the characters of the string. */
    method InlineFlags(inlineFlags: string, add: bool := true) returns (r: Result<()>)
      requires Valid()
      modifies this`flags
      ensures Valid()
      ensures var a := Flags.MassFlags(old(flags), Chars(inlineFlags), add);
        r == a.outcome && flags == a.flags
    {
      r := MassFlags(Chars(inlineFlags), add);
    }

    /** flag() with one of the named flag letters: it never fails. */
    method NamedFlag(letter: string, add: bool) returns (r: Result<()>)
      requires Valid() && letter in VALID_FLAGS
      modifies this`flags
      ensures Valid() && r == Ok(())
      ensures Ok(flags) == FlagStep(old(flags), letter, add)
    {
      ListedFlagStep(flags, letter, add);
      r := Flag(letter, add);
    }

    /** caseless: flag "i". */
    method Caseless(add: bool := true) returns (r: Result<()>)
      requires Valid()
      modifies this`flags
      ensures Valid() && r == Ok(()) && Ok(flags) == FlagStep(old(flags), "i", add)
    {
      r := NamedFlag("i", add);
    }

    /** multiline: flag "m". */
    method Multiline(add: bool := true) returns (r: Result<()>)
      requires Valid()
      modifies this`flags
      ensures Valid() && r == Ok(()) && Ok(flags) == FlagStep(old(flags), "m", add)
    {
      r := NamedFlag("m", add);
    }

    /** dotAll: flag "s". */
    method DotAll(add: bool := true) returns (r: Result<()>)
      requires Valid()
      modifies this`flags
      ensures Valid() && r == Ok(()) && Ok(flags) == FlagStep(old(flags), "s", add)
    {
      r := NamedFlag("s", add);
    }

    /** extended: flag "x". */
    method Extended(add: bool := true) returns (r: Result<()>)
      requires Valid()
      modifies this`flags
      ensures Valid() && r == Ok(()) && Ok(flags) == FlagStep(old(flags), "x", add)
    {
      r := NamedFlag("x", add);
    }

    /** anchored: flag "A". */
    method Anchored(add: bool := true) returns (r: Result<()>)
      requires Valid()
      modifies this`flags
      ensures Valid() && r == Ok(()) && Ok(flags) == FlagStep(old(flags), "A", add)
    {
      r := NamedFlag("A", add);
    }

    /** dollarEndOnly: flag "D". */
    method DollarEndOnly(add: bool := true) returns (r: Result<()>)
      requires Valid()
      modifies this`flags
      ensures Valid() && r == Ok(()) && Ok(flags) == FlagStep(old(flags), "D", add)
    {
      r := NamedFlag("D", add);
    }

    /** extraAnalysisOfPattern: flag "S". */
    method ExtraAnalysisOfPattern(add: bool := true) returns (r: Result<()>)
      requires Valid()
      modifies this`flags
      ensures Valid() && r == Ok(()) && Ok(flags) == FlagStep(old(flags), "S", add)
    {
      r := NamedFlag("S", add);
    }

    /** ungreedy: flag "U". */
    method Ungreedy(add: bool := true) returns (r: Result<()>)
      requires Valid()
      modifies this`flags
      ensures Valid() && r == Ok(()) && Ok(flags) == FlagStep(old(flags), "U", add)
    {
      r := NamedFlag("U", add);
    }

    /** extra: flag "X". */
    method Extra(add: bool := true) returns (r: Result<()>)
      requires Valid()
      modifies this`flags
      ensures Valid() && r == Ok(()) && Ok(flags) == FlagStep(old(flags), "X", add)
    {
      r := NamedFlag("X", add);
    }

    /** infoJChanged: flag "J". */
    method InfoJChanged(add: bool := true) returns (r: Result<()>)
      requires Valid()
      modifies this`flags
      ensures Valid() && r == Ok(()) && Ok(flags) == FlagStep(old(flags), "J", add)
    {
      r := NamedFlag("J", add);
    }

    /** utf8: flag "u". */
    method Utf8(add: bool := true) returns (r: Result<()>)
      requires Valid()
      modifies this`flags
      ensures Valid() && r == Ok(()) && Ok(flags) == FlagStep(old(flags), "u", add)
    {
      r := NamedFlag("u", add);
    }

    /** clearFlags. */
    method ClearFlags()
      requires Valid()
      modifies this`flags
      ensures Valid() && flags == ""
    {
      flags := "";
    }

    // -------------------------------------------------------------------------
    // Pattern
    // -------------------------------------------------------------------------

    /** quote: preg_quote with the current delimiter when asked to; that resolves the delimiter. */
    method Quote(s: string, quote: bool) returns (r: string)
      requires Valid()
      modifies this`delimiter
      ensures Valid()
      ensures r == old(Quoted(s, quote)) && delimiter == old(DelimiterAfterQuote(quote))
    {
      r := s;
      if quote {
        var d := GetDelimiter();
        r := PregQuote(s, d);
      }
    }

    /** concat: the pattern becomes the pieces joined together. */
    method Concat(strings: seq<string>)
      requires Valid()
      modifies this`pattern
      ensures Valid() && pattern == Implode("", strings)
    {
      pattern := Implode("", strings);
    }

    /** addPattern: append the (optionally quoted) string. */
    method AddPattern(s: string, quote: bool := false)
      requires Valid()
      modifies this`pattern, this`delimiter
      ensures Valid() && delimiter == old(DelimiterAfterQuote(quote))
      ensures pattern == old(pattern) + old(Quoted(s, quote))
    {
      var q := Quote(s, quote);
      ImplodeTwo(pattern, q);
      Concat([pattern, q]);
    }

    /** startsWith: put '^' and the (optionally quoted) string in front of the pattern. */
    method StartsWith(s: string := "", quote: bool := false)
      requires Valid()
      modifies this`pattern, this`delimiter
      ensures Valid() && delimiter == old(DelimiterAfterQuote(quote))
      ensures pattern == "^" + old(Quoted(s, quote)) + old(pattern)
    {
      var q := Quote(s, quote);
      ImplodeThree("^", q, pattern);
      Concat(["^", q, pattern]);
    }

    /** endsWith: append the (optionally quoted) string and '$'. */
    method EndsWith(s: string := "", quote: bool := false)
      requires Valid()
      modifies this`pattern, this`delimiter
      ensures Valid() && delimiter == old(DelimiterAfterQuote(quote))
      ensures pattern == old(pattern) + old(Quoted(s, quote)) + "$"
    {
      var q := Quote(s, quote);
      ImplodeThree(pattern, q, "$");
      Concat([pattern, q, "$"]);
    }

    /** or: append '|' and the (optionally quoted) string. */
    method Or(s: string := "", quote: bool := false)
      requires Valid()
      modifies this`pattern, this`delimiter
      ensures Valid() && delimiter == old(DelimiterAfterQuote(quote))
      ensures pattern == old(pattern) + "|" + old(Quoted(s, quote))
    {
      var q := Quote(s, quote);
      ImplodeThree(pattern, "|", q);
      Concat([pattern, "|", q]);
    }

    /** Append a fixed fragment. */
    method Append(fragment: string)
      requires Valid()
      modifies this`pattern
      ensures Valid() && pattern == old(pattern) + fragment
    {
      ImplodeTwo(pattern, fragment);
      Concat([pattern, fragment]);
    }

    /** openGroup: append '('. */
    method OpenGroup()
      requires Valid()
      modifies this`pattern
      ensures Valid() && pattern == old(pattern) + "("
    {
      Append("(");
    }

    /** closeGroup: append ')'. */
    method CloseGroup()
      requires Valid()
      modifies this`pattern
      ensures Valid() && pattern == old(pattern) + ")"
    {
      Append(")");
    }

    /** alphaNum: append \w, or \W when `except`. */
    method AlphaNum(except: bool := false)
      requires Valid()
      modifies this`pattern
      ensures Valid() && pattern == old(pattern) + Escape(ClassEscape.AlphaNum, except)
    {
      Append(if except then "\\W" else "\\w");
    }

    /** whiteSpace: append \s, or \S when `except`. */
    method WhiteSpace(except: bool := false)
      requires Valid()
      modifies this`pattern
      ensures Valid() && pattern == old(pattern) + Escape(ClassEscape.WhiteSpace, except)
    {
      Append(if except then "\\S" else "\\s");
    }

    /** whiteSpaceVertical: append \v, or \V when `except`. */
    method WhiteSpaceVertical(except: bool := false)
      requires Valid()
      modifies this`pattern
      ensures Valid() && pattern == old(pattern) + Escape(ClassEscape.WhiteSpaceVertical, except)
    {
      Append(if except then "\\V" else "\\v");
    }

    /** whiteSpaceHorizontal: append \h, or \H when `except`. */
    method WhiteSpaceHorizontal(except: bool := false)
      requires Valid()
      modifies this`pattern
      ensures Valid() && pattern == old(pattern) + Escape(ClassEscape.WhiteSpaceHorizontal, except)
    {
      Append(if except then "\\H" else "\\h");
    }

    /** digit: append \d, or \D when `except`. */
    method Digit(except: bool := false)
      requires Valid()
      modifies this`pattern
      ensures Valid() && pattern == old(pattern) + Escape(ClassEscape.Digit, except)
    {
      Append(if except then "\\D" else "\\d");
    }

    /** borderOfWord: append \b, or \B when `except`. */
    method BorderOfWord(except: bool := false)
      requires Valid()
      modifies this`pattern
      ensures Valid() && pattern == old(pattern) + Escape(ClassEscape.BorderOfWord, except)
    {
      Append(if except then "\\B" else "\\b");
    }

    /** startOfLine: append \A. */
    method StartOfLine()
      requires Valid()
      modifies this`pattern
      ensures Valid() && pattern == old(pattern) + "\\A"
    {
      Append("\\A");
    }

    /** endOfLine: append \Z. */
    method EndOfLine()
      requires Valid()
      modifies this`pattern
      ensures Valid() && pattern == old(pattern) + "\\Z"
    {
      Append("\\Z");
    }

    /** endOfAction: append \G. */
    method EndOfAction()
      requires Valid()
      modifies this`pattern
      ensures Valid() && pattern == old(pattern) + "\\G"
    {
      Append("\\G");
    }

    /** openAnyOf: append '[', or "[^" when `except`. */
    method OpenAnyOf(except: bool := false)
      requires Valid()
      modifies this`pattern
      ensures Valid() && pattern == old(pattern) + (if except then "[^" else "[")
    {
      var sign := "[";
      if except {
        sign := sign + "^";
      }
      Append(sign);
    }

    /** closeAnyOf: append ']'. */
    method CloseAnyOf()
      requires Valid()
      modifies this`pattern
      ensures Valid() && pattern == old(pattern) + "]"
    {
      Append("]");
    }

    /** backReference: append a backslash and the group number. */
    method BackReference(num: int)
      requires Valid()
      modifies this`pattern
      ensures Valid() && pattern == old(pattern) + Fragments.BackReference(num)
    {
      Append("\\" + IntToString(num));
    }

    /** look: append the assertion sign and the (optionally quoted) string. */
    method Look(ahead: bool, except: bool := false, s: string := "", quote: bool := false)
      requires Valid()
      modifies this`pattern, this`delimiter
      ensures Valid() && delimiter == old(DelimiterAfterQuote(quote))
      ensures pattern == old(pattern) + LookSign(ahead, except) + old(Quoted(s, quote))
    {
      var sign := "?";
      if ahead {
        sign := sign + "<";
      }
      sign := sign + (if except then "!" else "=");
      var q := Quote(s, quote);
      ImplodeThree(pattern, sign, q);
      Concat([pattern, sign, q]);
    }

    /** anyCharacter: append '.'. */
    method AnyCharacter()
      requires Valid()
      modifies this`pattern
      ensures Valid() && pattern == old(pattern) + "."
    {
      Append(".");
    }

    /** range: append from, '-', to. */
    method Range(from: string, to: string)
      requires Valid()
      modifies this`pattern
      ensures Valid() && pattern == old(pattern) + from + "-" + to
    {
      ImplodeFour(pattern, from, "-", to);
      Concat([pattern, from, "-", to]);
    }

    /** clearPattern. */
    method ClearPattern()
      requires Valid()
      modifies this`pattern
      ensures Valid() && pattern == ""
    {
      pattern := "";
    }

    // -------------------------------------------------------------------------
    // Quantifiers
    // -------------------------------------------------------------------------

    /** Append the (optionally quoted) string and then the quantifier token. */
    method QuantifyString(token: string, lazy: bool, s: string, quote: bool)
      requires Valid()
      modifies this`pattern, this`delimiter
      ensures Valid() && delimiter == old(DelimiterAfterQuote(quote))
      ensures pattern == old(pattern) + old(Quoted(s, quote)) + SwitchToLazy(token, lazy)
    {
      var q := Quote(s, quote);
      ImplodeThree(pattern, q, SwitchToLazy(token, lazy));
      Concat([pattern, q, SwitchToLazy(token, lazy)]);
    }

    /** zeroOrMore: '*'. */
    method ZeroOrMore(lazy: bool := false, s: string := "", quote: bool := false)
      requires Valid()
      modifies this`pattern, this`delimiter
      ensures Valid() && delimiter == old(DelimiterAfterQuote(quote))
      ensures pattern == old(pattern) + old(Quoted(s, quote)) + SwitchToLazy(Token(Quantifier.ZeroOrMore), lazy)
    {
      QuantifyString("*", lazy, s, quote);
    }

    /** oneOrMore: '+'. */
    method OneOrMore(lazy: bool := false, s: string := "", quote: bool := false)
      requires Valid()
      modifies this`pattern, this`delimiter
      ensures Valid() && delimiter == old(DelimiterAfterQuote(quote))
      ensures pattern == old(pattern) + old(Quoted(s, quote)) + SwitchToLazy(Token(Quantifier.OneOrMore), lazy)
    {
      QuantifyString("+", lazy, s, quote);
    }

    /** zeroOrOne: '?'. */
    method ZeroOrOne(lazy: bool := false, s: string := "", quote: bool := false)
      requires Valid()
      modifies this`pattern, this`delimiter
      ensures Valid() && delimiter == old(DelimiterAfterQuote(quote))
      ensures pattern == old(pattern) + old(Quoted(s, quote)) + SwitchToLazy(Token(Quantifier.ZeroOrOne), lazy)
    {
      QuantifyString("?", lazy, s, quote);
    }

    /** exactly: "{num}". */
    method Exactly(num: int, lazy: bool := false)
      requires Valid()
      modifies this`pattern
      ensures Valid() && pattern == old(pattern) + SwitchToLazy(Token(Quantifier.Exactly(num)), lazy)
    {
      var sign := "{" + IntToString(num) + "}";
      Append(SwitchToLazy(sign, lazy));
    }

    /** atLeast: "{num,}". */
    method AtLeast(num: int, lazy: bool := false)
      requires Valid()
      modifies this`pattern
      ensures Valid() && pattern == old(pattern) + SwitchToLazy(Token(Quantifier.AtLeast(num)), lazy)
    {
      var sign := "{" + IntToString(num) + ",}";
      Append(SwitchToLazy(sign, lazy));
    }

    /** atMax: "{,num}". */
    method AtMax(num: int, lazy: bool := false)
      requires Valid()
      modifies this`pattern
      ensures Valid() && pattern == old(pattern) + SwitchToLazy(Token(Quantifier.AtMax(num)), lazy)
    {
      var sign := "{," + IntToString(num) + "}";
      Append(SwitchToLazy(sign, lazy));
    }

    /** between: "{min,max}", with no check that min <= max. */
    method Between(min: int, max: int, lazy: bool := false)
      requires Valid()
      modifies this`pattern
      ensures Valid() && pattern == old(pattern) + SwitchToLazy(Token(Quantifier.Between(min, max)), lazy)
    {
      var sign := "{" + IntToString(min) + "," + IntToString(max) + "}";
      Append(SwitchToLazy(sign, lazy));
    }
  }
}
