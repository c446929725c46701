/**
  The allow-lists of the builder, its error kinds, and the validation that
  gates every delimiter, flag and inline modifier (Builder.php, the
  constants and validateInList / validateDelimiter / validateModifier /
  validateFlag).
 */
module Vocabulary {
  import opened Php

  /** The process-wide default delimiter a fresh process starts with. */
  const DELIMITER_DEFAULT: string := "~"

  const VALID_DELIMITERS: seq<string> := ["/", "~", "@", ";", "%", "`", "#"]
  const VALID_FLAGS: seq<string> := ["i", "m", "s", "x", "A", "D", "S", "U", "X", "J", "u"]
  const VALID_INLINE_MODIFIERS: seq<string> := ["i", "m", "s", "x", "U", "J"]

  /** The failures the builder raises; each carries the trimmed value that was refused. */
  datatype Error =
    | InvalidDelimiter(value: string)
    | InvalidFlag(value: string)
    | InvalidModifier(value: string)
    | NoFlagsProvided
    | NoModifiersProvided

  datatype Result<T> = Ok(value: T) | Err(error: Error)

  /**
    validateInList: the verdict, together with the trimmed value that the
    source writes back through its by-reference parameter.
   */
  datatype Checked = Checked(ok: bool, value: string)

  function ValidateInList(s: string, list: seq<string>, letEmpty: bool := false): (r: Checked)
    ensures r.value == Trim(s)
    ensures r.ok <==> (letEmpty && Empty(r.value)) || r.value in list
  {
    var t := Trim(s);
    Checked((letEmpty && Empty(t)) || t in list, t)
  }

  /** validateDelimiter: the trimmed delimiter, or InvalidDelimiter carrying it. */
  function ValidateDelimiter(d: string): (r: Result<string>)
    ensures r.Ok? <==> Trim(d) in VALID_DELIMITERS
    ensures r.Ok? ==> r.value == Trim(d)
    ensures r.Err? ==> r.error == InvalidDelimiter(Trim(d))
  {
    var c := ValidateInList(d, VALID_DELIMITERS);
    if c.ok then Ok(c.value) else Err(InvalidDelimiter(c.value))
  }

  /** validateModifier: the trimmed modifier, or InvalidModifier carrying it; empty is refused. */
  function ValidateModifier(m: string): (r: Result<string>)
    ensures r.Ok? <==> Trim(m) in VALID_INLINE_MODIFIERS
    ensures r.Ok? ==> r.value == Trim(m)
    ensures r.Err? ==> r.error == InvalidModifier(Trim(m))
  {
    var c := ValidateInList(m, VALID_INLINE_MODIFIERS);
    if c.ok then Ok(c.value) else Err(InvalidModifier(c.value))
  }

  /** validateFlag: the trimmed flag, or InvalidFlag carrying it; PHP-empty values ("" and "0") pass. */
  function ValidateFlag(f: string): (r: Result<string>)
    ensures r.Ok? <==> Empty(Trim(f)) || Trim(f) in VALID_FLAGS
    ensures r.Ok? ==> r.value == Trim(f)
    ensures r.Err? ==> r.error == InvalidFlag(Trim(f))
  {
    var c := ValidateInList(f, VALID_FLAGS, true);
    if c.ok then Ok(c.value) else Err(InvalidFlag(c.value))
  }

  /** Whitespace around a value never changes a verdict or the value validated. */
  lemma ValidationIgnoresPadding(ws1: string, x: string, ws2: string)
    requires AllTrimChars(ws1) && AllTrimChars(ws2)
    ensures ValidateDelimiter(ws1 + x + ws2) == ValidateDelimiter(x)
    ensures ValidateModifier(ws1 + x + ws2) == ValidateModifier(x)
    ensures ValidateFlag(ws1 + x + ws2) == ValidateFlag(x)
  {
    TrimPadded(ws1, x, ws2);
  }

  /** Each allowed delimiter is accepted as it is, with or without surrounding whitespace. */
  lemma ListedDelimiterAccepted(ws1: string, d: string, ws2: string)
    requires AllTrimChars(ws1) && AllTrimChars(ws2)
    requires d in VALID_DELIMITERS
    ensures ValidateDelimiter(ws1 + d + ws2) == Ok(d)
  {
    DelimiterShape(d);
    assert !IsTrimChar(d[0]);
    TrimUnpadded(d);
    ValidationIgnoresPadding(ws1, d, ws2);
  }

  /**
    The empty string is refused as a delimiter and as a modifier but accepted
    as a flag, and so is "0", which PHP's empty() also treats as empty.
   */
  lemma EmptyValueAsymmetry()
    ensures ValidateDelimiter("") == Err(InvalidDelimiter(""))
    ensures ValidateModifier("") == Err(InvalidModifier(""))
    ensures ValidateFlag("") == Ok("")
    ensures ValidateFlag("0") == Ok("0")
  {
    TrimUnpadded("");
    TrimUnpadded("0");
  }

  /** The flag letters, as characters. */
  predicate IsFlagChar(c: char) {
    c in "imsxADSUXJu"
  }

  /** A listed flag is a single flag letter, and every flag letter is listed. */
  lemma FlagListIsLetters(t: string)
    ensures t in VALID_FLAGS <==> |t| == 1 && IsFlagChar(t[0])
  {
    if |t| == 1 && IsFlagChar(t[0]) {
      assert t == [t[0]];
    }
  }

  /** Every delimiter is one character, is not PHP-empty and is not a flag letter. */
  lemma DelimiterShape(d: string)
    requires d in VALID_DELIMITERS
    ensures |d| == 1 && !Empty(d) && !IsFlagChar(d[0]) && d[0] != '0'
  {
  }

  /**
    Every inline modifier is one character, each is also a flag letter, and
    none equals a piece of punctuation that insertModifiers writes.
   */
  lemma ModifierShape(m: string)
    requires m in VALID_INLINE_MODIFIERS
    ensures |m| == 1 && IsFlagChar(m[0]) && m != "(?" && m != "-" && m != ")"
  {
  }
}
