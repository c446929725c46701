/**
  Client code that drives the builder as the repository's feature tests
  do: the default delimiter captured at creation, __toString on fields set
  directly, and clear with and without the delimiter.
 */
module Scenarios {
  import opened Php
  import opened Vocabulary
  import opened Flags
  import opened Regent

  /**
    A builder made before the default changes keeps the old default, one
    made after gets the new default, and one given its own delimiter keeps it.
   */
  method DelimiterDefaultScenario() returns (first: string, second: string, third: string)
    ensures first == "~" && second == "%" && third == "#"
  {
    var config := new Config();
    var r1 := Builder.Init(config);
    ListedDelimiterAccepted("", "%", "");
    assert "" + "%" + "" == "%";
    var changed := config.SetDelimiterDefault("%");
    var r2 := Builder.Init(config);
    ListedDelimiterAccepted("", "#", "");
    assert "" + "#" + "" == "#";
    var r3 := Builder.Init(config, Some("#"));
    var b1, b2, b3 := r1.value, r2.value, r3.value;
    first := b1.GetDelimiter();
    second := b2.GetDelimiter();
    third := b3.GetDelimiter();
  }

  /** __toString wraps whatever pattern a client stored between two default delimiters, then the flags. */
  method ToStringScenario(pattern: string, flags: string) returns (s: string)
    ensures s == "~" + pattern + "~" + flags
  {
    var config := new Config();
    var r := Builder.Init(config);
    var b := r.value;
    b.pattern := pattern;
    b.flags := flags;
    s := b.ToString();
  }

  /** clear empties pattern and flags; with `withDelimiter` the builder falls back to the default delimiter. */
  method ClearScenario(withDelimiter: bool) returns (pattern: string, flags: string, delimiter: string)
    ensures pattern == "" && flags == ""
    ensures delimiter == if withDelimiter then "~" else "%"
  {
    var config := new Config();
    ListedDelimiterAccepted("", "%", "");
    assert "" + "%" + "" == "%";
    var r := Builder.Init(config, Some("%"));
    var b := r.value;
    b.flags := "testFlag";
    b.pattern := "testPattern";
    b.Clear(withDelimiter);
    pattern, flags := b.pattern, b.flags;
    delimiter := b.GetDelimiter();
  }

  /** A padded flag letter is added to empty flags as the bare letter. */
  lemma PaddedLetterAdded(c: char)
    requires IsFlagChar(c)
    ensures FlagStep("", " " + [c] + " ", true) == Ok([c])
  {
    TrimPadded(" ", [c], " ");
    assert !IsTrimChar(c);
    TrimUnpadded([c]);
    FlagListIsLetters([c]);
    assert ValidateFlag(" " + [c] + " ") == Ok([c]);
    assert "" + [c] == [c];
  }

  /** Adding the padded letter again, or "", leaves a one-letter flags string as it is. */
  lemma RepeatIgnored(c: char)
    requires IsFlagChar(c)
    ensures FlagStep([c], " " + [c] + " ", true) == Ok([c])
    ensures FlagStep([c], "", true) == Ok([c])
  {
    TrimPadded(" ", [c], " ");
    TrimUnpadded([c]);
    FlagListIsLetters([c]);
    ContainsChar([c], c);
    EmptyValueAsymmetry();
  }

  /** Removing the first of two letters, then "", then an unused letter, leaves the second. */
  lemma RemovalsLeaveSecond(c: char, d: char, unused: char)
    requires c != d && unused != d
    ensures FlagStep([c, d], [c], false) == Ok([d])
    ensures FlagStep([d], "", false) == Ok([d])
    ensures FlagStep([d], [unused], false) == Ok([d])
  {
    assert [c, d] == [c] + [d];
    RemoveLeading(c, [d]);
    ContainsChar([d], unused);
    RemoveAbsentFlag([d], [unused]);
  }

  /** The first steps of the flag test: a padded letter, the same again, then "". */
  method PaddedSteps(b: Builder, c: char) returns (added: string, repeated: string)
    requires b.Valid() && b.flags == ""
    requires IsFlagChar(c)
    modifies b`flags
    ensures b.Valid()
    ensures added == [c] && repeated == [c] && b.flags == [c]
  {
    var padded := " " + [c] + " ";
    PaddedLetterAdded(c);
    var step := b.Flag(padded);
    added := b.flags;
    RepeatIgnored(c);
    step := b.Flag(padded);
    step := b.Flag("");
    repeated := b.flags;
  }

  /** The next step of the flag test: a second letter is appended. */
  method SecondLetterStep(b: Builder, c: char, d: char)
    requires b.Valid() && b.flags == [c]
    requires IsFlagChar(c) && IsFlagChar(d) && c != d
    modifies b`flags
    ensures b.Valid()
    ensures b.flags == [c, d]
  {
    assert WellFormed([c]);
    AddNewLetter([c], d);
    var step := b.Flag([d]);
  }

  /** The removing half of the flag test, on a builder holding two letters. */
  method RemoveSteps(b: Builder, c: char, d: char, unused: char) returns (removed: string)
    requires b.Valid() && b.flags == [c, d]
    requires c != d && unused != d
    modifies b`flags
    ensures removed == [d]
  {
    RemovalsLeaveSecond(c, d, unused);
    var step := b.Flag([c], false);
    step := b.Flag("", false);
    step := b.Flag([unused], false);
    removed := b.flags;
  }

  /**
    flag() as a client uses it, for any two distinct flag letters: padding
    is trimmed, repeating a flag or passing "" changes nothing, a second
    letter is appended, and removing the first letter, "", or an unused
    letter leaves only the second.
   */
  method FlagScenario(c: char, d: char, unused: char) returns (added: string, repeated: string, second: string, removed: string)
    requires IsFlagChar(c) && IsFlagChar(d) && IsFlagChar(unused)
    requires c != d && unused != d
    ensures added == [c] && repeated == [c]
    ensures second == [c, d] && removed == [d]
  {
    var config := new Config();
    var r := Builder.Init(config);
    var b := r.value;
    added, repeated := PaddedSteps(b, c);
    SecondLetterStep(b, c, d);
    second := b.flags;
    removed := RemoveSteps(b, c, d, unused);
  }
}
