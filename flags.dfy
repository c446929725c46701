/**
  Maintenance of the trailing flags string (Builder.php, section "Flags"):
  flag() with its add and remove modes, and the batch forms massFlags,
  massFlagsAssoc and inlineFlags, as functions of the flags string before
  the call. The Builder methods are proved against these functions.
 */
module Flags {
  import opened Php
  import opened Vocabulary

  /** A flags string holding only flag letters, each at most once. */
  predicate WellFormed(flags: string) {
    (forall i :: 0 <= i < |flags| ==> IsFlagChar(flags[i])) && Distinct(flags)
  }

  /**
    flag($f, true): validate the trimmed value, then append it when the flags
    string is PHP-empty or when the value is not PHP-empty and not yet present.
   */
  function AddFlag(flags: string, f: string): (r: Result<string>)
    ensures r.Ok? <==> ValidateFlag(f).Ok?
    ensures r.Err? ==> r.error == InvalidFlag(Trim(f))
    ensures r.Ok? ==> r.value == flags || r.value == flags + Trim(f)
  {
    var v := ValidateFlag(f);
    if v.Err? then Err(v.error)
    else if Empty(flags) || (!Empty(v.value) && !Contains(flags, v.value)) then Ok(flags + v.value)
    else Ok(flags)
  }

  /** flag($f, false): delete every occurrence of the untrimmed argument. */
  function RemoveFlag(flags: string, f: string): string
  {
    Remove(f, flags)
  }

  /** One call of flag($f, $add). */
  function FlagStep(flags: string, f: string, add: bool): (r: Result<string>)
    ensures r.Err? ==> add && r.error == InvalidFlag(Trim(f))
  {
    if add then AddFlag(flags, f) else Ok(RemoveFlag(flags, f))
  }

  /** The flags string after a batch, and whether the batch completed. */
  datatype Applied = Applied(flags: string, outcome: Result<()>)

  /** flag() applied to each token in order; the first failure stops the batch and keeps earlier changes. */
  function ApplyFlags(flags: string, fs: seq<string>, add: bool): (r: Applied)
    ensures r.outcome.Err? ==> add && r.outcome.error.InvalidFlag?
    decreases |fs|
  {
    if fs == [] then Applied(flags, Ok(()))
    else match FlagStep(flags, fs[0], add)
      case Err(e) => Applied(flags, Err(e))
      case Ok(next) => ApplyFlags(next, fs[1..], add)
  }

  /** massFlags: an empty batch fails before anything changes. */
  function MassFlags(flags: string, fs: seq<string>, add: bool): (r: Applied)
    ensures r.outcome == Err(NoFlagsProvided) <==> fs == []
  {
    if fs == [] then Applied(flags, Err(NoFlagsProvided)) else ApplyFlags(flags, fs, add)
  }

  /** Like ApplyFlags, but each entry carries its own add/remove mode. */
  function ApplyFlagsAssoc(flags: string, entries: seq<(string, bool)>): (r: Applied)
    ensures r.outcome.Err? ==> r.outcome.error.InvalidFlag?
    decreases |entries|
  {
    if entries == [] then Applied(flags, Ok(()))
    else match FlagStep(flags, entries[0].0, entries[0].1)
      case Err(e) => Applied(flags, Err(e))
      case Ok(next) => ApplyFlagsAssoc(next, entries[1..])
  }

  /** massFlagsAssoc: an empty map fails before anything changes. */
  function MassFlagsAssoc(flags: string, entries: seq<(string, bool)>): (r: Applied)
    ensures r.outcome == Err(NoFlagsProvided) <==> entries == []
  {
    if entries == [] then Applied(flags, Err(NoFlagsProvided)) else ApplyFlagsAssoc(flags, entries)
  }

  /** mb_str_split: each character as a string of its own. */
  function Chars(s: string): (r: seq<string>)
    ensures |r| == |s|
    ensures forall i :: 0 <= i < |s| ==> r[i] == [s[i]]
  {
    seq(|s|, i requires 0 <= i < |s| => [s[i]])
  }

  // ---------------------------------------------------------------------------
  // Adding one flag
  // ---------------------------------------------------------------------------

  /** A listed flag is always accepted and is present afterwards; at most it is appended. */
  lemma AddListedFlag(flags: string, f: string)
    requires Trim(f) in VALID_FLAGS
    ensures AddFlag(flags, f).Ok?
    ensures Contains(AddFlag(flags, f).value, Trim(f))
    ensures AddFlag(flags, f).value in {flags, flags + Trim(f)}
  {
    var t := Trim(f);
    ContainsSuffix(flags, t);
  }

  /** Adding the same flag twice gives what adding it once gives (any value but "0"). */
  lemma AddFlagIdempotent(flags: string, f: string)
    requires Trim(f) != "0"
    ensures AddFlag(flags, f).Ok? ==> AddFlag(AddFlag(flags, f).value, f) == AddFlag(flags, f)
  {
    var t := Trim(f);
    if AddFlag(flags, f).Ok? && t != "" {
      AddListedFlag(flags, f);
      var once := AddFlag(flags, f).value;
      assert |t| == 1;
      assert !Empty(once) by {
        if once == "0" {
          ContainsChar(once, t[0]);
        }
      }
    }
  }

  /**
    On a well-formed flags string, adding behaves as set insertion that keeps
    the order of first insertion: the letter is appended exactly when it is
    new, and the result is well-formed.
   */
  lemma AddFlagWellFormed(flags: string, f: string)
    requires WellFormed(flags)
    requires Trim(f) != "0"
    requires AddFlag(flags, f).Ok?
    ensures WellFormed(AddFlag(flags, f).value)
    ensures AddFlag(flags, f).value == if Trim(f) == "" || Trim(f)[0] in flags then flags else flags + Trim(f)
  {
    var t := Trim(f);
    if t != "" {
      FlagListIsLetters(t);
      ContainsChar(flags, t[0]);
      assert t == [t[0]];
      assert flags != "0";
      var r := AddFlag(flags, f).value;
      if t[0] !in flags {
        assert r == flags + t;
        assert forall i :: 0 <= i < |flags| ==> r[i] == flags[i];
      }
    }
  }

  /**
    "0" passes validation (PHP's empty("0") is true) and is appended whenever
    the flags string is PHP-empty, so flag("0") twice leaves a repeated "0".
   */
  lemma ZeroFlagRepeats()
    ensures AddFlag("", "0") == Ok("0")
    ensures AddFlag("0", "0") == Ok("00")
    ensures !WellFormed("00")
  {
    EmptyValueAsymmetry();
    assert "" + "0" == "0" && "0" + "0" == "00";
    assert "00"[0] == "00"[1];
  }

  // ---------------------------------------------------------------------------
  // Removing one flag
  // ---------------------------------------------------------------------------

  /** Removing a flag letter deletes every copy of it and keeps all other letters. */
  lemma RemoveFlagLetter(flags: string, c: char)
    ensures c !in RemoveFlag(flags, [c])
    ensures multiset(RemoveFlag(flags, [c])) == multiset(flags)[c := 0]
  {
    RemoveChar(c, flags);
  }

  /**
    Removing the empty token, or a token that does not occur (such as an
    invalid name), changes nothing: str_replace ignores an empty needle.
   */
  lemma RemoveAbsentFlag(flags: string, f: string)
    requires f == "" || !Contains(flags, f)
    ensures RemoveFlag(flags, f) == flags
  {
    RemoveAbsent(f, flags);
  }

  /** Removing any token keeps a well-formed flags string well-formed. */
  lemma RemoveFlagWellFormed(flags: string, f: string)
    requires WellFormed(flags)
    ensures WellFormed(RemoveFlag(flags, f))
  {
    RemoveDistinct(f, flags);
  }

  /** Adding a new flag letter and then removing it restores the flags string. */
  lemma AddThenRemove(flags: string, c: char)
    requires WellFormed(flags)
    requires IsFlagChar(c) && c !in flags
    ensures AddFlag(flags, [c]).Ok?
    ensures RemoveFlag(AddFlag(flags, [c]).value, [c]) == flags
  {
    assert Trim([c]) == [c];
    FlagListIsLetters([c]);
    AddFlagWellFormed(flags, [c]);
    RemoveCharAppend(c, flags, [c]);
    ContainsChar(flags, c);
    RemoveAbsent([c], flags);
    assert Remove([c], [c]) == Remove([c], []);
  }

  // ---------------------------------------------------------------------------
  // Batches
  // ---------------------------------------------------------------------------

  /** A batch split in two is the first part followed, if it completed, by the second. */
  lemma {:induction false} ApplyFlagsAppend(flags: string, a: seq<string>, b: seq<string>, add: bool)
    ensures ApplyFlags(flags, a + b, add) ==
      var first := ApplyFlags(flags, a, add);
      if first.outcome.Err? then first else ApplyFlags(first.flags, b, add)
    decreases |a|
  {
    if a == [] {
      assert a + b == b;
    } else {
      assert (a + b)[0] == a[0];
      assert (a + b)[1..] == a[1..] + b;
      match FlagStep(flags, a[0], add)
      case Err(e) =>
      case Ok(next) => ApplyFlagsAppend(next, a[1..], b, add);
    }
  }

  /** A token flag() accepts in add mode. */
  predicate FlagTokenValid(f: string) {
    Empty(Trim(f)) || Trim(f) in VALID_FLAGS
  }

  /** The index of the first token flag() refuses, or |fs| when there is none. */
  function FirstInvalidFlag(fs: seq<string>): (k: nat)
    ensures k <= |fs|
    ensures forall i :: 0 <= i < k ==> FlagTokenValid(fs[i])
    ensures k < |fs| ==> !FlagTokenValid(fs[k])
  {
    if fs == [] then 0
    else if !FlagTokenValid(fs[0]) then 0
    else 1 + FirstInvalidFlag(fs[1..])
  }

  lemma {:induction false} ValidBatchCompletes(flags: string, fs: seq<string>)
    requires forall i :: 0 <= i < |fs| ==> FlagTokenValid(fs[i])
    ensures ApplyFlags(flags, fs, true).outcome == Ok(())
    decreases |fs|
  {
    if fs != [] {
      assert FlagTokenValid(fs[0]);
      var step := AddFlag(flags, fs[0]);
      assert step.Ok?;
      assert ApplyFlags(flags, fs, true) == ApplyFlags(step.value, fs[1..], true);
      ValidBatchCompletes(step.value, fs[1..]);
    }
  }

  /**
    Adding a batch stops at the first refused token with InvalidFlag of its
    trimmed value; everything before it stays applied (no rollback).
   */
  lemma AddBatchStopsAtFirstInvalid(flags: string, fs: seq<string>)
    ensures var k := FirstInvalidFlag(fs);
      var before := ApplyFlags(flags, fs[..k], true);
      before.outcome == Ok(()) &&
      ApplyFlags(flags, fs, true) ==
        if k < |fs| then Applied(before.flags, Err(InvalidFlag(Trim(fs[k])))) else before
  {
    var k := FirstInvalidFlag(fs);
    ValidBatchCompletes(flags, fs[..k]);
    assert fs == fs[..k] + fs[k..];
    ApplyFlagsAppend(flags, fs[..k], fs[k..], true);
    var before := ApplyFlags(flags, fs[..k], true);
    if k < |fs| {
      assert fs[k..][0] == fs[k];
    } else {
      assert fs[k..] == [];
    }
  }

  /** A removal batch never fails. */
  lemma {:induction false} RemoveBatchCompletes(flags: string, fs: seq<string>)
    ensures ApplyFlags(flags, fs, false).outcome == Ok(())
    decreases |fs|
  {
    if fs != [] {
      RemoveBatchCompletes(RemoveFlag(flags, fs[0]), fs[1..]);
    }
  }

  /** A batch of tokens other than "0" keeps a well-formed flags string well-formed. */
  lemma {:induction false} BatchKeepsWellFormed(flags: string, fs: seq<string>, add: bool)
    requires WellFormed(flags)
    requires forall i :: 0 <= i < |fs| ==> Trim(fs[i]) != "0"
    ensures WellFormed(ApplyFlags(flags, fs, add).flags)
    decreases |fs|
  {
    if fs != [] {
      if add {
        if AddFlag(flags, fs[0]).Ok? {
          AddFlagWellFormed(flags, fs[0]);
          BatchKeepsWellFormed(AddFlag(flags, fs[0]).value, fs[1..], add);
        }
      } else {
        RemoveFlagWellFormed(flags, fs[0]);
        BatchKeepsWellFormed(RemoveFlag(flags, fs[0]), fs[1..], add);
      }
    }
  }

  /** Both batch forms refuse an empty batch, whatever the mode, and change nothing. */
  lemma EmptyBatchRefused(flags: string, add: bool)
    ensures MassFlags(flags, [], add) == Applied(flags, Err(NoFlagsProvided))
    ensures MassFlagsAssoc(flags, []) == Applied(flags, Err(NoFlagsProvided))
  {
  }

  /** The entries of a batch that all share one mode. */
  function WithMode(fs: seq<string>, add: bool): (r: seq<(string, bool)>)
    ensures |r| == |fs|
    ensures forall i :: 0 <= i < |fs| ==> r[i] == (fs[i], add)
  {
    seq(|fs|, i requires 0 <= i < |fs| => (fs[i], add))
  }

  /** massFlagsAssoc with every entry in one mode is massFlags in that mode. */
  lemma {:induction false} AssocAgreesWithMassFlags(flags: string, fs: seq<string>, add: bool)
    ensures ApplyFlagsAssoc(flags, WithMode(fs, add)) == ApplyFlags(flags, fs, add)
    decreases |fs|
  {
    if fs != [] {
      assert WithMode(fs, add)[1..] == WithMode(fs[1..], add);
      match FlagStep(flags, fs[0], add)
      case Err(e) =>
      case Ok(next) => AssocAgreesWithMassFlags(next, fs[1..], add);
    }
  }

  /** inlineFlags("") is refused like an empty batch. */
  lemma EmptyInlineFlagsRefused(flags: string, add: bool)
    ensures MassFlags(flags, Chars(""), add) == Applied(flags, Err(NoFlagsProvided))
  {
  }

  /** flag() with a listed letter succeeds in both modes. */
  lemma ListedFlagStep(flags: string, f: string, add: bool)
    requires f in VALID_FLAGS
    ensures FlagStep(flags, f, add).Ok?
  {
    FlagListIsLetters(f);
    assert f == [f[0]] && !IsTrimChar(f[0]);
    TrimUnpadded(f);
  }

  /** Adding a flag letter that is not yet present appends it. */
  lemma AddNewLetter(flags: string, c: char)
    requires WellFormed(flags)
    requires IsFlagChar(c) && c !in flags
    ensures AddFlag(flags, [c]) == Ok(flags + [c])
    ensures WellFormed(flags + [c])
  {
    assert !IsTrimChar(c);
    TrimUnpadded([c]);
    FlagListIsLetters([c]);
    AddFlagWellFormed(flags, [c]);
  }

  /** c is not among the first |flags| characters of a distinct string whose next character is c. */
  lemma FreshPrefix(flags: string, cs: string)
    requires Distinct(flags + cs) && cs != []
    ensures cs[0] !in flags
  {
    var t := flags + cs;
    assert forall k :: 0 <= k < |flags| ==> flags[k] == t[k] && t[k] != t[|flags|];
  }

  /**
    Adding, one character each, letters that are all new appends them in
    order; this is what the massFlags and inlineFlags tests check.
   */
  lemma {:induction false} AddNewLetters(flags: string, cs: string)
    requires WellFormed(flags + cs)
    ensures ApplyFlags(flags, Chars(cs), true) == Applied(flags + cs, Ok(()))
    decreases |cs|
  {
    if cs == [] {
      assert flags + cs == flags;
    } else {
      var c := cs[0];
      var t := flags + cs;
      assert t[|flags|] == c;
      assert t == (flags + [c]) + cs[1..];
      assert WellFormed(flags) by {
        assert forall i :: 0 <= i < |flags| ==> flags[i] == t[i];
      }
      FreshPrefix(flags, cs);
      AddNewLetter(flags, c);
      assert Chars(cs)[1..] == Chars(cs[1..]);
      AddNewLetters(flags + [c], cs[1..]);
    }
  }

  /** Removing the leading character of a string in which it does not recur. */
  lemma RemoveLeading(c: char, tail: string)
    requires c !in tail
    ensures RemoveFlag([c] + tail, [c]) == tail
  {
    assert ([c] + tail)[1..] == tail;
    ContainsChar(tail, c);
    RemoveAbsent([c], tail);
  }

  /**
    Removing, one character each, the letters at the front of a well-formed
    flags string leaves the rest.
   */
  lemma {:induction false} RemoveLeadingLetters(cs: string, rest: string)
    requires WellFormed(cs + rest)
    ensures ApplyFlags(cs + rest, Chars(cs), false) == Applied(rest, Ok(()))
    decreases |cs|
  {
    if cs == [] {
      assert cs + rest == rest;
    } else {
      var t := cs + rest;
      var tail := cs[1..] + rest;
      assert t == [cs[0]] + tail;
      assert t[1..] == tail;
      assert cs[0] !in tail by {
        FreshPrefix([], t);
        assert forall i :: 0 <= i < |tail| ==> tail[i] == t[i + 1] && t[i + 1] != t[0];
      }
      RemoveLeading(cs[0], tail);
      assert WellFormed(tail) by {
        assert forall i :: 0 <= i < |tail| ==> tail[i] == t[i + 1];
      }
      assert Chars(cs)[1..] == Chars(cs[1..]);
      RemoveLeadingLetters(cs[1..], rest);
    }
  }
}
