/**
  The inline-modifier group that insertModifiers appends to the pattern
  (Builder.php, section "Inline modifiers"), as functions of the two
  argument lists. The Builder method is proved against these functions.
 */
module Modifiers {
  import opened Php
  import opened Vocabulary

  /** Each element trimmed, as validateModifier leaves the loop variable. */
  function TrimAll(xs: seq<string>): seq<string>
  {
    seq(|xs|, i requires 0 <= i < |xs| => Trim(xs[i]))
  }

  /** The index of the first element whose trimmed value is not an inline modifier, or |mods| if none. */
  function FirstInvalidModifier(mods: seq<string>): (k: nat)
    ensures k <= |mods|
    ensures forall i :: 0 <= i < k ==> Trim(mods[i]) in VALID_INLINE_MODIFIERS
    ensures k < |mods| ==> Trim(mods[k]) !in VALID_INLINE_MODIFIERS
    decreases |mods|
  {
    if mods == [] then 0
    else if Trim(mods[0]) !in VALID_INLINE_MODIFIERS then 0
    else 1 + FirstInvalidModifier(mods[1..])
  }

  /**
    The values of `s` that are not in `seen`, each at its first occurrence
    and in order: what the group emits of a list, given what it already holds.
   */
  function Unseen(s: seq<string>, seen: seq<string>): (r: seq<string>)
    ensures forall x :: x in r <==> x in s && x !in seen
    ensures forall i, j :: 0 <= i < j < |r| ==> r[i] != r[j]
    decreases |s|
  {
    if s == [] then []
    else
      var init := s[..|s| - 1];
      var x := s[|s| - 1];
      assert s == init + [x];
      if x in init || x in seen then Unseen(init, seen) else Unseen(init, seen) + [x]
  }

  /** The active modifiers the group turns on. */
  function GroupOn(active: seq<string>): seq<string>
  {
    Unseen(active, [])
  }

  /** The deactive modifiers the group turns off: those not already written. */
  function GroupOff(active: seq<string>, deactive: seq<string>): seq<string>
  {
    Unseen(deactive, active)
  }

  /** The pieces after "(?": the active modifiers, then "-" and the deactive ones when there are any, then ")". */
  function GroupBody(active: seq<string>, deactive: seq<string>): seq<string>
  {
    var off := GroupOff(active, deactive);
    GroupOn(active) + (if off == [] then [] else ["-"] + off) + [")"]
  }

  /** The pieces of insertModifiers' $result array, for already-trimmed lists. */
  function GroupParts(active: seq<string>, deactive: seq<string>): seq<string>
  {
    ["(?"] + GroupBody(active, deactive)
  }

  /**
    insertModifiers on the pattern `pattern`: the refusal when both lists are
    empty, the first invalid value (active ones checked first), or the pattern
    with the group appended.
   */
  function InsertModifiers(pattern: string, active: seq<string>, deactive: seq<string>): Result<string>
  {
    if active == [] && deactive == [] then Err(NoModifiersProvided)
    else
      var all := active + deactive;
      var k := FirstInvalidModifier(all);
      if k < |all| then Err(InvalidModifier(Trim(all[k])))
      else Ok(Implode("", [pattern] + GroupParts(TrimAll(active), TrimAll(deactive))))
  }

  predicate AllModifiers(xs: seq<string>) {
    forall i :: 0 <= i < |xs| ==> xs[i] in VALID_INLINE_MODIFIERS
  }

  lemma AllModifiersSnoc(xs: seq<string>, m: string)
    requires AllModifiers(xs) && m in VALID_INLINE_MODIFIERS
    ensures AllModifiers(xs + [m])
  {
  }

  /** Emitting a list after another is emitting their concatenation. */
  lemma {:induction false} UnseenAppend(a: seq<string>, b: seq<string>, seen: seq<string>)
    ensures Unseen(a + b, seen) == Unseen(a, seen) + Unseen(b, seen + a)
    decreases |b|
  {
    if b == [] {
      assert a + b == a;
    } else {
      var b0 := b[..|b| - 1];
      var y := b[|b| - 1];
      assert (a + b)[..|a + b| - 1] == a + b0;
      assert (a + b)[|a + b| - 1] == y;
      UnseenAppend(a, b0, seen);
      assert y in a + b0 <==> y in b0 || y in a;
    }
  }

  /** A list whose values were all written already adds nothing, so repeated modifiers collapse. */
  lemma UnseenOfSeen(s: seq<string>, seen: seq<string>)
    requires forall i :: 0 <= i < |s| ==> s[i] in seen
    ensures Unseen(s, seen) == []
  {
  }

  /** Only which values were seen matters, not how often or in what order. */
  lemma {:induction false} UnseenSameSeen(s: seq<string>, seen1: seq<string>, seen2: seq<string>)
    requires forall y :: y in seen1 <==> y in seen2
    ensures Unseen(s, seen1) == Unseen(s, seen2)
    decreases |s|
  {
    if s != [] {
      UnseenSameSeen(s[..|s| - 1], seen1, seen2);
    }
  }

  /**
    An active modifier passed again later is skipped (in_array finds it in
    $result): it changes neither the active nor the deactive part.
   */
  lemma RepeatedActiveIgnored(active: seq<string>, x: string, deactive: seq<string>)
    requires x in active
    ensures GroupParts(active + [x], deactive) == GroupParts(active, deactive)
  {
    UnseenSnoc(active, x, []);
    UnseenSameSeen(deactive, active + [x], active);
  }

  /** The body pieces are distinct one-character strings, none of them '(' or '?'. */
  lemma BodyShape(active: seq<string>, deactive: seq<string>)
    requires AllModifiers(active) && AllModifiers(deactive)
    ensures var body := GroupBody(active, deactive);
      (forall i :: 0 <= i < |body| ==> |body[i]| == 1 && body[i][0] != '(' && body[i][0] != '?') &&
      (forall i, j :: 0 <= i < j < |body| ==> body[i] != body[j])
  {
    var on := GroupOn(active);
    var off := GroupOff(active, deactive);
    var mark := if off == [] then [] else ["-"] + off;
    var body := GroupBody(active, deactive);
    assert body == on + mark + [")"];
    forall x | x in on || x in off
      ensures x in VALID_INLINE_MODIFIERS
    {
      if x in on {
        var i :| 0 <= i < |active| && active[i] == x;
      } else {
        var i :| 0 <= i < |deactive| && deactive[i] == x;
      }
    }
    forall i | 0 <= i < |body|
      ensures |body[i]| == 1 && body[i][0] != '(' && body[i][0] != '?'
    {
      if body[i] in on || body[i] in off {
        ModifierShape(body[i]);
      }
    }
    forall i, j | 0 <= i < j < |body|
      ensures body[i] != body[j]
    {
      if body[i] in on || body[i] in off {
        ModifierShape(body[i]);
      }
      if body[j] in on || body[j] in off {
        ModifierShape(body[j]);
      }
      if i < |on| && j < |on| {
        assert body[i] == on[i] && body[j] == on[j];
      } else if off != [] && |on| < i && j < |on| + |mark| {
        assert body[i] == off[i - |on| - 1] && body[j] == off[j - |on| - 1];
      }
    }
  }

  /**
    The group written for valid, trimmed lists is "(?" followed by the
    characters of the body pieces, one each.
   */
  lemma GroupText(active: seq<string>, deactive: seq<string>)
    requires AllModifiers(active) && AllModifiers(deactive)
    ensures var g := Implode("", GroupParts(active, deactive));
      var body := GroupBody(active, deactive);
      |g| == |body| + 2 && g[..2] == "(?" &&
      forall i :: 0 <= i < |body| ==> body[i] == [g[i + 2]]
  {
    var body := GroupBody(active, deactive);
    BodyShape(active, deactive);
    ImplodeAppend(["(?"], body);
    ImplodeSingles(body);
    var s := Implode("", body);
    assert Implode("", GroupParts(active, deactive)) == "(?" + s;
    assert forall i :: 0 <= i < |body| ==> body[i] == [body[i][0]];
  }

  /** The group opens with "(?", closes with ")" and holds no character twice. */
  lemma GroupDistinct(active: seq<string>, deactive: seq<string>)
    requires AllModifiers(active) && AllModifiers(deactive)
    ensures var g := Implode("", GroupParts(active, deactive));
      g[..2] == "(?" && g[|g| - 1] == ')' && Distinct(g)
  {
    var body := GroupBody(active, deactive);
    var g := Implode("", GroupParts(active, deactive));
    GroupText(active, deactive);
    BodyShape(active, deactive);
    assert body[|body| - 1] == ")";
    forall i, j | 0 <= i < j < |g|
      ensures g[i] != g[j]
    {
      if i >= 2 {
        assert body[i - 2] == [g[i]] && body[j - 2] == [g[j]];
      } else {
        assert j == 1 || body[j - 2] == [g[j]];
      }
    }
  }

  /** The group holds '-' exactly when some deactive modifier was not already active. */
  lemma GroupDash(active: seq<string>, deactive: seq<string>)
    requires AllModifiers(active) && AllModifiers(deactive)
    ensures var g := Implode("", GroupParts(active, deactive));
      '-' in g <==> exists i :: 0 <= i < |deactive| && deactive[i] !in active
  {
    var body := GroupBody(active, deactive);
    var on := GroupOn(active);
    var off := GroupOff(active, deactive);
    var g := Implode("", GroupParts(active, deactive));
    GroupText(active, deactive);
    assert body == on + (if off == [] then [] else ["-"] + off) + [")"];
    if exists i :: 0 <= i < |deactive| && deactive[i] !in active {
      var i :| 0 <= i < |deactive| && deactive[i] !in active;
      assert deactive[i] in off;
      assert body[|on|] == "-";
      assert g[|on| + 2] == '-';
    } else {
      UnseenOfSeen(deactive, active);
      if '-' in g {
        var k :| 0 <= k < |g| && g[k] == '-';
        assert body[k - 2] == "-";
        assert body[k - 2] in on;
        ModifierShape(body[k - 2]);
      }
    }
  }

  /** The group holds a flag letter exactly when that modifier was passed in either list. */
  lemma GroupLetters(active: seq<string>, deactive: seq<string>, c: char)
    requires AllModifiers(active) && AllModifiers(deactive)
    requires IsFlagChar(c)
    ensures c in Implode("", GroupParts(active, deactive)) <==> [c] in active || [c] in deactive
  {
    var body := GroupBody(active, deactive);
    var on := GroupOn(active);
    var off := GroupOff(active, deactive);
    var g := Implode("", GroupParts(active, deactive));
    GroupText(active, deactive);
    assert body == on + (if off == [] then [] else ["-"] + off) + [")"];
    if [c] in active || [c] in deactive {
      assert [c] in body;
      var i :| 0 <= i < |body| && body[i] == [c];
      assert g[i + 2] == c;
    }
    if c in g {
      var k :| 0 <= k < |g| && g[k] == c;
      assert k >= 2;
      assert body[k - 2] == [c];
    }
  }

  /** All values of a concatenation are valid exactly when those of both halves are. */
  lemma TrimAllAppend(a: seq<string>, b: seq<string>)
    ensures TrimAll(a + b) == TrimAll(a) + TrimAll(b)
    ensures AllModifiers(TrimAll(a + b)) <==> AllModifiers(TrimAll(a)) && AllModifiers(TrimAll(b))
  {
    var t := TrimAll(a + b);
    assert t == TrimAll(a) + TrimAll(b);
    assert forall i :: 0 <= i < |a| ==> t[i] == TrimAll(a)[i];
    assert forall i :: 0 <= i < |b| ==> t[|a| + i] == TrimAll(b)[i];
  }

  /** No invalid value among the trimmed ones exactly when the first-invalid search runs off the end. */
  lemma {:induction false} FirstInvalidNone(mods: seq<string>)
    ensures FirstInvalidModifier(mods) == |mods| <==> AllModifiers(TrimAll(mods))
    decreases |mods|
  {
    if mods != [] {
      FirstInvalidNone(mods[1..]);
      var t := TrimAll(mods);
      assert t == [Trim(mods[0])] + TrimAll(mods[1..]);
      var rest := TrimAll(mods[1..]);
      if t[0] in VALID_INLINE_MODIFIERS && AllModifiers(rest) {
        forall i | 0 <= i < |t|
          ensures t[i] in VALID_INLINE_MODIFIERS
        {
          if i > 0 {
            assert t[i] == rest[i - 1];
          }
        }
      }
      if AllModifiers(t) {
        forall i | 0 <= i < |rest|
          ensures rest[i] in VALID_INLINE_MODIFIERS
        {
          assert rest[i] == t[i + 1];
        }
      }
    }
  }

  /**
    The outcome of insertModifiers: NoModifiersProvided exactly when both
    lists are empty; success exactly when every trimmed value is an inline
    modifier, and then the group is appended to the old pattern.
   */
  lemma InsertModifiersOutcome(pattern: string, active: seq<string>, deactive: seq<string>)
    ensures var r := InsertModifiers(pattern, active, deactive);
      (r == Err(NoModifiersProvided) <==> active == [] && deactive == []) &&
      (r.Ok? <==> (active != [] || deactive != []) && AllModifiers(TrimAll(active)) && AllModifiers(TrimAll(deactive))) &&
      (r.Ok? ==> r.value == pattern + Implode("", GroupParts(TrimAll(active), TrimAll(deactive))))
  {
    ImplodeAppend([pattern], GroupParts(TrimAll(active), TrimAll(deactive)));
    TrimAllAppend(active, deactive);
    FirstInvalidNone(active + deactive);
  }

  /** With every active value valid, the first invalid deactive value is the one reported. */
  lemma DeactiveCheckedNext(pattern: string, active: seq<string>, deactive: seq<string>)
    ensures var k := FirstInvalidModifier(deactive);
      AllModifiers(TrimAll(active)) && k < |deactive| ==>
        InsertModifiers(pattern, active, deactive) == Err(InvalidModifier(Trim(deactive[k])))
  {
    var all := active + deactive;
    var n := |active|;
    var k := FirstInvalidModifier(deactive);
    if AllModifiers(TrimAll(active)) && k < |deactive| {
      assert forall i :: 0 <= i < n ==> all[i] == active[i] && Trim(active[i]) == TrimAll(active)[i];
      assert forall i :: 0 <= i <= k ==> all[n + i] == deactive[i];
      forall i | 0 <= i < n + k
        ensures Trim(all[i]) in VALID_INLINE_MODIFIERS
      {
        if i >= n {
          assert all[i] == deactive[i - n];
        }
      }
      assert FirstInvalidModifier(all) == n + k;
    }
  }

  /** With every value valid, the group is appended. */
  lemma InsertModifiersBuilt(pattern: string, active: seq<string>, deactive: seq<string>)
    requires active != [] || deactive != []
    requires AllModifiers(TrimAll(active)) && AllModifiers(TrimAll(deactive))
    ensures InsertModifiers(pattern, active, deactive) == Ok(Implode("", [pattern] + GroupParts(TrimAll(active), TrimAll(deactive))))
  {
    TrimAllAppend(active, deactive);
    FirstInvalidNone(active + deactive);
  }

  /** An invalid active value is reported before any deactive one is looked at. */
  lemma ActiveCheckedFirst(pattern: string, active: seq<string>, deactive: seq<string>)
    ensures var k := FirstInvalidModifier(active);
      k < |active| ==> InsertModifiers(pattern, active, deactive) == Err(InvalidModifier(Trim(active[k])))
  {
    var all := active + deactive;
    var ka := FirstInvalidModifier(active);
    if ka < |active| {
      assert forall i :: 0 <= i < |active| ==> all[i] == active[i];
      FirstInvalidUnique(all, ka);
    }
  }

  /** Only one index can be the first invalid one: valid before it, invalid at it. */
  lemma FirstInvalidUnique(mods: seq<string>, k: nat)
    requires k < |mods|
    requires forall i :: 0 <= i < k ==> Trim(mods[i]) in VALID_INLINE_MODIFIERS
    requires Trim(mods[k]) !in VALID_INLINE_MODIFIERS
    ensures FirstInvalidModifier(mods) == k
  {
  }

  /** One more value: it is written unless it was seen or is a repeat. */
  lemma UnseenSnoc(s: seq<string>, x: string, seen: seq<string>)
    ensures Unseen(s + [x], seen) == Unseen(s, seen) + (if x in s || x in seen then [] else [x])
  {
    var t := s + [x];
    assert t[..|t| - 1] == s;
    assert t[|t| - 1] == x;
  }

  /** The first invalid value is at `i` when every value before it is valid and it is not. */
  lemma FirstInvalidAt(mods: seq<string>, i: nat)
    requires i < |mods|
    requires AllModifiers(TrimAll(mods)[..i])
    requires Trim(mods[i]) !in VALID_INLINE_MODIFIERS
    ensures FirstInvalidModifier(mods) == i
  {
    assert forall k :: 0 <= k < i ==> TrimAll(mods)[..i][k] == Trim(mods[k]);
  }

  /** One step over the active list: a modifier is already written exactly when it was seen before. */
  lemma OnStep(s: seq<string>, m: string)
    requires m in VALID_INLINE_MODIFIERS
    ensures m in ["(?"] + Unseen(s, []) <==> m in s
    ensures Unseen(s + [m], []) == Unseen(s, []) + (if m in s then [] else [m])
  {
    ModifierShape(m);
    UnseenSnoc(s, m, []);
  }

  /**
    The pieces written once the active list is done and the prefix `s` of
    the deactive list is processed; `marked` says whether '-' was written.
   */
  function OffWritten(active: seq<string>, s: seq<string>, marked: bool): seq<string>
  {
    ["(?"] + GroupOn(active) + (if marked then ["-"] + Unseen(s, active) else [])
  }

  /** One step over the deactive list: a modifier is already written exactly when it was seen before. */
  lemma OffMember(active: seq<string>, s: seq<string>, m: string, marked: bool)
    requires m in VALID_INLINE_MODIFIERS
    requires marked <==> Unseen(s, active) != []
    ensures m in OffWritten(active, s, marked) <==> m in active || m in s
  {
    ModifierShape(m);
    if !marked {
      assert OffWritten(active, s, marked) == ["(?"] + GroupOn(active);
    }
  }

  /** A modifier seen before adds nothing; a new one is written, after '-' if it is the first. */
  lemma OffAppend(active: seq<string>, s: seq<string>, m: string, marked: bool)
    requires marked <==> Unseen(s, active) != []
    ensures m in active || m in s ==> Unseen(s + [m], active) == Unseen(s, active)
    ensures !(m in active || m in s) ==>
      (Unseen(s + [m], active) != [] &&
       OffWritten(active, s + [m], true) == OffWritten(active, s, marked) + (if marked then [] else ["-"]) + [m])
  {
    UnseenSnoc(s, m, active);
  }

  /** Closing the group after the whole deactive list gives the group's pieces. */
  lemma OffDone(active: seq<string>, deactive: seq<string>, marked: bool)
    requires marked <==> Unseen(deactive, active) != []
    ensures OffWritten(active, deactive, marked) + [")"] == GroupParts(active, deactive)
  {
  }

  /** An inline modifier is its own trimmed value. */
  lemma ModifierTrimmed(m: string)
    requires m in VALID_INLINE_MODIFIERS
    ensures Trim(m) == m
  {
    ModifierShape(m);
    assert !IsTrimChar(m[0]);
    TrimUnpadded(m);
  }

  lemma OffParts(m: string)
    ensures GroupParts([], [m]) == ["(?", "-", m, ")"]
  {
    UnseenSnoc([], m, []);
    assert [] + [m] == [m];
    assert GroupOff([], [m]) == [m];
  }

  lemma OnOffParts(m: string, n: string)
    requires m != n
    ensures GroupParts([m], [n]) == ["(?", m, "-", n, ")"]
  {
    UnseenSnoc([], m, []);
    UnseenSnoc([], n, [m]);
    assert [] + [m] == [m] && [] + [n] == [n];
    assert GroupOn([m]) == [m];
    assert GroupOff([m], [n]) == [n];
  }

  lemma SameOnOffParts(m: string)
    ensures GroupParts([m], [m]) == ["(?", m, ")"]
  {
    UnseenSnoc([], m, []);
    UnseenSnoc([], m, [m]);
    assert [] + [m] == [m];
    assert GroupOn([m]) == [m];
    assert GroupOff([m], [m]) == [];
  }

  /** Only a deactive modifier: the group is "(?-" and the modifier, as in the second sample. */
  lemma DeactiveOnlySample(pattern: string, m: string)
    requires m in VALID_INLINE_MODIFIERS
    ensures InsertModifiers(pattern, [], [m]) == Ok(pattern + "(?-" + m + ")")
  {
    ModifierTrimmed(m);
    assert TrimAll([m]) == [m] && TrimAll([]) == [];
    OffParts(m);
    InsertModifiersOutcome(pattern, [], [m]);
    ImplodeFour("(?", "-", m, ")");
    assert pattern + ("(?" + "-" + m + ")") == pattern + "(?-" + m + ")";
  }

  /** One active and one other deactive modifier: "(?", the active one, '-', the deactive one, ")". */
  lemma OnOffSample(pattern: string, m: string, n: string)
    requires m in VALID_INLINE_MODIFIERS && n in VALID_INLINE_MODIFIERS && m != n
    ensures InsertModifiers(pattern, [m], [n]) == Ok(pattern + "(?" + m + "-" + n + ")")
  {
    ModifierTrimmed(m);
    ModifierTrimmed(n);
    assert TrimAll([m]) == [m] && TrimAll([n]) == [n];
    OnOffParts(m, n);
    InsertModifiersOutcome(pattern, [m], [n]);
    assert ["(?", m, "-", n, ")"] == ["(?"] + [m, "-", n, ")"];
    ImplodeAppend(["(?"], [m, "-", n, ")"]);
    ImplodeFour(m, "-", n, ")");
    assert pattern + ("(?" + (m + "-" + n + ")")) == pattern + "(?" + m + "-" + n + ")";
  }

  /** A deactive modifier that is also active is not written again, and then no '-' either. */
  lemma OnAndOffSample(pattern: string, m: string)
    requires m in VALID_INLINE_MODIFIERS
    ensures InsertModifiers(pattern, [m], [m]) == Ok(pattern + "(?" + m + ")")
  {
    ModifierTrimmed(m);
    assert TrimAll([m]) == [m];
    SameOnOffParts(m);
    InsertModifiersOutcome(pattern, [m], [m]);
    ImplodeThree("(?", m, ")");
    assert pattern + ("(?" + m + ")") == pattern + "(?" + m + ")";
  }
}
