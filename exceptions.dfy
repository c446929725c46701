/**
  The messages of the builder's exceptions (Exceptions/RegentException.php):
  one static factory per error kind, and the rendering of an allow-list.
 */
module RegentException {
  import opened Php
  import opened Vocabulary

  /** Each value wrapped in single quotes. */
  function QuoteEach(list: seq<string>): seq<string>
  {
    seq(|list|, i requires 0 <= i < |list| => "'" + list[i] + "'")
  }

  /** getValidListAsString: the quoted values joined by ", ", in list order. */
  function ValidListAsString(list: seq<string>): string
  {
    Implode(", ", QuoteEach(list))
  }

  /** The template shared by the three invalid-value messages. */
  function InvalidValueMessage(noun: string, list: seq<string>, passedValue: string): string
  {
    "The " + noun + " must be in the list: " + ValidListAsString(list) + ". Passed value is: '" + passedValue + "'."
  }

  function InvalidDelimiterMessage(passedValue: string): string
  {
    InvalidValueMessage("delimiter", VALID_DELIMITERS, passedValue)
  }

  function InvalidModifierMessage(passedValue: string): string
  {
    InvalidValueMessage("modifier", VALID_INLINE_MODIFIERS, passedValue)
  }

  function InvalidFlagMessage(passedValue: string): string
  {
    InvalidValueMessage("flag", VALID_FLAGS, passedValue)
  }

  const NOT_PASSED_MODIFIERS: string := "No modifiers passed."
  const NOT_PASSED_FLAGS: string := "No flags passed."

  /** The message of the exception the builder throws for each error. */
  function Message(e: Error): string
  {
    match e
    case InvalidDelimiter(v) => InvalidDelimiterMessage(v)
    case InvalidModifier(v) => InvalidModifierMessage(v)
    case InvalidFlag(v) => InvalidFlagMessage(v)
    case NoModifiersProvided => NOT_PASSED_MODIFIERS
    case NoFlagsProvided => NOT_PASSED_FLAGS
  }

  /** One more value extends the list text by a comma, a space and the quoted value. */
  lemma ValidListAppend(list: seq<string>, x: string)
    ensures ValidListAsString(list + [x]) ==
      if list == [] then "'" + x + "'" else ValidListAsString(list) + ", '" + x + "'"
  {
    var q := QuoteEach(list + [x]);
    assert q == QuoteEach(list) + ["'" + x + "'"];
    ImplodeSnoc(", ", QuoteEach(list), "'" + x + "'");
  }

  /** Imploding one more piece. */
  lemma {:induction false} ImplodeSnoc(glue: string, pieces: seq<string>, x: string)
    ensures Implode(glue, pieces + [x]) == if pieces == [] then x else Implode(glue, pieces) + glue + x
    decreases |pieces|
  {
    if |pieces| == 1 {
      assert pieces + [x] == [pieces[0], x];
      assert [pieces[0], x][1..] == [x];
    } else if |pieces| > 1 {
      assert (pieces + [x])[1..] == pieces[1..] + [x];
      ImplodeSnoc(glue, pieces[1..], x);
    }
  }

  /**
    Every invalid-value message is a fixed prefix for its kind, then the
    passed value, then "'."; the value can be read back from the message.
   */
  lemma PassedValueReadBack(noun: string, list: seq<string>, passedValue: string)
    ensures var m := InvalidValueMessage(noun, list, passedValue);
      var prefix := "The " + noun + " must be in the list: " + ValidListAsString(list) + ". Passed value is: '";
      m == prefix + passedValue + "'." && m[|prefix|..|m| - 2] == passedValue
  {
    var prefix := "The " + noun + " must be in the list: " + ValidListAsString(list) + ". Passed value is: '";
    var m := InvalidValueMessage(noun, list, passedValue);
    assert m == prefix + passedValue + "'.";
    assert m[|prefix|..|m| - 2] == passedValue;
  }

  /** The first and fifth characters of a message tell its kind apart. */
  function Mark(e: Error): (char, char)
  {
    match e
    case InvalidDelimiter(_) => ('T', 'd')
    case InvalidModifier(_) => ('T', 'm')
    case InvalidFlag(_) => ('T', 'f')
    case NoModifiersProvided => ('N', 'o')
    case NoFlagsProvided => ('N', 'l')
  }

  lemma InvalidValueMarks(noun: string, list: seq<string>, passedValue: string)
    requires noun != []
    ensures var m := InvalidValueMessage(noun, list, passedValue);
      |m| > 4 && m[0] == 'T' && m[4] == noun[0]
  {
    var m := InvalidValueMessage(noun, list, passedValue);
    var head := "The " + noun;
    assert m == head + (" must be in the list: " + ValidListAsString(list) + ". Passed value is: '" + passedValue + "'.");
    assert m[0] == head[0] && m[4] == head[4];
  }

  lemma MessageMarks(e: Error)
    ensures |Message(e)| > 4 && (Message(e)[0], Message(e)[4]) == Mark(e)
  {
    match e
    case InvalidDelimiter(v) => InvalidValueMarks("delimiter", VALID_DELIMITERS, v);
    case InvalidModifier(v) => InvalidValueMarks("modifier", VALID_INLINE_MODIFIERS, v);
    case InvalidFlag(v) => InvalidValueMarks("flag", VALID_FLAGS, v);
    case NoModifiersProvided =>
    case NoFlagsProvided =>
  }

  /** Different errors never share a message. */
  lemma MessageInjective(e1: Error, e2: Error)
    requires Message(e1) == Message(e2)
    ensures e1 == e2
  {
    MessageMarks(e1);
    MessageMarks(e2);
    match e1
    case InvalidDelimiter(v) =>
      PassedValueReadBack("delimiter", VALID_DELIMITERS, v);
      PassedValueReadBack("delimiter", VALID_DELIMITERS, e2.value);
    case InvalidModifier(v) =>
      PassedValueReadBack("modifier", VALID_INLINE_MODIFIERS, v);
      PassedValueReadBack("modifier", VALID_INLINE_MODIFIERS, e2.value);
    case InvalidFlag(v) =>
      PassedValueReadBack("flag", VALID_FLAGS, v);
      PassedValueReadBack("flag", VALID_FLAGS, e2.value);
    case NoModifiersProvided =>
    case NoFlagsProvided =>
  }
}
