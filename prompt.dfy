/**
 * The two prompts the configuration editor is built from: choosing one of a list of
 * options, and a yes/no decision.
 *
 * The user's answers are a sequence of lines, consumed from the front; running out of
 * lines is Python's `EOFError`.  The editor exists in two versions whose choice prompts
 * differ in one detail: the older one feeds the default back through the case-insensitive
 * matching and re-asks when that yields an empty option, the newer one returns the
 * default as it is.
 */
module Prompt {
  import opened Wrappers
  import opened Text

  datatype Style = Normalising | DefaultVerbatim

  /** The exceptions a prompt can raise: three argument errors (`ValueError` in the older editor,
      `InputValidationError` in the newer one), and `EOFError` when the input runs out. */
  datatype Failure = EmptyOptions | MissingDescription | DefaultNotInOptions | EndOfInput

  /** A prompt's result together with the answers not yet read, or the exception it raised. */
  datatype Reply<T> = Answer(value: T, rest: seq<string>) | Raise(failure: Failure)

  /** The first option that equals `text` ignoring case. */
  function FirstIgnoringCase(options: seq<string>, text: string): (r: Option<nat>)
    ensures r.Some? ==> r.value < |options|
  {
    if options == [] then None
    else if Lower(options[0]) == Lower(text) then Some(0)
    else match FirstIgnoringCase(options[1..], text)
      case None => None
      case Some(i) => Some(i + 1)
  }

  /** The search finds the first option equal to `text` ignoring case, and fails only when there is none. */
  lemma {:induction false} FirstIgnoringCaseSpec(options: seq<string>, text: string)
    ensures var r := FirstIgnoringCase(options, text);
      (r.Some? ==> Lower(options[r.value]) == Lower(text) && forall j :: 0 <= j < r.value ==> Lower(options[j]) != Lower(text)) &&
      (r.None? <==> forall j :: 0 <= j < |options| ==> Lower(options[j]) != Lower(text))
    decreases |options|
  {
    if options != [] && Lower(options[0]) != Lower(text) {
      FirstIgnoringCaseSpec(options[1..], text);
      assert forall j :: 1 <= j < |options| ==> options[j] == options[1..][j - 1];
    }
  }

  /** An option that matches, with no match before it, is the one found. */
  lemma FirstIgnoringCaseAt(options: seq<string>, text: string, k: nat)
    requires k < |options| && Lower(options[k]) == Lower(text)
    requires forall j :: 0 <= j < k ==> Lower(options[j]) != Lower(text)
    ensures FirstIgnoringCase(options, text) == Some(k)
  {
    FirstIgnoringCaseSpec(options, text);
  }

  /** What one answer line yields: the chosen option, or `None` when the prompt asks again. */
  function Round(style: Style, options: seq<string>, default: string, line: string): (r: Option<string>)
    ensures default in options && r.Some? ==> r.value in options
  {
    if style.Normalising? then NormalisingRound(options, default, Strip(line))
    else VerbatimRound(options, default, Strip(line))
  }

  /** The older editor: a blank answer stands for the default, which is then matched like a typed one. */
  function NormalisingRound(options: seq<string>, default: string, text: string): (r: Option<string>)
    ensures r.Some? ==> r.value in options && r.value != ""
  {
    var found := FirstIgnoringCase(options, if text == "" then default else text);
    if found.Some? && options[found.value] != "" then Some(options[found.value]) else None
  }

  /** The newer editor: a blank answer returns the default as it is. */
  function VerbatimRound(options: seq<string>, default: string, text: string): (r: Option<string>)
    ensures r.Some? ==> r.value in options || (text == "" && r.value == default)
  {
    if text == "" then Some(default)
    else
      var found := FirstIgnoringCase(options, text);
      if found.Some? then Some(options[found.value]) else None
  }

  /** The acceptance rule of one prompt, as a function of the answer line. */
  function Asker(style: Style, options: seq<string>, default: string): string -> Option<string> {
    line => Round(style, options, default, line)
  }

  /** The question asked again and again until `round` accepts a line or the input runs out. */
  function Await(round: string -> Option<string>, input: seq<string>): (r: Reply<string>)
    ensures r.Answer? ==> |r.rest| < |input| && r.rest == input[|input| - |r.rest|..]
    ensures r.Raise? ==> r.failure == EndOfInput
    decreases |input|
  {
    if input == [] then Raise(EndOfInput)
    else match round(input[0])
      case Some(c) => Answer(c, input[1..])
      case None => Await(round, input[1..])
  }

  /** `input_choice(description, options, default)`: the argument checks, then the question. */
  function Choose(style: Style, description: string, options: seq<string>, default: string, input: seq<string>): (r: Reply<string>)
    ensures options == [] ==> r == Raise(EmptyOptions)
    ensures r.Answer? ==> options != [] && description != "" && default in options && |r.rest| < |input|
  {
    if options == [] then Raise(EmptyOptions)
    else if description == "" then Raise(MissingDescription)
    else if default !in options then Raise(DefaultNotInOptions)
    else Await(Asker(style, options, default), input)
  }

  /** The scan for the first option equal to the answer ignoring case. */
  method FindIgnoringCase(options: seq<string>, text: string) returns (found: Option<nat>)
    ensures found == FirstIgnoringCase(options, text)
  {
    FirstIgnoringCaseSpec(options, text);
    var k := 0;
    while k < |options|
      invariant 0 <= k <= |options|
      invariant forall j :: 0 <= j < k ==> Lower(options[j]) != Lower(text)
    {
      if Lower(options[k]) == Lower(text) {
        return Some(k);
      }
      k := k + 1;
    }
    return None;
  }

  /** `input_choice` as the program runs it: a loop that reads one line per round. */
  method InputChoice(style: Style, description: string, options: seq<string>, default: string, input: seq<string>)
    returns (r: Reply<string>)
    ensures r == Choose(style, description, options, default, input)
  {
    if options == [] {
      return Raise(EmptyOptions);
    }
    if description == "" {
      return Raise(MissingDescription);
    }
    if default !in options {
      return Raise(DefaultNotInOptions);
    }
    var remaining := input;
    while true
      invariant Await(Asker(style, options, default), input) == Await(Asker(style, options, default), remaining)
      decreases |remaining|
    {
      if remaining == [] {
        return Raise(EndOfInput);
      }
      var text := Strip(remaining[0]);
      remaining := remaining[1..];
      if text == "" && style.DefaultVerbatim? {
        return Answer(default, remaining);
      }
      var wanted := if text == "" then default else text;
      var found := FindIgnoringCase(options, wanted);
      if found.Some? && (style.DefaultVerbatim? || options[found.value] != "") {
        return Answer(options[found.value], remaining);
      }
    }
  }

  // ----- properties of the asking loop, for any acceptance rule -----

  /** The answer comes from the first line accepted; every line before it was rejected. */
  lemma {:induction false} FirstAcceptedAnswers(round: string -> Option<string>, input: seq<string>)
    ensures var r := Await(round, input);
      r.Answer? ==> var k := |input| - |r.rest| - 1;
        round(input[k]) == Some(r.value) && (forall j :: 0 <= j < k ==> round(input[j]).None?)
    decreases |input|
  {
    if input != [] && round(input[0]).None? {
      FirstAcceptedAnswers(round, input[1..]);
      var r := Await(round, input[1..]);
      if r.Answer? {
        var k := |input[1..]| - |r.rest| - 1;
        assert input[k + 1] == input[1..][k];
        assert forall j :: 1 <= j < k + 1 ==> input[j] == input[1..][j - 1];
      }
    }
  }

  /** The loop gives up exactly when every line is rejected. */
  lemma {:induction false} EndOfInputIffAllRejected(round: string -> Option<string>, input: seq<string>)
    ensures Await(round, input).Raise? <==> forall j :: 0 <= j < |input| ==> round(input[j]).None?
    decreases |input|
  {
    if input != [] {
      EndOfInputIffAllRejected(round, input[1..]);
      assert forall j :: 1 <= j < |input| ==> input[j] == input[1..][j - 1];
    }
  }

  /** Two rules that judge every line of the input alike ask alike. */
  lemma {:induction false} AwaitAgrees(r1: string -> Option<string>, r2: string -> Option<string>, input: seq<string>)
    requires forall j :: 0 <= j < |input| ==> r1(input[j]) == r2(input[j])
    ensures Await(r1, input) == Await(r2, input)
    decreases |input|
  {
    if input != [] {
      assert r1(input[0]) == r2(input[0]);
      assert forall j :: 0 <= j < |input| - 1 ==> input[1..][j] == input[j + 1];
      AwaitAgrees(r1, r2, input[1..]);
    }
  }

  // ----- properties of the choice prompt -----

  /** The answer is one of the options, and at least one line was read. */
  lemma ChosenIsAnOption(style: Style, description: string, options: seq<string>, default: string, input: seq<string>)
    ensures var r := Choose(style, description, options, default, input);
      r.Answer? ==> r.value in options && |r.rest| < |input| && r.rest == input[|input| - |r.rest|..]
  {
    if options != [] && description != "" && default in options {
      assert Choose(style, description, options, default, input) == Await(Asker(style, options, default), input);
      AwaitInOptions(style, options, default, input);
    }
  }

  lemma {:induction false} AwaitInOptions(style: Style, options: seq<string>, default: string, input: seq<string>)
    requires default in options
    ensures var r := Await(Asker(style, options, default), input); r.Answer? ==> r.value in options
    decreases |input|
  {
    if input != [] {
      var round := Asker(style, options, default);
      assert round(input[0]) == Round(style, options, default, input[0]);
      if round(input[0]).None? {
        AwaitInOptions(style, options, default, input[1..]);
      }
    }
  }

  /** A typed line that matches an option is answered with the first matching option, in both versions. */
  lemma TypedAnswerTakesOption(style: Style, description: string, options: seq<string>, default: string,
                               line: string, rest: seq<string>, k: nat)
    requires options != [] && description != "" && default in options
    requires Strip(line) != "" && FirstIgnoringCase(options, Strip(line)) == Some(k) && options[k] != ""
    ensures Choose(style, description, options, default, [line] + rest) == Answer(options[k], rest)
  {
    assert ([line] + rest)[0] == line && ([line] + rest)[1..] == rest;
  }

  /** No two options are equal ignoring case, and none is empty. */
  predicate DistinctOptions(options: seq<string>) {
    (forall i :: 0 <= i < |options| ==> options[i] != "") &&
    forall i, j :: 0 <= i < j < |options| ==> Lower(options[i]) != Lower(options[j])
  }

  /** A blank line selects the default, in both versions, when the options are distinct. */
  lemma BlankAnswerSelectsDefault(style: Style, options: seq<string>, default: string, line: string)
    requires default in options && DistinctOptions(options)
    requires Strip(line) == ""
    ensures Round(style, options, default, line) == Some(default)
  {
    if style.Normalising? {
      FirstIgnoringCaseSpec(options, default);
      var i :| 0 <= i < |options| && options[i] == default;
      assert FirstIgnoringCase(options, default) == Some(i);
    }
  }

  /** The two versions agree on every line that is not blank. */
  lemma StylesAgreeOnNonBlankAnswer(options: seq<string>, default: string, line: string)
    requires default in options && Strip(line) != ""
    ensures Round(Normalising, options, default, line) == Round(DefaultVerbatim, options, default, line)
  {
    var text := Strip(line);
    FirstIgnoringCaseSpec(options, text);
    match FirstIgnoringCase(options, text)
    case None =>
    case Some(i) =>
      assert |options[i]| == |Lower(options[i])| == |Lower(text)| == |text|;
  }

  /** With distinct options the two versions of the prompt cannot be told apart. */
  lemma StylesAgree(description: string, options: seq<string>, default: string, input: seq<string>)
    requires DistinctOptions(options)
    ensures Choose(Normalising, description, options, default, input) == Choose(DefaultVerbatim, description, options, default, input)
  {
    if options != [] && description != "" && default in options {
      forall j | 0 <= j < |input|
        ensures Asker(Normalising, options, default)(input[j]) == Asker(DefaultVerbatim, options, default)(input[j])
      {
        if Strip(input[j]) == "" {
          BlankAnswerSelectsDefault(Normalising, options, default, input[j]);
          BlankAnswerSelectsDefault(DefaultVerbatim, options, default, input[j]);
        } else {
          StylesAgreeOnNonBlankAnswer(options, default, input[j]);
        }
      }
      AwaitAgrees(Asker(Normalising, options, default), Asker(DefaultVerbatim, options, default), input);
    }
  }

  /** The test suite's cases: a typed option is taken, a blank line takes the default. */
  lemma ChoiceExamples(style: Style)
    ensures Choose(style, "Choose", ["option1", "option2"], "option2", ["option1"]) == Answer("option1", [])
    ensures Choose(style, "Choose", ["option1", "option2"], "option2", [""]) == Answer("option2", [])
  {
    assert Strip("option1") == "option1";
    assert Strip("") == "";
    assert Lower("option1") != Lower("option2") by {
      assert Lower("option1")[6] != Lower("option2")[6];
    }
    assert FirstIgnoringCase(["option1", "option2"], "option1") == Some(0);
    assert FirstIgnoringCase(["option1", "option2"], "option2") == Some(1);
  }

  /** The argument checks, in the order the prompt makes them. */
  lemma ChoiceArgumentErrors(style: Style, input: seq<string>)
    ensures Choose(style, "Choose", [], "x", input) == Raise(EmptyOptions)
    ensures Choose(style, "", [], "x", input) == Raise(EmptyOptions)
    ensures Choose(style, "", ["x"], "x", input) == Raise(MissingDescription)
    ensures Choose(style, "", ["x"], "y", input) == Raise(MissingDescription)
    ensures Choose(style, "Choose", ["x"], "y", input) == Raise(DefaultNotInOptions)
  {
  }

  // ----- the yes/no decision -----

  const YesNo: seq<string> := ["yes", "y", "no", "n"]

  /** `bool_decision(description, default)`: a choice among yes, y, no and n; true for the first two. */
  function BoolDecision(style: Style, description: string, default: bool, input: seq<string>): (r: Reply<bool>)
    ensures r.Answer? ==> |r.rest| < |input|
  {
    match Choose(style, description, YesNo, if default then "yes" else "no", input)
    case Answer(c, rest) => Answer(StartsWith(c, "y"), rest)
    case Raise(f) => Raise(f)
  }

  /** The decision is true exactly when the accepted answer is "yes" or "y" (any case); checking the first
      letter, as the older editor does, gives the same result. */
  lemma BoolDecisionMeaning(style: Style, description: string, default: bool, input: seq<string>)
    requires description != ""
    ensures var c := Choose(style, description, YesNo, if default then "yes" else "no", input);
      var r := BoolDecision(style, description, default, input);
      r.Answer? == c.Answer? && (c.Answer? ==>
        r.rest == c.rest && (r.value <==> c.value in ["yes", "y"]) && (r.value <==> |c.value| > 0 && c.value[0] == 'y'))
    ensures BoolDecision(style, description, default, input).Raise? ==>
      BoolDecision(style, description, default, input).failure == EndOfInput
  {
    ChosenIsAnOption(style, description, YesNo, if default then "yes" else "no", input);
  }

  lemma YesNoDistinct()
    ensures DistinctOptions(YesNo)
  {
    assert Lower("yes") == "yes" && Lower("y") == "y" && Lower("no") == "no" && Lower("n") == "n";
  }

  /** A blank line keeps the default decision; both editors decide alike. */
  lemma BoolDecisionBlankKeepsDefault(style: Style, description: string, default: bool, line: string, rest: seq<string>)
    requires description != "" && Strip(line) == ""
    ensures BoolDecision(style, description, default, [line] + rest) == Answer(default, rest)
    ensures BoolDecision(Normalising, description, default, [line] + rest) == BoolDecision(DefaultVerbatim, description, default, [line] + rest)
  {
    YesNoDistinct();
    var d := if default then "yes" else "no";
    BlankAnswerSelectsDefault(style, YesNo, d, line);
    StylesAgree(description, YesNo, d, [line] + rest);
    assert ([line] + rest)[1..] == rest;
  }

  /** The test suite's cases for a typed answer: "y" against a default of no, "n" against a default of yes. */
  lemma BoolDecisionTypedExamples(style: Style)
    ensures BoolDecision(style, "Continue?", false, ["y"]) == Answer(true, [])
    ensures BoolDecision(style, "Continue?", true, ["n"]) == Answer(false, [])
  {
    assert Strip("y") == "y" && Strip("n") == "n";
    assert |Lower("yes")| == 3 && |Lower("no")| == 2 && |Lower("y")| == 1;
    assert Lower("y") == "y" && Lower("n") == "n";
    assert FirstIgnoringCase(YesNo, "y") == Some(1);
    assert FirstIgnoringCase(YesNo, "n") == Some(3);
  }

  /** The test suite's cases for a blank answer: the default decides. */
  lemma BoolDecisionBlankExamples(style: Style)
    ensures BoolDecision(style, "Continue?", true, [""]) == Answer(true, [])
    ensures BoolDecision(style, "Continue?", false, [""]) == Answer(false, [])
  {
    assert Strip("") == "";
    BoolDecisionBlankKeepsDefault(style, "Continue?", true, "", []);
    BoolDecisionBlankKeepsDefault(style, "Continue?", false, "", []);
  }
}
