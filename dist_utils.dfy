/** The prompt helpers of the compiled snapshot and of the legacy entry point:
    `question` and `questionUntil` there recurse instead of looping, and
    `questionNumber` checks its default and insists on a digit after a dot.
    Each is related to the selection rule of the current helpers. */
module DistUtils {
  import opened Results
  import opened Utils

  /** The two `remove` prompts part on "yes": `questionBoolean` refuses it
      and asks again, while the older `remove` takes it and cancels, since it
      does not lowercase to "y". */
  lemma RemovePromptDiffers()
    ensures FirstAccepted(["yes"], BooleanDefault(None), IsYesNo, 0) == RanOut
    ensures QuestionRec(["yes"], 0, None) == Asked("yes", 1) && !IsYes("yes")
  {
  }

  /** The recursive `question(queryStr, defaultValue)`: without a default an
      empty answer asks again; with one, an empty answer yields the default at
      once. */
  function QuestionRec(answers: seq<string>, from: nat, defaultValue: Option<string>): (r: Asked<string>)
    ensures r.Asked? ==> from < r.used <= |answers|
    ensures r.Asked? && defaultValue.None? ==> r.value != ""
    decreases |answers| - from
  {
    if from >= |answers| then RanOut
    else if answers[from] == "" then
      if defaultValue.None? then QuestionRec(answers, from + 1, None) else Asked(defaultValue.value, from + 1)
    else Asked(answers[from], from + 1)
  }

  /** Unless the default is the empty string, the recursive `question` selects
      what the looping one does. */
  lemma {:induction false} QuestionRecAgrees(answers: seq<string>, from: nat, defaultValue: Option<string>)
    requires defaultValue != Some("")
    ensures QuestionRec(answers, from, defaultValue) == FirstAccepted(answers, defaultValue, NonEmpty, from)
    decreases |answers| - from
  {
    if from < |answers| && answers[from] == "" && defaultValue.None? {
      QuestionRecAgrees(answers, from + 1, defaultValue);
    }
  }

  /** With the empty string as default the versions part: the recursive one
      returns "" for an empty answer, the looping one never returns "". */
  lemma QuestionRecEmptyDefault(answers: seq<string>, from: nat)
    requires from < |answers| && answers[from] == ""
    ensures QuestionRec(answers, from, Some("")) == Asked("", from + 1)
    ensures FirstAccepted(answers, Some(""), NonEmpty, from) != Asked("", from + 1)
  {
    FirstAcceptedSpec(answers, Some(""), NonEmpty, from);
  }

  /** The recursive `questionUntil(queryStr, f)`. */
  function QuestionUntilRec(answers: seq<string>, from: nat, f: string -> bool): (r: Asked<string>)
    ensures r.Asked? ==> f(r.value) && r.value != "" && from < r.used <= |answers|
    decreases |answers| - from
  {
    match QuestionRec(answers, from, None)
    case RanOut => RanOut
    case Asked(v, u) => if f(v) then Asked(v, u) else QuestionUntilRec(answers, u, f)
  }

  /** ... and it selects what the looping `questionUntil` does. */
  lemma {:induction false} QuestionUntilAgrees(answers: seq<string>, from: nat, f: string -> bool)
    ensures QuestionUntilRec(answers, from, f) == FirstAccepted(answers, None, UntilAccepts(f), from)
    decreases |answers| - from
  {
    QuestionRecAgrees(answers, from, None);
    FirstAcceptedRefine(answers, None, NonEmpty, UntilAccepts(f), from);
    match QuestionRec(answers, from, None)
    case RanOut =>
    case Asked(v, u) =>
      if !f(v) {
        QuestionUntilAgrees(answers, u, f);
      }
  }

  /** The text of a JavaScript number: never empty. */
  type NumberText = s: string | s != "" witness "0"

  /** The default handed to `questionNumber`: absent, a number (as the text
      `${defaultValue}` renders), or anything else. */
  datatype DefaultArg = Absent | Number(text: NumberText) | NotNumber

  function DefaultText(d: DefaultArg): Option<string> {
    if d.Number? then Some(d.text) else None
  }

  /** The stricter pattern `^[+-]?\d+(\.\d+)?$`. */
  predicate IsStrictNumberText(s: string) {
    NumberSyntax(s, true)
  }

  /** `questionNumber(queryStr, defaultValue)` of the older versions: a default
      that is not a number fails the `assert`; otherwise ask with the
      recursive `question` until the answer matches the stricter pattern. */
  method QuestionNumberStrict(answers: seq<string>, from: nat, defaultValue: DefaultArg) returns (r: Result<Asked<string>>)
    ensures defaultValue.NotNumber? ==> r == Err(NotANumber)
    ensures !defaultValue.NotNumber? ==> r == Ok(FirstAccepted(answers, DefaultText(defaultValue), IsStrictNumberText, from))
  {
    if defaultValue.NotNumber? {
      return Err(NotANumber);
    }
    var defaultStr := DefaultText(defaultValue);
    var input := "";
    var pos := from;
    while !IsStrictNumberText(input)
      invariant pos == from || from < pos <= |answers|
      invariant FirstAccepted(answers, defaultStr, IsStrictNumberText, from) ==
        if IsStrictNumberText(input) then Asked(input, pos) else FirstAccepted(answers, defaultStr, IsStrictNumberText, pos)
      decreases if pos <= |answers| then |answers| - pos + 1 else 0
    {
      forall s ensures IsStrictNumberText(s) ==> NonEmpty(s) {
        NumberSyntaxNonEmpty(s, true);
      }
      FirstAcceptedRefine(answers, defaultStr, NonEmpty, IsStrictNumberText, pos);
      QuestionRecAgrees(answers, pos, defaultStr);
      var q := QuestionRec(answers, pos, defaultStr);
      if q.RanOut? {
        return Ok(RanOut);
      }
      input, pos := q.value, q.used;
    }
    return Ok(Asked(input, pos));
  }

  /** An answer of "1." settles the current `questionNumber` and is refused by
      the older one, which asks again. */
  lemma TrailingDotDiffers(answers: seq<string>, from: nat)
    requires from < |answers| && answers[from] == "1."
    ensures FirstAccepted(answers, None, IsNumberText, from) == Asked("1.", from + 1)
    ensures FirstAccepted(answers, None, IsStrictNumberText, from) == FirstAccepted(answers, None, IsStrictNumberText, from + 1)
  {
    NumberSyntaxAccepts();
    NumberSyntaxRefuses();
  }
}
