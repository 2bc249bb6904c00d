/** The prompt helpers and small utilities of `src/utils.ts`. The terminal is a
    script of raw answers: each prompt consumes the next one, and reaching the
    end of the script stands for standard input closing (the promise then never
    settles). */
module Utils {
  import opened Results

  /** The answer accepted, and the script position after it; or the script ran
      out first. */
  datatype Asked<T> = Asked(value: T, used: nat) | RanOut

  /** An empty answer is replaced by the default, when there is one. */
  function Effective(answer: string, defaultValue: Option<string>): string {
    if answer == "" && defaultValue.Some? then defaultValue.value else answer
  }

  predicate NonEmpty(s: string) {
    s != ""
  }

  /** The first script position from `from` on whose effective answer `accept`
      takes: the selection rule every prompt helper follows. */
  function FirstAccepted(answers: seq<string>, defaultValue: Option<string>, accept: string -> bool, from: nat): Asked<string>
    decreases |answers| - from
  {
    if from >= |answers| then RanOut
    else
      var a := Effective(answers[from], defaultValue);
      if accept(a) then Asked(a, from + 1)
      else FirstAccepted(answers, defaultValue, accept, from + 1)
  }

  /** The rule, stated outright: the accepted answer is the effective answer at
      position `used - 1`, and every earlier one was refused; running out means
      all were refused. */
  lemma {:induction false} FirstAcceptedSpec(answers: seq<string>, defaultValue: Option<string>, accept: string -> bool, from: nat)
    ensures match FirstAccepted(answers, defaultValue, accept, from)
      case Asked(v, u) =>
        from < u <= |answers| && v == Effective(answers[u - 1], defaultValue) && accept(v)
        && forall j :: from <= j < u - 1 ==> !accept(Effective(answers[j], defaultValue))
      case RanOut =>
        forall j :: from <= j < |answers| ==> !accept(Effective(answers[j], defaultValue))
    decreases |answers| - from
  {
    if from < |answers| && !accept(Effective(answers[from], defaultValue)) {
      FirstAcceptedSpec(answers, defaultValue, accept, from + 1);
    }
  }

  /** Selecting with a stricter test is selecting with the looser one and, on
      refusal, starting again after it: how a helper built on `question`
      behaves. */
  lemma {:induction false} FirstAcceptedRefine(answers: seq<string>, defaultValue: Option<string>,
                                               loose: string -> bool, strict: string -> bool, from: nat)
    requires forall s :: strict(s) ==> loose(s)
    ensures FirstAccepted(answers, defaultValue, strict, from) ==
      match FirstAccepted(answers, defaultValue, loose, from)
      case RanOut => RanOut
      case Asked(v, u) =>
        if strict(v) then Asked(v, u) else FirstAccepted(answers, defaultValue, strict, u)
    decreases |answers| - from
  {
    if from < |answers| && !loose(Effective(answers[from], defaultValue)) {
      FirstAcceptedRefine(answers, defaultValue, loose, strict, from + 1);
    }
  }

  /** `question(queryStr, defaultValue)`, reading the script from `from`. */
  method Question(answers: seq<string>, from: nat, defaultValue: Option<string>) returns (r: Asked<string>)
    ensures r == FirstAccepted(answers, defaultValue, NonEmpty, from)
  {
    if from >= |answers| {
      return RanOut;
    }
    var inputStr := answers[from];
    var pos := from + 1;
    if inputStr == "" && defaultValue.Some? {
      inputStr := defaultValue.value;
    }
    while inputStr == ""
      invariant from < pos <= |answers|
      invariant inputStr == Effective(answers[pos - 1], defaultValue)
      invariant FirstAccepted(answers, defaultValue, NonEmpty, from) == FirstAccepted(answers, defaultValue, NonEmpty, pos - 1)
      decreases |answers| - pos
    {
      if pos >= |answers| {
        return RanOut;
      }
      inputStr := answers[pos];
      pos := pos + 1;
      if inputStr == "" && defaultValue.Some? {
        inputStr := defaultValue.value;
      }
    }
    return Asked(inputStr, pos);
  }

  /** The test `questionUntil` applies to what `question` returns. */
  function UntilAccepts(f: string -> bool): string -> bool {
    s => s != "" && f(s)
  }

  /** `questionUntil(queryStr, f)`: ask again until `f` holds. */
  method QuestionUntil(answers: seq<string>, from: nat, f: string -> bool) returns (r: Asked<string>)
    ensures r == FirstAccepted(answers, None, UntilAccepts(f), from)
  {
    FirstAcceptedRefine(answers, None, NonEmpty, UntilAccepts(f), from);
    FirstAcceptedSpec(answers, None, NonEmpty, from);
    r := Question(answers, from, None);
    while r.Asked? && !f(r.value)
      invariant r.Asked? ==> from < r.used <= |answers| && r.value != ""
      invariant FirstAccepted(answers, None, UntilAccepts(f), from) ==
        match r
        case RanOut => RanOut
        case Asked(v, u) => if f(v) then r else FirstAccepted(answers, None, UntilAccepts(f), u)
      decreases if r.Asked? then |answers| - r.used + 1 else 0
    {
      FirstAcceptedRefine(answers, None, NonEmpty, UntilAccepts(f), r.used);
      FirstAcceptedSpec(answers, None, NonEmpty, r.used);
      r := Question(answers, r.used, None);
    }
  }

  // ---- number syntax ----

  /** `\d`: an ASCII digit. */
  predicate IsDigit(c: char) {
    '0' <= c <= '9'
  }

  predicate AllDigits(s: string) {
    forall i :: 0 <= i < |s| ==> IsDigit(s[i])
  }

  /** `s` without its optional leading sign. */
  function Unsigned(s: string): string {
    if |s| > 0 && (s[0] == '+' || s[0] == '-') then s[1..] else s
  }

  /** `^[+-]?\d+(\.\d*)?$`; with `strictFraction`, `^[+-]?\d+(\.\d+)?$`: a sign,
      then `k >= 1` digits, then nothing or a dot and digits. */
  predicate NumberSyntax(s: string, strictFraction: bool) {
    var b := Unsigned(s);
    exists k :: 1 <= k <= |b| && AllDigits(b[..k]) &&
      (k == |b| || (b[k] == '.' && AllDigits(b[k + 1..]) && (strictFraction ==> k + 1 < |b|)))
  }

  /** The pattern `questionNumber` uses here. */
  predicate IsNumberText(s: string) {
    NumberSyntax(s, false)
  }

  lemma NumberSyntaxNonEmpty(s: string, strictFraction: bool)
    ensures NumberSyntax(s, strictFraction) ==> s != ""
    ensures NumberSyntax(s, true) ==> NumberSyntax(s, false)
  {
  }

  /** The leading digit run decides: the recogniser reads digits, then at most
      one dot, then digits again. */
  lemma NumberSyntaxShape(s: string, strictFraction: bool)
    ensures NumberSyntax(s, strictFraction) ==>
      var b := Unsigned(s);
      |b| > 0 && IsDigit(b[0]) && b[|b| - 1] != '+' && b[|b| - 1] != '-'
      && (forall i :: 0 <= i < |b| ==> IsDigit(b[i]) || b[i] == '.')
      && (strictFraction ==> b[|b| - 1] != '.')
  {
    if NumberSyntax(s, strictFraction) {
      var b := Unsigned(s);
      var k :| 1 <= k <= |b| && AllDigits(b[..k]) &&
        (k == |b| || (b[k] == '.' && AllDigits(b[k + 1..]) && (strictFraction ==> k + 1 < |b|)));
      assert IsDigit(b[..k][0]);
      forall i | 0 <= i < |b| ensures IsDigit(b[i]) || b[i] == '.' {
        if i < k {
          assert b[i] == b[..k][i];
        } else if i > k {
          assert b[i] == b[k + 1..][i - k - 1];
        }
      }
      if k < |b| - 1 {
        assert b[|b| - 1] == b[k + 1..][|b| - k - 2];
      } else if k == |b| {
        assert b[|b| - 1] == b[..k][k - 1];
      }
    }
  }

  lemma NumberSyntaxWitness(s: string, k: int, strictFraction: bool)
    requires var b := Unsigned(s);
      1 <= k <= |b| && AllDigits(b[..k]) &&
      (k == |b| || (b[k] == '.' && AllDigits(b[k + 1..]) && (strictFraction ==> k + 1 < |b|)))
    ensures NumberSyntax(s, strictFraction)
  {
  }

  /** Inputs the patterns accept: "1." only the looser one. */
  lemma NumberSyntaxAccepts()
    ensures NumberSyntax("12", true) && NumberSyntax("-3.25", true) && NumberSyntax("+7", true)
    ensures NumberSyntax("1.", false)
  {
    assert Unsigned("12") == "12" && "12"[..2] == "12";
    NumberSyntaxWitness("12", 2, true);
    assert Unsigned("-3.25") == "3.25" && "3.25"[..1] == "3" && "3.25"[2..] == "25";
    NumberSyntaxWitness("-3.25", 1, true);
    assert Unsigned("+7") == "7" && "7"[..1] == "7";
    NumberSyntaxWitness("+7", 1, true);
    assert Unsigned("1.") == "1." && "1."[..1] == "1" && "1."[2..] == "";
    NumberSyntaxWitness("1.", 1, false);
  }

  /** Inputs the patterns refuse: a trailing dot under the stricter one, and
      empty text, a leading dot, an exponent, a bare sign and a second dot under
      both. */
  lemma NumberSyntaxRefuses()
    ensures !NumberSyntax("1.", true)
    ensures !NumberSyntax("", false) && !NumberSyntax(".5", false) && !NumberSyntax("1e3", false)
    ensures !NumberSyntax("+", false) && !NumberSyntax("1.2.3", false)
  {
    NumberSyntaxShape("1e3", false);
    assert Unsigned("1e3") == "1e3" && "1e3"[1] == 'e';
    NumberSyntaxShape(".5", false);
    assert Unsigned(".5") == ".5";
    NumberSyntaxShape("+", false);
    assert Unsigned("+") == "";
    NumberSyntaxShape("1.", true);
    assert Unsigned("1.") == "1.";
    NumberSyntaxDots("1.2.3", false);
    assert Unsigned("1.2.3") == "1.2.3" && "1.2.3"[1] == '.' && "1.2.3"[3] == '.';
  }

  /** A recognised number has at most one dot. */
  lemma NumberSyntaxDots(s: string, strictFraction: bool)
    ensures NumberSyntax(s, strictFraction) ==>
      forall i, j :: 0 <= i < j < |Unsigned(s)| ==> Unsigned(s)[i] != '.' || Unsigned(s)[j] != '.'
  {
    if NumberSyntax(s, strictFraction) {
      var b := Unsigned(s);
      var k :| 1 <= k <= |b| && AllDigits(b[..k]) &&
        (k == |b| || (b[k] == '.' && AllDigits(b[k + 1..]) && (strictFraction ==> k + 1 < |b|)));
      forall i, j | 0 <= i < j < |b| ensures b[i] != '.' || b[j] != '.' {
        if i < k {
          assert b[i] == b[..k][i];
        } else {
          assert b[j] == b[k + 1..][j - k - 1];
        }
      }
    }
  }

  /** `questionNumber(queryStr, defaultValue)`: ask until the answer matches the
      pattern; the default arrives already rendered as text. The numeric
      conversion `+input` is not modelled: the accepted text is returned. */
  method QuestionNumber(answers: seq<string>, from: nat, defaultInput: Option<string>) returns (r: Asked<string>)
    ensures r == FirstAccepted(answers, defaultInput, IsNumberText, from)
  {
    var input := "";
    var pos := from;
    while !IsNumberText(input)
      invariant pos == from || from < pos <= |answers|
      invariant FirstAccepted(answers, defaultInput, IsNumberText, from) ==
        if IsNumberText(input) then Asked(input, pos) else FirstAccepted(answers, defaultInput, IsNumberText, pos)
      decreases if pos <= |answers| then |answers| - pos + 1 else 0
    {
      forall s ensures IsNumberText(s) ==> NonEmpty(s) {
        NumberSyntaxNonEmpty(s, false);
      }
      FirstAcceptedRefine(answers, defaultInput, NonEmpty, IsNumberText, pos);
      FirstAcceptedSpec(answers, defaultInput, NonEmpty, pos);
      var q := Question(answers, pos, defaultInput);
      if q.RanOut? {
        return RanOut;
      }
      input, pos := q.value, q.used;
    }
    return Asked(input, pos);
  }

  /** The answers `questionBoolean` accepts. */
  predicate IsYesNo(s: string) {
    s == "Y" || s == "y" || s == "N" || s == "n"
  }

  /** The boolean default shown and used as text. */
  function BooleanDefault(defaultValue: Option<bool>): Option<string> {
    match defaultValue
    case None => None
    case Some(b) => Some(if b then "Y" else "n")
  }

  /** `input.toLowerCase() === "y"` on an accepted answer. */
  predicate IsYes(s: string) {
    s == "Y" || s == "y"
  }

  /** `questionBoolean(queryStr, defaultValue)`. */
  method QuestionBoolean(answers: seq<string>, from: nat, defaultValue: Option<bool>) returns (r: Asked<bool>)
    ensures r == match FirstAccepted(answers, BooleanDefault(defaultValue), IsYesNo, from)
      case RanOut => RanOut
      case Asked(v, u) => Asked(IsYes(v), u)
  {
    var defaultInput := BooleanDefault(defaultValue);
    var input := "";
    var pos := from;
    while !IsYesNo(input)
      invariant pos == from || from < pos <= |answers|
      invariant FirstAccepted(answers, defaultInput, IsYesNo, from) ==
        if IsYesNo(input) then Asked(input, pos) else FirstAccepted(answers, defaultInput, IsYesNo, pos)
      decreases if pos <= |answers| then |answers| - pos + 1 else 0
    {
      FirstAcceptedRefine(answers, defaultInput, NonEmpty, IsYesNo, pos);
      FirstAcceptedSpec(answers, defaultInput, NonEmpty, pos);
      var q := Question(answers, pos, defaultInput);
      if q.RanOut? {
        return RanOut;
      }
      input, pos := q.value, q.used;
    }
    return Asked(IsYes(input), pos);
  }

  /** With a default, an empty answer settles `questionBoolean` at once with
      that default; without one, `question` never returns the empty string. */
  lemma QuestionDefaults(answers: seq<string>, from: nat, b: bool)
    requires from < |answers| && answers[from] == ""
    ensures FirstAccepted(answers, BooleanDefault(Some(b)), IsYesNo, from) == Asked(if b then "Y" else "n", from + 1)
    ensures FirstAccepted(answers, None, NonEmpty, from) == FirstAccepted(answers, None, NonEmpty, from + 1)
  {
  }

  // ---- enumerate and forRun ----

  /** `enumerate(arr)`. */
  function Enumerate<T>(arr: seq<T>): (r: seq<(T, nat)>)
    ensures |r| == |arr|
    ensures forall i :: 0 <= i < |arr| ==> r[i] == (arr[i], i)
  {
    if arr == [] then []
    else Enumerate(arr[..|arr| - 1]) + [(arr[|arr| - 1], |arr| - 1)]
  }

  /** How one callback's promise settles: after pushing `pushed` onto the
      array, it resolves, or rejects with a reason. */
  datatype Settled<T> = Resolved(pushed: seq<T>) | Rejected(pushed: seq<T>, reason: string)

  /** What the callbacks appended to the array, call after call. */
  function Appended<T>(arr: seq<T>, callback: (T, nat) -> Settled<T>): seq<T> {
    if arr == [] then []
    else Appended(arr[..|arr| - 1], callback) + callback(arr[|arr| - 1], |arr| - 1).pushed
  }

  /** The first index at or after `from` whose callback rejects, or `|arr|`
      when none does. */
  function FirstRejected<T>(arr: seq<T>, callback: (T, nat) -> Settled<T>, from: nat): (k: nat)
    requires from <= |arr|
    ensures from <= k <= |arr|
    ensures forall i :: from <= i < k ==> callback(arr[i], i).Resolved?
    ensures k < |arr| ==> callback(arr[k], k).Rejected?
    decreases |arr| - from
  {
    if from == |arr| then from
    else if callback(arr[from], from).Rejected? then from
    else FirstRejected(arr, callback, from + 1)
  }

  /** How many callbacks `forRun` calls: up to and including the first that
      rejects. */
  function RunCount<T>(arr: seq<T>, callback: (T, nat) -> Settled<T>): nat {
    var k := FirstRejected(arr, callback, 0);
    if k < |arr| then k + 1 else k
  }

  /** `forRun(arr, callback)`: each callback is awaited before the next. The
      bound is read once, so pushed elements are never visited, and the first
      rejection ends the loop and rejects `forRun` with its reason. */
  method ForRun<T>(arr: seq<T>, callback: (T, nat) -> Settled<T>)
      returns (calls: seq<(T, nat)>, final: seq<T>, rejected: Option<string>)
    ensures RunCount(arr, callback) <= |arr|
    ensures calls == Enumerate(arr[..RunCount(arr, callback)])
    ensures final == arr + Appended(arr[..RunCount(arr, callback)], callback)
    ensures rejected.Some? <==> FirstRejected(arr, callback, 0) < |arr|
    ensures rejected.Some? ==> rejected.value == callback(arr[FirstRejected(arr, callback, 0)], FirstRejected(arr, callback, 0)).reason
  {
    var a := arr;
    calls := [];
    var i := 0;
    var len := |a|;
    ghost var k := FirstRejected(arr, callback, 0);
    while i < len
      invariant 0 <= i <= len == |arr|
      invariant i <= k
      invariant a == arr + Appended(arr[..i], callback)
      invariant calls == Enumerate(arr[..i])
    {
      var x := a[i];
      assert x == arr[i];
      ForRunStep(arr, callback, i);
      calls := calls + [(x, i)];
      var s := callback(x, i);
      a := a + s.pushed;
      if s.Rejected? {
        assert i == k;
        final := a;
        rejected := Some(s.reason);
        return;
      }
      i := i + 1;
    }
    final := a;
    rejected := None;
  }

  /** One more call extends the calls and the pushes by that call's. */
  lemma ForRunStep<T>(arr: seq<T>, callback: (T, nat) -> Settled<T>, i: nat)
    requires i < |arr|
    ensures Enumerate(arr[..i + 1]) == Enumerate(arr[..i]) + [(arr[i], i)]
    ensures Appended(arr[..i + 1], callback) == Appended(arr[..i], callback) + callback(arr[i], i).pushed
    ensures arr + Appended(arr[..i + 1], callback) == (arr + Appended(arr[..i], callback)) + callback(arr[i], i).pushed
  {
    assert arr[..i + 1][..i] == arr[..i];
  }

  /** With no rejecting callback, every index of the original array is
      called once, in order. */
  lemma ForRunAllResolve<T>(arr: seq<T>, callback: (T, nat) -> Settled<T>)
    requires forall j :: 0 <= j < |arr| ==> callback(arr[j], j).Resolved?
    ensures FirstRejected(arr, callback, 0) == |arr|
    ensures RunCount(arr, callback) == |arr|
    ensures arr[..RunCount(arr, callback)] == arr
  {
  }

  // ---- resizeWithin ----

  datatype Size = Size(width: int, height: int)

  /** `resizeWithin(origin, target)` in exact arithmetic: `Math.floor(aspect *
      targetH)` is `originW * targetH / originH` rounded down, and `aspect <
      targetW / targetH` is `originW * targetH < targetW * originH`. */
  function ResizeWithin(origin: Size, target: Size): Result<Size> {
    var (ow, oh, tw, th) := (origin.width, origin.height, target.width, target.height);
    if ow == 0 || oh == 0 || tw == 0 || th == 0 then Err(ZeroSize)
    else if ow < 0 || oh < 0 then Err(NegativeOrigin)
    else if (tw < 0 && tw != -1) || (th < 0 && th != -1) then Err(BadTarget)
    else if tw < 0 && th < 0 then Err(BothTargetsAuto)
    else if tw < 0 then Ok(Size(ow * th / oh, th))
    else if th < 0 then Ok(Size(tw, tw * oh / ow))
    else if ow * th < tw * oh then Ok(Size(ow * th / oh, th))
    else Ok(Size(tw, tw * oh / ow))
  }

  /** The guards, in order, each with its own error. */
  lemma ResizeWithinErrors(origin: Size, target: Size)
    ensures var (ow, oh, tw, th) := (origin.width, origin.height, target.width, target.height);
      var r := ResizeWithin(origin, target);
      var nonZero := ow != 0 && oh != 0 && tw != 0 && th != 0;
      (r == Err(ZeroSize) <==> !nonZero)
      && (r == Err(NegativeOrigin) <==> nonZero && (ow < 0 || oh < 0))
      && (r == Err(BadTarget) <==> nonZero && ow > 0 && oh > 0 && (tw < -1 || th < -1))
      && (r == Err(BothTargetsAuto) <==> nonZero && ow > 0 && oh > 0 && tw == -1 && th == -1)
      && (r.Err? <==> ow <= 0 || oh <= 0 || tw == 0 || th == 0 || tw < -1 || th < -1 || (tw == -1 && th == -1))
  {
  }

  /** `q` is `a * b / c` rounded down. */
  predicate IsFloorRatio(q: int, a: int, b: int, c: int)
    requires c > 0
  {
    q * c <= a * b < (q + 1) * c
  }

  lemma FloorRatio(a: int, b: int, c: int)
    requires a > 0 && b > 0 && c > 0
    ensures IsFloorRatio(a * b / c, a, b, c) && a * b / c >= 0
  {
    var q, r := a * b / c, a * b % c;
    assert a * b == q * c + r;
    assert (q + 1) * c == q * c + c;
  }

  /** Which side follows the target and how the other is rounded: with one
      target at -1 the other target is kept; with two targets one side equals
      its target, the other is the aspect-preserving value rounded down and
      does not exceed its target. */
  lemma ResizeWithinFits(origin: Size, target: Size)
    requires ResizeWithin(origin, target).Ok?
    ensures var (ow, oh, tw, th) := (origin.width, origin.height, target.width, target.height);
      var s := ResizeWithin(origin, target).value;
      (tw == -1 ==> s.height == th && IsFloorRatio(s.width, ow, th, oh))
      && (th == -1 ==> s.width == tw && IsFloorRatio(s.height, tw, oh, ow))
      && (tw > 0 && th > 0 ==>
            0 <= s.width <= tw && 0 <= s.height <= th
            && (if ow * th < tw * oh then s.height == th && IsFloorRatio(s.width, ow, th, oh)
                else s.width == tw && IsFloorRatio(s.height, tw, oh, ow)))
  {
    var (ow, oh, tw, th) := (origin.width, origin.height, target.width, target.height);
    if tw == -1 {
      assert ResizeWithin(origin, target).value == Size(ow * th / oh, th);
      FloorRatio(ow, th, oh);
    } else if th == -1 {
      assert ResizeWithin(origin, target).value == Size(tw, tw * oh / ow);
      FloorRatio(tw, oh, ow);
    } else if ow * th < tw * oh {
      var w := ow * th / oh;
      assert ResizeWithin(origin, target).value == Size(w, th);
      FloorRatio(ow, th, oh);
      MulCancel(w, tw, oh);
    } else {
      var h := tw * oh / ow;
      assert ResizeWithin(origin, target).value == Size(tw, h);
      FloorRatio(tw, oh, ow);
      assert ow * th == th * ow;
      MulCancel(h, th, ow);
    }
  }

  /** Dividing both sides of `x * c <= t * c` by a positive `c`. */
  lemma MulCancel(x: int, t: int, c: int)
    requires c > 0 && x * c <= t * c
    ensures x <= t
  {
  }
}
