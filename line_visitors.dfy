/** Reading a file line by line: how `readline` (with `crlfDelay: Infinity`)
    cuts the content into lines, and the two visitor loops run over them. */
module LineVisitors {
  import opened Results
  import opened Utils

  // ---- splitting ----

  predicate IsTerminator(c: char) {
    c == '\n' || c == '\r'
  }

  /** A line as `readline` hands it over: no terminator inside. */
  predicate IsLine(l: string) {
    forall i :: 0 <= i < |l| ==> !IsTerminator(l[i])
  }

  /** The lines of `s`, where `cur` is the part of the current line read so
      far: a line ends at "\n", "\r\n" or a lone "\r"; at the end of the input a
      non-empty rest is one more line. */
  function LinesFrom(s: string, cur: string): (ls: seq<string>)
    requires IsLine(cur)
    ensures forall i :: 0 <= i < |ls| ==> IsLine(ls[i])
    decreases |s|
  {
    if s == [] then (if cur == "" then [] else [cur])
    else if s[0] == '\n' then [cur] + LinesFrom(s[1..], "")
    else if s[0] == '\r' then [cur] + LinesFrom(if |s| > 1 && s[1] == '\n' then s[2..] else s[1..], "")
    else LinesFrom(s[1..], cur + [s[0]])
  }

  /** The lines `readline` emits for the content `s`. */
  function SplitLines(s: string): (ls: seq<string>)
    ensures forall i :: 0 <= i < |ls| ==> IsLine(ls[i])
  {
    LinesFrom(s, "")
  }

  /** Lines written out, each followed by "\n". */
  function JoinLines(ls: seq<string>): string {
    if ls == [] then "" else ls[0] + "\n" + JoinLines(ls[1..])
  }

  /** The ways `readline` recognises a line's end. */
  datatype Terminator = LF | CRLF | CR

  function TerminatorText(t: Terminator): string {
    match t
    case LF => "\n"
    case CRLF => "\r\n"
    case CR => "\r"
  }

  /** Lines written out, line `i` followed by terminator `ts[i]`. */
  function JoinLinesWith(ls: seq<string>, ts: seq<Terminator>): string
    requires |ls| == |ts|
  {
    if ls == [] then "" else ls[0] + TerminatorText(ts[0]) + JoinLinesWith(ls[1..], ts[1..])
  }

  /** A lone "\r" followed by an empty line ended by "\n" would read back as a
      single "\r\n"; every other choice of terminators is unambiguous. */
  predicate Unambiguous(ls: seq<string>, ts: seq<Terminator>)
    requires |ls| == |ts|
  {
    forall i :: 0 <= i < |ls| - 1 && ts[i] == CR ==> ls[i + 1] != "" || ts[i + 1] != LF
  }

  lemma {:induction false} LinesFromLine(l: string, t: Terminator, rest: string, cur: string)
    requires IsLine(l) && IsLine(cur)
    requires t == CR && rest != [] ==> rest[0] != '\n'
    ensures LinesFrom(l + TerminatorText(t) + rest, cur) == [cur + l] + LinesFrom(rest, "")
    decreases |l|
  {
    var s := l + TerminatorText(t) + rest;
    if l == [] {
      assert s == TerminatorText(t) + rest;
      assert cur + l == cur;
      match t
      case LF => assert s[1..] == rest;
      case CRLF => assert s[1] == '\n' && s[2..] == rest;
      case CR =>
        assert s[1..] == rest;
        if |s| > 1 {
          assert s[1] == rest[0];
        }
    } else {
      assert s[0] == l[0];
      assert s[1..] == l[1..] + TerminatorText(t) + rest;
      assert IsLine(cur + [l[0]]);
      LinesFromLine(l[1..], t, rest, cur + [l[0]]);
      assert cur + [l[0]] + l[1..] == cur + l;
    }
  }

  /** Splitting undoes joining, for lines without terminators. */
  lemma {:induction false} SplitJoin(ls: seq<string>)
    requires forall i :: 0 <= i < |ls| ==> IsLine(ls[i])
    ensures SplitLines(JoinLines(ls)) == ls
    decreases |ls|
  {
    if ls != [] {
      LinesFromLine(ls[0], LF, JoinLines(ls[1..]), "");
      assert "" + ls[0] == ls[0];
      SplitJoin(ls[1..]);
    }
  }

  /** A joined text that is not empty starts with its first line, or with that
      line's terminator when the line is empty. */
  lemma JoinStart(ls: seq<string>, ts: seq<Terminator>)
    requires |ls| == |ts| && ls != [] && IsLine(ls[0])
    requires ls[0] != "" || ts[0] != LF
    ensures JoinLinesWith(ls, ts) != [] && JoinLinesWith(ls, ts)[0] != '\n'
  {
    var s := JoinLinesWith(ls, ts);
    if ls[0] != "" {
      assert s[0] == ls[0][0];
    } else {
      assert s[0] == TerminatorText(ts[0])[0];
    }
  }

  /** Splitting undoes joining with any terminators, as long as none of them
      reads back as part of a "\r\n". */
  lemma {:induction false} SplitJoinWith(ls: seq<string>, ts: seq<Terminator>)
    requires |ls| == |ts| && forall i :: 0 <= i < |ls| ==> IsLine(ls[i])
    requires Unambiguous(ls, ts)
    ensures SplitLines(JoinLinesWith(ls, ts)) == ls
    decreases |ls|
  {
    if ls != [] {
      var rest := JoinLinesWith(ls[1..], ts[1..]);
      if ts[0] == CR && |ls| > 1 {
        assert ls[1] != "" || ts[1] != LF;
        JoinStart(ls[1..], ts[1..]);
      }
      LinesFromLine(ls[0], ts[0], rest, "");
      assert "" + ls[0] == ls[0];
      assert Unambiguous(ls[1..], ts[1..]) by {
        forall i | 0 <= i < |ls| - 2 && ts[1..][i] == CR
          ensures ls[1..][i + 1] != "" || ts[1..][i + 1] != LF
        {
          assert ts[1..][i] == ts[i + 1];
        }
      }
      SplitJoinWith(ls[1..], ts[1..]);
    }
  }

  /** The one ambiguous case: a lone "\r", then an empty line ended by "\n". */
  lemma SplitJoinAmbiguous()
    ensures !Unambiguous(["a", ""], [CR, LF])
    ensures SplitLines(JoinLinesWith(["a", ""], [CR, LF])) == ["a"]
  {
    assert JoinLinesWith(["a", ""], [CR, LF]) == "a\r\n";
    assert "a\r\n"[1..] == "\r\n" && "\r\n"[2..] == "";
    assert "" + ['a'] == "a";
    assert LinesFrom("\r\n", "a") == ["a"];
  }

  /** The three terminators, and a last line without one. */
  lemma SplitExamples()
    ensures SplitLines("") == []
    ensures SplitLines("a\r\nb") == ["a", "b"]
    ensures SplitLines("a\rb\n") == ["a", "b"]
    ensures SplitLines("a\n\n") == ["a", ""]
  {
    assert "" + ['a'] == "a" && "" + ['b'] == "b";
    assert "a\r\nb"[1..] == "\r\nb" && "\r\nb"[2..] == "b" && "b"[1..] == "";
    assert LinesFrom("b", "") == ["b"];
    assert LinesFrom("\r\nb", "a") == ["a", "b"];
    assert "a\rb\n"[1..] == "\rb\n" && "\rb\n"[1..] == "b\n" && "b\n"[1..] == "\n" && "\n"[1..] == "";
    assert LinesFrom("\n", "b") == ["b"];
    assert LinesFrom("b\n", "") == ["b"];
    assert LinesFrom("\rb\n", "a") == ["a", "b"];
    assert "a\n\n"[1..] == "\n\n" && "\n\n"[1..] == "\n";
    assert LinesFrom("\n", "") == [""];
    assert LinesFrom("\n\n", "a") == ["a", ""];
  }

  // ---- the visitor loops ----

  /** What one visitor call does besides its own side effects: nothing more,
      invoke `close`, or throw. */
  datatype Visit = Proceed | Close | Raise(reason: string)

  /** How the returned promise settles. */
  datatype Outcome = Completed | Raised(reason: string)

  /** The first position from `from` on whose visit does more than proceed,
      or `|lines|`. */
  function FirstStop(lines: seq<string>, visit: (string, nat) -> Visit, from: nat): (i: nat)
    requires from <= |lines|
    ensures from <= i <= |lines|
    ensures forall j :: from <= j < i ==> visit(lines[j], j) == Proceed
    ensures i < |lines| ==> visit(lines[i], i) != Proceed
    decreases |lines| - from
  {
    if from == |lines| then from
    else if visit(lines[from], from) != Proceed then from
    else FirstStop(lines, visit, from + 1)
  }

  /** How many visitor calls a run makes: up to and including the first call
      that closes or throws. */
  function CallCount(lines: seq<string>, visit: (string, nat) -> Visit): (k: nat)
    ensures k <= |lines|
  {
    var s := FirstStop(lines, visit, 0);
    if s < |lines| then s + 1 else s
  }

  /** What a visitor loop reports: the calls made, in order, with their
      arguments; how the promise settles; whether the stream was released
      early through the iterator's `return`. */
  datatype Run = Run(calls: seq<(string, nat)>, outcome: Outcome, released: bool)

  /** The run `handleLineByLine` makes: the visitor sees lines `0..k` with their
      own indices, where `k` is the first call that closes or throws (all lines
      when none does); a throw settles the promise with that error; the stream
      is released early after a throw, or after a close with lines still
      unread. */
  predicate IsLineByLineRun(lines: seq<string>, visit: (string, nat) -> Visit, run: Run) {
    var s := FirstStop(lines, visit, 0);
    run.calls == Enumerate(lines)[..CallCount(lines, visit)]
    && run.outcome == (if s < |lines| && visit(lines[s], s).Raise? then Raised(visit(lines[s], s).reason) else Completed)
    && (run.released <==> s < |lines| && (visit(lines[s], s).Raise? || s + 1 < |lines|))
  }

  /** The run `handleEveryLine` makes: every line with its index, up to and
      including a call that throws, which settles the promise with that error
      and releases the stream. */
  predicate IsEveryLineRun(lines: seq<string>, visit: (string, nat) -> Option<string>, run: Run) {
    var s := FirstStop(lines, AsVisit(visit), 0);
    run.calls == Enumerate(lines)[..CallCount(lines, AsVisit(visit))]
    && run.outcome == (if s < |lines| then Raised(visit(lines[s], s).value) else Completed)
    && (run.released <==> s < |lines|)
  }

  /** `handleLineByLine(func)` over the lines of the file. The visitor is
      called with each line and its index while `close` has not been invoked;
      the next line after a `close` ends the loop with a `break`, which (like a
      throw) makes the loop call the iterator's `return` and so release the
      stream. A throw rejects the promise after that cleanup. */
  method VisitLines(lines: seq<string>, visit: (string, nat) -> Visit) returns (run: Run)
    ensures IsLineByLineRun(lines, visit, run)
  {
    var doContinue := true;
    var lineIdx := 0;
    var pos := 0;
    var calls := [];
    while pos < |lines|
      invariant 0 <= lineIdx <= pos <= |lines|
      invariant doContinue ==> lineIdx == pos && forall j :: 0 <= j < pos ==> visit(lines[j], j) == Proceed
      invariant !doContinue ==> lineIdx == pos && 0 < pos && FirstStop(lines, visit, 0) == pos - 1
                                && visit(lines[pos - 1], pos - 1) == Close
      invariant calls == Enumerate(lines)[..lineIdx]
    {
      var line := lines[pos];
      if doContinue {
        assert Enumerate(lines)[..lineIdx + 1] == Enumerate(lines)[..lineIdx] + [(line, lineIdx)];
        calls := calls + [(line, lineIdx)];
        var v := visit(line, lineIdx);
        lineIdx := lineIdx + 1;
        pos := pos + 1;
        match v
        case Proceed =>
        case Close =>
          FirstStopAt(lines, visit, lineIdx - 1);
          doContinue := false;
        case Raise(reason) =>
          FirstStopAt(lines, visit, lineIdx - 1);
          return Run(calls, Raised(reason), true);
      } else {
        return Run(calls, Completed, true);
      }
    }
    if doContinue {
      FirstStopAt(lines, visit, |lines|);
    }
    return Run(calls, Completed, false);
  }

  /** The stop is where the first non-proceeding visit is. */
  lemma FirstStopAt(lines: seq<string>, visit: (string, nat) -> Visit, i: nat)
    requires i <= |lines|
    requires forall j :: 0 <= j < i ==> visit(lines[j], j) == Proceed
    requires i < |lines| ==> visit(lines[i], i) != Proceed
    ensures FirstStop(lines, visit, 0) == i
  {
  }

  /** `handleEveryLine`'s visitor only proceeds or throws. */
  function AsVisit(visit: (string, nat) -> Option<string>): (string, nat) -> Visit {
    (l: string, i: nat) => if visit(l, i).Some? then Raise(visit(l, i).value) else Proceed
  }

  /** `handleEveryLine(func)`: every line in order until a call throws. */
  method VisitEveryLine(lines: seq<string>, visit: (string, nat) -> Option<string>) returns (run: Run)
    ensures IsEveryLineRun(lines, visit, run)
  {
    var lineIdx := 0;
    var calls := [];
    while lineIdx < |lines|
      invariant 0 <= lineIdx <= |lines|
      invariant forall j :: 0 <= j < lineIdx ==> visit(lines[j], j).None?
      invariant calls == Enumerate(lines)[..lineIdx]
    {
      var line := lines[lineIdx];
      assert Enumerate(lines)[..lineIdx + 1] == Enumerate(lines)[..lineIdx] + [(line, lineIdx)];
      calls := calls + [(line, lineIdx)];
      var v := visit(line, lineIdx);
      lineIdx := lineIdx + 1;
      if v.Some? {
        FirstStopAt(lines, AsVisit(visit), lineIdx - 1);
        return Run(calls, Raised(v.value), true);
      }
    }
    FirstStopAt(lines, AsVisit(visit), |lines|);
    assert Enumerate(lines)[..|lines|] == Enumerate(lines);
    return Run(calls, Completed, false);
  }

  /** Without a throw, `handleEveryLine` visits every line with its index. */
  lemma EveryLineVisited(lines: seq<string>, visit: (string, nat) -> Option<string>)
    requires forall j :: 0 <= j < |lines| ==> visit(lines[j], j).None?
    ensures CallCount(lines, AsVisit(visit)) == |lines|
  {
    FirstStopAt(lines, AsVisit(visit), |lines|);
  }

  /** The visitor that logs each line and closes from index 11 on. */
  function CloseFromEleven(): (string, nat) -> Visit {
    (l: string, i: nat) => if i >= 11 then Close else Proceed
  }

  /** Closing at index 11: exactly the lines 0..11 are visited, and the stream
      is released when there is a thirteenth line. */
  lemma CloseFromElevenCalls(lines: seq<string>)
    requires |lines| >= 12
    ensures CallCount(lines, CloseFromEleven()) == 12
    ensures FirstStop(lines, CloseFromEleven(), 0) + 1 < |lines| <==> |lines| > 12
  {
    FirstStopAt(lines, CloseFromEleven(), 11);
  }
}
