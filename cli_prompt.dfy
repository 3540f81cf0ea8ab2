/**
 * The command line on the program's own terminal: one prompt reading lines
 * through the engine until input ends, trimming them of spaces and tabs,
 * keeping non-blank ones in the history and executing them. Its quit
 * command does not end the prompt; it asks the main loop to shut the
 * application down.
 */
module CliPrompt {
  import opened Wrappers
  import opened CText
  import opened Commands
  import opened Engine
  import opened Completion
  import opened Help
  import opened Frontend
  import opened MainApp

  /** The local help text ends its lines with "\n" and separates names by tabs, six to a row. */
  const Format: HelpFormat :=
    HelpFormat("\n", "\t", "\n", "\n\nTry `help [command]' for more information.\n")

  /**
   * The prompt trims spaces and tabs only, starts its error message with a
   * carriage return, and its lookup turns an empty name away up front.
   */
  const Prompt: Dialect := Dialect(Format, "\r", BlankChars, true)

  /** `cli_trim_space_char`: trims spaces and tabs from both ends, in place. */
  method TrimSpaceChar(a: array<char>) returns (s: nat)
    requires NUL in a[..]
    modifies a
    ensures a[..] == Trimmed(old(a[..]), BlankChars)
    ensures s == Lead(CStr(old(a[..]), 0), BlankChars)
  {
    s := TrimInPlace(a, BlankChars);
  }

  /** The trimmed line has no space or tab at either end, and trimming it again changes nothing. */
  lemma TrimmedHasNoBlankAtEnds(l: string)
    ensures var t := Strip(l, BlankChars);
      t != [] ==> !IsBlank(t[0]) && !IsBlank(t[|t| - 1])
    ensures Strip(Strip(l, BlankChars), BlankChars) == Strip(l, BlankChars)
  {
    StripIdempotent(l, BlankChars);
  }

  /**
   * Other white space is kept: every carriage return and line feed of a line
   * lies inside the part the prompt's trim keeps, as on `" \r\n\t"`, which
   * the telnet trim removes entirely.
   */
  lemma LineEndsAreKept(l: string)
    ensures forall k :: 0 <= k < |l| && (l[k] == '\r' || l[k] == '\n') ==>
      Lead(l, BlankChars) <= k < Lead(l, BlankChars) + |Strip(l, BlankChars)|
    ensures Strip(" \r\n\t", BlankChars) == "\r\n"
    ensures Strip(" \r\n\t", SpaceChars) == ""
  {
    StripUnique(" \r\n\t", BlankChars, 1, 3);
    StripUnique(" \r\n\t", SpaceChars, 0, 0);
  }

  /**
   * What the prompt keeps of a line contains what the telnet session keeps
   * of it: trimming only spaces and tabs never cuts deeper at either end
   * than trimming all white space.
   */
  lemma TrimmedWithinTelnet(l: string)
    ensures Lead(l, BlankChars) <= Lead(l, SpaceChars)
    ensures Strip(l, SpaceChars) != [] ==>
      Lead(l, SpaceChars) + |Strip(l, SpaceChars)| <= Lead(l, BlankChars) + |Strip(l, BlankChars)|
  {
    StripNarrows(l, BlankChars, SpaceChars);
  }

  /** `cli_command_quit`: asks the main loop for the quit phase. */
  method CommandQuit(app: App)
    modifies app
    ensures app.next == QuitApp && app.state == old(app.state)
  {
    app.QuitApplication();
  }

  /**
   * `cli_execute_command` on the line that starts at `from`: cuts off the
   * command word and dispatches on it; the quit entry's function requests
   * the quit phase of the main loop, and nothing else touches it. Serve
   * accepts each line through the shared path and then applies this same
   * effect on the application, by CommandQuit when the line invoked quit.
   */
  method ExecuteCommand(app: App, a: array<char>, from: nat) returns (o: Outcome)
    requires from <= a.Length && NUL in a[from..]
    modifies a, app
    ensures a[..] == Isolated(old(a[..]), from)
    ensures o == Execution(Prompt, old(CStr(a[..], from)))
    ensures app.state == old(app.state)
    ensures app.next == if Quits(o) then QuitApp else old(app.next)
  {
    o := Frontend.ExecuteCommand(Prompt, a, from);
    if Quits(o) {
      CommandQuit(app);
    }
  }

  /**
   * `enter_key`: completes with prefixes and empty words allowed; on
   * success moves to a new line, and in either case finishes the line.
   */
  method EnterKey(text: string, point: nat, ans: Answers) returns (ok: bool, calls: seq<EngineCall>)
    requires point <= |text|
    ensures ok == CompletionOf(text, point, true, true, ans).ok
    ensures calls == CompletionOf(text, point, true, true, ans).calls + (if ok then [Crlf, Done] else [Done])
    ensures |calls| > 0 && calls[|calls| - 1] == Done
    ensures Crlf in calls <==> ok
  {
    var c := Complete(text, point, true, true, ans);
    CompletionMakesNoLineCalls(text, point, true, true, ans);
    if c.ok {
      return true, c.calls + [Crlf, Done];
    }
    return false, c.calls + [Done];
  }

  // ---------------------------------------------------------------------
  // The prompt loop

  /** Some line invoked quit. */
  predicate AnyQuits(outs: seq<Outcome>)
    decreases |outs|
  {
    outs != [] && (Quits(outs[0]) || AnyQuits(outs[1..]))
  }

  /** `AnyQuits` holds exactly when some line's outcome quits. */
  lemma {:induction false} AnyQuitsAt(outs: seq<Outcome>)
    ensures AnyQuits(outs) <==> exists k :: 0 <= k < |outs| && Quits(outs[k])
    decreases |outs|
  {
    if outs != [] {
      AnyQuitsAt(outs[1..]);
      if exists k :: 0 <= k < |outs| && Quits(outs[k]) {
        var k :| 0 <= k < |outs| && Quits(outs[k]);
        if k > 0 {
          assert outs[1..][k - 1] == outs[k];
        }
      }
      if AnyQuits(outs[1..]) {
        var k :| 0 <= k < |outs| - 1 && Quits(outs[1..][k]);
        assert outs[k + 1] == outs[1..][k];
      }
    }
  }

  /** A run of lines quits when its first part or its second part does. */
  lemma {:induction false} AnyQuitsAppend(a: seq<Outcome>, b: seq<Outcome>)
    ensures AnyQuits(a + b) <==> AnyQuits(a) || AnyQuits(b)
    decreases |a|
  {
    if a == [] {
      assert a + b == b;
    } else {
      assert (a + b)[0] == a[0];
      assert (a + b)[1..] == a[1..] + b;
      AnyQuitsAppend(a[1..], b);
    }
  }

  /** A run of lines has a line that quits exactly when its last line quits or the lines before it do. */
  lemma AnyQuitsSnoc(outs: seq<Outcome>, i: nat)
    requires i < |outs|
    ensures AnyQuits(outs[..i + 1]) <==> AnyQuits(outs[..i]) || Quits(outs[i])
  {
    assert outs[..i + 1] == outs[..i] + [outs[i]];
    AnyQuitsAppend(outs[..i], [outs[i]]);
    assert [outs[i]][1..] == [];
  }

  /**
   * One pass of the prompt loop: reads line `i` and accepts it, requests
   * the quit phase if the line invoked quit, and adds the line's calls.
   */
  method PromptStep(app: App, lines: seq<string>, i: nat, calls: seq<EngineCall>) returns (next: seq<EngineCall>, quits: bool)
    requires i < |lines| && forall k :: 0 <= k < |lines| ==> NUL !in lines[k]
    requires calls == [Crlf] + AllCalls(Outcomes(Prompt, lines)[..i])
    modifies app
    ensures next == [Crlf] + AllCalls(Outcomes(Prompt, lines)[..i + 1])
    ensures quits == Quits(Outcomes(Prompt, lines)[i])
    ensures app.state == old(app.state) && app.next == if quits then QuitApp else old(app.next)
  {
    var o := ReadAndAccept(Prompt, lines, i);
    quits := Quits(o);
    if quits {
      CommandQuit(app);
    }
    next := calls + o.calls;
    CallsAdvance(Outcomes(Prompt, lines), i, o, calls, next);
  }

  /**
   * `cli_prompt_thread`: moves to a fresh line, then reads and accepts
   * every line until input ends. A quit does not stop the loop; the quit
   * phase is requested of the main loop exactly when some line invoked
   * quit, and the current phase is never touched. The effect of quit on
   * the application is the one ExecuteCommand states for a single line.
   */
  method Serve(app: App, lines: seq<string>) returns (calls: seq<EngineCall>)
    requires forall k :: 0 <= k < |lines| ==> NUL !in lines[k]
    modifies app
    ensures calls == [Crlf] + AllCalls(Outcomes(Prompt, lines))
    ensures app.state == old(app.state)
    ensures app.next == if AnyQuits(Outcomes(Prompt, lines)) then QuitApp else old(app.next)
  {
    ghost var outs := Outcomes(Prompt, lines);
    ghost var initial := app.next;
    ghost var quit := false;
    calls := [Crlf];
    var i := 0;
    assert outs[..0] == [];
    while i < |lines|
      invariant i <= |lines| == |outs|
      invariant calls == [Crlf] + AllCalls(outs[..i])
      invariant quit == AnyQuits(outs[..i])
      invariant app.state == old(app.state) && app.next == if quit then QuitApp else initial
    {
      var quits;
      calls, quits := PromptStep(app, lines, i, calls);
      AnyQuitsSnoc(outs, i);
      quit := quit || quits;
      i := i + 1;
    }
    assert outs[..i] == outs;
  }

  /**
   * Having made the initial line feed and the calls of the lines before
   * `i`, adding the calls of line `i` makes those of the lines up to `i`.
   */
  lemma CallsAdvance(outs: seq<Outcome>, i: nat, o: Outcome, made: seq<EngineCall>, after: seq<EngineCall>)
    requires i < |outs| && o == outs[i]
    requires made == [Crlf] + AllCalls(outs[..i]) && after == made + o.calls
    ensures after == [Crlf] + AllCalls(outs[..i + 1])
  {
    assert outs[..i + 1] == outs[..i] + [outs[i]];
    AllCallsAppend(outs[..i], [outs[i]]);
    assert AllCalls([outs[i]]) == outs[i].calls + AllCalls([]);
    assert ([Crlf] + AllCalls(outs[..i])) + o.calls == [Crlf] + (AllCalls(outs[..i]) + o.calls);
  }

  /**
   * Unlike the telnet session, the prompt reads on after a quit: the calls
   * of a line are followed by those of every later line, whatever the line
   * invoked.
   */
  lemma ReadsOnAfterQuit(l: string, rest: seq<string>)
    ensures AllCalls(Outcomes(Prompt, [l] + rest)) == LineOutcome(Prompt, l).calls + AllCalls(Outcomes(Prompt, rest))
  {
    assert ([l] + rest)[0] == l;
    assert ([l] + rest)[1..] == rest;
  }

  /** A line of spaces and tabs only leaves no trace among the prompt's calls. */
  lemma BlankLineIsSkipped(l: string, rest: seq<string>)
    requires forall k :: 0 <= k < |l| ==> IsBlank(l[k])
    ensures AllCalls(Outcomes(Prompt, [l] + rest)) == AllCalls(Outcomes(Prompt, rest))
  {
    BlankLineDoesNothing(Prompt, l);
    ReadsOnAfterQuit(l, rest);
    assert [] + AllCalls(Outcomes(Prompt, rest)) == AllCalls(Outcomes(Prompt, rest));
  }

  /** A line with anything but spaces and tabs is added to the history before anything its command does. */
  lemma HistoryBeforeExecution(l: string, rest: seq<string>)
    requires exists k :: 0 <= k < |l| && !IsBlank(l[k])
    ensures var calls := AllCalls(Outcomes(Prompt, [l] + rest));
      |calls| > 0 && calls[0] == HistoryAdd(l[..Lead(l, BlankChars)] + Strip(l, BlankChars))
  {
    HistoryComesFirst(Prompt, l);
    ReadsOnAfterQuit(l, rest);
  }
}
