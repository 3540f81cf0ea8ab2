/**
 * The command line served over a telnet connection: one session per
 * connection, reading lines through the engine, trimming them, keeping
 * non-blank ones in the history and executing them.
 */
module CliTelnet {
  import opened Wrappers
  import opened CText
  import opened Commands
  import opened Engine
  import opened Completion
  import opened Help
  import opened Frontend

  /** The remote help text ends its lines with "\n\r" and puts each name on a line of its own. */
  const Format: HelpFormat :=
    HelpFormat("\n\r", "\t\n\r", "\n\r", "\n\n\rTry `help [command]' for more information.\n\r")

  /**
   * The telnet front end trims every `isspace` character and starts its
   * error message with a line feed. Its lookup's guard compares the name
   * pointer itself with '\0', a second NULL test, so an empty name is
   * scanned like any other (and still finds nothing, by
   * Commands.EmptyQueryFindsNothing).
   */
  const Telnet: Dialect := Dialect(Format, "\n", SpaceChars, false)

  /** `cli_telnet_trim_space_char`: trims every `isspace` character from both ends, in place. */
  method TrimSpaceChar(a: array<char>) returns (s: nat)
    requires NUL in a[..]
    modifies a
    ensures a[..] == Trimmed(old(a[..]), SpaceChars)
    ensures s == Lead(CStr(old(a[..]), 0), SpaceChars)
  {
    s := TrimInPlace(a, SpaceChars);
  }

  /** The trimmed line has no white space at either end, and trimming it again changes nothing. */
  lemma TrimmedHasNoSpaceAtEnds(l: string)
    ensures var t := Strip(l, SpaceChars);
      t != [] ==> !IsSpace(t[0]) && !IsSpace(t[|t| - 1])
    ensures Strip(Strip(l, SpaceChars), SpaceChars) == Strip(l, SpaceChars)
  {
    StripIdempotent(l, SpaceChars);
  }

  /** `enter_key`: completes with prefixes and empty words allowed, and finishes the line only on success. */
  method EnterKey(text: string, point: nat, ans: Answers) returns (ok: bool, calls: seq<EngineCall>)
    requires point <= |text|
    ensures ok == CompletionOf(text, point, true, true, ans).ok
    ensures calls == CompletionOf(text, point, true, true, ans).calls + (if ok then [Crlf, Done] else [])
  {
    var c := Complete(text, point, true, true, ans);
    if c.ok {
      return true, c.calls + [Crlf, Done];
    }
    return false, c.calls;
  }

  // ---------------------------------------------------------------------
  // The session

  /**
   * The course of a session given the outcome of each line in turn: the
   * engine calls made, and whether quit ended the session before the lines
   * ran out. The lines after the first one that quits are never accepted.
   */
  function Run(outs: seq<Outcome>): (r: (seq<EngineCall>, bool))
    decreases |outs|
  {
    if outs == [] then ([], false)
    else if Quits(outs[0]) then (outs[0].calls, true)
    else
      var rest := Run(outs[1..]);
      (outs[0].calls + rest.0, rest.1)
  }

  /** A session on the lines `lines` read one after the other. */
  function Session(lines: seq<string>): (seq<EngineCall>, bool) {
    Run(Outcomes(Telnet, lines))
  }

  /** When line `k` is the first that quits, the session makes the calls of lines 0 to `k` and ends by quit. */
  lemma {:induction false} RunStopsAtFirstQuit(outs: seq<Outcome>, k: nat)
    requires k < |outs| && Quits(outs[k])
    requires forall j :: 0 <= j < k ==> !Quits(outs[j])
    ensures Run(outs) == (AllCalls(outs[..k + 1]), true)
    decreases k
  {
    var p := outs[..k + 1];
    assert p[0] == outs[0];
    if k == 0 {
      assert p[1..] == [];
      assert outs[0].calls + [] == outs[0].calls;
    } else {
      assert !Quits(outs[0]);
      assert p[1..] == outs[1..][..k];
      RunStopsAtFirstQuit(outs[1..], k - 1);
    }
  }

  /** When no line quits, the session makes the calls of every line and is not ended by quit. */
  lemma {:induction false} RunWithoutQuit(outs: seq<Outcome>)
    requires forall j :: 0 <= j < |outs| ==> !Quits(outs[j])
    ensures Run(outs) == (AllCalls(outs), false)
    decreases |outs|
  {
    if outs != [] {
      assert !Quits(outs[0]);
      RunWithoutQuit(outs[1..]);
    }
  }

  /** A session opened on a line followed by more lines. */
  lemma SessionCons(l: string, rest: seq<string>)
    ensures Session([l] + rest) ==
      if Quits(LineOutcome(Telnet, l)) then (LineOutcome(Telnet, l).calls, true)
      else (LineOutcome(Telnet, l).calls + Session(rest).0, Session(rest).1)
  {
    assert ([l] + rest)[0] == l;
    assert ([l] + rest)[1..] == rest;
  }

  /** A line that trims to nothing leaves no trace in the session. */
  lemma BlankLineIsSkipped(l: string, rest: seq<string>)
    requires forall k :: 0 <= k < |l| ==> IsSpace(l[k])
    ensures Session([l] + rest) == Session(rest)
  {
    BlankLineDoesNothing(Telnet, l);
    SessionCons(l, rest);
    assert [] + Session(rest).0 == Session(rest).0;
  }

  /** A non-blank line is added to the history before anything its command does. */
  lemma HistoryBeforeExecution(l: string, rest: seq<string>)
    requires exists k :: 0 <= k < |l| && !IsSpace(l[k])
    ensures var calls := Session([l] + rest).0;
      |calls| > 0 && calls[0] == HistoryAdd(l[..Lead(l, SpaceChars)] + Strip(l, SpaceChars))
  {
    HistoryComesFirst(Telnet, l);
    SessionCons(l, rest);
  }

  /** The lines after a quit are never read. */
  lemma QuitEndsSession(l: string, rest: seq<string>)
    requires Quits(LineOutcome(Telnet, l))
    ensures Session([l] + rest) == (LineOutcome(Telnet, l).calls, true)
  {
    SessionCons(l, rest);
  }

  /** A line that trims to `q` goes to the history and invokes quit, with an empty argument, and prints nothing. */
  lemma QuitLine(l: string)
    requires Strip(l, SpaceChars) == "q"
    ensures LineOutcome(Telnet, l) == Outcome([HistoryAdd(l[..Lead(l, SpaceChars)] + "q")], Some(Invocation(Quit, "")))
  {
    var cmd := Strip(l, SpaceChars);
    assert IsSplit(cmd, 0, 1, 1);
    ExecutionDispatches(Telnet, cmd, 0, 1, 1);
    assert cmd[0..1] == "q" && cmd[1..] == "";
    LookupExamples();
    assert [HistoryAdd(l[..Lead(l, SpaceChars)] + "q")] + [] == [HistoryAdd(l[..Lead(l, SpaceChars)] + "q")];
  }

  /**
   * A line whose command word abbreviates quit unambiguously ends the
   * session, whatever lines follow it; the history keeps the line without
   * its trailing white space.
   */
  lemma QuitByPrefix(rest: seq<string>)
    ensures Session(["  q  "] + rest) == ([HistoryAdd("  q")], true)
  {
    var l := "  q  ";
    assert Strip(l, SpaceChars) == "q" by {
      StripUnique(l, SpaceChars, 2, 3);
    }
    assert Lead(l, SpaceChars) == 2 by {
      assert l[1..][1..] == "q  ";
    }
    QuitLine(l);
    assert l[..2] + "q" == "  q";
    QuitEndsSession(l, rest);
  }

  /** Before the first line, the calls made so far are none and the whole course lies ahead. */
  lemma RunFromStart(outs: seq<Outcome>)
    ensures Run(outs).0 == [] + Run(outs[0..]).0 && Run(outs).1 == Run(outs[0..]).1
  {
    assert outs[0..] == outs;
    assert [] + Run(outs).0 == Run(outs).0;
  }

  /**
   * Having made `calls` for the lines before `i`, the session goes on with
   * line `i`, whose outcome is `o`: it ends there if that line quits, and
   * otherwise goes on with its calls added.
   */
  lemma RunAdvance(outs: seq<Outcome>, i: nat, calls: seq<EngineCall>, o: Outcome, next: seq<EngineCall>, ended: bool)
    requires i < |outs| && o == outs[i] && next == calls + o.calls && ended == Quits(o)
    requires Run(outs).0 == calls + Run(outs[i..]).0 && Run(outs).1 == Run(outs[i..]).1
    ensures ended ==> Run(outs).0 == next && Run(outs).1
    ensures !ended ==> Run(outs).0 == next + Run(outs[i + 1..]).0 && Run(outs).1 == Run(outs[i + 1..]).1
  {
    RunUnfold(outs, i);
    if !ended {
      assert calls + (o.calls + Run(outs[i + 1..]).0) == next + Run(outs[i + 1..]).0;
    }
  }

  /** The course from line `i` on: line `i`, then, unless it quits, the course from `i + 1` on. */
  lemma RunUnfold(outs: seq<Outcome>, i: nat)
    requires i < |outs|
    ensures Quits(outs[i]) ==> Run(outs[i..]) == (outs[i].calls, true)
    ensures !Quits(outs[i]) ==> Run(outs[i..]) == (outs[i].calls + Run(outs[i + 1..]).0, Run(outs[i + 1..]).1)
  {
    assert outs[i..][0] == outs[i];
    assert outs[i..][1..] == outs[i + 1..];
  }

  /** Once every line has been accepted without a quit, the session made exactly `calls`. */
  lemma RunAtEnd(outs: seq<Outcome>, calls: seq<EngineCall>)
    requires Run(outs).0 == calls + Run(outs[|outs|..]).0 && Run(outs).1 == Run(outs[|outs|..]).1
    ensures Run(outs) == (calls, false)
  {
    assert outs[|outs|..] == [];
    assert calls + [] == calls;
  }

  /**
   * Before line `i`, having made `calls`: what is left of the session is
   * its course from line `i` on.
   */
  ghost predicate Pending(outs: seq<Outcome>, i: nat, calls: seq<EngineCall>) {
    i <= |outs| && Run(outs).0 == calls + Run(outs[i..]).0 && Run(outs).1 == Run(outs[i..]).1
  }

  /**
   * One pass of the session loop: reads line `i` and accepts it; the
   * session ends there if the line quits, and otherwise goes on with the
   * line's calls added.
   */
  method SessionStep(lines: seq<string>, i: nat, calls: seq<EngineCall>) returns (next: seq<EngineCall>, ended: bool)
    requires i < |lines| && forall k :: 0 <= k < |lines| ==> NUL !in lines[k]
    requires Pending(Outcomes(Telnet, lines), i, calls)
    ensures ended ==> Session(lines) == (next, true)
    ensures !ended ==> Pending(Outcomes(Telnet, lines), i + 1, next)
  {
    var o := ReadAndAccept(Telnet, lines, i);
    next := calls + o.calls;
    ended := Quits(o);
    RunAdvance(Outcomes(Telnet, lines), i, calls, o, next, ended);
  }

  /**
   * The session loop of a connection: reads each line into a fresh buffer,
   * as the engine hands it over, and accepts it, until quit ends the
   * session or the lines run out.
   */
  method Serve(lines: seq<string>) returns (calls: seq<EngineCall>, ended: bool)
    requires forall k :: 0 <= k < |lines| ==> NUL !in lines[k]
    ensures (calls, ended) == Session(lines)
  {
    ghost var outs := Outcomes(Telnet, lines);
    calls, ended := [], false;
    var i := 0;
    RunFromStart(outs);
    while i < |lines| && !ended
      invariant i <= |lines| == |outs|
      invariant !ended ==> Pending(outs, i, calls)
      invariant ended ==> Session(lines) == (calls, true)
    {
      calls, ended := SessionStep(lines, i, calls);
      i := i + 1;
    }
    if !ended {
      RunAtEnd(outs, calls);
    }
  }
}
