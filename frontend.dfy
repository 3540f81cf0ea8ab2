/**
 * What the two front ends, the telnet session and the local prompt, do
 * alike with a line the engine has read: trim it in place, keep it in the
 * history if anything is left, cut off its command word, look the word up
 * and invoke the entry found on the argument. They differ only in the
 * characters they trim, the character that starts the error message and
 * the line endings of the help text; a `Dialect` holds those.
 */
module Frontend {
  import opened Wrappers
  import opened CText
  import opened Engine
  import opened Commands
  import opened Help

  /**
   * The settings of one front end: the help text's layout, what the
   * no-such-command message starts with, the characters trimmed from both
   * ends of a line, and whether its lookup turns an empty name away before
   * scanning the table.
   */
  datatype Dialect = Dialect(help: HelpFormat, errorLead: string, white: set<char>, guardsEmpty: bool)

  /** The message for a command word the lookup does not resolve. */
  function NoSuchCommand(d: Dialect, word: string): string {
    d.errorLead + word + ": No such command.  There is `help'.\n\r"
  }

  // ---------------------------------------------------------------------
  // Executing a trimmed line

  /**
   * Executing the trimmed line `cmd`: its command word is looked up; an
   * unresolved word gets the error message and nothing is invoked; otherwise
   * the entry's function runs on the argument. Help prints its text; the
   * other commands print nothing.
   */
  function Execution(d: Dialect, cmd: string): Outcome {
    match Lookup(Table, Word(cmd))
    case None => Outcome([Output(NoSuchCommand(d, Word(cmd)))], None)
    case Some(i) =>
      var arg := Argument(cmd);
      var calls := if Table[i].action == Help then [Output(HelpText(d.help, arg))] else [];
      Outcome(calls, Some(Invocation(Table[i].action, arg)))
  }

  /**
   * For any division of `cmd` into blanks, word, blanks and argument, a
   * command function is invoked exactly when the word resolves, and it is
   * the resolved entry's, called on the argument; only help prints; an
   * unresolved word is named in the error message.
   */
  lemma ExecutionDispatches(d: Dialect, cmd: string, ws: nat, we: nat, arg: nat)
    requires IsSplit(cmd, ws, we, arg)
    ensures Execution(d, cmd).invoked.Some? <==> Lookup(Table, cmd[ws..we]).Some?
    ensures Lookup(Table, cmd[ws..we]).Some? ==>
      Execution(d, cmd).invoked == Some(Invocation(Table[Lookup(Table, cmd[ws..we]).value].action, cmd[arg..]))
    ensures Lookup(Table, cmd[ws..we]).Some? ==>
      (Execution(d, cmd).calls == [] <==> Table[Lookup(Table, cmd[ws..we]).value].action != Help)
    ensures Lookup(Table, cmd[ws..we]).None? ==>
      Execution(d, cmd).calls == [Output(NoSuchCommand(d, cmd[ws..we]))]
  {
    SplitUnique(cmd, ws, we, arg);
  }

  /**
   * What is done once the command word `name` has been cut off and the line
   * goes on with `tail`: the word is looked up, and the entry found is
   * invoked on `tail` without its leading blanks.
   */
  function Dispatched(d: Dialect, name: string, tail: string): Outcome {
    match Lookup(Table, name)
    case None => Outcome([Output(NoSuchCommand(d, name))], None)
    case Some(i) =>
      var arg := tail[Lead(tail, BlankChars)..];
      var calls := if Table[i].action == Help then [Output(HelpText(d.help, arg))] else [];
      Outcome(calls, Some(Invocation(Table[i].action, arg)))
  }

  /** Cutting the line after its command word and dispatching on the two parts executes the line. */
  lemma DispatchExecutes(d: Dialect, s: string)
    ensures Dispatched(d, Word(s), s[RestOffset(s)..]) == Execution(d, s)
  {
    ArgumentAfterRest(s);
  }

  /**
   * The second half of executing a line: looks up the command word cut off
   * at `word` (with or without the empty-name guard, as the front end
   * does), and either prints the error message or skips the blanks at
   * `rest` and invokes the entry's function on what follows.
   */
  method Dispatch(d: Dialect, a: array<char>, word: nat, rest: nat) returns (o: Outcome)
    requires word <= a.Length && NUL in a[word..] && rest <= a.Length && NUL in a[rest..]
    ensures o == Dispatched(d, CStr(a[..], word), CStr(a[..], rest))
  {
    var name := CStr(a[..], word);
    var found: Option<nat>;
    if d.guardsEmpty {
      found := FindCommand(name);
    } else {
      found := ScanTable(name);
    }
    if found.None? {
      return Outcome([Output(NoSuchCommand(d, name))], None);
    }
    var action := Table[found.value].action;
    var arg := ReadArgument(a, rest);
    var calls := [];
    if action == Help {
      var text := PrintHelp(d.help, arg);
      calls := [Output(text)];
    }
    o := Outcome(calls, Some(Invocation(action, arg)));
  }

  /**
   * Executing the line that starts at `from`: cuts off the command word,
   * then dispatches on it.
   */
  method ExecuteCommand(d: Dialect, a: array<char>, from: nat) returns (o: Outcome)
    requires from <= a.Length && NUL in a[from..]
    modifies a
    ensures a[..] == Isolated(old(a[..]), from)
    ensures o == Execution(d, old(CStr(a[..], from)))
  {
    ghost var b := a[..];
    ghost var s := CStr(b, from);
    var word, rest := IsolateWord(a, from);
    IsolatedContents(b, from, s, a[..]);
    DispatchExecutes(d, s);
    o := Dispatch(d, a, word, rest);
  }

  // ---------------------------------------------------------------------
  // One line read by the engine

  /**
   * What one line read by the engine leads to: a line that trims to nothing
   * does nothing; any other line goes into the history (trimmed of its
   * trailing white space only) and is then executed, trimmed at both ends.
   */
  function LineOutcome(d: Dialect, l: string): Outcome
  {
    var cmd := Strip(l, d.white);
    if cmd == [] then Outcome([], None)
    else
      var e := Execution(d, cmd);
      Outcome([HistoryAdd(l[..Lead(l, d.white)] + cmd)] + e.calls, e.invoked)
  }

  /** A line made only of characters the front end trims is neither added to the history nor executed. */
  lemma BlankLineDoesNothing(d: Dialect, l: string)
    requires forall k :: 0 <= k < |l| ==> l[k] in d.white
    ensures LineOutcome(d, l) == Outcome([], None)
  {
  }

  /**
   * Any other line is added to the history, without its trailing trimmed
   * characters, before anything its command does; then it is executed,
   * trimmed at both ends.
   */
  lemma HistoryComesFirst(d: Dialect, l: string)
    requires exists k :: 0 <= k < |l| && l[k] !in d.white
    ensures var o := LineOutcome(d, l);
      && |o.calls| > 0 && o.calls[0] == HistoryAdd(l[..Lead(l, d.white)] + Strip(l, d.white))
      && o.calls[1..] == Execution(d, Strip(l, d.white)).calls
      && o.invoked == Execution(d, Strip(l, d.white)).invoked
  {
    var cmd := Strip(l, d.white);
    assert cmd != [];
    var h := [HistoryAdd(l[..Lead(l, d.white)] + cmd)];
    assert (h + Execution(d, cmd).calls)[1..] == Execution(d, cmd).calls;
  }

  /** The line invoked quit. */
  predicate Quits(o: Outcome) {
    o.invoked.Some? && o.invoked.value.action == Quit
  }

  /**
   * The line buffer `b` once its line has been accepted: trimmed in place
   * and, when anything was left, with its command word cut off.
   */
  function Accepted(b: seq<char>, ws: set<char>): (c: seq<char>)
    requires NUL in b && NUL !in ws
    ensures |c| == |b|
  {
    var t := Trimmed(b, ws);
    if Strip(CStr(b, 0), ws) == [] then t
    else
      TrimmedLine(b, ws);
      Isolated(t, Lead(CStr(b, 0), ws))
  }

  /**
   * The body of the read loop on one line in a buffer: trims it in place
   * and, if anything is left, adds the line to the history and then
   * executes it.
   */
  method AcceptLine(d: Dialect, a: array<char>) returns (o: Outcome)
    requires NUL in a[..] && NUL !in d.white
    modifies a
    ensures o == LineOutcome(d, old(CStr(a[..], 0)))
    ensures a[..] == Accepted(old(a[..]), d.white)
  {
    ghost var b := a[..];
    var s := TrimInPlace(a, d.white);
    TrimmedLine(b, d.white);
    if a[s] == NUL {
      assert CStr(a[..], s) == [];
      return Outcome([], None);
    }
    var line := CStr(a[..], 0);
    var e := ExecuteCommand(d, a, s);
    o := Outcome([HistoryAdd(line)] + e.calls, e.invoked);
  }

  /** The outcome each line would have if it were accepted. */
  function Outcomes(d: Dialect, lines: seq<string>): (outs: seq<Outcome>)
    ensures |outs| == |lines|
    decreases |lines|
  {
    if lines == [] then [] else [LineOutcome(d, lines[0])] + Outcomes(d, lines[1..])
  }

  /** Entry `k` of the outcomes is the outcome of line `k`. */
  lemma {:induction false} OutcomeAt(d: Dialect, lines: seq<string>, k: nat)
    requires k < |lines|
    ensures Outcomes(d, lines)[k] == LineOutcome(d, lines[k])
    decreases k
  {
    if k > 0 {
      OutcomeAt(d, lines[1..], k - 1);
    }
  }

  /** Line `i` as the engine hands it over, in a fresh NUL-terminated buffer, accepted. */
  method ReadAndAccept(d: Dialect, lines: seq<string>, i: nat) returns (o: Outcome)
    requires i < |lines| && NUL !in lines[i] && NUL !in d.white
    ensures o == Outcomes(d, lines)[i]
  {
    var l := lines[i];
    var a := new char[|l| + 1](k => if 0 <= k < |l| then l[k] else NUL);
    assert a[..] == l + [NUL];
    CStrOfTerminated(l);
    o := AcceptLine(d, a);
    OutcomeAt(d, lines, i);
  }

  /** Every engine call of the lines with outcomes `outs`, in order. */
  function AllCalls(outs: seq<Outcome>): seq<EngineCall>
    decreases |outs|
  {
    if outs == [] then [] else outs[0].calls + AllCalls(outs[1..])
  }

  /** The calls of two runs of lines are those of the first run followed by those of the second. */
  lemma {:induction false} AllCallsAppend(a: seq<Outcome>, b: seq<Outcome>)
    ensures AllCalls(a + b) == AllCalls(a) + AllCalls(b)
    decreases |a|
  {
    if a == [] {
      assert a + b == b;
    } else {
      assert (a + b)[0] == a[0];
      assert (a + b)[1..] == a[1..] + b;
      AllCallsAppend(a[1..], b);
    }
  }
}
