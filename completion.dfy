/**
 * The completion front end both command lines bind to TAB, SPACE and ENTER:
 * find the word that ends at the cursor, offer every table name to the
 * engine's match list, and let the engine complete from that list.
 */
module Completion {
  import opened CText
  import opened Commands
  import opened Engine

  // ---------------------------------------------------------------------
  // The word under the cursor

  /**
   * `start` is where the word that ends at the cursor `point` of `text`
   * begins: nothing between them is white space, and `start` is the start
   * of the line or follows a white-space character.
   */
  ghost predicate IsWordStart(text: string, point: nat, start: nat) {
    && start <= point <= |text|
    && (forall k :: start <= k < point ==> !IsSpace(text[k]))
    && (start == 0 || IsSpace(text[start - 1]))
  }

  /** The start of the word that ends at the cursor. */
  function WordStart(text: string, point: nat): (start: nat)
    requires point <= |text|
    ensures IsWordStart(text, point, start)
  {
    WordStartBelow(text, point, point)
  }

  function WordStartBelow(text: string, point: nat, i: nat): (start: nat)
    requires i <= point <= |text|
    requires forall k :: i <= k < point ==> !IsSpace(text[k])
    ensures IsWordStart(text, point, start)
    decreases i
  {
    if i == 0 || IsSpace(text[i - 1]) then i else WordStartBelow(text, point, i - 1)
  }

  /** The word start is unique: any position with its defining property is WordStart. */
  lemma WordStartUnique(text: string, point: nat, start: nat)
    requires IsWordStart(text, point, start)
    ensures WordStart(text, point) == start
  {
  }

  // ---------------------------------------------------------------------
  // One completion attempt

  /** What `complete` returns, where the word starts, and what it asked of the engine. */
  datatype CompletionRun = CompletionRun(ok: bool, start: nat, calls: seq<EngineCall>)

  /** Every table name offered, in table order, as completion of the word at `start`. */
  function MatchCalls(start: nat): (calls: seq<EngineCall>)
    ensures |calls| == |Table|
    ensures forall i :: 0 <= i < |Table| ==> calls[i] == AddMatch(start, Table[i].name)
  {
    seq(|Table|, i requires 0 <= i < |Table| => AddMatch(start, Table[i].name))
  }

  /**
   * One call of `complete(t, allowPrefix, allowEmpty)` on line `text` with
   * the cursor at `point`, the engine answering `ans`: an empty word with
   * `allowEmpty` succeeds without consulting the table; otherwise every
   * table name is offered, and when the match list is non-empty the engine
   * completes from it and the list is deleted.
   */
  function CompletionOf(text: string, point: nat, allowPrefix: bool, allowEmpty: bool, ans: Answers): (r: CompletionRun)
    requires point <= |text|
    ensures IsWordStart(text, point, r.start)
    ensures r.calls == [] <==> allowEmpty && r.start == point
    ensures r.ok <==> (allowEmpty && r.start == point) || (ans.matched && ans.completed)
    ensures CompleteMatches(r.start, allowPrefix) in r.calls <==> !(allowEmpty && r.start == point) && ans.matched
  {
    var start := WordStart(text, point);
    if start == point && allowEmpty then
      CompletionRun(true, start, [])
    else if !ans.matched then
      CompletionRun(false, start, MatchCalls(start))
    else
      assert (MatchCalls(start) + [CompleteMatches(start, allowPrefix), DeleteMatches])[|Table|]
        == CompleteMatches(start, allowPrefix);
      CompletionRun(ans.completed, start, MatchCalls(start) + [CompleteMatches(start, allowPrefix), DeleteMatches])
  }

  /** With `allowEmpty` and the cursor right after white space, completion succeeds and the engine is left alone. */
  lemma EmptyWordShortCircuits(text: string, point: nat, allowPrefix: bool, ans: Answers)
    requires point <= |text| && (point == 0 || IsSpace(text[point - 1]))
    ensures CompletionOf(text, point, allowPrefix, true, ans) == CompletionRun(true, point, [])
  {
    WordStartUnique(text, point, point);
  }

  /** When no table name ends up in the match list, completion fails and the engine is only offered the names. */
  lemma NoMatchesFails(text: string, point: nat, allowPrefix: bool, allowEmpty: bool, ans: Answers)
    requires point <= |text| && !ans.matched
    ensures var r := CompletionOf(text, point, allowPrefix, allowEmpty, ans);
      !(allowEmpty && r.start == point) ==> !r.ok && forall c :: c in r.calls ==> c.AddMatch?
  {
  }

  /** Completion only offers names, completes and deletes the match list: it never ends or moves the line. */
  lemma CompletionMakesNoLineCalls(text: string, point: nat, allowPrefix: bool, allowEmpty: bool, ans: Answers)
    requires point <= |text|
    ensures forall c :: c in CompletionOf(text, point, allowPrefix, allowEmpty, ans).calls ==>
      c.AddMatch? || c.CompleteMatches? || c.DeleteMatches?
  {
    var r := CompletionOf(text, point, allowPrefix, allowEmpty, ans);
    forall c | c in r.calls ensures c.AddMatch? || c.CompleteMatches? || c.DeleteMatches? {
      var i :| 0 <= i < |r.calls| && r.calls[i] == c;
      if i < |Table| {
        assert c == MatchCalls(r.start)[i];
      }
    }
  }

  /**
   * `complete` as both front ends write it: steps back from the cursor over
   * non-white-space characters, returns at once for an empty word when that
   * is allowed, offers every table name, and completes from the match list
   * if it is non-NULL.
   */
  method Complete(text: string, point: nat, allowPrefix: bool, allowEmpty: bool, ans: Answers) returns (r: CompletionRun)
    requires point <= |text|
    ensures r == CompletionOf(text, point, allowPrefix, allowEmpty, ans)
  {
    var start: nat := point;
    while start > 0 && !IsSpace(text[start - 1])
      invariant start <= point
      invariant forall k :: start <= k < point ==> !IsSpace(text[k])
    {
      start := start - 1;
    }
    WordStartUnique(text, point, start);
    if start == point && allowEmpty {
      return CompletionRun(true, start, []);
    }
    var calls: seq<EngineCall> := [];
    var count := 0;
    while count < |Table|
      invariant count <= |Table| && |calls| == count
      invariant forall i :: 0 <= i < count ==> calls[i] == AddMatch(start, Table[i].name)
    {
      calls := calls + [AddMatch(start, Table[count].name)];
      count := count + 1;
    }
    assert calls == MatchCalls(start);
    if !ans.matched {
      return CompletionRun(false, start, calls);
    }
    calls := calls + [CompleteMatches(start, allowPrefix), DeleteMatches];
    return CompletionRun(ans.completed, start, calls);
  }

  // ---------------------------------------------------------------------
  // TAB and SPACE

  /**
   * A key that completes and then types a space: with the flags of TAB
   * (`allowPrefix` false) or of SPACE (true), and `allowEmpty` false.
   * Exactly one space is inserted when completion succeeded, none when it
   * failed, and then the key reports what the insertion reported.
   */
  method CompleteAndSpace(text: string, point: nat, allowPrefix: bool, ans: Answers) returns (ok: bool, calls: seq<EngineCall>)
    requires point <= |text|
    ensures var c := CompletionOf(text, point, allowPrefix, false, ans);
      && (c.ok ==> calls == c.calls + [InsertText(" ")] && ok == ans.inserted)
      && (!c.ok ==> calls == c.calls && !ok)
    ensures InsertText(" ") in calls <==> CompletionOf(text, point, allowPrefix, false, ans).ok
    ensures ok ==> ans.matched && ans.completed && ans.inserted
  {
    var c := Complete(text, point, allowPrefix, false, ans);
    assert forall e :: e in c.calls ==> !e.InsertText?;
    if c.ok {
      calls := c.calls + [InsertText(" ")];
      ok := ans.inserted;
    } else {
      calls := c.calls;
      ok := false;
    }
  }

  /** `tab_key`: completes the word without accepting a mere prefix, then types a space. */
  method TabKey(text: string, point: nat, ans: Answers) returns (ok: bool, calls: seq<EngineCall>)
    requires point <= |text|
    ensures calls == CompletionOf(text, point, false, false, ans).calls
      + (if CompletionOf(text, point, false, false, ans).ok then [InsertText(" ")] else [])
    ensures ok <==> CompletionOf(text, point, false, false, ans).ok && ans.inserted
  {
    ok, calls := CompleteAndSpace(text, point, false, ans);
  }

  /** `space_key`: completes the word, accepting a unique prefix, then types a space. */
  method SpaceKey(text: string, point: nat, ans: Answers) returns (ok: bool, calls: seq<EngineCall>)
    requires point <= |text|
    ensures calls == CompletionOf(text, point, true, false, ans).calls
      + (if CompletionOf(text, point, true, false, ans).ok then [InsertText(" ")] else [])
    ensures ok <==> CompletionOf(text, point, true, false, ans).ok && ans.inserted
  {
    ok, calls := CompleteAndSpace(text, point, true, ans);
  }
}
