/**
 * The command table both front ends declare, the lookup by unambiguous
 * prefix they run over it, and the split of a command line into command word
 * and argument.
 */
module Commands {
  import opened CText
  import opened Wrappers
  import opened Engine

  /** What a table entry runs when its name is looked up. */
  datatype Action = Command1 | Command2 | Help | Quit

  datatype Command = Command(name: string, action: Action, doc: string)

  /** A table entry's function called with an argument string. */
  datatype Invocation = Invocation(action: Action, arg: string)

  /**
   * What executing one line does: the engine calls made, in order, and the
   * command function invoked, if any.
   */
  datatype Outcome = Outcome(calls: seq<EngineCall>, invoked: Option<Invocation>)

  /**
   * The table, in declaration order; the NULL sentinel that ends it in the
   * source is the index `|Table|`. The source asks for alphabetical order,
   * which "?" after "quit" does not keep.
   */
  const Table: seq<Command> := [
    Command("command_1", Command1, ""),
    Command("command_2", Command2, ""),
    Command("help", Help, ""),
    Command("quit", Quit, ""),
    Command("?", Help, "")
  ]

  /** `strncmp(q, name, strlen(q)) == 0` on NUL-free strings: `name` begins with `q`. */
  predicate HasPrefix(name: string, q: string) { q <= name }

  /** `i` is the first entry of `t` that begins with `q`. */
  ghost predicate IsFirstMatch(t: seq<Command>, q: string, i: nat) {
    i < |t| && HasPrefix(t[i].name, q) && forall j :: 0 <= j < i ==> !HasPrefix(t[j].name, q)
  }

  /** The entry right after `i` exists and begins with `q` as well. */
  predicate NextAlsoMatches(t: seq<Command>, q: string, i: nat) {
    i + 1 < |t| && HasPrefix(t[i + 1].name, q)
  }

  /**
   * Lookup by prefix: the first entry that begins with `q`, unless the entry
   * right after it begins with `q` too, in which case there is no result.
   */
  function Lookup(t: seq<Command>, q: string): (r: Option<nat>)
    ensures r.Some? ==> IsFirstMatch(t, q, r.value) && !NextAlsoMatches(t, q, r.value)
    ensures r.None? ==> forall i :: IsFirstMatch(t, q, i) ==> NextAlsoMatches(t, q, i)
  {
    LookupFrom(t, q, 0)
  }

  function LookupFrom(t: seq<Command>, q: string, i: nat): (r: Option<nat>)
    requires i <= |t|
    requires forall j :: 0 <= j < i ==> !HasPrefix(t[j].name, q)
    ensures r.Some? ==> IsFirstMatch(t, q, r.value) && !NextAlsoMatches(t, q, r.value)
    ensures r.None? ==> forall k :: IsFirstMatch(t, q, k) ==> NextAlsoMatches(t, q, k)
    decreases |t| - i
  {
    if i == |t| then None
    else if HasPrefix(t[i].name, q) then
      if NextAlsoMatches(t, q, i) then None else Some(i)
    else LookupFrom(t, q, i + 1)
  }

  /**
   * The scan loop of the lookup in both front ends: walks the table up to
   * its sentinel and stops at the first entry that begins with `name`.
   */
  method ScanTable(name: string) returns (r: Option<nat>)
    ensures r == Lookup(Table, name)
  {
    var i := 0;
    while i < |Table|
      invariant i <= |Table|
      invariant forall j :: 0 <= j < i ==> !HasPrefix(Table[j].name, name)
    {
      if HasPrefix(Table[i].name, name) {
        if i + 1 < |Table| && HasPrefix(Table[i + 1].name, name) {
          return None;
        }
        return Some(i);
      }
      i := i + 1;
    }
    return None;
  }

  /**
   * The prompt's guarded lookup: an empty name finds nothing without a
   * scan; any other name is looked up by the scan. The telnet session's
   * guard tests the pointer instead, so it calls the scan directly.
   */
  method FindCommand(name: string) returns (r: Option<nat>)
    ensures r == Lookup(Table, name)
    ensures name == [] ==> r == None
  {
    if name == [] {
      EmptyQueryFindsNothing();
      return None;
    }
    r := ScanTable(name);
  }

  /** Exactly one entry of `t`, entry `i`, begins with `q`. */
  ghost predicate UniqueMatch(t: seq<Command>, q: string, i: nat) {
    i < |t| && HasPrefix(t[i].name, q) &&
    forall j :: 0 <= j < |t| && j != i ==> !HasPrefix(t[j].name, q)
  }

  /**
   * Entries that share a prefix sit next to each other: whenever entries
   * `i < j` both begin with `q`, so does entry `i + 1`. A table sorted by
   * name has this shape, which is why the source asks for one.
   */
  ghost predicate PrefixGroupsAdjacent(t: seq<Command>) {
    forall q: string, i, j {:trigger HasPrefix(t[i].name, q), HasPrefix(t[j].name, q)} ::
      0 <= i < j < |t| && HasPrefix(t[i].name, q) && HasPrefix(t[j].name, q) ==> HasPrefix(t[i + 1].name, q)
  }

  /**
   * On a table whose prefix groups are adjacent, checking only the next
   * entry is enough: the lookup finds an entry exactly when it is the only
   * one that begins with the query.
   */
  lemma {:induction false} AdjacentLookupIsUnique(t: seq<Command>, q: string, i: nat)
    requires PrefixGroupsAdjacent(t)
    ensures Lookup(t, q) == Some(i) <==> UniqueMatch(t, q, i)
  {
    if UniqueMatch(t, q, i) {
      assert IsFirstMatch(t, q, i);
    }
  }

  /** The names that two different entries of Table both begin with. */
  lemma SharedPrefixes(q: string, i: nat, j: nat)
    requires i < j < |Table|
    requires HasPrefix(Table[i].name, q) && HasPrefix(Table[j].name, q)
    ensures q == [] || (i == 0 && j == 1)
  {
    if q != [] {
      assert Table[i].name[0] == q[0] == Table[j].name[0];
    }
  }

  /** Table, though not sorted, keeps its prefix groups adjacent. */
  lemma TablePrefixGroupsAdjacent()
    ensures PrefixGroupsAdjacent(Table)
  {
    forall q: string, i, j {:trigger HasPrefix(Table[i].name, q), HasPrefix(Table[j].name, q)}
      | 0 <= i < j < |Table| && HasPrefix(Table[i].name, q) && HasPrefix(Table[j].name, q)
      ensures HasPrefix(Table[i + 1].name, q)
    {
      SharedPrefixes(q, i, j);
    }
  }

  /** On Table, the lookup returns an entry exactly when the query selects one entry only. */
  lemma TableLookupIsUnique(q: string, i: nat)
    ensures Lookup(Table, q) == Some(i) <==> UniqueMatch(Table, q, i)
  {
    TablePrefixGroupsAdjacent();
    AdjacentLookupIsUnique(Table, q, i);
  }

  /** The empty query begins every name, so both first entries match and nothing is found. */
  lemma EmptyQueryFindsNothing()
    ensures Lookup(Table, "") == None
  {
    assert IsFirstMatch(Table, "", 0);
  }

  /** Abbreviations as the source's users type them. */
  lemma LookupExamples()
    ensures Lookup(Table, "h") == Some(2)
    ensures Lookup(Table, "q") == Some(3)
    ensures Lookup(Table, "?") == Some(4)
    ensures Lookup(Table, "command_2") == Some(1)
    ensures Lookup(Table, "command") == None
    ensures Lookup(Table, "helpme") == None
  {
    assert IsFirstMatch(Table, "command", 0);
    assert "command_2"[8] != Table[0].name[8];
    assert IsFirstMatch(Table, "command_2", 1);
    assert "h"[0] != Table[0].name[0] && "h"[0] != Table[1].name[0];
    assert IsFirstMatch(Table, "h", 2);
    assert "q"[0] != Table[2].name[0];
    assert IsFirstMatch(Table, "q", 3);
    assert "?"[0] != Table[3].name[0];
    assert IsFirstMatch(Table, "?", 4);
    assert "helpme"[0] != Table[3].name[0] && "helpme"[0] != Table[4].name[0];
  }

  // ---------------------------------------------------------------------
  // Splitting a command line

  /** Length of the leading run of characters of `t` that are not space or tab. */
  function WordLen(t: string): (n: nat)
    ensures n <= |t|
    ensures forall k :: 0 <= k < n ==> !IsBlank(t[k])
    ensures n < |t| ==> IsBlank(t[n])
  {
    if |t| > 0 && !IsBlank(t[0]) then 1 + WordLen(t[1..]) else 0
  }

  /**
   * `s` divides into leading blanks `s[..ws]`, the command word
   * `s[ws..we]`, the blanks `s[we..as]` after it and the argument `s[as..]`:
   * each run of blanks and the word is as long as it can be.
   */
  ghost predicate IsSplit(s: string, ws: nat, we: nat, arg: nat) {
    && ws <= we <= arg <= |s|
    && (forall k :: 0 <= k < ws ==> IsBlank(s[k]))
    && (ws < |s| ==> !IsBlank(s[ws]))
    && (forall k :: ws <= k < we ==> !IsBlank(s[k]))
    && (we < |s| ==> IsBlank(s[we]))
    && (forall k :: we <= k < arg ==> IsBlank(s[k]))
    && (arg < |s| ==> !IsBlank(s[arg]))
  }

  /** Where the command word starts and ends and where the argument starts. */
  function SplitAt(s: string): (r: (nat, nat, nat))
    ensures IsSplit(s, r.0, r.1, r.2)
  {
    var ws := Lead(s, BlankChars);
    var we := ws + WordLen(s[ws..]);
    (ws, we, we + Lead(s[we..], BlankChars))
  }

  /** The division is unique: any split of `s` is the one SplitAt computes. */
  lemma SplitUnique(s: string, ws: nat, we: nat, arg: nat)
    requires IsSplit(s, ws, we, arg)
    ensures SplitAt(s) == (ws, we, arg)
  {
    var r := SplitAt(s);
    assert r.0 == ws;
    assert r.1 == we;
  }

  /** The command word of `s`. */
  function Word(s: string): string {
    var (ws, we, _) := SplitAt(s);
    s[ws..we]
  }

  /** The argument of `s`: everything after the blanks that follow the command word. */
  function Argument(s: string): string {
    s[SplitAt(s).2..]
  }

  /**
   * Offset, within the line, of where the argument scan resumes after the
   * command word has been cut off: one past the blank that ends the word, or
   * the end of the line when the word runs up to it.
   */
  function RestOffset(s: string): (d: nat)
    ensures d <= |s|
    ensures d == SplitAt(s).1 || d == SplitAt(s).1 + 1
    ensures d == SplitAt(s).1 + 1 <==> SplitAt(s).1 < |s|
  {
    var we := SplitAt(s).1;
    if we < |s| then we + 1 else we
  }

  /**
   * The buffer after the command word of the C string at `from` has been cut
   * off: the blank that ends the word overwritten by a NUL, if there is one.
   */
  function Isolated(b: seq<char>, from: nat): (c: seq<char>)
    requires from <= |b| && NUL in b[from..]
    ensures |c| == |b|
  {
    var s := CStr(b, from);
    var we := SplitAt(s).1;
    if we < |s| then b[from + we := NUL] else b
  }

  /**
   * In a buffer `c` that holds no NUL in `[i, j)` and a NUL at `j`, the C
   * string at `i` is `c[i..j]`, which is also `b[i..j]` for any buffer `b`
   * that agrees with `c` there.
   */
  lemma CStrBetween(b: seq<char>, c: seq<char>, i: nat, j: nat)
    requires i <= j < |c| && c[j] == NUL && j <= |b|
    requires forall k :: i <= k < j ==> c[k] == b[k] && b[k] != NUL
    ensures NUL in c[i..] && CStr(c, i) == b[i..j]
  {
    CStrEndsAt(c, i, j - i);
    assert c[i..j] == b[i..j];
  }

  /**
   * The cut on raw offsets: the line `s` occupies `[from, from + |s|)` of
   * `b` with its NUL just after it, and the word `s[ws..we]` is cut off by a
   * NUL at offset `we` when the line goes on past it.
   */
  lemma CutWord(b: seq<char>, c: seq<char>, s: string, from: nat, ws: nat, we: nat, d: nat)
    requires from + |s| < |b| && b[from + |s|] == NUL && s == b[from..from + |s|] && NUL !in s
    requires ws <= we <= |s| && d == (if we < |s| then we + 1 else we)
    requires c == (if we < |s| then b[from + we := NUL] else b)
    ensures NUL in c[from + ws..] && CStr(c, from + ws) == s[ws..we]
    ensures NUL in c[from + d..] && CStr(c, from + d) == s[d..]
  {
    if we < |s| {
      var e := b[from + we := NUL];
      assert c == e && d == we + 1;
      forall k | from <= k < from + |s| && k != from + we ensures e[k] == b[k] {
      }
      CStrOfPart(b, e, s, from, ws, we);
      CStrOfPart(b, e, s, from, d, |s|);
    } else {
      CStrOfPart(b, c, s, from, ws, we);
      CStrOfPart(b, c, s, from, d, |s|);
    }
  }

  /**
   * A part `s[i..j]` of the line `s` stored at `from` in `b` is the C string
   * at `from + i` of any buffer `c` that agrees with `b` there and has a NUL
   * at `from + j`.
   */
  lemma CStrOfPart(b: seq<char>, c: seq<char>, s: string, from: nat, i: nat, j: nat)
    requires from + |s| < |b| == |c| && s == b[from..from + |s|] && NUL !in s
    requires i <= j <= |s| && c[from + j] == NUL
    requires forall k :: from + i <= k < from + j ==> c[k] == b[k]
    ensures NUL in c[from + i..] && CStr(c, from + i) == s[i..j]
  {
    forall k | from + i <= k < from + j ensures b[k] != NUL {
      assert b[k] == s[k - from];
    }
    CStrBetween(b, c, from + i, from + j);
    SliceOfSlice(b, s, from, i, j);
  }

  /** A slice of a slice is a slice of the whole. */
  lemma SliceOfSlice(b: seq<char>, s: seq<char>, from: nat, x: nat, y: nat)
    requires from + |s| <= |b| && s == b[from..from + |s|] && x <= y <= |s|
    ensures s[x..y] == b[from + x..from + y]
  {
    forall k | 0 <= k < y - x ensures s[x..y][k] == b[from + x..from + y][k] {
      assert s[x + k] == b[from + x + k];
    }
  }

  /**
   * After the cut, the buffer holds the command word as a C string of its
   * own at its first character, and the rest of the line, unchanged, at the
   * resume offset.
   */
  lemma IsolatedContents(b: seq<char>, from: nat, s: string, c: seq<char>)
    requires from <= |b| && NUL in b[from..] && s == CStr(b, from) && c == Isolated(b, from)
    ensures NUL in c[from + SplitAt(s).0..] && CStr(c, from + SplitAt(s).0) == Word(s)
    ensures NUL in c[from + RestOffset(s)..] && CStr(c, from + RestOffset(s)) == s[RestOffset(s)..]
  {
    var r := SplitAt(s);
    CutWord(b, c, s, from, r.0, r.1, RestOffset(s));
  }

  /** Skipping the blanks at the resume offset lands on the argument. */
  lemma ArgumentAfterRest(s: string)
    ensures RestOffset(s) + Lead(s[RestOffset(s)..], BlankChars) == SplitAt(s).2
    ensures s[RestOffset(s)..][Lead(s[RestOffset(s)..], BlankChars)..] == Argument(s)
  {
    var (ws, we, arg) := SplitAt(s);
    var r := RestOffset(s);
    var t := s[r..];
    var n := arg - r;
    assert forall k :: 0 <= k < n ==> t[k] == s[r + k];
    if n < |t| {
      assert t[n] == s[arg];
    }
    assert Lead(t, BlankChars) == n;
    assert t[n..] == s[arg..];
  }

  /**
   * The first half of executing a line, as both front ends write it: skips
   * the blanks before the command word, walks to the first blank after the
   * word, and if the line goes on overwrites that blank with a NUL so that
   * the word becomes a C string of its own. Returns where the word starts
   * and the index just past the written NUL (the end of the line if nothing
   * was written).
   */
  method IsolateWord(a: array<char>, from: nat) returns (word: nat, rest: nat)
    requires from <= a.Length && NUL in a[from..]
    modifies a
    ensures a[..] == Isolated(old(a[..]), from)
    ensures word == from + SplitAt(old(CStr(a[..], from))).0
    ensures rest == from + RestOffset(old(CStr(a[..], from)))
  {
    ghost var b := a[..];
    ghost var n := from + StrLen(b, from);
    var i := from;
    while a[i] != NUL && IsBlank(a[i])
      invariant a[..] == b && from <= i <= n
      invariant forall k :: from <= k < i ==> IsBlank(b[k])
      decreases n - i
    {
      i := i + 1;
    }
    word := i;
    while a[i] != NUL && !IsBlank(a[i])
      invariant a[..] == b && word <= i <= n
      invariant forall k :: word <= k < i ==> !IsBlank(b[k])
      decreases n - i
    {
      i := i + 1;
    }
    WordBounds(b, from, word, i);
    if a[i] != NUL {
      a[i] := NUL;
      i := i + 1;
    }
    rest := i;
  }

  /** The two scans of IsolateWord stop at the bounds of the command word. */
  lemma WordBounds(b: seq<char>, from: nat, word: nat, i: nat)
    requires from <= |b| && NUL in b[from..]
    requires from <= word <= i <= from + |CStr(b, from)|
    requires forall k :: from <= k < word ==> IsBlank(b[k])
    requires b[word] != NUL ==> !IsBlank(b[word])
    requires forall k :: word <= k < i ==> !IsBlank(b[k])
    requires b[i] != NUL ==> IsBlank(b[i])
    ensures word == from + SplitAt(CStr(b, from)).0
    ensures i == from + SplitAt(CStr(b, from)).1
    ensures i < from + |CStr(b, from)| <==> b[i] != NUL
  {
    var s := CStr(b, from);
    assert forall k :: from <= k < from + |s| ==> b[k] == s[k - from];
    SplitUnique(s, word - from, i - from, SplitAt(s).2);
  }

  /**
   * The loop that skips the blanks in front of the argument: returns the
   * index of the first character of the C string at `i` that is neither
   * space nor tab.
   */
  method SkipBlanks(a: array<char>, i: nat) returns (j: nat)
    requires i <= a.Length && NUL in a[i..]
    ensures j == i + Lead(CStr(a[..], i), BlankChars)
    ensures j <= a.Length && NUL in a[j..] && CStr(a[..], j) == CStr(a[..], i)[j - i..]
  {
    ghost var b := a[..];
    ghost var n := i + StrLen(b, i);
    j := i;
    while IsBlank(a[j])
      invariant i <= j <= n
      invariant forall k :: i <= k < j ==> IsBlank(b[k])
      decreases n - j
    {
      assert a[j] == b[j] && j != n;
      j := j + 1;
    }
    assert a[j] == b[j];
    BlanksSkipped(b, i, j);
  }

  /** The argument of the line cut off at `rest`: the C string there without its leading blanks. */
  method ReadArgument(a: array<char>, rest: nat) returns (arg: string)
    requires rest <= a.Length && NUL in a[rest..]
    ensures var tail := CStr(a[..], rest); arg == tail[Lead(tail, BlankChars)..]
  {
    var j := SkipBlanks(a, rest);
    arg := CStr(a[..], j);
  }

  /** Where the scan over the blanks at `i` stops, the C string goes on unchanged. */
  lemma BlanksSkipped(b: seq<char>, i: nat, j: nat)
    requires i <= |b| && NUL in b[i..] && i <= j <= i + StrLen(b, i)
    requires forall k :: i <= k < j ==> IsBlank(b[k])
    requires !IsBlank(b[j])
    ensures j == i + Lead(CStr(b, i), BlankChars)
    ensures NUL in b[j..] && CStr(b, j) == CStr(b, i)[j - i..]
  {
    var s := CStr(b, i);
    forall k | 0 <= k < j - i ensures IsBlank(s[k]) {
      assert s[k] == b[i + k];
    }
    if j < i + |s| {
      assert s[j - i] == b[j];
      LeadAt(s, BlankChars, j - i);
    } else {
      assert Lead(s, BlankChars) == |s|;
    }
    CStrSuffix(b, i, j - i);
  }
}
