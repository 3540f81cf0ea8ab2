/**
 * C strings and character classes, as both command-line front ends use them.
 *
 * A C string lives in a `char` buffer and runs from some start index up to
 * the first NUL. The front ends trim and split lines by moving indices over
 * such a buffer and by writing NUL terminators into it in place.
 */
module CText {

  /** The C string terminator. */
  const NUL: char := '\0'

  /** The characters `isspace` accepts in the "C" locale: space, \t, \n, \v, \f and \r. */
  const SpaceChars: set<char> := {' ', '\t', '\n', '\U{000B}', '\U{000C}', '\r'}

  /** The two separators the command splitter and the local prompt's trim test for. */
  const BlankChars: set<char> := {' ', '\t'}

  predicate IsSpace(c: char) { c in SpaceChars }

  predicate IsBlank(c: char) { c in BlankChars }

  /** Distance from `from` to the first NUL at or after it: `strlen(s + from)`. */
  function StrLen(s: seq<char>, from: nat): (n: nat)
    requires from <= |s| && NUL in s[from..]
    ensures from + n < |s| && s[from + n] == NUL
    ensures forall k :: from <= k < from + n ==> s[k] != NUL
    decreases |s| - from
  {
    if s[from] == NUL then 0
    else
      assert s[from..] == [s[from]] + s[from + 1..];
      StrLen(s, from + 1) + 1
  }

  /** The C string that starts at `from`: the characters before the next NUL. */
  function CStr(s: seq<char>, from: nat): (r: seq<char>)
    requires from <= |s| && NUL in s[from..]
    ensures NUL !in r
    ensures from + |r| < |s| && s[from + |r|] == NUL
    ensures r == s[from..from + |r|]
  {
    s[from..from + StrLen(s, from)]
  }

  /** A NUL at `from + n` with none before it ends the C string there. */
  lemma CStrEndsAt(s: seq<char>, from: nat, n: nat)
    requires from + n < |s| && s[from + n] == NUL
    requires forall k :: from <= k < from + n ==> s[k] != NUL
    ensures NUL in s[from..]
    ensures CStr(s, from) == s[from..from + n]
  {
    assert s[from..][n] == NUL;
  }

  /** Dropping the first `d` characters of a C string gives the C string `d` further on. */
  lemma CStrSuffix(b: seq<char>, i: nat, d: nat)
    requires i <= |b| && NUL in b[i..] && d <= |CStr(b, i)|
    ensures NUL in b[i + d..] && CStr(b, i + d) == CStr(b, i)[d..]
  {
    var s := CStr(b, i);
    forall k | i + d <= k < i + |s| ensures b[k] != NUL {
      assert b[k] == s[k - i];
    }
    CStrEndsAt(b, i + d, |s| - d);
  }

  /** A buffer holding exactly the NUL-free line `l` followed by its terminator. */
  lemma CStrOfTerminated(l: seq<char>)
    requires NUL !in l
    ensures NUL in (l + [NUL])[0..]
    ensures CStr(l + [NUL], 0) == l
  {
    var s := l + [NUL];
    forall k | 0 <= k < |l| ensures s[k] != NUL {
      assert s[k] == l[k];
    }
    CStrEndsAt(s, 0, |l|);
    assert s[0..|l|] == l;
  }

  /** Number of leading characters of `t` that belong to `ws`. */
  function Lead(t: seq<char>, ws: set<char>): (n: nat)
    ensures n <= |t|
    ensures forall k :: 0 <= k < n ==> t[k] in ws
    ensures n < |t| ==> t[n] !in ws
  {
    if |t| > 0 && t[0] in ws then 1 + Lead(t[1..], ws) else 0
  }

  /** Number of trailing characters of `t` that belong to `ws`. */
  function Trail(t: seq<char>, ws: set<char>): (n: nat)
    ensures n <= |t|
    ensures forall k :: |t| - n <= k < |t| ==> t[k] in ws
    ensures n < |t| ==> t[|t| - n - 1] !in ws
  {
    if |t| > 0 && t[|t| - 1] in ws then 1 + Trail(t[..|t| - 1], ws) else 0
  }

  /**
   * `t` with the characters of `ws` removed from both ends: the contiguous
   * part of `t` that starts after its leading run of `ws` characters and
   * stops before its trailing run.
   */
  function Strip(t: seq<char>, ws: set<char>): (r: seq<char>)
    ensures Lead(t, ws) + |r| <= |t| && r == t[Lead(t, ws)..Lead(t, ws) + |r|]
    ensures forall k :: Lead(t, ws) + |r| <= k < |t| ==> t[k] in ws
    ensures r != [] ==> r[0] !in ws && r[|r| - 1] !in ws
    ensures r == [] <==> forall k :: 0 <= k < |t| ==> t[k] in ws
  {
    var u := t[Lead(t, ws)..];
    var r := u[..|u| - Trail(u, ws)];
    assert forall k :: Lead(t, ws) + |r| <= k < |t| ==> t[k] == u[k - Lead(t, ws)];
    r
  }

  /**
   * Any way of cutting `t` into a run of `ws` characters, a middle part that
   * neither starts nor ends with one, and a run of `ws` characters, has
   * Strip's result as its middle part.
   */
  lemma StripUnique(t: seq<char>, ws: set<char>, i: nat, j: nat)
    requires i <= j <= |t|
    requires forall k :: 0 <= k < i ==> t[k] in ws
    requires forall k :: j <= k < |t| ==> t[k] in ws
    requires i < j ==> t[i] !in ws && t[j - 1] !in ws
    requires i == j ==> forall k :: 0 <= k < |t| ==> t[k] in ws
    ensures Strip(t, ws) == t[i..j]
  {
    var r := Strip(t, ws);
    var l := Lead(t, ws);
    if i == j {
      assert r == [];
    } else {
      assert l == i;
      assert r != [];
      assert l + |r| == j;
    }
  }

  /** Trimming a trimmed string changes nothing. */
  lemma StripIdempotent(t: seq<char>, ws: set<char>)
    ensures Strip(Strip(t, ws), ws) == Strip(t, ws)
  {
    var r := Strip(t, ws);
    StripUnique(r, ws, 0, |r|);
  }

  /**
   * Trimming fewer characters never cuts deeper: with `small` inside
   * `big`, the leading run of `small` is no longer than that of `big`, and
   * what is kept by `big`, if anything, ends no later than what `small`
   * keeps.
   */
  lemma StripNarrows(t: seq<char>, small: set<char>, big: set<char>)
    requires small <= big
    ensures Lead(t, small) <= Lead(t, big)
    ensures Strip(t, big) != [] ==> Lead(t, big) + |Strip(t, big)| <= Lead(t, small) + |Strip(t, small)|
  {
    var rb := Strip(t, big);
    if rb != [] {
      assert t[Lead(t, big) + |rb| - 1] == rb[|rb| - 1];
    }
  }

  /** Writing a NUL right after index `e` of the line `t` in `b` cuts, from any `s` up to it, the C string there. */
  lemma CutAfter(b: seq<char>, c: seq<char>, t: seq<char>, s: nat, e: nat)
    requires NUL in b[0..] && t == CStr(b, 0)
    requires s <= e < |t| && c == b[e + 1 := NUL]
    ensures NUL in c[s..] && CStr(c, s) == t[s..e + 1]
  {
    forall k | s <= k <= e ensures c[k] == t[k] {
      assert b[k] == t[k];
    }
    CStrEndsAt(c, s, e + 1 - s);
    assert c[s..e + 1] == t[s..e + 1];
  }

  /** A run of `ws` characters ended by one outside `ws` is the leading run. */
  lemma LeadAt(t: seq<char>, ws: set<char>, s: nat)
    requires s < |t| && t[s] !in ws
    requires forall k :: 0 <= k < s ==> t[k] in ws
    ensures Lead(t, ws) == s
  {
  }

  /**
   * Writing a NUL right after index `e` of the line `t` in `b` leaves, from
   * `s` on, the stripped line, when `s` and `e` are the first and last
   * characters outside `ws`.
   */
  lemma TerminateAfter(b: seq<char>, c: seq<char>, t: seq<char>, ws: set<char>, s: nat, e: nat)
    requires NUL in b[0..] && t == CStr(b, 0)
    requires s <= e < |t| && c == b[e + 1 := NUL]
    requires forall k :: 0 <= k < s ==> t[k] in ws
    requires forall k :: e < k < |t| ==> t[k] in ws
    requires t[s] !in ws && t[e] !in ws
    ensures s < |c| && NUL in c[s..] && NUL in c[0..]
    ensures s == Lead(t, ws)
    ensures CStr(c, s) == Strip(t, ws)
    ensures CStr(c, 0) == t[..s] + CStr(c, s)
  {
    CutAfter(b, c, t, s, e);
    CutAfter(b, c, t, 0, e);
    StripUnique(t, ws, s, e + 1);
    LeadAt(t, ws, s);
    assert t[0..e + 1] == t[..s] + t[s..e + 1];
  }

  /** When the leading run of `ws` characters reaches the NUL, the whole line trims to nothing. */
  lemma TrimmedAway(b: seq<char>, ws: set<char>, s: nat)
    requires NUL in b[0..] && s < |b| && b[s] == NUL
    requires s <= |CStr(b, 0)| && forall k :: 0 <= k < s ==> CStr(b, 0)[k] in ws
    ensures NUL in b[s..] && CStr(b, s) == []
    ensures s == Lead(CStr(b, 0), ws) && Strip(CStr(b, 0), ws) == []
    ensures CStr(b, 0) == CStr(b, 0)[..s] + CStr(b, s)
  {
    var t := CStr(b, 0);
    CStrEndsAt(b, s, 0);
    assert s == |t|;
    StripUnique(t, ws, s, s);
    assert t[..s] == t;
  }

  /**
   * The buffer `b` once the line at its start has been trimmed in place: a
   * NUL written right after the last character outside `ws`, or the buffer
   * as it was when every character of the line is in `ws`.
   */
  function Trimmed(b: seq<char>, ws: set<char>): (c: seq<char>)
    requires NUL in b
    ensures |c| == |b|
  {
    var t := CStr(b, 0);
    var n := Lead(t, ws) + |Strip(t, ws)|;
    if n == Lead(t, ws) then b else b[n := NUL]
  }

  /**
   * After trimming, the trimmed line is the C string at the first character
   * outside `ws`; read from the start, the buffer holds the line without its
   * trailing `ws` characters; and the only character changed is a new NUL.
   */
  lemma TrimmedLine(b: seq<char>, ws: set<char>)
    requires NUL in b && NUL !in ws
    ensures var c, s := Trimmed(b, ws), Lead(CStr(b, 0), ws);
      && s < |c| && NUL in c[s..] && NUL in c[0..]
      && CStr(c, s) == Strip(CStr(b, 0), ws)
      && CStr(c, 0) == CStr(b, 0)[..s] + CStr(c, s)
      && forall k :: 0 <= k < |c| && c[k] != b[k] ==> c[k] == NUL
  {
    var t := CStr(b, 0);
    var s := Lead(t, ws);
    var r := Strip(t, ws);
    var c := Trimmed(b, ws);
    if r == [] {
      assert s == |t|;
      TrimmedAway(b, ws, s);
    } else {
      var e := s + |r| - 1;
      assert t[s] == r[0] && t[e] == r[|r| - 1];
      TerminateAfter(b, c, t, ws, s, e);
    }
  }

  /** A line whose characters are all in `ws` leaves the buffer as it was. */
  lemma NothingTrimmed(b: seq<char>, t: seq<char>, ws: set<char>, s: nat)
    requires NUL in b && t == CStr(b, 0)
    requires s <= |t| && (s < |t| ==> t[s] == NUL)
    requires forall k :: 0 <= k < s ==> t[k] in ws
    ensures s == |t| && Lead(t, ws) == s && Trimmed(b, ws) == b
  {
    assert Strip(t, ws) == [];
  }

  /** With `s` and `e` the first and last characters outside `ws`, trimming writes the NUL at `e + 1`. */
  lemma TrimmedAt(b: seq<char>, t: seq<char>, ws: set<char>, s: nat, e: nat)
    requires NUL in b && t == CStr(b, 0)
    requires s <= e < |t| && t[s] !in ws && (e == s || t[e] !in ws)
    requires forall k :: 0 <= k < s ==> t[k] in ws
    requires forall k :: e < k < |t| ==> t[k] in ws
    ensures Lead(t, ws) == s && Trimmed(b, ws) == b[e + 1 := NUL]
  {
    LeadAt(t, ws, s);
    StripUnique(t, ws, s, e + 1);
  }

  /**
   * Trims the C string at the start of `a` in place, as both front ends do:
   * skips the leading `ws` characters, and unless nothing else is left,
   * steps back over the trailing ones and writes a NUL right after the last
   * character kept. Returns the index where the trimmed string starts.
   */
  method TrimInPlace(a: array<char>, ws: set<char>) returns (s: nat)
    requires NUL in a[..] && NUL !in ws
    modifies a
    ensures a[..] == Trimmed(old(a[..]), ws)
    ensures s == Lead(CStr(old(a[..]), 0), ws)
  {
    ghost var b := a[..];
    ghost var t := CStr(b, 0);
    s := 0;
    while a[s] in ws
      invariant a[..] == b && s <= |t|
      invariant forall k :: 0 <= k < s ==> t[k] in ws
      decreases |t| - s
    {
      s := s + 1;
    }
    if a[s] == NUL {
      NothingTrimmed(b, t, ws, s);
      return;
    }
    assert s < |t|;
    var end := s + StrLen(a[..], s) - 1;
    CStrEndsAt(b, s, |t| - s);
    while end > s && a[end] in ws
      invariant a[..] == b && s <= end < |t|
      invariant forall k :: end < k < |t| ==> t[k] in ws
    {
      end := end - 1;
    }
    TrimmedAt(b, t, ws, s, end);
    a[end + 1] := NUL;
    assert a[..] == b[end + 1 := NUL];
  }
}
