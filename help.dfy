/**
 * The `help` command of both front ends: with no argument it lists every
 * table entry, with an argument that selects one entry it shows that entry,
 * and otherwise it names the argument as unknown and lists every command
 * name in groups of six: one row per group at the prompt, one name per line
 * with an extra break after each group in the telnet session.
 */
module Help {
  import opened Commands

  /** The line endings and separators in which the two front ends' help texts differ. */
  datatype HelpFormat = HelpFormat(lineEnd: string, itemEnd: string, rowBreak: string, footer: string)

  /** How many names the unknown-command listing puts in one row. */
  const PerRow: nat := 6

  /** The names of the entries of `t`, in order. */
  function Names(t: seq<Command>): (names: seq<string>)
    ensures |names| == |t| && forall i :: 0 <= i < |t| ==> names[i] == t[i].name
  {
    seq(|t|, i requires 0 <= i < |t| => t[i].name)
  }

  // ---------------------------------------------------------------------
  // The listing of entries

  /** One entry: its name, two tabs, its documentation and a full stop. */
  function EntryLine(fmt: HelpFormat, c: Command): string {
    c.name + "\t\t" + c.doc + "." + fmt.lineEnd
  }

  /** The lines of the entries `cs`, as the listing loop prints them one after another. */
  function Entries(fmt: HelpFormat, cs: seq<Command>): string
    decreases |cs|
  {
    if cs == [] then "" else EntryLine(fmt, cs[0]) + Entries(fmt, cs[1..])
  }

  /** The listing of two runs of entries is the listing of the first followed by that of the second. */
  lemma {:induction false} EntriesAppend(fmt: HelpFormat, a: seq<Command>, b: seq<Command>)
    ensures Entries(fmt, a + b) == Entries(fmt, a) + Entries(fmt, b)
    decreases |a|
  {
    if a == [] {
      assert a + b == b;
    } else {
      assert (a + b)[0] == a[0];
      assert (a + b)[1..] == a[1..] + b;
      EntriesAppend(fmt, a[1..], b);
    }
  }

  /** Every entry appears in the listing, in table order: entry `i` right after the entries before it. */
  lemma EntriesInOrder(fmt: HelpFormat, cs: seq<Command>, i: nat)
    requires i < |cs|
    ensures Entries(fmt, cs) == Entries(fmt, cs[..i]) + EntryLine(fmt, cs[i]) + Entries(fmt, cs[i + 1..])
  {
    assert cs == cs[..i] + ([cs[i]] + cs[i + 1..]);
    EntriesAppend(fmt, cs[..i], [cs[i]] + cs[i + 1..]);
    EntriesAppend(fmt, [cs[i]], cs[i + 1..]);
    assert Entries(fmt, [cs[i]]) == EntryLine(fmt, cs[i]) by {
      assert [cs[i]][1..] == [];
    }
  }

  // ---------------------------------------------------------------------
  // The names in rows of six

  /**
   * The names as the column loop prints them: each followed by the item
   * ending, and a row break before every name whose index is a positive
   * multiple of six.
   */
  function Columns(fmt: HelpFormat, names: seq<string>): string
    decreases |names|
  {
    if names == [] then ""
    else
      var i := |names| - 1;
      Columns(fmt, names[..i]) + Item(fmt, i, names[i])
  }

  /** What the column loop prints for the name at index `i`: the row break due there, the name, the item ending. */
  function Item(fmt: HelpFormat, i: nat, name: string): string {
    (if i > 0 && i % PerRow == 0 then fmt.rowBreak else "") + name + fmt.itemEnd
  }

  /** Printing the name at index `i` extends what was printed for the names before it. */
  lemma ColumnsStep(fmt: HelpFormat, names: seq<string>, i: nat)
    requires i < |names|
    ensures Columns(fmt, names[..i + 1]) == Columns(fmt, names[..i]) + Item(fmt, i, names[i])
  {
    assert names[..i + 1][..i] == names[..i];
  }

  /** The last name printed is the one at the last index. */
  lemma ColumnsLast(fmt: HelpFormat, names: seq<string>)
    requires names != []
    ensures Columns(fmt, names) == Columns(fmt, names[..|names| - 1]) + Item(fmt, |names| - 1, names[|names| - 1])
  {
  }

  /** Dropping the last element of `a + b` drops the last element of `b`. */
  lemma PrefixOfAppend(a: seq<string>, b: seq<string>, i: nat)
    requires i == |b| - 1
    ensures (a + b)[..|a| + i] == a + b[..i] && (a + b)[|a| + i] == b[i]
  {
  }

  /** Concatenation of strings regroups. */
  lemma Regroup(a: string, b: string, c: string)
    ensures a + (b + c) == (a + b) + c
  {
  }

  /** Six names on, the break pattern repeats, except that index six breaks where index zero did not. */
  lemma ItemAfterRow(fmt: HelpFormat, i: nat, name: string)
    ensures Item(fmt, PerRow + i, name) == if i == 0 then fmt.rowBreak + (name + fmt.itemEnd) else Item(fmt, i, name)
  {
    assert (PerRow + i) % PerRow == i % PerRow;
  }

  /** One row: each name followed by the item ending. */
  function RowText(fmt: HelpFormat, row: seq<string>): string
    decreases |row|
  {
    if row == [] then "" else row[0] + fmt.itemEnd + RowText(fmt, row[1..])
  }

  /** The rows laid end to end. */
  function Flatten(rows: seq<seq<string>>): seq<string>
    decreases |rows|
  {
    if rows == [] then [] else rows[0] + Flatten(rows[1..])
  }

  /**
   * The names cut into rows: six to a row, the last row holding what is
   * left; laid end to end, the rows are the names in order.
   */
  function Chunks(names: seq<string>): (rows: seq<seq<string>>)
    requires names != []
    ensures rows != []
    ensures forall r :: r in rows ==> 0 < |r| <= PerRow
    ensures forall k :: 0 <= k < |rows| - 1 ==> |rows[k]| == PerRow
    ensures Flatten(rows) == names
    decreases |names|
  {
    if |names| <= PerRow then
      assert Flatten([names]) == names + Flatten([]);
      [names]
    else
      var rest := Chunks(names[PerRow..]);
      var rows := [names[..PerRow]] + rest;
      assert rows[0] == names[..PerRow] && rows[1..] == rest;
      assert names[..PerRow] + names[PerRow..] == names;
      rows
  }

  /** Rows joined by row breaks. */
  function JoinRows(fmt: HelpFormat, rows: seq<seq<string>>): string
    decreases |rows|
  {
    if rows == [] then ""
    else if |rows| == 1 then RowText(fmt, rows[0])
    else RowText(fmt, rows[0]) + fmt.rowBreak + JoinRows(fmt, rows[1..])
  }

  /** Adding a name at the end of a row adds its text at the end. */
  lemma {:induction false} RowTextSnoc(fmt: HelpFormat, row: seq<string>, x: string)
    ensures RowText(fmt, row + [x]) == RowText(fmt, row) + x + fmt.itemEnd
    decreases |row|
  {
    if row == [] {
      assert ([] + [x])[1..] == [];
    } else {
      assert (row + [x])[1..] == row[1..] + [x];
      RowTextSnoc(fmt, row[1..], x);
    }
  }

  /** Up to six names print as one row, with no break. */
  lemma {:induction false} ColumnsOfOneRow(fmt: HelpFormat, row: seq<string>)
    requires |row| <= PerRow
    ensures Columns(fmt, row) == RowText(fmt, row)
    decreases |row|
  {
    if row != [] {
      var i := |row| - 1;
      ColumnsOfOneRow(fmt, row[..i]);
      RowTextSnoc(fmt, row[..i], row[i]);
      assert row[..i] + [row[i]] == row;
    }
  }

  /** After a full row of six the loop prints a break and then starts counting afresh. */
  lemma {:induction false} ColumnsAfterFullRow(fmt: HelpFormat, a: seq<string>, b: seq<string>)
    requires |a| == PerRow && b != []
    ensures Columns(fmt, a + b) == RowText(fmt, a) + fmt.rowBreak + Columns(fmt, b)
    decreases |b|
  {
    var i := |b| - 1;
    var ab := a + b;
    PrefixOfAppend(a, b, i);
    ColumnsLast(fmt, ab);
    ColumnsLast(fmt, b);
    ItemAfterRow(fmt, i, b[i]);
    if i == 0 {
      assert a + b[..i] == a;
      ColumnsOfOneRow(fmt, a);
      assert b[..i] == [];
      assert Columns(fmt, b) == "" + Item(fmt, 0, b[0]);
      assert Item(fmt, 0, b[0]) == "" + b[0] + fmt.itemEnd;
      Regroup(RowText(fmt, a), fmt.rowBreak, b[i] + fmt.itemEnd);
    } else {
      ColumnsAfterFullRow(fmt, a, b[..i]);
      Regroup(RowText(fmt, a) + fmt.rowBreak, Columns(fmt, b[..i]), Item(fmt, i, b[i]));
    }
  }

  /** The column loop prints exactly the names cut into rows of six, joined by row breaks. */
  lemma {:induction false} ColumnsAreRows(fmt: HelpFormat, names: seq<string>)
    requires names != []
    ensures Columns(fmt, names) == JoinRows(fmt, Chunks(names))
    decreases |names|
  {
    if |names| <= PerRow {
      ColumnsOfOneRow(fmt, names);
    } else {
      var a, b := names[..PerRow], names[PerRow..];
      assert names == a + b;
      ColumnsAfterFullRow(fmt, a, b);
      ColumnsAreRows(fmt, b);
      var rows := Chunks(names);
      assert rows == [a] + Chunks(b);
      assert rows[1..] == Chunks(b);
    }
  }

  /** The five names of Table fit in one row. */
  lemma TableNamesFitOneRow()
    ensures Chunks(Names(Table)) == [Names(Table)]
  {
  }

  // ---------------------------------------------------------------------
  // The three forms of help

  /** The first line of the unknown-command form. */
  function NoCommandHeader(fmt: HelpFormat, arg: string): string {
    "No `" + arg + "' command.  Valid command names are:" + fmt.lineEnd
  }

  /** What `help` prints for argument `arg`. */
  function HelpText(fmt: HelpFormat, arg: string): string {
    if arg == [] then Entries(fmt, Table)
    else match Lookup(Table, arg)
      case Some(i) => EntryLine(fmt, Table[i])
      case None => NoCommandHeader(fmt, arg) + Columns(fmt, Names(Table)) + fmt.footer
  }

  /** With no argument, every entry of the table, in table order. */
  lemma HelpWithoutArgument(fmt: HelpFormat, i: nat)
    requires i < |Table|
    ensures HelpText(fmt, "") == Entries(fmt, Table[..i]) + EntryLine(fmt, Table[i]) + Entries(fmt, Table[i + 1..])
  {
    EntriesInOrder(fmt, Table, i);
  }

  /** An argument that exactly one entry begins with shows that entry only. */
  lemma HelpForOneEntry(fmt: HelpFormat, arg: string, i: nat)
    requires arg != [] && UniqueMatch(Table, arg, i)
    ensures HelpText(fmt, arg) == EntryLine(fmt, Table[i])
  {
    TableLookupIsUnique(arg, i);
  }

  /**
   * Any other argument is named as unknown, followed by every command name
   * in rows of six and the closing hint.
   */
  lemma HelpForUnknown(fmt: HelpFormat, arg: string)
    requires arg != [] && forall i :: !UniqueMatch(Table, arg, i)
    ensures HelpText(fmt, arg) == NoCommandHeader(fmt, arg) + JoinRows(fmt, Chunks(Names(Table))) + fmt.footer
  {
    if Lookup(Table, arg).Some? {
      TableLookupIsUnique(arg, Lookup(Table, arg).value);
    }
    ColumnsAreRows(fmt, Names(Table));
  }

  /** The listing loop: every entry's line, in table order. */
  method PrintEntries(fmt: HelpFormat) returns (out: string)
    ensures out == Entries(fmt, Table)
  {
    out := "";
    var i := 0;
    while i < |Table|
      invariant i <= |Table| && out == Entries(fmt, Table[..i])
    {
      assert Table[..i + 1] == Table[..i] + [Table[i]];
      EntriesAppend(fmt, Table[..i], [Table[i]]);
      assert Entries(fmt, [Table[i]]) == EntryLine(fmt, Table[i]) by {
        assert [Table[i]][1..] == [];
      }
      out := out + EntryLine(fmt, Table[i]);
      i := i + 1;
    }
    assert Table[..i] == Table;
  }

  /**
   * The column loop: counts the names printed in the current row and starts
   * a new row once six have been printed.
   */
  method PrintColumns(fmt: HelpFormat) returns (out: string)
    ensures out == Columns(fmt, Names(Table))
  {
    var names := Names(Table);
    var printed := 0;
    ghost var rows := 0;
    out := "";
    var i := 0;
    while i < |Table|
      invariant i <= |Table|
      invariant out == Columns(fmt, names[..i])
      invariant 0 <= printed <= PerRow && (i == 0 <==> printed == 0)
      invariant i == PerRow * rows + printed
    {
      ColumnsStep(fmt, names, i);
      BreakDue(i, rows, printed);
      var brk := "";
      if printed == PerRow {
        printed := 0;
        rows := rows + 1;
        brk := fmt.rowBreak;
      }
      out := out + (brk + Table[i].name + fmt.itemEnd);
      printed := printed + 1;
      i := i + 1;
    }
    assert names[..i] == names;
  }

  /** The count of names printed on the current row reaches six exactly when a break is due. */
  lemma BreakDue(i: nat, rows: nat, printed: nat)
    requires i == PerRow * rows + printed && 0 <= printed <= PerRow && (i == 0 <==> printed == 0)
    ensures (i > 0 && i % PerRow == 0) <==> printed == PerRow
  {
    if printed == PerRow {
      assert i == PerRow * (rows + 1);
    } else if printed > 0 {
      assert i % PerRow == printed;
    }
  }

  /**
   * The help command as both front ends write it: the listing with no
   * argument, the table lookup for one entry, and otherwise the header, the
   * names in rows and the closing hint.
   */
  method PrintHelp(fmt: HelpFormat, arg: string) returns (out: string)
    ensures out == HelpText(fmt, arg)
  {
    if arg == [] {
      out := PrintEntries(fmt);
      return;
    }
    var found := ScanTable(arg);
    if found.Some? {
      return EntryLine(fmt, Table[found.value]);
    }
    var columns := PrintColumns(fmt);
    out := NoCommandHeader(fmt, arg) + columns + fmt.footer;
  }
}
