/** The user loader of `data_base.py`: spreadsheet rows are turned into
    name/email records, rows without an email are skipped, and the records
    are appended to a module-level list that no call ever clears. */
module DataBase {
  import opened Wrappers
  import opened PyStrings
  import opened Selection

  /** One spreadsheet row; a missing cell is `None`. */
  datatype Row = Row(firstName: Option<string>, lastName: Option<string>, email: Option<string>)

  /** One entry of `list_of_users`. */
  datatype UserRecord = UserRecord(name: string, email: string)

  /** pandas `fillna('')` on a text column: a missing cell becomes "". */
  function OrEmpty(cell: Option<string>): (r: string)
    ensures cell.None? ==> r == ""
    ensures cell.Some? ==> r == cell.value
  {
    cell.GetOr("")
  }

  /** The `name` column: first name and last name, both with missing cells
      filled by "", joined by one space. The column is filled before the
      join, so no row gets a missing name. */
  function NameColumn(row: Row): (r: Option<string>)
    ensures r.Some?
    ensures |r.value| == |OrEmpty(row.firstName)| + 1 + |OrEmpty(row.lastName)|
    ensures r.value[|OrEmpty(row.firstName)|] == ' '
    ensures r.value[..|OrEmpty(row.firstName)|] == OrEmpty(row.firstName)
    ensures r.value[|OrEmpty(row.firstName)| + 1..] == OrEmpty(row.lastName)
  {
    Some(OrEmpty(row.firstName) + " " + OrEmpty(row.lastName))
  }

  /** The skip test of `users()`: the name or the email is missing. Since
      the name column is never missing, only the email decides. */
  function Skipped(row: Row): (b: bool)
    ensures b <==> row.email.None?
  {
    NameColumn(row).None? || row.email.None?
  }

  /** The record `users()` appends for a row it does not skip: the name
      column with exactly its whitespace ends cut off, and the email. */
  function ToRecord(row: Row): (u: UserRecord)
    requires row.email.Some?
    ensures u.email == row.email.value
    ensures exists i :: StrippedAt(NameColumn(row).value, i, u.name)
  {
    StripSpec(NameColumn(row).value);
    UserRecord(Strip(NameColumn(row).value), row.email.value)
  }

  /** What one iteration of the loop in `users()` contributes: nothing for
      a skipped row, otherwise its record. */
  function Convert(row: Row): (r: Option<UserRecord>)
    ensures r.None? <==> row.email.None?
    ensures r.Some? ==> r.value.email == row.email.value
  {
    if Skipped(row) then None else Some(ToRecord(row))
  }

  /** What each row contributes, row by row. */
  function Converted(rows: seq<Row>): (s: seq<Option<UserRecord>>)
    ensures |s| == |rows|
    ensures forall i :: 0 <= i < |rows| ==> s[i] == Convert(rows[i])
  {
    MapSeq(Convert, rows)
  }

  /** The records one call of `users()` appends, in row order: the present
      contributions of the rows. */
  function Filtered(rows: seq<Row>): (out: seq<UserRecord>)
    ensures |out| <= |rows|
  {
    Somes(Converted(rows))
  }

  /** The output of one call, described by the positions it keeps: the
      records of exactly the rows that have an email, each once, in row
      order. */
  lemma FilteredSelects(rows: seq<Row>)
    ensures exists idx :: Selects(Converted(rows), Filtered(rows), idx)
  {
    SomesSelects(Converted(rows));
    var idx :| Selects(Converted(rows), Somes(Converted(rows)), idx);
    assert Selects(Converted(rows), Filtered(rows), idx);
  }

  /** Conversely, any sequence of records so described is the output of
      the call. */
  lemma FilteredCharacterized(rows: seq<Row>, out: seq<UserRecord>, idx: seq<int>)
    requires Selects(Converted(rows), out, idx)
    ensures out == Filtered(rows)
  {
    SelectsUnique(Converted(rows), out, idx);
  }

  /** Rows are processed one at a time, so the output for a split input is
      the output for the first part followed by that for the second. */
  lemma FilteredAppend(a: seq<Row>, b: seq<Row>)
    ensures Filtered(a + b) == Filtered(a) + Filtered(b)
  {
    MapSeqAppend(Convert, a, b);
    SomesAppend(Converted(a), Converted(b));
  }

  /** Every appended record comes from a row that has an email: it carries
      that email unchanged and that row's name column, stripped. Its name has
      no whitespace at either end, so stripping it again changes nothing. */
  lemma FilteredRecords(rows: seq<Row>)
    ensures forall u :: u in Filtered(rows) ==>
      && (exists i :: 0 <= i < |rows| && rows[i].email == Some(u.email)
           && u.name == Strip(NameColumn(rows[i]).value))
      && NoEdgeWhitespace(u.name)
      && Strip(u.name) == u.name
  {
    var out := Filtered(rows);
    FilteredSelects(rows);
    var idx :| Selects(Converted(rows), out, idx);
    forall u | u in out
      ensures exists i ::
        0 <= i < |rows| && rows[i].email == Some(u.email) && u.name == Strip(NameColumn(rows[i]).value)
      ensures NoEdgeWhitespace(u.name) && Strip(u.name) == u.name
    {
      var k :| 0 <= k < |out| && out[k] == u;
      var i := idx[k];
      assert Convert(rows[i]) == Some(u);
      StripSpec(NameColumn(rows[i]).value);
      StripNoEdge(u.name);
    }
  }

  /** A row with an email and with both name cells missing is kept, with
      the empty name: the name test of `users()` does not catch it. */
  lemma NamelessRowKept(email: string)
    ensures Filtered([Row(None, None, Some(email))]) == [UserRecord("", email)]
  {
    assert AllWhitespace(" ");
    StripEmptyIff(" ");
    assert [Row(None, None, Some(email))][1..] == [];
  }

  /** Whitespace inside the name is kept as it is: when the first name does
      not start and the last name does not end with whitespace, the name is
      exactly first name, one space, last name, whatever whitespace the
      cells carry at the join. */
  lemma InnerWhitespaceKept(first: string, last: string, email: string)
    requires |first| > 0 && !IsWhitespace(first[0])
    requires |last| > 0 && !IsWhitespace(last[|last| - 1])
    ensures ToRecord(Row(Some(first), Some(last), Some(email))).name == first + " " + last
  {
    var name := first + " " + last;
    assert name[0] == first[0] && name[|name| - 1] == last[|last| - 1];
    StripNoEdge(name);
  }

  /** Three sample rows: the join keeps the double space of " Lee", a
      missing first name leaves just the last name, and a row without an
      email is dropped. */
  lemma SampleRows()
    ensures Filtered([
      Row(Some("Ann"), Some(" Lee"), Some("a@x.com")),
      Row(None, Some("Park"), Some("b@x.com")),
      Row(Some("Sam"), None, None)])
      == [UserRecord("Ann  Lee", "a@x.com"), UserRecord("Park", "b@x.com")]
  {
    var rows := [
      Row(Some("Ann"), Some(" Lee"), Some("a@x.com")),
      Row(None, Some("Park"), Some("b@x.com")),
      Row(Some("Sam"), None, None)];
    InnerWhitespaceKept("Ann", " Lee", "a@x.com");
    assert "Ann" + " " + " Lee" == "Ann  Lee";
    assert " Park"[1..] == "Park";
    TrimLeftAt(" Park", 1);
    assert TrimRight("Park") == "Park";
    assert rows[1..][1..][1..] == [];
  }

  /** The loop of `users()` after one more row. */
  lemma FilteredStep(rows: seq<Row>, i: int)
    requires 0 <= i < |rows|
    ensures rows[i].email.None? ==> Filtered(rows[..i + 1]) == Filtered(rows[..i])
    ensures rows[i].email.Some? ==> Filtered(rows[..i + 1]) == Filtered(rows[..i]) + [ToRecord(rows[i])]
  {
    FilteredAppend(rows[..i], [rows[i]]);
    assert rows[..i + 1] == rows[..i] + [rows[i]];
    assert Converted([rows[i]]) == [Convert(rows[i])];
    SomesSingle(Convert(rows[i]));
  }

  /** One call of `users()` on the list `acc` it has so far: the loop
      appends the record of each row with an email, in row order. */
  method AppendUsers(acc: seq<UserRecord>, rows: seq<Row>) returns (r: seq<UserRecord>)
    ensures r == acc + Filtered(rows)
    ensures r[..|acc|] == acc
    ensures |rows| == 0 ==> r == acc
  {
    r := acc;
    var i := 0;
    while i < |rows|
      invariant 0 <= i <= |rows|
      invariant r == acc + Filtered(rows[..i])
    {
      var row := rows[i];
      FilteredStep(rows, i);
      if !Skipped(row) {
        r := r + [ToRecord(row)];
      }
      i := i + 1;
    }
    assert rows[..|rows|] == rows;
  }

  /** `s` written out `k` times in a row. */
  function Repeat<T>(s: seq<T>, k: nat): (r: seq<T>)
    ensures |r| == k * |s|
  {
    if k == 0 then [] else Repeat(s, k - 1) + s
  }

  /** Block `c` of `s` repeated `k` times is `s` itself. */
  lemma {:induction false} RepeatBlock<T>(s: seq<T>, k: nat, c: nat)
    requires c < k
    ensures c * |s| + |s| <= k * |s|
    ensures Repeat(s, k)[c * |s|..c * |s| + |s|] == s
    decreases k
  {
    var n := |s|;
    var prev := Repeat(s, k - 1);
    assert (k - 1) * n + n == k * n;
    if c == k - 1 {
      assert Repeat(s, k)[c * n..c * n + n] == (prev + s)[|prev|..];
    } else {
      RepeatBlock(s, k - 1, c);
      assert Repeat(s, k)[c * n..c * n + n] == prev[c * n..c * n + n];
    }
  }

  /** The module-level `list_of_users`: the first call to `users()` starts
      from the empty list and every call appends to it, never clearing it.
      `users()` returns the list itself, so what a call returns is the
      whole list, earlier calls' records included. */
  class UserList {
    var listOfUsers: seq<UserRecord>

    constructor()
      ensures listOfUsers == []
    {
      listOfUsers := [];
    }

    method Users(rows: seq<Row>) returns (r: seq<UserRecord>)
      modifies this
      ensures listOfUsers == old(listOfUsers) + Filtered(rows)
      ensures r == listOfUsers
    {
      listOfUsers := AppendUsers(listOfUsers, rows);
      r := listOfUsers;
    }
  }

  /** `k` calls of `users()` on the same rows, from a fresh list: the list
      the last call returns holds the one-call output `k` times over. */
  method CallUsers(rows: seq<Row>, k: nat) returns (r: seq<UserRecord>)
    ensures r == Repeat(Filtered(rows), k)
    ensures |r| == k * |Filtered(rows)|
  {
    var store := new UserList();
    r := [];
    var calls := 0;
    while calls < k
      invariant 0 <= calls <= k
      invariant store.listOfUsers == r == Repeat(Filtered(rows), calls)
    {
      r := store.Users(rows);
      calls := calls + 1;
    }
  }
}
