# User loader of email_sender, modelled in Dafny

`data_base.py` reads a spreadsheet of people into a pandas table. It builds a
`name` column from `first_name` and `last_name`. Its `users()` function then
walks the rows in order. It skips every row whose name or email is missing.
For each other row it appends `{"name": name.strip(), "email": email}` to the
module-level list `list_of_users`, and it returns that list.

The model has four modules:

- `Wrappers` (wrappers.dfy): `Option`. A missing spreadsheet cell (pandas
  NA/NaN) is `None`.
- `PyStrings` (py_strings.dfy): Python's `str.strip()` with no argument, over
  the 29 characters `str.isspace` accepts. Its result is proved equal to an
  independent description. That description is `StripsTo`: the parts cut
  off are whitespace, and the part kept has no whitespace at either end.
- `Selection` (selection.dfy): keeping the present values of a sequence of
  optional values, in order (`Somes`). It is proved equal, in both
  directions, to a description by kept positions (`Selects`): the positions
  are strictly increasing, they hold values, and every position that holds a
  value is listed.
- `DataBase` (data_base.dfy): the rows, the `name` column, the skip test,
  the record appended per row, the output of one call (`Filtered`), the loop
  of `users()` (`AppendUsers`), and the module-level accumulator (`UserList`
  with its method `Users`). `CallUsers` makes `k` calls on a fresh
  accumulator.

Three consequences of the code are stated and proved:

- The name test never fires. `fillna('')` runs before the join, so every
  row gets a name. A row is therefore skipped exactly when its email is
  missing. A row with an email and no name parts is kept, with the name `""`.
- The accumulator is never cleared. Each call appends the same records
  again, so after `k` calls the list is the one-call output `k` times over.
- `strip()` leaves inner whitespace alone: first name `"Ann"` and last name
  `" Lee"` give the name `"Ann  Lee"`, with two spaces.

## Model

| member | source | states |
|---|---|---|
| DataBase.OrEmpty | data_base.py:6 | `fillna('')`: a missing cell reads as the empty string, and a present cell is kept as it is |
| DataBase.NameColumn | data_base.py:6 | the name column is present for every row, whatever cells are missing; it is the filled first name, one space, then the filled last name |
| DataBase.Skipped | data_base.py:13-14 | the skip test "name missing or email missing" holds exactly when the email is missing; the name half can never fire |
| DataBase.ToRecord | data_base.py:16-19 | the appended record carries the row's email unchanged, and its name is the row's name column with exactly its whitespace ends cut off (the `StripsTo` description) |
| DataBase.Convert | data_base.py:11-19 | one row contributes nothing exactly when its email is missing; otherwise it contributes a record with that email |
| DataBase.Filtered | data_base.py:11-19 | one call appends at most one record per row |
| DataBase.FilteredSelects | data_base.py:11-19 | one call's output is the records of exactly the rows with an email, each once, in row order (it meets the `Selects` description) |
| DataBase.FilteredCharacterized | data_base.py:11-19 | any sequence of records that meets the `Selects` description is one call's output, so the description fixes the output |
| DataBase.FilteredAppend | data_base.py:11 | rows are handled one at a time and independently: the output for `a + b` is the output for `a`, then the output for `b` |
| DataBase.FilteredStep | data_base.py:13-19 | one more row adds nothing when its email is missing, and adds that row's record otherwise |
| DataBase.FilteredRecords | data_base.py:13-18 | every appended record comes from some input row with an email: it carries that email unchanged and that row's name column stripped; its name has no whitespace at either end, and stripping it again changes nothing |
| DataBase.NamelessRowKept | data_base.py:6-14 | a row with an email and both name cells missing is kept, with the empty name |
| DataBase.InnerWhitespaceKept | data_base.py:17 | whitespace inside the joined name is kept: a first name that does not start with whitespace and a last name that does not end with it give exactly first, space, last |
| DataBase.SampleRows | data_base.py:6-19 | on the rows ("Ann", " Lee", "a@x.com"), (missing, "Park", "b@x.com"), ("Sam", missing, missing), one call appends ("Ann  Lee", "a@x.com") then ("Park", "b@x.com") |
| DataBase.AppendUsers | data_base.py:10-20 | the loop of `users()` leaves the entries already in the list untouched, appends one call's output after them, and adds nothing for an empty table |
| DataBase.UserList.Users | data_base.py:8-20 | each call appends one call's output to the module-level list and returns the whole list |
| DataBase.CallUsers | data_base.py:8-20 | after `k` calls from a fresh list, the returned list is one call's output repeated `k` times, of length `k` times its length |
| DataBase.RepeatBlock | data_base.py:8-20 | in the list after `k` calls, each of the `k` consecutive blocks of one call's length is exactly one call's output |
| PyStrings.IsWhitespace | data_base.py:17 | the characters `strip()` removes are exactly the 29 code points Python's `str.isspace` accepts: TAB, LF, VT, FF, CR, FS, GS, RS, US, SPACE, NEL, NO-BREAK SPACE, OGHAM SPACE MARK, U+2000 to U+200A, LINE SEPARATOR, PARAGRAPH SEPARATOR, NARROW NO-BREAK SPACE, MEDIUM MATHEMATICAL SPACE and IDEOGRAPHIC SPACE |
| PyStrings.Strip | data_base.py:17 | `strip()` keeps a slice of its input that meets the `StripsTo` description: everything cut off is whitespace and the kept part has no whitespace at either end; `StripCharacterized` shows that slice is the only one |
| PyStrings.TrimLeftSpec | data_base.py:17 | the left part of `strip()` removes a whitespace prefix and stops at the first non-whitespace character |
| PyStrings.TrimRightSpec | data_base.py:17 | the right part of `strip()` removes a whitespace suffix and stops at the last non-whitespace character |
| PyStrings.StripSpec | data_base.py:17 | `strip()` returns a slice of its input with no whitespace at either end, and everything it cut off is whitespace |
| PyStrings.StripCharacterized | data_base.py:17 | any slice that cuts only whitespace and keeps no whitespace at its ends is what `strip()` returns |
| PyStrings.StripNoEdge | data_base.py:17 | a string with no whitespace at either end is returned unchanged |
| PyStrings.StripIdempotent | data_base.py:17 | stripping twice is stripping once |
| PyStrings.StripEmptyIff | data_base.py:17 | `strip()` returns the empty string exactly when its input is all whitespace |

## Left out

- Reading the spreadsheet (`pd.read_excel`, data_base.py:3) is file I/O. The rows are a given `seq<Row>`. The load error when the file is missing or unreadable is not modelled.
- pandas cell types. A present cell is a string. NaN is `None`. Numeric or date cells in the name or email columns are not modelled.
- Python returns the list object itself, so a caller's copy changes on later calls. `UserList.Users` returns the list's value at the time of the call.
- The whitespace set is fixed at the 29 code points `str.isspace` accepts in current Python 3. It does not follow later Unicode changes.
- Email validation and deduplication: the code does neither, and neither does the model.
