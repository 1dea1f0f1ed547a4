/** lib/google.js, the parts that compute rather than talk to the
    Spreadsheets service: A1 names of columns and cells, the sheets that
    still have to be created, the rows a sheet still lacks, and the
    conversion of a fetched grid into one object per row. */
module Google {
  import opened Wrappers
  import opened JsText
  import opened OrderedDict
  import opened Messages

  // ---------------------------------------------------------------------
  // indexToA1Column, gridCoordsToA1
  // ---------------------------------------------------------------------

  predicate IsLetter(c: char) { 'A' <= c <= 'Z' }

  predicate AllLetters(s: string) {
    forall i :: 0 <= i < |s| ==> IsLetter(s[i])
  }

  /** `String.fromCharCode(65 + m)`. */
  function Letter(m: int): (c: char)
    requires 0 <= m < 26
    ensures IsLetter(c)
  {
    (65 + m) as char
  }

  /** The column name `indexToA1Column` builds for `n`: nothing for a
      non-positive index, otherwise the name of the quotient followed by the
      letter of the remainder, exactly as the loop peels them off. */
  function A1Column(n: int): (s: string)
    ensures AllLetters(s)
    ensures s == [] <==> n <= 0
    decreases n
  {
    if n <= 0 then ""
    else
      var modulo := (n - 1) % 26;
      A1Column((n - modulo) / 26) + [Letter(modulo)]
  }

  /** Reading a column name back: bijective base 26, `A` = 1 ... `Z` = 26. */
  function A1Value(s: string): int
  {
    if s == [] then 0 else 26 * A1Value(s[..|s| - 1]) + (s[|s| - 1] as int - 64)
  }

  /** `indexToA1Column(columnIndex)`. */
  method IndexToA1Column(columnIndex: int) returns (columnName: string)
    ensures columnName == A1Column(columnIndex)
  {
    var dividend := columnIndex;
    columnName := "";
    while dividend > 0
      invariant A1Column(dividend) + columnName == A1Column(columnIndex)
      decreases dividend
    {
      var modulo := (dividend - 1) % 26;
      columnName := [Letter(modulo)] + columnName;
      dividend := (dividend - modulo) / 26;
    }
  }

  /** One step of the loop: the quotient left after the last letter. */
  lemma A1Step(n: int)
    requires n > 0
    ensures (n - (n - 1) % 26) / 26 == (n - 1) / 26
    ensures 26 * ((n - 1) / 26) + (n - 1) % 26 + 1 == n
  {
  }

  /** Decoding the name gives back the index. */
  lemma {:induction false} A1RoundTrip(n: int)
    requires n > 0
    ensures A1Value(A1Column(n)) == n
    decreases n
  {
    var modulo := (n - 1) % 26;
    var q := (n - modulo) / 26;
    A1Step(n);
    var s := A1Column(n);
    assert s[..|s| - 1] == A1Column(q);
    assert s[|s| - 1] as int - 64 == modulo + 1;
    if q > 0 {
      A1RoundTrip(q);
    }
  }

  /** Distinct positive indices have distinct names. */
  lemma A1ColumnInjective(m: int, n: int)
    requires m > 0 && n > 0 && A1Column(m) == A1Column(n)
    ensures m == n
  {
    A1RoundTrip(m);
    A1RoundTrip(n);
  }

  /** Every non-empty string of capital letters is the name of exactly one
      positive index: the notation is a bijection. */
  lemma {:induction false} A1Onto(s: string)
    requires s != [] && AllLetters(s)
    ensures A1Value(s) > 0 && A1Column(A1Value(s)) == s
    decreases |s|
  {
    var p := s[..|s| - 1];
    var d := s[|s| - 1] as int - 64;
    assert 1 <= d <= 26;
    var w := A1Value(p);
    if p != [] {
      A1Onto(p);
    }
    assert w >= 0;
    var v := 26 * w + d;
    assert v == A1Value(s);
    assert (v - 1) % 26 == d - 1;
    assert (v - (d - 1)) / 26 == w;
    assert Letter(d - 1) == s[|s| - 1];
    assert A1Column(v) == A1Column(w) + [s[|s| - 1]];
    assert s == p + [s[|s| - 1]];
  }

  lemma A1Examples()
    ensures A1Column(1) == "A" && A1Column(26) == "Z"
    ensures A1Column(27) == "AA" && A1Column(52) == "AZ"
    ensures A1Column(0) == "" && A1Column(-3) == ""
  {
    assert A1Column(1) == A1Column(0) + ['A'];
    assert A1Column(26) == A1Column(0) + ['Z'];
    assert A1Column(27) == A1Column(1) + ['A'];
    assert A1Column(52) == A1Column(1) + ['Z'];
  }

  /** `gridCoordsToA1(column, row)`: the column letters, then the row in
      decimal. */
  function GridCoordsToA1(column: int, row: int): string {
    A1Column(column) + Decimal(row)
  }

  /** The longest prefix of capital letters. */
  function LetterPrefix(s: string): (p: string)
    ensures |p| <= |s| && p == s[..|p|] && AllLetters(p)
    ensures |p| < |s| ==> !IsLetter(s[|p|])
  {
    if s != [] && IsLetter(s[0]) then [s[0]] + LetterPrefix(s[1..]) else ""
  }

  /** Reading a cell reference back into column and row. */
  function ParseA1(s: string): Option<(int, int)> {
    var letters := LetterPrefix(s);
    if letters == [] then None
    else
      match ParseInt(s[|letters|..])
      case None => None
      case Some(row) => Some((A1Value(letters), row))
  }

  lemma {:induction false} LetterPrefixOf(a: string, b: string)
    requires AllLetters(a) && (b == [] || !IsLetter(b[0]))
    ensures LetterPrefix(a + b) == a
    decreases |a|
  {
    if a != [] {
      assert (a + b)[1..] == a[1..] + b;
      LetterPrefixOf(a[1..], b);
    } else {
      assert a + b == b;
    }
  }

  /** A cell reference of a real column reads back as its coordinates. */
  lemma GridCoordsRoundTrip(column: int, row: int)
    requires column > 0
    ensures ParseA1(GridCoordsToA1(column, row)) == Some((column, row))
  {
    var a, b := A1Column(column), Decimal(row);
    assert !IsLetter(b[0]);
    LetterPrefixOf(a, b);
    assert (a + b)[|a|..] == b;
    ParseDecimal(row);
    A1RoundTrip(column);
  }

  // ---------------------------------------------------------------------
  // ensureSheets: the sheets to create
  // ---------------------------------------------------------------------

  /** The `addSheet` request `nameToUpdate` builds. */
  datatype AddSheet = AddSheet(title: string, rowCount: int, columnCount: int)

  const NewSheetRows := 1
  const NewSheetColumns := 5

  /** The requests for every name of `names` that is not already a title,
      in order. */
  function Missing(titles: seq<string>, names: seq<string>): (reqs: seq<AddSheet>)
    ensures |reqs| <= |names|
  {
    if names == [] then []
    else
      var rest := Missing(titles, names[..|names| - 1]);
      var name := names[|names| - 1];
      if name in titles then rest else rest + [AddSheet(name, NewSheetRows, NewSheetColumns)]
  }

  /** The listing loop of `listSheets`: `namesSet[title] = true` for every
      existing sheet. */
  method NamesSet(titles: seq<string>) returns (namesSet: ODict<string, bool>)
    ensures forall t :: t in Keys(namesSet) <==> t in titles
  {
    namesSet := [];
    var i := 0;
    while i < |titles|
      invariant 0 <= i <= |titles|
      invariant forall t :: t in Keys(namesSet) <==> t in titles[..i]
    {
      PutKeys(namesSet, titles[i], true);
      assert titles[..i + 1] == titles[..i] + [titles[i]];
      namesSet := Put(namesSet, titles[i], true);
      i := i + 1;
    }
    assert titles[..i] == titles;
  }

  /** `listSheets`: a request for every name missing from the titles. */
  method SheetsToCreate(titles: seq<string>, sheetNames: seq<string>) returns (toCreate: seq<AddSheet>)
    ensures toCreate == Missing(titles, sheetNames)
  {
    var namesSet := NamesSet(titles);
    toCreate := [];
    var j := 0;
    while j < |sheetNames|
      invariant 0 <= j <= |sheetNames|
      invariant toCreate == Missing(titles, sheetNames[..j])
    {
      assert sheetNames[..j + 1][..j] == sheetNames[..j];
      var known := Get(namesSet, sheetNames[j]);
      if known.None? {
        toCreate := toCreate + [AddSheet(sheetNames[j], NewSheetRows, NewSheetColumns)];
      }
      j := j + 1;
    }
    assert sheetNames[..j] == sheetNames;
  }

  /** A sheet is requested exactly when its name is listed and no existing
      sheet has it as title; every request asks for one row and five
      columns. */
  lemma {:induction false} MissingSpec(titles: seq<string>, names: seq<string>)
    ensures forall r :: r in Missing(titles, names) ==>
      r.title in names && r.title !in titles && r.rowCount == 1 && r.columnCount == 5
    ensures forall n :: n in names && n !in titles ==>
      exists r :: r in Missing(titles, names) && r.title == n
    decreases |names|
  {
    if names != [] {
      var p := names[..|names| - 1];
      MissingSpec(titles, p);
      assert names == p + [names[|names| - 1]];
      var m := Missing(titles, names);
      forall n | n in names && n !in titles
        ensures exists r :: r in m && r.title == n
      {
        if n != names[|names| - 1] {
          assert n in p;
        } else {
          assert m[|m| - 1].title == n;
        }
      }
    }
  }

  // ---------------------------------------------------------------------
  // patchSheet: the rows a sheet still lacks
  // ---------------------------------------------------------------------

  /** The first two cells of a row, `[row[0], row[1]]`: file and key. */
  function RowKey(row: Row): seq<string> {
    [row.fileName, row.key]
  }

  /** The rows of `sheetData` whose file and key are not among the rows
      already in the sheet, in order. Two rows of the same key in
      `sheetData` are both kept. */
  function MissingRows(present: seq<seq<string>>, sheetData: seq<Row>): (rows: seq<Row>)
    ensures |rows| <= |sheetData|
  {
    if sheetData == [] then []
    else
      var rest := MissingRows(present, sheetData[..|sheetData| - 1]);
      var row := sheetData[|sheetData| - 1];
      if RowKey(row) in present then rest else rest + [row]
  }

  /** What iterating over an absent `values` array throws. */
  const ValuesNotIterable := "data.values is not iterable"

  /** What `stringToCell` throws when it reads `length` of `undefined`. */
  const UndefinedLength := "Cannot read properties of undefined (reading 'length')"

  /** A cell of an append request as `stringToCell` builds it: the value,
      the wrap strategy, and whether it carries a text format run (a
      string of non-zero length does; a range map, having no `length`,
      does not). */
  datatype SheetCell = SheetCell(value: Entry, wrap: bool, formatted: bool)

  /** `stringToCell(str, wrap)`; None stands for `undefined`. */
  function StringToCell(str: Option<Entry>, wrap: bool): (r: Result<SheetCell, string>)
    ensures r.Err? <==> str.None?
    ensures r.Err? ==> r.error == UndefinedLength
  {
    match str
    case None => Err(UndefinedLength)
    case Some(e) => Ok(SheetCell(e, wrap, e.Static? && e.text != ""))
  }

  /** A row of `flattenTrans` as the JavaScript array it is:
      `[fileName, key, source, translation]`. */
  function RowCells(row: Row): (cells: seq<Option<Entry>>)
    ensures |cells| == 4
  {
    [Some(Static(row.fileName)), Some(Static(row.key)), row.source, Some(row.translation)]
  }

  /** `row[j]`, `undefined` past the end. */
  function RowCell(cells: seq<Option<Entry>>, j: nat): Option<Entry> {
    if j < |cells| then cells[j] else None
  }

  /** The first `n` calls of `rowToValues`, left to right; the first
      throw ends it. The last two columns wrap. */
  function CellsUpTo(cells: seq<Option<Entry>>, n: nat): Result<seq<SheetCell>, string>
  {
    if n == 0 then Ok([])
    else
      match CellsUpTo(cells, n - 1)
      case Err(e) => Err(e)
      case Ok(vs) =>
        match StringToCell(RowCell(cells, n - 1), n - 1 >= 3)
        case Err(e) => Err(e)
        case Ok(c) => Ok(vs + [c])
  }

  /** `rowToValues(row)`: five cells, whatever the length of the row. */
  function RowToValues(cells: seq<Option<Entry>>): Result<seq<SheetCell>, string> {
    CellsUpTo(cells, 5)
  }

  /** The first `n` cells convert exactly when none of them is
      `undefined`; they then hold the row's values in column order, and
      the error is always the one of reading `length`. */
  lemma {:induction false} CellsUpToSpec(cells: seq<Option<Entry>>, n: nat)
    ensures var r := CellsUpTo(cells, n);
      (r.Err? <==> exists j :: 0 <= j < n && RowCell(cells, j).None?) &&
      (r.Err? ==> r.error == UndefinedLength) &&
      (r.Ok? ==> |r.value| == n && forall j :: 0 <= j < n ==>
        r.value[j].value == RowCell(cells, j).value && (r.value[j].wrap <==> j >= 3))
  {
    if n > 0 {
      CellsUpToSpec(cells, n - 1);
      var r := CellsUpTo(cells, n);
      if r.Err? && CellsUpTo(cells, n - 1).Ok? {
        assert RowCell(cells, n - 1).None?;
      }
    }
  }

  /** `rowToValues` throws exactly when one of the first five cells is
      `undefined`; otherwise it gives those five cells in order, the last
      two wrapping. */
  lemma RowToValuesSpec(cells: seq<Option<Entry>>)
    ensures var r := RowToValues(cells);
      (r.Err? <==> exists j :: 0 <= j < 5 && RowCell(cells, j).None?) &&
      (r.Err? ==> r.error == UndefinedLength) &&
      (r.Ok? ==> |r.value| == 5 && forall j :: 0 <= j < 5 ==>
        r.value[j].value == RowCell(cells, j).value && (r.value[j].wrap <==> j >= 3))
  {
    CellsUpToSpec(cells, 5);
  }

  /** A four-cell row of `flattenTrans` has no fifth cell, so
      `rowToValues` always throws on it. */
  lemma RowOfFlattenThrows(row: Row)
    ensures RowToValues(RowCells(row)) == Err(UndefinedLength)
  {
    RowToValuesSpec(RowCells(row));
    assert RowCell(RowCells(row), 4).None?;
  }

  /** The `rows` of `insertMissingKeys` after the rows of `sheetData`:
      each row whose file and key are not present is converted by
      `rowToValues`, and the first throw ends the loop. */
  function Appended(present: seq<seq<string>>, sheetData: seq<Row>): Result<seq<seq<SheetCell>>, string>
  {
    if sheetData == [] then Ok([])
    else
      match Appended(present, sheetData[..|sheetData| - 1])
      case Err(e) => Err(e)
      case Ok(rows) =>
        var row := sheetData[|sheetData| - 1];
        if RowKey(row) in present then Ok(rows)
        else
          match RowToValues(RowCells(row))
          case Err(e) => Err(e)
          case Ok(values) => Ok(rows + [values])
  }

  /** Once a conversion has thrown, later rows do not matter. */
  lemma {:induction false} AppendedStops(present: seq<seq<string>>, sheetData: seq<Row>, i: nat)
    requires i <= |sheetData| && Appended(present, sheetData[..i]).Err?
    ensures Appended(present, sheetData) == Appended(present, sheetData[..i])
    decreases |sheetData| - i
  {
    if i < |sheetData| {
      var p := sheetData[..|sheetData| - 1];
      assert p[..i] == sheetData[..i];
      AppendedStops(present, p, i);
    } else {
      assert sheetData[..i] == sheetData;
    }
  }

  /** As written, the append request is never built: with no missing row
      nothing is appended, and the first missing row throws. */
  lemma {:induction false} AppendedThrows(present: seq<seq<string>>, sheetData: seq<Row>)
    ensures Appended(present, sheetData) ==
      if MissingRows(present, sheetData) == [] then Ok([]) else Err(UndefinedLength)
    decreases |sheetData|
  {
    if sheetData != [] {
      AppendedThrows(present, sheetData[..|sheetData| - 1]);
      RowOfFlattenThrows(sheetData[|sheetData| - 1]);
    }
  }

  /** `getPresentKeys` followed by `insertMissingKeys`. A sheet with fewer
      than two rows is not read; otherwise `existing` is the content of
      columns A and B below the header, None when the service returns no
      `values`. The result is the `rows` of the append request, or what
      is thrown. */
  method InsertMissingKeys(rowCount: int, existing: Option<seq<seq<string>>>, sheetData: seq<Row>)
    returns (r: Result<seq<seq<SheetCell>>, string>)
    ensures rowCount < 2 ==> r == Appended([], sheetData)
    ensures rowCount >= 2 && existing.None? ==> r == Err(ValuesNotIterable)
    ensures rowCount >= 2 && existing.Some? ==> r == Appended(existing.value, sheetData)
    ensures rowCount < 2 ==> r == if sheetData == [] then Ok([]) else Err(UndefinedLength)
    ensures rowCount >= 2 && existing.Some? ==>
      r == if MissingRows(existing.value, sheetData) == [] then Ok([]) else Err(UndefinedLength)
  {
    var presentKeys: seq<seq<string>> := [];
    if rowCount >= 2 {
      if existing.None? {
        return Err(ValuesNotIterable);
      }
      presentKeys := existing.value;
    }
    AppendedThrows(presentKeys, sheetData);
    MissingRowsNone(sheetData);
    var rows: seq<seq<SheetCell>> := [];
    var i := 0;
    while i < |sheetData|
      invariant 0 <= i <= |sheetData|
      invariant Appended(presentKeys, sheetData[..i]) == Ok(rows)
    {
      assert sheetData[..i + 1][..i] == sheetData[..i];
      if RowKey(sheetData[i]) !in presentKeys {
        var values := RowToValues(RowCells(sheetData[i]));
        if values.Err? {
          AppendedStops(presentKeys, sheetData, i + 1);
          return Err(values.error);
        }
        rows := rows + [values.value];
      }
      i := i + 1;
    }
    assert sheetData[..i] == sheetData;
    return Ok(rows);
  }

  lemma {:induction false} MissingRowsNone(sheetData: seq<Row>)
    ensures MissingRows([], sheetData) == sheetData
    decreases |sheetData|
  {
    if sheetData != [] {
      MissingRowsNone(sheetData[..|sheetData| - 1]);
    }
  }

  /** A row is appended exactly when its file and key are not already in
      the sheet, and the appended rows keep their order. */
  lemma {:induction false} MissingRowsSpec(present: seq<seq<string>>, sheetData: seq<Row>)
    ensures forall row :: row in MissingRows(present, sheetData) <==>
      row in sheetData && RowKey(row) !in present
    decreases |sheetData|
  {
    if sheetData != [] {
      var p := sheetData[..|sheetData| - 1];
      MissingRowsSpec(present, p);
      assert sheetData == p + [sheetData[|sheetData| - 1]];
    }
  }

  // ---------------------------------------------------------------------
  // dumpData: one object per row
  // ---------------------------------------------------------------------

  /** An imported row: header name to cell, `undefined` (None) where the
      row is shorter than the header. */
  type RowObject = ODict<string, Option<string>>

  /** `row[j]`. */
  function CellAt(row: seq<string>, j: nat): Option<string> {
    if j < |row| then Some(row[j]) else None
  }

  /** The cell of the last of the first `upto` columns titled `h`. */
  function HeadValue(head: seq<string>, row: seq<string>, upto: nat, h: string): Option<Option<string>>
    requires upto <= |head|
  {
    if upto == 0 then None
    else if head[upto - 1] == h then Some(CellAt(row, upto - 1))
    else HeadValue(head, row, upto - 1, h)
  }

  /** The inner loop of `importSheetData`: `obj[head[j]] = row[j]`. */
  method RowToObject(head: seq<string>, row: seq<string>) returns (obj: RowObject)
    ensures Distinct(Keys(obj))
    ensures forall h :: Get(obj, h) == HeadValue(head, row, |head|, h)
    ensures Distinct(head) ==> Keys(obj) == head
  {
    obj := [];
    var j := 0;
    while j < |head|
      invariant 0 <= j <= |head|
      invariant Distinct(Keys(obj))
      invariant forall h :: Get(obj, h) == HeadValue(head, row, j, h)
      invariant Distinct(head) ==> Keys(obj) == head[..j]
    {
      forall h ensures Get(Put(obj, head[j], CellAt(row, j)), h) == HeadValue(head, row, j + 1, h) {
        PutGet(obj, head[j], CellAt(row, j), h);
      }
      PutDistinct(obj, head[j], CellAt(row, j));
      if Distinct(head) {
        assert head[j] !in head[..j];
        PutNew(obj, head[j], CellAt(row, j));
        assert head[..j + 1] == head[..j] + [head[j]];
      }
      obj := Put(obj, head[j], CellAt(row, j));
      j := j + 1;
    }
    assert head[..j] == head;
  }

  /** What reading `values[0]` of an absent grid throws. */
  const NoValues := "Cannot read properties of undefined (reading '0')"

  /** The header-to-object loop of `importSheetData`. `values` is the grid
      the service returns, None when it returns none. */
  method ImportRows(values: Option<seq<seq<string>>>) returns (r: Result<seq<RowObject>, string>)
    ensures values.None? <==> r.Err?
    ensures r.Err? ==> r.error == NoValues
    ensures r.Ok? ==> |r.value| == if |values.value| == 0 then 0 else |values.value| - 1
    ensures r.Ok? ==> forall i, h :: 0 <= i < |r.value| ==>
      Get(r.value[i], h) == HeadValue(values.value[0], values.value[i + 1], |values.value[0]|, h)
    ensures r.Ok? && |values.value| > 0 && Distinct(values.value[0]) ==>
      forall i :: 0 <= i < |r.value| ==> Keys(r.value[i]) == values.value[0]
  {
    if values.None? {
      return Err(NoValues);
    }
    var vs := values.value;
    var rows: seq<RowObject> := [];
    if |vs| == 0 {
      return Ok(rows);
    }
    var head := vs[0];
    var i := 1;
    while i < |vs|
      invariant 1 <= i <= |vs|
      invariant |rows| == i - 1
      invariant forall k, h :: 0 <= k < |rows| ==> Get(rows[k], h) == HeadValue(head, vs[k + 1], |head|, h)
      invariant Distinct(head) ==> forall k :: 0 <= k < |rows| ==> Keys(rows[k]) == head
    {
      var obj := RowToObject(head, vs[i]);
      rows := rows + [obj];
      i := i + 1;
    }
    return Ok(rows);
  }

  /** With distinct titles, the object of a row has exactly the header's
      names, in order, each holding the cell below it. */
  lemma HeadValueDistinct(head: seq<string>, row: seq<string>, j: nat)
    requires Distinct(head) && j < |head|
    ensures HeadValue(head, row, |head|, head[j]) == Some(CellAt(row, j))
  {
    HeadValueLast(head, row, |head|, j);
  }

  lemma {:induction false} HeadValueLast(head: seq<string>, row: seq<string>, upto: nat, j: nat)
    requires Distinct(head) && j < upto <= |head|
    ensures HeadValue(head, row, upto, head[j]) == Some(CellAt(row, j))
    decreases upto
  {
    if upto - 1 != j {
      assert head[upto - 1] != head[j];
      HeadValueLast(head, row, upto - 1, j);
    }
  }
}
