/** The server's row logic (server.js): the spreadsheet range A:I as a
    sequence of rows whose row 0 is the header, the sequential id allocator,
    the row-to-task decoding of GET, the row POST appends and the row PUT
    writes back, and the header-skipping search of PUT and DELETE. */
module RowStore {
  import opened TaskTypes

  /** One row of the range A:I as the Sheets API returns it; it may be
      shorter than nine cells when its last cells are empty. Columns: id,
      title, content, dueDate, completed flag, source tag, reserved event id,
      category, priority. */
  type Row = seq<string>

  const ColumnCount: nat := 9

  /** The source tag POST writes into column F. */
  const SourceTag: string := "Web"

  /** `row[i]`, with a cell past the end of the row (undefined) read as "". */
  function Cell(row: Row, i: nat): string {
    if i < |row| then row[i] else ""
  }

  /** `row[0] === taskId`. */
  predicate HasId(row: Row, taskId: string) {
    |row| > 0 && row[0] == taskId
  }

  // ---------------------------------------------------------------------
  // Decimal digits: /^\d{1,3}$/, parseInt, toString and padStart(3, '0')
  // ---------------------------------------------------------------------

  predicate AllDigits(s: string) {
    forall i :: 0 <= i < |s| ==> IsDigit(s[i])
  }

  /** `/^\d{1,3}$/.test(s)`. */
  predicate IsShortNumeral(s: string) {
    1 <= |s| <= 3 && AllDigits(s)
  }

  /** `parseInt(s, 10)` of a string of decimal digits. */
  function DigitsValue(s: string): nat
    requires AllDigits(s)
  {
    if s == [] then 0 else DigitsValue(s[..|s| - 1]) * 10 + (s[|s| - 1] as int - '0' as int)
  }

  /** `n.toString()`. */
  function Decimal(n: nat): (s: string)
    ensures 1 <= |s| && AllDigits(s)
  {
    if n < 10 then [DigitChar(n)] else Decimal(n / 10) + [DigitChar(n % 10)]
  }

  /** `s.padStart(3, '0')`. */
  function PadStart3(s: string): (r: string)
    ensures |r| == if |s| < 3 then 3 else |s|
    decreases 3 - |s|
  {
    if |s| >= 3 then s else PadStart3("0" + s)
  }

  /** `s.slice(-3)`. */
  function LastThree(s: string): string {
    if |s| <= 3 then s else s[|s| - 3..]
  }

  /** Three digits, most significant first. */
  function ThreeDigits(n: nat): (s: string)
    requires n < 1000
  {
    [DigitChar(n / 100), DigitChar(n / 10 % 10), DigitChar(n % 10)]
  }

  lemma ThreeDigitsValue(n: nat)
    requires n < 1000
    ensures IsShortNumeral(ThreeDigits(n)) && |ThreeDigits(n)| == 3
    ensures DigitsValue(ThreeDigits(n)) == n
  {
    var s := ThreeDigits(n);
    var t := n / 10;
    var h := t / 10;
    DivMod100(n, h, 10 * (t % 10) + n % 10);
    assert s[..2][..1] == [s[0]];
    assert DigitsValue(s[..1]) == h;
    assert DigitsValue(s[..2]) == h * 10 + t % 10 == t;
  }

  /** The last character of `n.toString()` is the units digit. */
  lemma DecimalLast(n: nat)
    ensures Decimal(n)[|Decimal(n)| - 1] == DigitChar(n % 10)
  {
  }

  /** Division by ten, stated for a known quotient and remainder. */
  lemma DivMod10(x: int, q: int, r: int)
    requires x == 10 * q + r && 0 <= r < 10
    ensures x / 10 == q && x % 10 == r
  {
  }

  /** Division by a hundred, stated for a known quotient and remainder. */
  lemma DivMod100(x: int, q: int, r: int)
    requires x == 100 * q + r && 0 <= r < 100
    ensures x / 100 == q && x % 100 == r
  {
  }

  /** For n of three digits or more, `n.toString()` ends in its hundreds,
      tens and units digits. */
  lemma DecimalEnds(n: nat)
    requires n >= 100
    ensures LastThree(Decimal(n)) == [DigitChar(n / 100 % 10), DigitChar(n / 10 % 10), DigitChar(n % 10)]
  {
    var t := n / 10;
    var h := t / 10;
    DivMod100(n, h, 10 * (t % 10) + n % 10);
    var d0 := Decimal(h);
    assert Decimal(t) == d0 + [DigitChar(t % 10)];
    assert Decimal(n) == d0 + [DigitChar(t % 10)] + [DigitChar(n % 10)];
    DecimalLast(h);
  }

  /** The three lowest decimal digits of n are those of n % 1000. */
  lemma LowDigits(n: nat)
    ensures n % 1000 / 100 == n / 100 % 10
    ensures n % 1000 / 10 % 10 == n / 10 % 10
    ensures n % 1000 % 10 == n % 10
  {
    var a, b := n / 1000, n % 1000;
    var c, d := b / 100, b % 100;
    DivMod100(n, 10 * a + c, d);
    DivMod10(10 * a + c, a, c);
    var e, f := b / 10, b % 10;
    DivMod10(n, 100 * a + e, f);
    DivMod10(100 * a + e, 10 * a + e / 10, e % 10);
  }

  /** The last three characters of `n.toString()`, zero-padded, are the last
      three decimal digits of n. */
  lemma PaddedLastThree(n: nat)
    ensures PadStart3(LastThree(Decimal(n))) == ThreeDigits(n % 1000)
  {
    LowDigits(n);
    if n < 10 {
      DivMod10(n, 0, n);
      DivMod100(n, 0, n);
      assert PadStart3("0" + [DigitChar(n)]) == "00" + [DigitChar(n)];
    } else if n < 100 {
      DivMod100(n, 0, n);
      DivMod10(n / 10, 0, n / 10);
      assert Decimal(n) == [DigitChar(n / 10), DigitChar(n % 10)];
      assert PadStart3(Decimal(n)) == "0" + Decimal(n);
    } else {
      DecimalEnds(n);
    }
  }

  /** `n.toString().padStart(3, '0')` for a number below 1000. */
  lemma PaddedDecimal(n: nat)
    requires n < 1000
    ensures PadStart3(Decimal(n)) == ThreeDigits(n)
  {
    PaddedLastThree(n);
    assert n % 1000 == n;
    if n >= 100 {
      var t := n / 10;
      var h := t / 10;
      DivMod100(n, h, 10 * (t % 10) + n % 10);
      assert Decimal(h) == [DigitChar(h)];
      assert Decimal(t) == Decimal(h) + [DigitChar(t % 10)];
    }
  }

  // ---------------------------------------------------------------------
  // String.prototype.trim
  // ---------------------------------------------------------------------

  /** ECMAScript WhiteSpace and LineTerminator code points. */
  predicate IsJsSpace(c: char) {
    || c == '\t' || c == '\n' || c == '\U{000B}' || c == '\U{000C}' || c == '\r' || c == ' '
    || c == '\U{00A0}' || c == '\U{1680}' || ('\U{2000}' <= c <= '\U{200A}')
    || c == '\U{2028}' || c == '\U{2029}' || c == '\U{202F}' || c == '\U{205F}'
    || c == '\U{3000}' || c == '\U{FEFF}'
  }

  /** `s.trimStart()`. */
  function TrimStart(s: string): string {
    if s != [] && IsJsSpace(s[0]) then TrimStart(s[1..]) else s
  }

  /** `s.trimEnd()`. */
  function TrimEnd(s: string): string {
    if s != [] && IsJsSpace(s[|s| - 1]) then TrimEnd(s[..|s| - 1]) else s
  }

  function Trim(s: string): string {
    TrimEnd(TrimStart(s))
  }

  /** trimStart removes a prefix of white space and stops at the first other character. */
  lemma {:induction false} TrimStartStrips(s: string)
    ensures var r := TrimStart(s);
      && |r| <= |s| && r == s[|s| - |r|..]
      && (forall i :: 0 <= i < |s| - |r| ==> IsJsSpace(s[i]))
      && (r == [] || !IsJsSpace(r[0]))
  {
    if s != [] && IsJsSpace(s[0]) {
      var t, r := s[1..], TrimStart(s);
      TrimStartStrips(t);
      assert r == t[|t| - |r|..] == s[|s| - |r|..];
      forall i | 0 < i < |s| - |r|
        ensures IsJsSpace(s[i])
      {
        assert s[i] == t[i - 1];
      }
    }
  }

  /** trimEnd removes a suffix of white space and stops at the last other character. */
  lemma {:induction false} TrimEndStrips(s: string)
    ensures var r := TrimEnd(s);
      && |r| <= |s| && r == s[..|r|]
      && (forall i :: |r| <= i < |s| ==> IsJsSpace(s[i]))
      && (r == [] || !IsJsSpace(r[|r| - 1]))
  {
    if s != [] && IsJsSpace(s[|s| - 1]) {
      TrimEndStrips(s[..|s| - 1]);
    }
  }

  /** trim leaves a string without white space at either end, so trimming
      twice is trimming once. */
  lemma TrimIdempotent(s: string)
    ensures var r := Trim(s); r == [] || (!IsJsSpace(r[0]) && !IsJsSpace(r[|r| - 1]))
    ensures Trim(Trim(s)) == Trim(s)
  {
    var t := TrimStart(s);
    TrimStartStrips(s);
    TrimEndStrips(t);
    var r := TrimEnd(t);
    if r != [] {
      assert r[0] == t[0];
    }
    TrimUnchanged(r);
  }

  /** A string without white space at either end is its own trim. */
  lemma TrimUnchanged(s: string)
    requires s == [] || (!IsJsSpace(s[0]) && !IsJsSpace(s[|s| - 1]))
    ensures Trim(s) == s
  {
  }

  // ---------------------------------------------------------------------
  // getNextTaskId
  // ---------------------------------------------------------------------

  /** The id cell of a row counts when `id && /^\d{1,3}$/.test(id.toString().trim())`. */
  predicate HasNumericId(row: Row) {
    IsShortNumeral(Trim(Cell(row, 0)))
  }

  function IdValue(row: Row): (v: nat)
    requires HasNumericId(row)
    ensures v <= 999
  {
    ShortNumeralBound(Trim(Cell(row, 0)));
    DigitsValue(Trim(Cell(row, 0)))
  }

  /** The numeric ids of the data rows `body`, in order, as parseInt gives them. */
  function NumericIds(body: seq<Row>): (ids: seq<nat>)
    ensures forall v :: v in ids ==> v <= 999
  {
    if body == [] then []
    else if HasNumericId(body[0]) then [IdValue(body[0])] + NumericIds(body[1..])
    else NumericIds(body[1..])
  }

  /** Every data row with a numeric id contributes its value. */
  lemma {:induction false} NumericIdsHas(body: seq<Row>, i: nat)
    requires i < |body| && HasNumericId(body[i])
    ensures IdValue(body[i]) in NumericIds(body)
  {
    if i > 0 {
      assert body[i] == body[1..][i - 1];
      NumericIdsHas(body[1..], i - 1);
    }
  }

  /** Every listed id is the parsed id of some data row. */
  lemma {:induction false} NumericIdsFrom(body: seq<Row>, v: nat)
    requires v in NumericIds(body)
    ensures exists i :: 0 <= i < |body| && HasNumericId(body[i]) && IdValue(body[i]) == v
  {
    if !(HasNumericId(body[0]) && v == IdValue(body[0])) {
      NumericIdsFrom(body[1..], v);
      var i :| 0 <= i < |body[1..]| && HasNumericId(body[1..][i]) && IdValue(body[1..][i]) == v;
      assert body[i + 1] == body[1..][i];
    }
  }

  /** `existingIds` holds exactly the parsed ids of the data rows whose
      trimmed id cell is one to three digits. */
  lemma ExistingIdsExactly(rows: seq<Row>, v: nat)
    ensures v in ExistingIds(rows) <==>
      exists i :: 1 <= i < |rows| && HasNumericId(rows[i]) && IdValue(rows[i]) == v
  {
    if v in ExistingIds(rows) {
      NumericIdsFrom(rows[1..], v);
      var i :| 0 <= i < |rows[1..]| && HasNumericId(rows[1..][i]) && IdValue(rows[1..][i]) == v;
      assert rows[i + 1] == rows[1..][i];
    }
    if exists i :: 1 <= i < |rows| && HasNumericId(rows[i]) && IdValue(rows[i]) == v {
      var i :| 1 <= i < |rows| && HasNumericId(rows[i]) && IdValue(rows[i]) == v;
      assert rows[i] == rows[1..][i - 1];
      NumericIdsHas(rows[1..], i - 1);
    }
  }

  lemma {:induction false} ShortNumeralBound(s: string)
    requires AllDigits(s) && |s| <= 3
    ensures DigitsValue(s) < if |s| == 0 then 1 else if |s| == 1 then 10 else if |s| == 2 then 100 else 1000
  {
    if s != [] {
      ShortNumeralBound(s[..|s| - 1]);
    }
  }

  /** `Math.max(...ids)`. */
  function Max(ids: seq<nat>): (m: nat)
    requires ids != []
    ensures m in ids && forall v :: v in ids ==> v <= m
  {
    if |ids| == 1 then ids[0]
    else
      var rest := Max(ids[1..]);
      assert forall v :: v in ids[1..] ==> v in ids;
      assert forall v :: v in ids ==> v == ids[0] || v in ids[1..];
      if ids[0] >= rest then ids[0] else rest
  }

  /** The ids of the rows after the header (`rows.slice(1)`). */
  function ExistingIds(rows: seq<Row>): seq<nat> {
    if rows == [] then [] else NumericIds(rows[1..])
  }

  /** The successor of the largest id, wrapping after 999; 1 on a sheet with no id. */
  function NextIdValue(rows: seq<Row>): (n: nat)
    ensures 1 <= n <= 999
  {
    var ids := ExistingIds(rows);
    if ids == [] then 1
    else
      var maxId := Max(ids);
      if maxId >= 999 then 1 else maxId + 1
  }

  /** getNextTaskId when the sheet could be read. */
  function NextTaskId(rows: seq<Row>): (id: string)
    ensures |id| == 3 && IsShortNumeral(id) && 1 <= DigitsValue(id) <= 999
    ensures ExistingIds(rows) == [] ==> id == "001"
  {
    var ids := ExistingIds(rows);
    if ids == [] then
      assert "001" == ThreeDigits(1);
      ThreeDigitsValue(1);
      "001"
    else
      var next := NextIdValue(rows);
      PaddedDecimal(next);
      ThreeDigitsValue(next);
      PadStart3(Decimal(next))
  }

  /** getNextTaskId when reading the sheet failed: the last three digits of
      the clock in milliseconds, zero-padded. */
  function FallbackTaskId(nowMs: nat): (id: string)
    ensures |id| == 3 && IsShortNumeral(id) && DigitsValue(id) == nowMs % 1000
  {
    PaddedLastThree(nowMs);
    ThreeDigitsValue(nowMs % 1000);
    PadStart3(LastThree(Decimal(nowMs)))
  }

  /** The allocated id denotes the number after the largest existing id
      (1 when there is none, or after 999). */
  lemma NextTaskIdValue(rows: seq<Row>)
    ensures DigitsValue(NextTaskId(rows)) == NextIdValue(rows)
  {
    if ExistingIds(rows) != [] {
      PaddedDecimal(NextIdValue(rows));
      ThreeDigitsValue(NextIdValue(rows));
    } else {
      assert "001" == ThreeDigits(1);
      ThreeDigitsValue(1);
    }
  }

  /** The allocated id is the three-digit rendering of the next value. */
  lemma NextTaskIdDigits(rows: seq<Row>)
    ensures NextTaskId(rows) == ThreeDigits(NextIdValue(rows))
  {
    if ExistingIds(rows) == [] {
      assert ThreeDigits(1) == "001";
    } else {
      PaddedDecimal(NextIdValue(rows));
    }
  }

  /** Once any data row carries id 999 the counter wraps: the next id is 001. */
  lemma NextTaskIdWraps(rows: seq<Row>)
    requires 999 in ExistingIds(rows)
    ensures NextTaskId(rows) == "001"
  {
    assert NextIdValue(rows) == 1;
    NextTaskIdDigits(rows);
    assert ThreeDigits(1) == "001";
  }

  /** Appending a data row whose id is not 1 to 3 digits (after trimming)
      leaves the numeric ids as they were. */
  lemma {:induction false} NumericIdsSkip(body: seq<Row>, row: Row)
    requires !HasNumericId(row)
    ensures NumericIds(body + [row]) == NumericIds(body)
  {
    if body == [] {
      assert [row][1..] == [];
    } else {
      assert (body + [row])[1..] == body[1..] + [row];
      NumericIdsSkip(body[1..], row);
    }
  }

  /** A row whose id is not 1 to 3 digits does not affect the allocation. */
  lemma NextTaskIdIgnoresMalformed(rows: seq<Row>, row: Row)
    requires rows != [] && !HasNumericId(row)
    ensures NextTaskId(rows + [row]) == NextTaskId(rows)
  {
    assert (rows + [row])[1..] == rows[1..] + [row];
    NumericIdsSkip(rows[1..], row);
    assert ExistingIds(rows + [row]) == ExistingIds(rows);
    assert NextIdValue(rows + [row]) == NextIdValue(rows);
    NextTaskIdDigits(rows);
    NextTaskIdDigits(rows + [row]);
  }

  /** Worked allocation: a sheet holding only its header starts at 001. */
  lemma NextTaskIdOnEmptySheet()
    ensures NextTaskId([["id"]]) == "001"
  {
    assert [["id"]][1..] == [];
  }

  /** A data row whose id is a single digit contributes that digit's value. */
  lemma SingleDigitId(d: nat)
    requires d <= 9
    ensures NumericIds([[[DigitChar(d)]]]) == [d]
  {
    var s := [DigitChar(d)];
    TrimUnchanged(s);
    assert Cell([s], 0) == s;
    assert HasNumericId([s]);
    assert s[..0] == [];
    assert DigitsValue(s) == d;
    assert [[s]][1..] == [];
  }

  /** Worked allocation: on a sheet whose only task has the one-digit id d
      (d below 9), the next id is d + 1 with two leading zeros; after 5 comes 006. */
  lemma NextTaskIdAfterSingleDigit(header: Row, d: nat)
    requires d <= 8
    ensures NextTaskId([header, [[DigitChar(d)]]]) == ['0', '0', DigitChar(d + 1)]
  {
    var rows := [header, [[DigitChar(d)]]];
    assert ExistingIds(rows) == [d] by {
      SingleDigitId(d);
      assert rows[1..] == [[[DigitChar(d)]]];
    }
    NextTaskIdDigits(rows);
    DivMod10(d + 1, 0, d + 1);
    DivMod100(d + 1, 0, d + 1);
  }

  /** A sheet none of whose data rows carries a one-to-three-digit id
      allocates "001". */
  lemma NoNumericIdGives001(rows: seq<Row>)
    requires forall i :: 1 <= i < |rows| ==> !HasNumericId(rows[i])
    ensures NextTaskId(rows) == "001"
  {
    if ExistingIds(rows) != [] {
      ExistingIdsExactly(rows, ExistingIds(rows)[0]);
    }
  }

  /** `Math.max(...existingIds)` is the largest parsed id among the data
      rows, and some data row carries it. */
  lemma MaxIsLargestRowId(rows: seq<Row>)
    requires ExistingIds(rows) != []
    ensures exists i :: 1 <= i < |rows| && HasNumericId(rows[i]) && IdValue(rows[i]) == Max(ExistingIds(rows))
    ensures forall i :: 1 <= i < |rows| && HasNumericId(rows[i]) ==> IdValue(rows[i]) <= Max(ExistingIds(rows))
  {
    var ids := ExistingIds(rows);
    ExistingIdsExactly(rows, Max(ids));
    forall i | 1 <= i < |rows| && HasNumericId(rows[i])
      ensures IdValue(rows[i]) <= Max(ids)
    {
      ExistingIdsExactly(rows, IdValue(rows[i]));
    }
  }

  /** Until the counter wraps, the allocated id differs from the id cell of
      every data row. */
  lemma NextTaskIdFresh(rows: seq<Row>)
    requires ExistingIds(rows) == [] || Max(ExistingIds(rows)) < 999
    ensures forall i :: 1 <= i < |rows| ==> Cell(rows[i], 0) != NextTaskId(rows)
  {
    var id := NextTaskId(rows);
    NextTaskIdValue(rows);
    forall i | 1 <= i < |rows|
      ensures Cell(rows[i], 0) != id
    {
      if Cell(rows[i], 0) == id {
        TrimUnchanged(id);
        assert rows[i] == rows[1..][i - 1];
        NumericIdsHas(rows[1..], i - 1);
      }
    }
  }

  // ---------------------------------------------------------------------
  // GET: rows to tasks
  // ---------------------------------------------------------------------

  /** One data row as a task, with the defaults of the GET handler. Only the
      text 'true' in column E reads as completed. */
  function DecodeRow(row: Row): (t: Task)
    ensures t.id == Cell(row, 0) && t.priority != ""
    ensures t.dueDate.Some? ==> t.dueDate.value != ""
    ensures t.completed <==> Cell(row, 4) == "true"
  {
    Task(
      id := Cell(row, 0),
      title := Cell(row, 1),
      content := Cell(row, 2),
      dueDate := OrNull(Some(Cell(row, 3))),
      completed := Cell(row, 4) == "true",
      category := Cell(row, 7),
      priority := Or(Some(Cell(row, 8)), "medium"))
  }

  /** `body.map(row => ...)`. */
  function DecodeBody(body: seq<Row>): (tasks: seq<Task>)
    ensures |tasks| == |body|
    ensures forall i :: 0 <= i < |body| ==> tasks[i] == DecodeRow(body[i])
  {
    if body == [] then [] else [DecodeRow(body[0])] + DecodeBody(body[1..])
  }

  /** The GET response: one task per row after the header, in sheet order. */
  function DecodeRows(rows: seq<Row>): (tasks: seq<Task>)
    ensures |tasks| == if rows == [] then 0 else |rows| - 1
    ensures forall i :: 0 <= i < |tasks| ==> tasks[i] == DecodeRow(rows[i + 1])
  {
    if rows == [] then [] else DecodeBody(rows[1..])
  }

  // ---------------------------------------------------------------------
  // POST: the new row and the echoed task
  // ---------------------------------------------------------------------

  /** The nine cells POST appends. */
  function NewRow(id: string, req: CreateRequest): (row: Row)
    requires Truthy(req.title)
    ensures |row| == ColumnCount && HasId(row, id)
    ensures row[4] == "false" && row[5] == SourceTag && row[6] == "" && row[8] != ""
  {
    [id, req.title.value, Or(req.content, ""), Or(req.dueDate, ""), "false", SourceTag, "",
     Or(req.category, ""), Or(req.priority, "medium")]
  }

  /** The task POST answers with. */
  function CreatedTask(id: string, req: CreateRequest): (t: Task)
    requires Truthy(req.title)
    ensures t.id == id && t.title == req.title.value && t.title != ""
    ensures !t.completed && t.priority != ""
  {
    Task(id, req.title.value, Or(req.content, ""), OrNull(req.dueDate), false,
         Or(req.category, ""), Or(req.priority, "medium"))
  }

  /** Reading the appended row back gives exactly the task POST answered
      with: the submitted fields with their defaults, not completed. */
  lemma NewRowRoundTrip(id: string, req: CreateRequest)
    requires Truthy(req.title)
    ensures |NewRow(id, req)| == ColumnCount
    ensures DecodeRow(NewRow(id, req)) == CreatedTask(id, req)
    ensures !CreatedTask(id, req).completed && CreatedTask(id, req).title == req.title.value
  {
  }

  // ---------------------------------------------------------------------
  // PUT and DELETE: the search and the merged row
  // ---------------------------------------------------------------------

  function FindFrom(rows: seq<Row>, taskId: string, i: nat): (r: Option<nat>)
    ensures r.Some? ==> i <= r.value < |rows| && HasId(rows[r.value], taskId)
    ensures r.Some? ==> forall j :: i <= j < r.value ==> !HasId(rows[j], taskId)
    ensures r.None? ==> forall j :: i <= j < |rows| ==> !HasId(rows[j], taskId)
    decreases |rows| - i
  {
    if i >= |rows| then None
    else if HasId(rows[i], taskId) then Some(i)
    else FindFrom(rows, taskId, i + 1)
  }

  /** `rows.findIndex((row, i) => i > 0 && row[0] === taskId)`: the first
      data row with the id; the header row is never a match. */
  function FindRow(rows: seq<Row>, taskId: string): (r: Option<nat>)
    ensures r.Some? ==> 0 < r.value < |rows| && HasId(rows[r.value], taskId)
    ensures r.Some? ==> forall j :: 0 < j < r.value ==> !HasId(rows[j], taskId)
    ensures r.None? <==> forall j :: 0 < j < |rows| ==> !HasId(rows[j], taskId)
  {
    FindFrom(rows, taskId, 1)
  }

  /** The nine cells PUT writes back: `??` keeps the old cell for a field
      that is null or absent, `completed` is written as 'true' or 'false' only
      when present, and columns A, F and G are never taken from the request. */
  function MergeRow(stored: Row, taskId: string, req: UpdateRequest): (row: Row)
    ensures |row| == ColumnCount && HasId(row, taskId)
    ensures row[5] == Cell(stored, 5) && row[6] == Cell(stored, 6)
    ensures req.completed.None? ==> row[4] == Cell(stored, 4)
  {
    [taskId,
     Coalesce(req.title, Cell(stored, 1)),
     Coalesce(req.content, Cell(stored, 2)),
     Coalesce(req.dueDate, Cell(stored, 3)),
     if req.completed.Some? then (if req.completed.value then "true" else "false") else Cell(stored, 4),
     Cell(stored, 5),
     Cell(stored, 6),
     Coalesce(req.category, Cell(stored, 7)),
     Coalesce(req.priority, Cell(stored, 8))]
  }

  /** The task PUT answers with, read from the row it wrote. */
  function UpdatedTask(taskId: string, row: Row): Task {
    Task(taskId, Cell(row, 1), Cell(row, 2), OrNull(Some(Cell(row, 3))), Cell(row, 4) == "true",
         Cell(row, 7), Cell(row, 8))
  }

  /** The merge as the next GET sees it: each field absent from the request
      keeps its stored value, each present one replaces it, and the id,
      source-tag and reserved cells stay. */
  lemma MergeRowFields(stored: Row, taskId: string, req: UpdateRequest)
    requires HasId(stored, taskId)
    ensures var m := MergeRow(stored, taskId, req);
      var before, after := DecodeRow(stored), DecodeRow(m);
      && |m| == ColumnCount
      && Cell(m, 0) == Cell(stored, 0) && Cell(m, 5) == Cell(stored, 5) && Cell(m, 6) == Cell(stored, 6)
      && after.id == before.id
      && after.title == (if req.title.Some? then req.title.value else before.title)
      && after.content == (if req.content.Some? then req.content.value else before.content)
      && after.dueDate == (if req.dueDate.Some? then OrNull(req.dueDate) else before.dueDate)
      && after.completed == (if req.completed.Some? then req.completed.value else before.completed)
      && after.category == (if req.category.Some? then req.category.value else before.category)
      && after.priority == (if req.priority.Some? then Or(req.priority, "medium") else before.priority)
  {
  }

  /** The PUT answer agrees with what the next GET returns for that row
      exactly when the stored priority cell is not empty: the answer does not
      apply GET's 'medium' default. */
  lemma UpdatedTaskMatchesListIff(stored: Row, taskId: string, req: UpdateRequest)
    ensures var m := MergeRow(stored, taskId, req);
      UpdatedTask(taskId, m) == DecodeRow(m) <==> Cell(m, 8) != ""
  {
  }

  // ---------------------------------------------------------------------
  // What each write does to the next GET
  // ---------------------------------------------------------------------

  /** After an append, GET lists the old tasks and then the new row's task. */
  lemma DecodeAppend(rows: seq<Row>, row: Row)
    requires rows != []
    ensures DecodeRows(rows + [row]) == DecodeRows(rows) + [DecodeRow(row)]
  {
    var l, r := DecodeRows(rows + [row]), DecodeRows(rows) + [DecodeRow(row)];
    assert |l| == |r|;
    forall i | 0 <= i < |l|
      ensures l[i] == r[i]
    {
      assert (rows + [row])[i + 1] == if i + 1 < |rows| then rows[i + 1] else row;
    }
  }

  /** On a sheet without even a header row, the appended row lands in row 0
      and GET never lists it. */
  lemma AppendToEmptySheetIsHidden(row: Row)
    ensures DecodeRows([] + [row]) == []
  {
  }

  /** Overwriting data row `i` changes exactly the (i-1)-th listed task. */
  lemma DecodeOverwrite(rows: seq<Row>, i: nat, row: Row)
    requires 0 < i < |rows|
    ensures DecodeRows(rows[i := row]) == DecodeRows(rows)[i - 1 := DecodeRow(row)]
  {
    var l, r := DecodeRows(rows[i := row]), DecodeRows(rows)[i - 1 := DecodeRow(row)];
    assert |l| == |r|;
    forall k | 0 <= k < |l|
      ensures l[k] == r[k]
    {
    }
  }

  /** Deleting data row `i` removes exactly the (i-1)-th listed task and keeps
      the others in order. */
  lemma DecodeDelete(rows: seq<Row>, i: nat)
    requires 0 < i < |rows|
    ensures DecodeRows(rows[..i] + rows[i + 1..]) == DecodeRows(rows)[..i - 1] + DecodeRows(rows)[i..]
  {
    var rest := rows[..i] + rows[i + 1..];
    var l, r := DecodeRows(rest), DecodeRows(rows)[..i - 1] + DecodeRows(rows)[i..];
    assert |l| == |r|;
    forall k | 0 <= k < |l|
      ensures l[k] == r[k]
    {
      assert rest[k + 1] == if k + 1 < i then rows[k + 1] else rows[k + 2];
    }
  }
}
