/** The REST handlers of server.js over one spreadsheet tab. The tab is the
    row sequence `rows` of a `Sheet`; the three Sheets API writes the server
    issues (values.append, values.update of one A1 row, deleteDimension of a
    row range) are the methods that change it. */
module SheetServer {
  import opened TaskTypes
  import opened RowStore

  /** What a handler answers: the status code and the JSON body. */
  datatype Reply =
    | TaskList(tasks: seq<Task>)                // 200, the GET list
    | TaskReply(status: nat, task: Task)       // 201 after POST, 200 after PUT
    | Deleted                                  // 200, { success: true }
    | ErrorReply(status: nat, error: string)   // 400 or 404 with { error }

  const TitleRequired: Reply := ErrorReply(400, "title is required")
  const NotFound: Reply := ErrorReply(404, "Task not found")

  class Sheet {
    /** The tab's cells, row 0 the header; range A:I. */
    var rows: seq<Row>

    constructor (initial: seq<Row>)
      ensures rows == initial
    {
      rows := initial;
    }

    /** spreadsheets.values.append of one row: it lands after the last row. */
    method Append(row: Row)
      modifies this`rows
      ensures rows == old(rows) + [row]
    {
      rows := rows + [row];
    }

    /** spreadsheets.values.update of range A{rowNumber}:I{rowNumber}; A1 row
        numbers start at 1, so row n is 0-based index n - 1. */
    method UpdateRow(rowNumber: nat, row: Row)
      requires 1 <= rowNumber <= |rows|
      modifies this`rows
      ensures rows == old(rows)[rowNumber - 1 := row]
    {
      rows := rows[rowNumber - 1 := row];
    }

    /** deleteDimension on ROWS [startIndex, endIndex): 0-based, end exclusive. */
    method DeleteRows(startIndex: nat, endIndex: nat)
      requires startIndex <= endIndex <= |rows|
      modifies this`rows
      ensures rows == old(rows)[..startIndex] + old(rows)[endIndex..]
    {
      rows := rows[..startIndex] + rows[endIndex..];
    }

    /** GET /api/tasks: one task per data row, in sheet order, with the
        decoding defaults; the header row is never listed. */
    method GetTasks() returns (reply: Reply)
      ensures reply.TaskList?
      ensures |reply.tasks| == if rows == [] then 0 else |rows| - 1
      ensures forall i :: 0 < i < |rows| ==> reply.tasks[i - 1] == DecodeRow(rows[i])
    {
      reply := TaskList(DecodeRows(rows));
    }

    /** POST /api/tasks: a falsy title is refused and nothing is written;
        otherwise an id is allocated (from the sheet when it could be read,
        from the clock when not), one nine-cell row is appended and the new
        task is answered with 201. The next GET lists the old tasks followed
        by exactly the answered task. */
    method PostTask(req: CreateRequest, idReadOk: bool, nowMs: nat) returns (reply: Reply)
      modifies this`rows
      ensures !Truthy(req.title) ==> reply == TitleRequired && rows == old(rows)
      ensures Truthy(req.title) ==>
        var id := if idReadOk then NextTaskId(old(rows)) else FallbackTaskId(nowMs);
        && rows == old(rows) + [NewRow(id, req)]
        && reply == TaskReply(201, CreatedTask(id, req))
        && |rows[|rows| - 1]| == ColumnCount
        && (old(rows) != [] ==> DecodeRows(rows) == DecodeRows(old(rows)) + [reply.task])
    {
      if !Truthy(req.title) {
        return TitleRequired;
      }
      var id := if idReadOk then NextTaskId(rows) else FallbackTaskId(nowMs);
      var newRow := NewRow(id, req);
      NewRowRoundTrip(id, req);
      if rows != [] {
        DecodeAppend(rows, newRow);
      }
      Append(newRow);
      reply := TaskReply(201, CreatedTask(id, req));
    }

    /** PUT /api/tasks/:id: the first data row holding the id is merged with
        the request and written back in place; every other row stays. An
        unknown id is a 404 and nothing is written. */
    method PutTask(taskId: string, req: UpdateRequest) returns (reply: Reply)
      modifies this`rows
      ensures FindRow(old(rows), taskId).None? ==> reply == NotFound && rows == old(rows)
      ensures FindRow(old(rows), taskId).Some? ==>
        var index := FindRow(old(rows), taskId).value;
        var merged := MergeRow(old(rows)[index], taskId, req);
        && rows == old(rows)[index := merged]
        && reply == TaskReply(200, UpdatedTask(taskId, merged))
        && DecodeRows(rows) == DecodeRows(old(rows))[index - 1 := DecodeRow(merged)]
    {
      var found := FindRow(rows, taskId);
      if found.None? {
        return NotFound;
      }
      var index := found.value;
      var rowNumber := index + 1;
      var updatedRow := MergeRow(rows[index], taskId, req);
      DecodeOverwrite(rows, index, updatedRow);
      UpdateRow(rowNumber, updatedRow);
      reply := TaskReply(200, UpdatedTask(taskId, updatedRow));
    }

    /** DELETE /api/tasks/:id: exactly the first data row holding the id is
        removed and the others keep their order; the next GET lists every
        other task in order. An unknown id is a 404 and nothing is removed. */
    method DeleteTask(taskId: string) returns (reply: Reply)
      modifies this`rows
      ensures FindRow(old(rows), taskId).None? ==> reply == NotFound && rows == old(rows)
      ensures FindRow(old(rows), taskId).Some? ==>
        var index := FindRow(old(rows), taskId).value;
        && rows == old(rows)[..index] + old(rows)[index + 1..]
        && |rows| == |old(rows)| - 1
        && reply == Deleted
        && DecodeRows(rows) == DecodeRows(old(rows))[..index - 1] + DecodeRows(old(rows))[index..]
    {
      var found := FindRow(rows, taskId);
      if found.None? {
        return NotFound;
      }
      var rowNumber := found.value;
      DecodeDelete(rows, rowNumber);
      DeleteRows(rowNumber, rowNumber + 1);
      reply := Deleted;
    }
  }
}
