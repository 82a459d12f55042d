/** What the client's requests do once the server has applied them: the
    browser's cached list against the list the next GET returns. */
module RoundTrips {
  import opened TaskTypes
  import opened ClientView
  import opened ClientState
  import opened RowStore

  /** An edit sends `dueDate: dueDate || null`, and the server merges with
      `??`: clearing the due date in the edit form keeps the stored date, while
      a non-empty date replaces it. The other edited fields are replaced. */
  lemma EditDueDateMerge(stored: Row, taskId: string, title: string, content: string, dueDate: string,
                         category: string, priority: string)
    requires HasId(stored, taskId)
    ensures var after := DecodeRow(MergeRow(stored, taskId, EditRequest(title, content, dueDate, category, priority)));
      && (dueDate == "" ==> after.dueDate == DecodeRow(stored).dueDate)
      && (dueDate != "" ==> after.dueDate == Some(dueDate))
      && after.title == title && after.content == content && after.category == category
      && after.completed == DecodeRow(stored).completed
  {
    MergeRowFields(stored, taskId, EditRequest(title, content, dueDate, category, priority));
  }

  /** A toggle's PUT changes the stored task in its completion flag only. */
  lemma ToggleChangesOnlyCompleted(stored: Row, taskId: string, completed: bool)
    requires HasId(stored, taskId)
    ensures DecodeRow(MergeRow(stored, taskId, ToggleRequest(completed)))
         == DecodeRow(stored).(completed := completed)
  {
    MergeRowFields(stored, taskId, ToggleRequest(completed));
  }

  /** The server refuses the client's create request exactly when the title
      field was left empty; otherwise it answers with the form's values, the
      due date null when empty, the priority 'medium' when empty, not completed. */
  lemma CreateRequestAccepted(id: string, title: string, content: string, dueDate: string,
                              category: string, priority: string)
    ensures var req := CreateTaskRequest(title, content, dueDate, category, priority);
      && (Truthy(req.title) <==> title != "")
      && (title != "" ==>
            CreatedTask(id, req) == Task(id, title, content, OrNull(Some(dueDate)), false, category,
                                         Or(Some(priority), "medium")))
  {
  }

  /** Appending the POST answer to a cache that mirrors the sheet gives the
      list the next GET returns. */
  lemma CreateKeepsCacheInSync(rows: seq<Row>, id: string, req: CreateRequest)
    requires rows != [] && Truthy(req.title)
    ensures DecodeRows(rows) + [CreatedTask(id, req)] == DecodeRows(rows + [NewRow(id, req)])
  {
    NewRowRoundTrip(id, req);
    DecodeAppend(rows, NewRow(id, req));
  }

  /** The first cached task with a non-empty id is the task of the first
      sheet row holding it. */
  lemma FirstMatchAgrees(rows: seq<Row>, taskId: string, index: nat)
    requires taskId != "" && FindRow(rows, taskId) == Some(index)
    ensures FindIndex(DecodeRows(rows), taskId) == index - 1
  {
    assert DecodeRows(rows)[index - 1].id == taskId;
  }

  /** Putting the decoded merged row in place of the first cached task with
      the id gives the list the next GET returns. The PUT answer itself is
      that decoded row exactly when the merged priority cell is not empty. */
  lemma UpdateKeepsCacheInSync(rows: seq<Row>, taskId: string, req: UpdateRequest, index: nat)
    requires taskId != "" && FindRow(rows, taskId) == Some(index)
    ensures var merged := MergeRow(rows[index], taskId, req);
      && ReplaceById(DecodeRows(rows), taskId, DecodeRow(merged)) == DecodeRows(rows[index := merged])
      && (UpdatedTask(taskId, merged) == DecodeRow(merged) <==> Cell(merged, 8) != "")
  {
    var merged := MergeRow(rows[index], taskId, req);
    FirstMatchAgrees(rows, taskId, index);
    DecodeOverwrite(rows, index, merged);
    UpdatedTaskMatchesListIff(rows[index], taskId, req);
  }

  /** Under a unique id, the cached tasks before and after the deleted one
      carry other ids. */
  lemma OthersKeepTheirIds(rows: seq<Row>, taskId: string, index: nat)
    requires 0 < index < |rows|
    requires forall j :: 0 < j < |rows| && j != index ==> Cell(rows[j], 0) != taskId
    ensures forall t :: t in DecodeRows(rows)[..index - 1] ==> IdIsNot(taskId)(t)
    ensures forall t :: t in DecodeRows(rows)[index..] ==> IdIsNot(taskId)(t)
  {
    var tasks := DecodeRows(rows);
    forall t | t in tasks[..index - 1]
      ensures IdIsNot(taskId)(t)
    {
      var j :| 0 <= j < index - 1 && tasks[..index - 1][j] == t;
      assert t == DecodeRow(rows[j + 1]);
    }
    forall t | t in tasks[index..]
      ensures IdIsNot(taskId)(t)
    {
      var j :| 0 <= j < |tasks| - index && tasks[index..][j] == t;
      assert t == DecodeRow(rows[index + j + 1]);
    }
  }

  /** Filtering out a single rejected element keeps the rest in order. */
  lemma FilterDropsOne(before: seq<Task>, y: Task, after: seq<Task>, p: Task -> bool)
    requires !p(y)
    requires forall t :: t in before ==> p(t)
    requires forall t :: t in after ==> p(t)
    ensures Filter(before + [y] + after, p) == before + after
  {
    calc {
      Filter(before + [y] + after, p);
      { FilterAppend(before + [y], after, p); FilterAppend(before, [y], p); }
      Filter(before, p) + Filter([y], p) + Filter(after, p);
      { assert [y][1..] == []; }
      Filter(before, p) + Filter(after, p);
      { FilterKeepsAll(before, p); FilterKeepsAll(after, p); }
      before + after;
    }
  }

  /** When exactly one data row holds the id, dropping every cached task with
      it gives the list the next GET returns after the row is deleted. */
  lemma DeleteKeepsCacheInSync(rows: seq<Row>, taskId: string, index: nat)
    requires FindRow(rows, taskId) == Some(index)
    requires forall j :: 0 < j < |rows| && j != index ==> Cell(rows[j], 0) != taskId
    ensures WithoutId(DecodeRows(rows), taskId) == DecodeRows(rows[..index] + rows[index + 1..])
  {
    var tasks := DecodeRows(rows);
    var before, after := tasks[..index - 1], tasks[index..];
    var whole := before + [tasks[index - 1]] + after;
    assert tasks == whole;
    OthersKeepTheirIds(rows, taskId, index);
    calc {
      WithoutId(tasks, taskId);
      Filter(whole, IdIsNot(taskId));
      { FilterDropsOne(before, tasks[index - 1], after, IdIsNot(taskId)); }
      before + after;
      { DecodeDelete(rows, index); }
      DecodeRows(rows[..index] + rows[index + 1..]);
    }
  }
}
