/** Loading the refactoring tasks from the CSV rows
    (`GroundTruthGenerator._load_tasks_from_csv` of
    `data/ground_truth/create_ground_truth_dataset.py`): rows lacking a
    commit, either name or the file are skipped, and the tasks made from
    the rest are sorted by commit SHA. */
module TaskLoading {

  import opened Options
  import opened Collections
  import opened StableSort
  import opened GroundTruthCreation

  /** One CSV row as `csv.DictReader` gives it; an absent column reads as nothing. */
  datatype CsvRow = CsvRow(
    sha1: Option<string>,
    oldName: Option<string>,
    newName: Option<string>,
    fileChanged: Option<string>,
    refactoringType: Option<string>)

  /** What a task is made of. */
  datatype TaskFields = TaskFields(
    commitSha: string,
    oldName: string,
    newName: string,
    filePath: string,
    refactoringType: Option<string>)

  /** A CSV value is truthy: present and not empty. */
  predicate Present(field: Option<string>) {
    field.Some? && field.value != []
  }

  /** `all([commit_sha, old_name, new_name, file_path])`; the type may be missing. */
  predicate IsComplete(row: CsvRow) {
    Present(row.sha1) && Present(row.oldName) && Present(row.newName) && Present(row.fileChanged)
  }

  function FieldsOfRow(row: CsvRow): TaskFields
    requires IsComplete(row)
  {
    TaskFields(row.sha1.value, row.oldName.value, row.newName.value, row.fileChanged.value, row.refactoringType)
  }

  /** The tasks of the complete rows, in CSV order. */
  function CompleteTasks(rows: seq<CsvRow>): (tasks: seq<TaskFields>)
    ensures |tasks| <= |rows|
    ensures forall t :: t in tasks <==> exists r :: r in rows && IsComplete(r) && FieldsOfRow(r) == t
    ensures forall t :: t in tasks ==>
      t.commitSha != [] && t.oldName != [] && t.newName != [] && t.filePath != []
  {
    if rows == [] then []
    else
      var last := rows[|rows| - 1];
      var front := rows[..|rows| - 1];
      assert forall r :: r in rows <==> r in front || r == last;
      CompleteTasks(front) + (if IsComplete(last) then [FieldsOfRow(last)] else [])
  }

  /** Skipping keeps order: the tasks of consecutive blocks of rows follow one another. */
  lemma {:induction false} CompleteTasksAppend(a: seq<CsvRow>, b: seq<CsvRow>)
    ensures CompleteTasks(a + b) == CompleteTasks(a) + CompleteTasks(b)
    decreases |b|
  {
    if b == [] {
      assert a + b == a;
    } else {
      var b' := b[..|b| - 1];
      assert (a + b)[..|a + b| - 1] == a + b';
      CompleteTasksAppend(a, b');
    }
  }

  function TaskSha(t: TaskFields): string {
    t.commitSha
  }

  function ObjectSha(t: RefactoringData): string {
    t.commitSha
  }

  /** The fields a `RefactoringData` was made from. */
  function FieldsOf(t: RefactoringData): TaskFields {
    TaskFields(t.commitSha, t.oldName, t.newName, t.filePathFromCsv, t.refactoringType)
  }

  /** A task as the constructor leaves it: nothing fetched from the API yet. */
  predicate Unpopulated(t: RefactoringData)
    reads t
  {
    && t.pullRequestInfo.None? && t.pathBefore.None? && t.pathAfter.None?
    && t.locationsBefore == [] && t.locationsAfter == []
  }

  /** `_load_tasks_from_csv` on the rows read: new tasks made from the
      complete rows, sorted by commit SHA with `list.sort`, none of them
      populated yet. */
  method LoadTasks(rows: seq<CsvRow>) returns (tasks: seq<RefactoringData>)
    ensures MapSeq(FieldsOf, tasks) == SortByKey(TaskSha, CompleteTasks(rows))
    ensures forall k :: 0 <= k < |tasks| ==> fresh(tasks[k]) && Unpopulated(tasks[k])
  {
    var loaded: seq<RefactoringData> := [];
    var i := 0;
    while i < |rows|
      invariant 0 <= i <= |rows|
      invariant MapSeq(FieldsOf, loaded) == CompleteTasks(rows[..i])
      invariant forall k :: 0 <= k < |loaded| ==> fresh(loaded[k]) && Unpopulated(loaded[k])
    {
      var row := rows[i];
      assert rows[..i + 1][..i] == rows[..i];
      if IsComplete(row) {
        var task := new RefactoringData(row.sha1.value, row.oldName.value, row.newName.value,
                                        row.fileChanged.value, row.refactoringType);
        MapSeqAppend(FieldsOf, loaded, task);
        loaded := loaded + [task];
      }
      i := i + 1;
    }
    assert rows[..i] == rows;
    tasks := SortByKey(ObjectSha, loaded);
    SortByKeyMap(ObjectSha, TaskSha, FieldsOf, loaded);
    SortByKeyPermutes(ObjectSha, loaded);
    assert forall k :: 0 <= k < |tasks| ==> tasks[k] in multiset(loaded);
  }

  /** The loaded tasks are the complete rows, each once, sorted by commit
      SHA, and rows of one commit keep their CSV order. */
  lemma LoadedTasksOrder(rows: seq<CsvRow>)
    ensures var tasks := SortByKey(TaskSha, CompleteTasks(rows));
      && SortedBy(TaskSha, tasks)
      && multiset(tasks) == multiset(CompleteTasks(rows))
      && forall sha :: WithKey(TaskSha, sha, tasks) == WithKey(TaskSha, sha, CompleteTasks(rows))
  {
    SortByKeySorted(TaskSha, CompleteTasks(rows));
    SortByKeyPermutes(TaskSha, CompleteTasks(rows));
    forall sha {
      SortByKeyStable(TaskSha, CompleteTasks(rows), sha);
    }
  }
}
