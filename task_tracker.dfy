/** The task tracker: validated `Task` records whose setters either succeed or
    leave the task as it was, and the ordered `TaskList` with append, first-match
    lookup, first-match removal and the status filter of the `list` command. */
module TaskTracker {
  import opened Wrappers
  import opened PyText

  const MaxDescriptionLength: nat := 100
  const Statuses: seq<string> := ["todo", "in-progress", "done"]

  /** The `ValueError` a check raises, or the `IndexError` of an empty argument list. */
  datatype TaskError = OnlyWhitespace | DescriptionTooLong(length: nat) | InvalidStatus | MissingArgument

  /** `Task._check_description`: an all-whitespace description is rejected first,
      then one longer than 100 characters; anything else comes back unchanged. */
  function CheckDescription(description: string): (r: Result<string, TaskError>)
    ensures r.Ok? <==> !IsSpace(description) && |description| <= MaxDescriptionLength
    ensures r.Ok? ==> r.value == description
    ensures r == Err(OnlyWhitespace) <==> IsSpace(description)
    ensures r.Err? && !IsSpace(description) ==> r.error == DescriptionTooLong(|description|)
  {
    if IsSpace(description) then Err(OnlyWhitespace)
    else if |description| > MaxDescriptionLength then Err(DescriptionTooLong(|description|))
    else Ok(description)
  }

  /** `Task._check_status`: only the three statuses pass, unchanged. */
  function CheckStatus(status: string): (r: Result<string, TaskError>)
    ensures r.Ok? <==> status == "todo" || status == "in-progress" || status == "done"
    ensures r.Ok? ==> r.value == status
  {
    if status !in Statuses then Err(InvalidStatus) else Ok(status)
  }

  /** The empty description and a 100-character one are accepted; 101 characters are not. */
  lemma DescriptionBoundaries(d100: string, d101: string)
    requires |d100| == 100 && |d101| == 101
    requires forall i :: 0 <= i < |d100| ==> !IsSpaceChar(d100[i])
    ensures CheckDescription("") == Ok("")
    ensures CheckDescription(d100) == Ok(d100)
    ensures CheckDescription(d101).Err?
  {
    assert !IsSpace(d100) by {
      assert !IsSpaceChar(d100[0]);
    }
  }

  /** A task as it is written to `taskDB.json` by `asdict`. */
  datatype TaskRecord = TaskRecord(description: string, id: string, status: string, createdAt: string, updatedAt: string)

  /** The `Task` dataclass. */
  class Task {
    var description: string
    var id: string
    var status: string
    var createdAt: string
    var updatedAt: string

    function Record(): TaskRecord
      reads this
    {
      TaskRecord(description, id, status, createdAt, updatedAt)
    }

    constructor (description: string, id: string, status: string, createdAt: string, updatedAt: string)
      ensures Record() == TaskRecord(description, id, status, createdAt, updatedAt)
    {
      this.description := description;
      this.id := id;
      this.status := status;
      this.createdAt := createdAt;
      this.updatedAt := updatedAt;
    }

    /** `Task(...)` with `__post_init__`: null when either check raises. The defaults of
        `id` and `createdAt` are taken once, when the class is defined, so the caller
        passes them; `status` defaults to "todo" and `updatedAt` to "". */
    static method New(description: string, id: string, createdAt: string,
                      status: string := "todo", updatedAt: string := "")
      returns (t: Task?)
      ensures t == null <==> CheckDescription(description).Err? || CheckStatus(status).Err?
      ensures t != null ==> fresh(t) && t.Record() == TaskRecord(description, id, status, createdAt, updatedAt)
    {
      var d := CheckDescription(description);
      if d.Err? { return null; }
      var s := CheckStatus(status);
      if s.Err? { return null; }
      t := new Task(d.value, id, s.value, createdAt, updatedAt);
    }

    /** `set_description`: the argument list's first element becomes the description
        and `updatedAt` becomes `now`; on any failure (a rejected description, an
        empty list) both fields are put back. */
    method SetDescription(newDescription: seq<string>, now: string) returns (ok: bool)
      modifies this
      ensures ok <==> |newDescription| > 0 && CheckDescription(newDescription[0]).Ok?
      ensures ok ==> Record() == old(Record()).(description := newDescription[0], updatedAt := now)
      ensures !ok ==> Record() == old(Record())
    {
      var oldDescription := description;
      var oldUpdatedAt := updatedAt;
      var checked := if |newDescription| > 0 then CheckDescription(newDescription[0]) else Err(MissingArgument);
      if checked.Ok? {
        description := checked.value;
        updatedAt := now;
        ok := true;
      } else {
        description := oldDescription;
        updatedAt := oldUpdatedAt;
        ok := false;
      }
    }

    /** `set_status`: like `set_description`, for the status. */
    method SetStatus(inputStatus: string, now: string) returns (ok: bool)
      modifies this
      ensures ok <==> CheckStatus(inputStatus).Ok?
      ensures ok ==> Record() == old(Record()).(status := inputStatus, updatedAt := now)
      ensures !ok ==> Record() == old(Record())
    {
      var oldStatus := status;
      var oldUpdatedAt := updatedAt;
      var checked := CheckStatus(inputStatus);
      if checked.Ok? {
        status := checked.value;
        updatedAt := now;
        ok := true;
      } else {
        status := oldStatus;
        updatedAt := oldUpdatedAt;
        ok := false;
      }
    }
  }

  /** The records of a list of tasks, in order. */
  function RecordsOf(ts: seq<Task>): (r: seq<TaskRecord>)
    reads ts
    ensures |r| == |ts|
    ensures forall i :: 0 <= i < |ts| ==> r[i] == ts[i].Record()
  {
    if ts == [] then [] else [ts[0].Record()] + RecordsOf(ts[1..])
  }

  /** The position of the first record with the given id. */
  function FirstIndexOfId(rs: seq<TaskRecord>, key: string): (r: Option<nat>)
    ensures r.Some? ==> r.value < |rs| && rs[r.value].id == key
                        && forall j :: 0 <= j < r.value ==> rs[j].id != key
    ensures r.None? ==> forall j :: 0 <= j < |rs| ==> rs[j].id != key
  {
    if rs == [] then None
    else if rs[0].id == key then Some(0)
    else match FirstIndexOfId(rs[1..], key)
      case None => None
      case Some(k) => Some(k + 1)
  }

  /** The `list` command's filter: "all" shows every task, one of the three statuses
      shows the tasks with that status, in list order. */
  function Shown(rs: seq<TaskRecord>, filter: string): seq<TaskRecord>
  {
    if filter == "all" then rs
    else if filter in Statuses then WithStatus(rs, filter)
    else []
  }

  function WithStatus(rs: seq<TaskRecord>, status: string): seq<TaskRecord>
  {
    if rs == [] then []
    else (if rs[0].status == status then [rs[0]] else []) + WithStatus(rs[1..], status)
  }

  /** A record is shown by a status filter exactly when it is in the list and has that status. */
  lemma {:induction false} WithStatusMembers(rs: seq<TaskRecord>, status: string, x: TaskRecord)
    ensures x in WithStatus(rs, status) <==> x in rs && x.status == status
  {
    if rs != [] {
      WithStatusMembers(rs[1..], status, x);
      assert rs == [rs[0]] + rs[1..];
    }
  }

  /** When every status is valid, the three status filters split the list between them. */
  lemma {:induction false} StatusFiltersPartition(rs: seq<TaskRecord>)
    requires forall i :: 0 <= i < |rs| ==> CheckStatus(rs[i].status).Ok?
    ensures |WithStatus(rs, "todo")| + |WithStatus(rs, "in-progress")| + |WithStatus(rs, "done")| == |rs|
  {
    if rs != [] {
      assert CheckStatus(rs[0].status).Ok?;
      StatusFiltersPartition(rs[1..]);
    }
  }

  /** What `taskDB.json` holds: the empty text `load_json_file` writes when the
      file is missing (which `json.load` cannot decode), or a JSON list of records. */
  datatype TaskFile = EmptyText | TaskJson(records: seq<TaskRecord>)

  /** The `TaskList` dataclass with the tasks loaded from `taskDB.json`. */
  class TaskList {
    /** `self.list`. */
    var tasks: seq<Task>
    /** The id every `Task(description)` receives: `str(uuid.uuid4())` evaluated once. */
    const defaultId: string
    /** The `createdAt` every `Task(description)` receives, evaluated once. */
    const defaultCreatedAt: string
    /** What `taskDB.json` holds after the last write. */
    ghost var persisted: TaskFile

    ghost function Records(): seq<TaskRecord>
      reads this, tasks
    {
      RecordsOf(tasks)
    }

    /** `TaskList()`: `stored` are the tasks `load_json_file` rebuilt from the file,
        or `None` when there was no file. Then the list starts empty and the file
        is created holding the empty text, which stays until a write. */
    constructor (stored: Option<seq<Task>>, defaultId: string, defaultCreatedAt: string)
      ensures stored.Some? ==> tasks == stored.value && persisted == TaskJson(RecordsOf(stored.value))
      ensures stored.None? ==> tasks == [] && persisted == EmptyText
      ensures this.defaultId == defaultId && this.defaultCreatedAt == defaultCreatedAt
    {
      if stored.Some? {
        tasks := stored.value;
        persisted := TaskJson(RecordsOf(stored.value));
      } else {
        tasks := [];
        persisted := EmptyText;
      }
      this.defaultId := defaultId;
      this.defaultCreatedAt := defaultCreatedAt;
    }

    /** `write_json_file`. */
    method WriteJsonFile()
      modifies this`persisted
      ensures persisted == TaskJson(Records())
    {
      persisted := TaskJson(RecordsOf(tasks));
    }

    /** `create_task`: append `Task(description)` and write the file; when the
        description is rejected the exception leaves the list and the file alone. */
    method CreateTask(description: string) returns (ok: bool)
      modifies this
      ensures ok <==> CheckDescription(description).Ok?
      ensures ok ==> |tasks| == |old(tasks)| + 1 && tasks[..|old(tasks)|] == old(tasks)
                     && fresh(tasks[|tasks| - 1])
                     && Records() == old(Records())
                        + [TaskRecord(description, defaultId, "todo", defaultCreatedAt, "")]
                     && persisted == TaskJson(Records())
      ensures !ok ==> tasks == old(tasks) && persisted == old(persisted)
    {
      var t := Task.New(description, defaultId, defaultCreatedAt);
      if t == null {
        return false;
      }
      tasks := tasks + [t];
      assert tasks[..|old(tasks)|] == old(tasks);
      WriteJsonFile();
      ok := true;
    }

    /** `return_specific_task`: the first task whose id is `id[0]`; null where the
        source raises (no such task, or an empty argument list). */
    method ReturnSpecificTask(id: seq<string>) returns (t: Task?)
      ensures t == null <==> |id| == 0 || FirstIndexOfId(Records(), id[0]).None?
      ensures t != null ==> t == tasks[FirstIndexOfId(Records(), id[0]).value]
    {
      var i := 0;
      while i < |tasks|
        invariant 0 <= i <= |tasks|
        invariant i > 0 ==> |id| > 0
        invariant forall j :: 0 <= j < i ==> tasks[j].id != id[0]
      {
        if |id| == 0 {
          return null;
        }
        if tasks[i].id == id[0] {
          FirstIndexAt(Records(), id[0], i);
          return tasks[i];
        }
        i := i + 1;
      }
      t := null;
    }

    /** `remove_specific_task`: delete the first task whose id is `id[0]` and write
        the file; where the source raises nothing changes. */
    method RemoveSpecificTask(id: seq<string>) returns (ok: bool)
      modifies this
      ensures ok <==> |id| > 0 && FirstIndexOfId(old(Records()), id[0]).Some?
      ensures ok ==> var k := FirstIndexOfId(old(Records()), id[0]).value;
                     tasks == old(tasks[..k] + tasks[k + 1..]) && persisted == TaskJson(Records())
      ensures !ok ==> tasks == old(tasks) && persisted == old(persisted)
    {
      var taskNumber := 0;
      while taskNumber < |tasks|
        invariant 0 <= taskNumber <= |tasks|
        invariant taskNumber > 0 ==> |id| > 0
        invariant forall j :: 0 <= j < taskNumber ==> tasks[j].id != id[0]
        invariant tasks == old(tasks) && persisted == old(persisted)
      {
        if |id| == 0 {
          return false;
        }
        if tasks[taskNumber].id == id[0] {
          FirstIndexAt(Records(), id[0], taskNumber);
          tasks := tasks[..taskNumber] + tasks[taskNumber + 1..];
          WriteJsonFile();
          return true;
        }
        taskNumber := taskNumber + 1;
      }
      ok := false;
    }

    /** The `list` command: the tasks it prints for the chosen filter, in order. */
    method ListTasks(filter: string) returns (shown: seq<Task>)
      ensures RecordsOf(shown) == Shown(Records(), filter)
      ensures forall t :: t in shown ==> t in tasks
    {
      shown := [];
      if filter == "all" {
        shown := tasks;
      } else if filter in Statuses {
        shown := TasksWithStatus(tasks, filter);
      }
    }
  }

  /** The loop of the `list` command under a status filter: the tasks with that
      status, in list order. */
  method TasksWithStatus(ts: seq<Task>, status: string) returns (shown: seq<Task>)
    ensures RecordsOf(shown) == WithStatus(RecordsOf(ts), status)
    ensures forall t :: t in shown ==> t in ts
  {
    ghost var rs := RecordsOf(ts);
    ghost var picked: seq<TaskRecord> := [];
    shown := [];
    var i := 0;
    while i < |ts|
      invariant 0 <= i <= |ts| && |rs| == |ts|
      invariant RecordsOf(shown) == picked
      invariant picked + WithStatus(rs[i..], status) == WithStatus(rs, status)
      invariant forall t :: t in shown ==> t in ts
    {
      assert rs[i] == ts[i].Record();
      WithStatusStep(picked, rs, i, status);
      if ts[i].status == status {
        RecordsOfAppend(shown, ts[i]);
        shown := shown + [ts[i]];
        picked := picked + [rs[i]];
      }
      i := i + 1;
    }
    assert rs[i..] == [];
  }

  /** A status filter over a suffix takes or skips its first record. */
  lemma WithStatusStep(picked: seq<TaskRecord>, rs: seq<TaskRecord>, i: nat, status: string)
    requires i < |rs|
    ensures picked + WithStatus(rs[i..], status) ==
              (picked + if rs[i].status == status then [rs[i]] else []) + WithStatus(rs[i + 1..], status)
  {
    assert rs[i..][0] == rs[i] && rs[i..][1..] == rs[i + 1..];
  }

  lemma RecordsOfAppend(ts: seq<Task>, t: Task)
    ensures RecordsOf(ts + [t]) == RecordsOf(ts) + [t.Record()]
  {
  }

  /** The first index holding `key` is the answer of `FirstIndexOfId`. */
  lemma FirstIndexAt(rs: seq<TaskRecord>, key: string, i: nat)
    requires i < |rs| && rs[i].id == key
    requires forall j :: 0 <= j < i ==> rs[j].id != key
    ensures FirstIndexOfId(rs, key) == Some(i)
  {
    var r := FirstIndexOfId(rs, key);
    assert r.Some?;
  }

  /** Two tasks created in the same run get the same id and creation time,
      because the dataclass defaults are evaluated only once. */
  method SharedDefaultsScenario(first: string, second: string) returns (a: TaskRecord, b: TaskRecord)
    requires CheckDescription(first).Ok? && CheckDescription(second).Ok?
    ensures a.id == b.id && a.createdAt == b.createdAt
  {
    var list := new TaskList(None, "id-0", "2024/01/01 00:00:00");
    var ok1 := list.CreateTask(first);
    var ok2 := list.CreateTask(second);
    assert list.Records() == [TaskRecord(first, "id-0", "todo", "2024/01/01 00:00:00", ""),
                              TaskRecord(second, "id-0", "todo", "2024/01/01 00:00:00", "")];
    a := list.tasks[0].Record();
    b := list.tasks[1].Record();
  }

  /** The run that finds no `taskDB.json` starts from an empty list and an empty
      text. Its lookups (`mark-*`, `update`) and its `delete` find no task and
      write nothing, so only `add` replaces the empty text with a JSON list. */
  method MissingFileFirstRun(id: seq<string>, description: string)
    returns (found: Task?, removed: bool, added: bool, ghost before: TaskFile, ghost after: TaskFile)
    ensures found == null && !removed && before == EmptyText
    ensures added <==> CheckDescription(description).Ok?
    ensures added ==> after == TaskJson([TaskRecord(description, "id-0", "todo", "2024/01/01 00:00:00", "")])
    ensures !added ==> after == EmptyText
  {
    var list := new TaskList(None, "id-0", "2024/01/01 00:00:00");
    found := list.ReturnSpecificTask(id);
    removed := list.RemoveSpecificTask(id);
    before := list.persisted;
    added := list.CreateTask(description);
    after := list.persisted;
  }
}
