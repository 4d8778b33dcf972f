/** The older task service (src/app/shared/task.service.ts): registering entries, the scheduler
    tick that starts the first PENDING task below the cap of three running tasks, the running
    and pending counts, the protocol table with its error and warning counts, and its input
    filter. Its task list (src/app/obj/TaksList.ts, not part of this model) is taken to behave
    as the current one. */
module LegacyTaskServices {
  import opened TaskStates
  import opened FileInfos
  import opened Tasks
  import opened TaskLists
  import opened InputFilters
  import opened TaskServices

  // ---------------------------------------------------------------------------
  // Counting tasks

  /** The counting loops of countRunningTasks and countPendingTasks. */
  method CountInStates(tasks: seq<Task>, bucket: set<TaskState>) returns (n: nat)
    ensures n == CountIn(States(tasks), bucket)
  {
    ghost var ss := States(tasks);
    n := 0;
    for i := 0 to |tasks|
      invariant n == CountIn(ss[..i], bucket)
    {
      assert ss[..i + 1][..i] == ss[..i];
      if tasks[i].state in bucket {
        n := n + 1;
      }
    }
    assert ss[..|tasks|] == ss;
  }

  /** A state that occurs is counted. */
  lemma {:induction false} OccursCounted(ss: seq<TaskState>, k: nat, bucket: set<TaskState>)
    requires k < |ss| && ss[k] in bucket
    ensures CountIn(ss, bucket) > 0
  {
    if k < |ss| - 1 {
      OccursCounted(ss[..|ss| - 1], k, bucket);
    }
  }

  /** pendingTask's count guard never turns a found task away: when some task is PENDING, the
      PENDING count is positive. */
  lemma FirstPendingCounted(tasks: seq<Task>)
    requires FirstInState(tasks, PENDING) != null
    ensures CountIn(States(tasks), {PENDING}) > 0
  {
    var k :| 0 <= k < |tasks| && tasks[k] == FirstInState(tasks, PENDING);
    OccursCounted(States(tasks), k, {PENDING});
  }

  // ---------------------------------------------------------------------------
  // The protocol table

  /** One row of `protocol_array`. */
  datatype ProtocolRow = ProtocolRow(taskId: int, opName: string, state: TaskState, protocol: string)

  /** An operation that finished or failed with something in its protocol. */
  predicate Listed(op: Operation)
    reads op
  {
    (op.state == FINISHED || op.state == ERROR) && op.protocol != ""
  }

  /** The row pushed for a listed operation of the task with id `id`. */
  function RowOf(id: int, op: Operation): ProtocolRow
    reads op
  {
    ProtocolRow(id, op.name, op.state, op.protocol)
  }

  /** The rows of one task's operations, in order. */
  function OpRows(id: int, ops: seq<Operation>): (r: seq<ProtocolRow>)
    reads set o | o in ops
    ensures |r| <= |ops|
    ensures forall i :: 0 <= i < |r| ==>
      r[i].taskId == id && (r[i].state == FINISHED || r[i].state == ERROR) && r[i].protocol != ""
  {
    if ops == [] then []
    else
      var op := ops[|ops| - 1];
      OpRows(id, ops[..|ops| - 1]) + (if Listed(op) then [RowOf(id, op)] else [])
  }

  /** A task's rows are exactly those of its listed operations. */
  lemma {:induction false} OpRowsExactly(id: int, ops: seq<Operation>)
    ensures forall r :: r in OpRows(id, ops) <==> exists o :: o in ops && Listed(o) && r == RowOf(id, o)
  {
    if ops != [] {
      var init, last := ops[..|ops| - 1], ops[|ops| - 1];
      OpRowsExactly(id, init);
      var tail := if Listed(last) then [RowOf(id, last)] else [];
      assert OpRows(id, ops) == OpRows(id, init) + tail;
      forall r | r in OpRows(id, ops)
        ensures exists o :: o in ops && Listed(o) && r == RowOf(id, o)
      {
        if r in OpRows(id, init) {
          var o :| o in init && Listed(o) && r == RowOf(id, o);
          assert o in ops;
        } else {
          assert last in ops;
        }
      }
      forall o | o in ops && Listed(o)
        ensures RowOf(id, o) in OpRows(id, ops)
      {
        var k :| 0 <= k < |ops| && ops[k] == o;
        if k < |init| {
          assert init[k] == o;
        }
      }
    }
  }

  /** The rows of every task, task by task, before sorting. */
  function ProtocolRows(ts: seq<Task>): (r: seq<ProtocolRow>)
    reads set t | t in ts, (set t, o | t in ts && o in t.operations :: o)
    ensures forall i :: 0 <= i < |r| ==> (r[i].state == FINISHED || r[i].state == ERROR) && r[i].protocol != ""
  {
    if ts == [] then []
    else
      var t := ts[|ts| - 1];
      ProtocolRows(ts[..|ts| - 1]) + OpRows(t.id, t.operations)
  }

  /** The report lists exactly the listed operations of the tasks, each under its task's id. */
  lemma {:induction false} ProtocolRowsExactly(ts: seq<Task>)
    ensures forall r :: r in ProtocolRows(ts) <==>
      exists t, o :: t in ts && o in t.operations && Listed(o) && r == RowOf(t.id, o)
  {
    if ts != [] {
      var init, last := ts[..|ts| - 1], ts[|ts| - 1];
      ProtocolRowsExactly(init);
      OpRowsExactly(last.id, last.operations);
      var earlier, own := ProtocolRows(init), OpRows(last.id, last.operations);
      assert ProtocolRows(ts) == earlier + own;
      forall r | r in ProtocolRows(ts)
        ensures exists t, o :: t in ts && o in t.operations && Listed(o) && r == RowOf(t.id, o)
      {
        if r in earlier {
          var t, o :| t in init && o in t.operations && Listed(o) && r == RowOf(t.id, o);
          assert t in ts;
        } else {
          assert r in own;
          var o :| o in last.operations && Listed(o) && r == RowOf(last.id, o);
          assert last in ts;
        }
      }
      forall t, o | t in ts && o in t.operations && Listed(o)
        ensures RowOf(t.id, o) in ProtocolRows(ts)
      {
        var k :| 0 <= k < |ts| && ts[k] == t;
        if k < |init| {
          assert init[k] == t;
          assert RowOf(t.id, o) in earlier;
        } else {
          assert RowOf(t.id, o) in own;
        }
      }
    }
  }

  /** The sorted report: ordered by task id, and holding exactly the rows of the listed
      operations, each as often as it was collected. */
  lemma ProtocolArrayRows(ts: seq<Task>)
    ensures SortedByTask(SortByTask(ProtocolRows(ts)))
    ensures multiset(SortByTask(ProtocolRows(ts))) == multiset(ProtocolRows(ts))
    ensures forall r :: r in SortByTask(ProtocolRows(ts)) <==>
      exists t, o :: t in ts && o in t.operations && Listed(o) && r == RowOf(t.id, o)
  {
    SortByTaskSpec(ProtocolRows(ts));
    ProtocolRowsExactly(ts);
    forall r
      ensures r in SortByTask(ProtocolRows(ts)) <==> r in ProtocolRows(ts)
    {
      assert r in SortByTask(ProtocolRows(ts)) <==> r in multiset(SortByTask(ProtocolRows(ts)));
    }
  }

  /** The rows in the state. */
  function CountRows(rows: seq<ProtocolRow>, s: TaskState): (n: nat)
    ensures n <= |rows|
  {
    if rows == [] then 0 else CountRows(rows[..|rows| - 1], s) + (if rows[|rows| - 1].state == s then 1 else 0)
  }

  /** Every listed row is an error or a warning. */
  lemma {:induction false} ErrorsAndWarnings(rows: seq<ProtocolRow>)
    requires forall i :: 0 <= i < |rows| ==> rows[i].state == FINISHED || rows[i].state == ERROR
    ensures CountRows(rows, ERROR) + CountRows(rows, FINISHED) == |rows|
  {
    if rows != [] {
      ErrorsAndWarnings(rows[..|rows| - 1]);
    }
  }

  // ---------------------------------------------------------------------------
  // The sort by task id

  /** `Array.prototype.sort` with the task-id comparator, which is stable: each row goes after
      the rows before it with an id not above its own. */
  function InsertByTask(r: ProtocolRow, s: seq<ProtocolRow>): (t: seq<ProtocolRow>)
    ensures |t| == |s| + 1
  {
    if s == [] || s[|s| - 1].taskId <= r.taskId then s + [r]
    else InsertByTask(r, s[..|s| - 1]) + [s[|s| - 1]]
  }

  function SortByTask(rows: seq<ProtocolRow>): (r: seq<ProtocolRow>)
    ensures |r| == |rows|
  {
    if rows == [] then [] else InsertByTask(rows[|rows| - 1], SortByTask(rows[..|rows| - 1]))
  }

  predicate SortedByTask(s: seq<ProtocolRow>) {
    forall i, j :: 0 <= i < j < |s| ==> s[i].taskId <= s[j].taskId
  }

  /** The rows of one task, in order. */
  function RowsOf(s: seq<ProtocolRow>, id: int): seq<ProtocolRow> {
    if s == [] then []
    else RowsOf(s[..|s| - 1], id) + (if s[|s| - 1].taskId == id then [s[|s| - 1]] else [])
  }

  lemma {:induction false} InsertPermutes(r: ProtocolRow, s: seq<ProtocolRow>)
    ensures multiset(InsertByTask(r, s)) == multiset(s) + multiset{r}
  {
    if s != [] && s[|s| - 1].taskId > r.taskId {
      var init, last := s[..|s| - 1], s[|s| - 1];
      InsertPermutes(r, init);
      assert s == init + [last];
    }
  }

  lemma {:induction false} InsertSorted(r: ProtocolRow, s: seq<ProtocolRow>)
    requires SortedByTask(s)
    ensures SortedByTask(InsertByTask(r, s))
  {
    if s != [] && s[|s| - 1].taskId > r.taskId {
      var init, last := s[..|s| - 1], s[|s| - 1];
      InsertSorted(r, init);
      InsertPermutes(r, init);
      var ins := InsertByTask(r, init);
      forall i | 0 <= i < |ins| ensures ins[i].taskId <= last.taskId {
        assert ins[i] in multiset(ins);
        if ins[i] != r {
          assert ins[i] in multiset(init);
          var j :| 0 <= j < |init| && init[j] == ins[i];
          assert s[j] == ins[i];
        }
      }
      SortedSnoc(ins, last);
    }
  }

  /** A row that no earlier row exceeds can follow a sorted sequence. */
  lemma SortedSnoc(s: seq<ProtocolRow>, x: ProtocolRow)
    requires SortedByTask(s) && forall i :: 0 <= i < |s| ==> s[i].taskId <= x.taskId
    ensures SortedByTask(s + [x])
  {
    var t := s + [x];
    forall i, j | 0 <= i < j < |t| ensures t[i].taskId <= t[j].taskId {
      if j == |s| { assert t[i] == s[i]; } else { assert t[i] == s[i] && t[j] == s[j]; }
    }
  }

  lemma {:induction false} InsertKeepsOrder(r: ProtocolRow, s: seq<ProtocolRow>, id: int)
    ensures RowsOf(InsertByTask(r, s), id) == RowsOf(s, id) + (if r.taskId == id then [r] else [])
  {
    if s == [] || s[|s| - 1].taskId <= r.taskId {
      var x := s + [r];
      assert x[..|x| - 1] == s;
    } else {
      var init, last := s[..|s| - 1], s[|s| - 1];
      InsertKeepsOrder(r, init, id);
      var x := InsertByTask(r, init) + [last];
      assert x[..|x| - 1] == InsertByTask(r, init);
      var before := RowsOf(init, id);
      if last.taskId == id {
        assert r.taskId != id;
        assert RowsOf(InsertByTask(r, init), id) == before;
        assert RowsOf(x, id) == before + [last] == RowsOf(s, id);
      } else {
        assert RowsOf(x, id) == RowsOf(InsertByTask(r, init), id);
        assert RowsOf(s, id) == before;
      }
    }
  }

  /** The sort orders the rows by task id, loses and adds none, and keeps each task's rows in
      the order they were collected. */
  lemma SortByTaskSpec(rows: seq<ProtocolRow>)
    ensures SortedByTask(SortByTask(rows))
    ensures multiset(SortByTask(rows)) == multiset(rows)
    ensures forall id :: RowsOf(SortByTask(rows), id) == RowsOf(rows, id)
  {
    SortSorted(rows);
    SortPermutes(rows);
    forall id ensures RowsOf(SortByTask(rows), id) == RowsOf(rows, id) {
      SortStable(rows, id);
    }
  }

  lemma {:induction false} SortSorted(rows: seq<ProtocolRow>)
    ensures SortedByTask(SortByTask(rows))
  {
    if rows != [] {
      SortSorted(rows[..|rows| - 1]);
      InsertSorted(rows[|rows| - 1], SortByTask(rows[..|rows| - 1]));
    }
  }

  lemma {:induction false} SortPermutes(rows: seq<ProtocolRow>)
    ensures multiset(SortByTask(rows)) == multiset(rows)
  {
    if rows != [] {
      var init, last := rows[..|rows| - 1], rows[|rows| - 1];
      SortPermutes(init);
      InsertPermutes(last, SortByTask(init));
      assert rows == init + [last];
    }
  }

  lemma {:induction false} SortStable(rows: seq<ProtocolRow>, id: int)
    ensures RowsOf(SortByTask(rows), id) == RowsOf(rows, id)
  {
    if rows != [] {
      var init, last := rows[..|rows| - 1], rows[|rows| - 1];
      SortStable(init, id);
      InsertKeepsOrder(last, SortByTask(init), id);
    }
  }

  // ---------------------------------------------------------------------------
  // The input filter

  /** The files the older service accepts, as written: an extension equal to 'wav'. */
  predicate WavAsWritten(extension: string) {
    extension == "wav"
  }

  /** The files it evidently means: the '.wav' extension FileInfo produces. */
  predicate WavFile(extension: string) {
    extension == ".wav"
  }

  /** An extension as FileInfo makes it starts with its dot, so the filter as written accepts
      no file at all, and every dropped file or folder is discarded. */
  lemma {:induction false} AsWrittenDropsAll(es: seq<InputEntry>)
    requires forall f :: f in Files(es) ==> |f.extension| > 0 && f.extension[0] == '.'
    ensures Accepted(es, WavAsWritten) == multiset{}
    ensures Files(CleanUp(es, WavAsWritten)) == multiset{}
  {
    NothingAccepted(es);
    CleanUpKeepsAccepted(es, WavAsWritten);
  }

  lemma {:induction false} NothingAccepted(es: seq<InputEntry>)
    requires forall f :: f in Files(es) ==> |f.extension| > 0 && f.extension[0] == '.'
    ensures Accepted(es, WavAsWritten) == multiset{}
  {
    if es != [] {
      var init, last := es[..|es| - 1], es[|es| - 1];
      assert Files(es) == Files(init) + EntryFiles(last);
      NothingAccepted(init);
      match last
      case InputFile(f) =>
        assert f in Files(es);
      case InputDir(_, inner) =>
        NothingAccepted(inner);
    }
  }

  /** With the dotted extension the filter keeps exactly the wav files, wherever they were. */
  lemma {:induction false} WavFilesKept(es: seq<InputEntry>, f: NameParts)
    requires f in Files(es) && WavFile(f.extension)
    ensures f in Files(CleanUp(es, WavFile))
  {
    WavAccepted(es, f);
    CleanUpKeepsAccepted(es, WavFile);
  }

  lemma {:induction false} WavAccepted(es: seq<InputEntry>, f: NameParts)
    requires f in Files(es) && WavFile(f.extension)
    ensures f in Accepted(es, WavFile)
  {
    var init, last := es[..|es| - 1], es[|es| - 1];
    if f in Files(init) {
      WavAccepted(init, f);
    } else {
      assert f in EntryFiles(last);
      match last
      case InputFile(g) =>
      case InputDir(_, inner) =>
        WavAccepted(inner, f);
    }
  }

  // ---------------------------------------------------------------------------
  // The service

  class LegacyTaskService {
    const taskList: TaskList
    /** `state` */
    var state: TaskState
    var errorsCount: nat
    var warningsCount: nat
    var protocolArray: seq<ProtocolRow>
    /** The `errorscountchange` emitter, as the log of what it has emitted. */
    var errorsCountChanges: seq<nat>

    constructor (taskList: TaskList)
      ensures this.taskList == taskList && state == READY
      ensures errorsCount == 0 && warningsCount == 0 && protocolArray == [] && errorsCountChanges == []
    {
      this.taskList := taskList;
      state := READY;
      errorsCount := 0;
      warningsCount := 0;
      protocolArray := [];
      errorsCountChanges := [];
    }

    /** addEntry: the entry goes to the list as it is, without a cleanup. */
    method AddEntry(e: Entry) returns (accepted: bool)
      modifies taskList
      ensures accepted <==> FirstTaskWithId(AllTasks(old(taskList.Snapshot())), EntryId(e)) == null
      ensures taskList.entries == old(taskList.entries) + (if accepted then [e] else [])
    {
      accepted := taskList.AddEntry(e, false);
    }

    /** countRunningTasks */
    method CountRunningTasks() returns (n: nat)
      ensures n == CountIn(States(AllTasks(taskList.Snapshot())), {PROCESSING, UPLOADING})
    {
      var tasks := taskList.GetAllTasks();
      ghost var snap := taskList.Snapshot();
      n := CountInStates(tasks, {PROCESSING, UPLOADING});
      assert taskList.Snapshot() == snap by {
        assert taskList.entries == old(taskList.entries);
      }
      assert States(AllTasks(snap)) == States(tasks) by {
        assert States(tasks) == old(States(tasks));
      }
    }

    /** countPendingTasks */
    method CountPendingTasks() returns (n: nat)
      ensures n == CountIn(States(AllTasks(taskList.Snapshot())), {PENDING})
    {
      var tasks := taskList.GetAllTasks();
      ghost var snap := taskList.Snapshot();
      n := CountInStates(tasks, {PENDING});
      assert taskList.Snapshot() == snap by {
        assert taskList.entries == old(taskList.entries);
      }
      assert States(AllTasks(snap)) == States(tasks) by {
        assert States(tasks) == old(States(tasks));
      }
    }

    /** The task one tick of start picks: below the cap the first PENDING task in the list's
        order, and none at or above it. */
    method PickPending() returns (task: Task?)
      ensures var tasks := old(AllTasks(taskList.Snapshot()));
        task == if old(CountIn(States(tasks), {PROCESSING, UPLOADING})) < MaxRunningTasks then FirstInState(tasks, PENDING) else null
    {
      ghost var snap := taskList.Snapshot();
      ghost var tasks := AllTasks(snap);
      taskList.TasksAllocated();
      ghost var running := CountIn(States(tasks), {PROCESSING, UPLOADING});
      task := null;
      var runningTasks := CountRunningTasks();
      assert runningTasks == running by {
        assert taskList.entries == old(taskList.entries);
        assert taskList.Snapshot() == snap;
        assert States(tasks) == old(States(tasks));
      }
      if runningTasks < MaxRunningTasks {
        task := PendingTask();
      }
      assert taskList.Snapshot() == snap && States(tasks) == old(States(tasks)) by {
        assert taskList.entries == old(taskList.entries);
      }
    }

    /** getTaskByState(PENDING) and, when it finds one, countPendingTasks, which is then positive. */
    method PendingTask() returns (task: Task?)
      ensures task == FirstInState(AllTasks(taskList.Snapshot()), PENDING)
    {
      ghost var snap := taskList.Snapshot();
      ghost var tasks := AllTasks(snap);
      taskList.TasksAllocated();
      var found := taskList.FindTaskByState(PENDING);
      assert found == FirstInState(tasks, PENDING) && taskList.Snapshot() == snap by {
        assert taskList.entries == old(taskList.entries);
        assert taskList.Snapshot() == snap;
      }
      var pending := CountPendingTasks();
      assert pending == CountIn(States(tasks), {PENDING}) && taskList.Snapshot() == snap by {
        assert taskList.entries == old(taskList.entries);
        assert taskList.Snapshot() == snap;
        assert States(tasks) == old(States(tasks));
      }
      if found != null {
        FirstPendingCounted(tasks);
      }
      task := if found != null && pending > 0 then found else null;
    }

    /** One tick of start: below the cap the first PENDING task, in the list's order, is
        started and the service becomes READY unless it is PROCESSING; otherwise nothing starts
        (and a timer, not part of this model, calls start again a second later). */
    method Start() returns (started: Task?)
      modifies this
      ensures var tasks := old(AllTasks(taskList.Snapshot()));
        started == if old(CountIn(States(tasks), {PROCESSING, UPLOADING})) < MaxRunningTasks then FirstInState(tasks, PENDING) else null
      ensures state == if started != null && old(state) != PROCESSING then READY else old(state)
      ensures errorsCount == old(errorsCount) && protocolArray == old(protocolArray)
    {
      started := PickPending();
      state := if started != null && state != PROCESSING then READY else state;
    }

    /** updateProtocolArray: the rows of every finished or failed operation with a protocol,
        sorted by task id; the counts of errors and of warnings; and, when the error count
        changes, the PREVIOUS count emitted. */
    method UpdateProtocolArray()
      modifies this
      ensures var rows := old(ProtocolRows(AllTasks(taskList.Snapshot())));
        protocolArray == SortByTask(rows)
        && errorsCount == CountRows(rows, ERROR) && warningsCount == CountRows(rows, FINISHED)
      ensures errorsCountChanges == old(errorsCountChanges) + (if old(errorsCount) != errorsCount then [old(errorsCount)] else [])
      ensures state == old(state)
    {
      ghost var snap := taskList.Snapshot();
      var tasks := taskList.GetAllTasks();
      assert taskList.Snapshot() == snap by {
        assert taskList.entries == old(taskList.entries);
      }
      var result, errors, warnings := CollectProtocol(tasks);
      assert result == old(ProtocolRows(tasks));
      if errorsCount != errors {
        errorsCountChanges := errorsCountChanges + [errorsCount];
      }
      errorsCount := errors;
      warningsCount := warnings;
      protocolArray := SortByTask(result);
    }
  }

  /** The collecting loops of updateProtocolArray. */
  method CollectProtocol(tasks: seq<Task>) returns (result: seq<ProtocolRow>, errors: nat, warnings: nat)
    ensures result == ProtocolRows(tasks)
    ensures errors == CountRows(result, ERROR) && warnings == CountRows(result, FINISHED)
  {
    result, errors, warnings := [], 0, 0;
    for i := 0 to |tasks|
      invariant result == ProtocolRows(tasks[..i])
      invariant errors == CountRows(result, ERROR) && warnings == CountRows(result, FINISHED)
    {
      result, errors, warnings := CollectTask(tasks, i, result, errors, warnings);
    }
    assert tasks[..|tasks|] == tasks;
  }

  /** One more task adds its own listed operations after the earlier rows. */
  lemma ProtocolRowsStep(tasks: seq<Task>, i: nat)
    requires i < |tasks|
    ensures ProtocolRows(tasks[..i + 1]) == ProtocolRows(tasks[..i]) + OpRows(tasks[i].id, tasks[i].operations)
  {
    assert tasks[..i + 1][..i] == tasks[..i];
  }

  /** One pass of the outer loop of updateProtocolArray: the listed operations of task `i`,
      appended to the rows of the tasks before it, with the counts kept in step. */
  method CollectTask(tasks: seq<Task>, i: nat, rows: seq<ProtocolRow>, errors0: nat, warnings0: nat)
    returns (result: seq<ProtocolRow>, errors: nat, warnings: nat)
    requires i < |tasks| && rows == ProtocolRows(tasks[..i])
    requires errors0 == CountRows(rows, ERROR) && warnings0 == CountRows(rows, FINISHED)
    ensures result == ProtocolRows(tasks[..i + 1])
    ensures errors == CountRows(result, ERROR) && warnings == CountRows(result, FINISHED)
  {
    result, errors, warnings := CollectOps(tasks[i].id, tasks[i].operations, rows, errors0, warnings0);
    ProtocolRowsStep(tasks, i);
  }

  /** The inner loop of updateProtocolArray: the listed operations of one task, appended
      to the rows so far, with the counts kept in step. */
  method CollectOps(id: int, ops: seq<Operation>, rows: seq<ProtocolRow>, errors0: nat, warnings0: nat)
    returns (result: seq<ProtocolRow>, errors: nat, warnings: nat)
    requires errors0 == CountRows(rows, ERROR) && warnings0 == CountRows(rows, FINISHED)
    ensures result == rows + OpRows(id, ops)
    ensures errors == CountRows(result, ERROR) && warnings == CountRows(result, FINISHED)
  {
    result, errors, warnings := rows, errors0, warnings0;
    for j := 0 to |ops|
      invariant result == rows + OpRows(id, ops[..j])
      invariant errors == CountRows(result, ERROR) && warnings == CountRows(result, FINISHED)
    {
      OpRowsStep(id, ops, j);
      ghost var done := OpRows(id, ops[..j]);
      var operation := ops[j];
      if (operation.state == FINISHED || operation.state == ERROR) && operation.protocol != "" {
        var row := ProtocolRow(id, operation.name, operation.state, operation.protocol);
        CountRowsStep(result, row, ERROR);
        CountRowsStep(result, row, FINISHED);
        if operation.state == ERROR {
          errors := errors + 1;
        } else {
          warnings := warnings + 1;
        }
        assert OpRows(id, ops[..j + 1]) == done + [row];
        TaskLists.Regroup(rows, done, [row]);
        result := result + [row];
      } else {
        assert OpRows(id, ops[..j + 1]) == done;
      }
    }
    assert ops[..|ops|] == ops;
  }

  /** One more operation adds its row when it is listed. */
  lemma OpRowsStep(id: int, ops: seq<Operation>, j: nat)
    requires j < |ops|
    ensures OpRows(id, ops[..j + 1]) == OpRows(id, ops[..j])
      + (if Listed(ops[j]) then [RowOf(id, ops[j])] else [])
  {
    assert ops[..j + 1][..j] == ops[..j];
  }

  /** One more row counts when it is in the state. */
  lemma CountRowsStep(rows: seq<ProtocolRow>, row: ProtocolRow, s: TaskState)
    ensures CountRows(rows + [row], s) == CountRows(rows, s) + (if row.state == s then 1 else 0)
  {
    assert (rows + [row])[..|rows|] == rows;
  }
}
