/** Tasks, task directories and the operations of a task's pipeline
    (src/app/obj/operations/operation.ts). Task and TaskDirectory are defined in a file that is
    not part of this model; they are given the minimal state the rest of the portal uses. */
module Tasks {
  import opened Wrappers
  import opened TaskStates
  import opened Protocols
  import opened FileInfos
  import opened Strings

  /** A static id counter (`Operation.counter`, `TaskEntry.counter`). */
  class Counter {
    var value: int

    constructor (value: int)
      ensures this.value == value
    {
      this.value := value;
    }

    /** `++counter` */
    method Next() returns (id: int)
      modifies this
      ensures value == old(value) + 1 && id == value
    {
      value := value + 1;
      id := value;
    }
  }

  /** The concrete operation classes; OCTRA and Emu WebApp are tool operations. */
  datatype OperationKind = Upload | ASR | OCTRA | G2pMaus | Emu | MAUS

  predicate IsTool(k: OperationKind) {
    k == OCTRA || k == Emu
  }

  /** `_time`: start and duration, and the end time the older operations keep. */
  datatype Timing = Timing(start: int, duration: int, end: int)

  /** What the `statechange` subject emits when an operation goes from one state to another:
      one event on a real change, none otherwise. */
  function Emitted(id: int, from: TaskState, to: TaskState): (r: seq<StateChange>)
    ensures |r| <= 1 && (r == [] <==> from == to)
    ensures r != [] ==> r[0].opId == id && r[0].oldState == from && r[0].newState == to
  {
    if from != to then [StateChange(id, from, to)] else []
  }

  class Task {
    const id: int
    var state: TaskState
    var files: seq<FileInfo>
    var operations: seq<Operation>
    var directory: TaskDirectory?
    var language: string
    var asr: string

    constructor (id: int, files: seq<FileInfo>, language: string)
      ensures this.id == id && this.files == files && this.language == language
      ensures state == PENDING && operations == [] && directory == null && asr == []
    {
      this.id := id;
      this.state := PENDING;
      this.files := files;
      this.operations := [];
      this.directory := null;
      this.language := language;
      this.asr := [];
    }

    /** Task.changeState (not part of this model): taken to set the state. */
    method ChangeState(s: TaskState)
      modifies this
      ensures state == s
      ensures files == old(files) && operations == old(operations) && directory == old(directory)
      ensures language == old(language) && asr == old(asr)
    {
      state := s;
    }

    /** Task.addFile (not part of this model): taken to append the file. */
    method AddFile(f: FileInfo)
      modifies this
      ensures files == old(files) + [f]
      ensures state == old(state) && operations == old(operations) && directory == old(directory)
      ensures language == old(language) && asr == old(asr)
    {
      files := files + [f];
    }

    /** Task.setFileObj (not part of this model): taken to replace the file at i, or to append
        when i is past the end. */
    method SetFileObj(i: nat, f: FileInfo)
      modifies this
      ensures files == if i < |old(files)| then old(files)[i := f] else old(files) + [f]
      ensures state == old(state) && operations == old(operations) && directory == old(directory)
      ensures language == old(language) && asr == old(asr)
    {
      if i < |files| {
        files := files[i := f];
      } else {
        files := files + [f];
      }
    }
  }

  /** The tasks left after removing the first one with the given id. */
  function RemoveFirstById(ts: seq<Task>, id: int): (r: seq<Task>)
    ensures (forall k :: 0 <= k < |ts| ==> ts[k].id != id) ==> r == ts
    ensures (exists k :: 0 <= k < |ts| && ts[k].id == id) ==> |r| == |ts| - 1
    ensures forall t :: t in r ==> t in ts
  {
    if ts == [] then []
    else if ts[0].id == id then ts[1..]
    else [ts[0]] + RemoveFirstById(ts[1..], id)
  }

  class TaskDirectory {
    const id: int
    const path: string
    var entries: seq<Task>

    constructor (id: int, path: string, entries: seq<Task>)
      ensures this.id == id && this.path == path && this.entries == entries
    {
      this.id := id;
      this.path := path;
      this.entries := entries;
    }

    /** TaskDirectory.removeTask (not part of this model): taken to remove the first child
        with the task's id. */
    method RemoveTask(t: Task)
      modifies this
      ensures entries == RemoveFirstById(old(entries), t.id)
    {
      entries := RemoveFirstById(entries, t.id);
    }
  }

  // ---------------------------------------------------------------------------
  // Looking up neighbours in a task's operation list by id (`findIndex`).

  /** `operations.findIndex(op => op.id === id)` */
  function FindIndexById(ops: seq<Operation>, id: int): (r: int)
    ensures -1 <= r < |ops|
    ensures r >= 0 ==> ops[r].id == id && forall k :: 0 <= k < r ==> ops[k].id != id
    ensures r == -1 <==> forall k :: 0 <= k < |ops| ==> ops[k].id != id
  {
    if ops == [] then -1
    else if ops[0].id == id then 0
    else
      var r := FindIndexById(ops[1..], id);
      assert forall k :: 1 <= k < |ops| ==> ops[k] == ops[1..][k - 1];
      if r < 0 then -1 else r + 1
  }

  /** The body of the nextOperation getter once a task is present. An absent id gives
      index -1, which passes the guard and yields the first operation. */
  function NextIn(ops: seq<Operation>, id: int): Operation? {
    var index := FindIndexById(ops, id);
    if index < |ops| - 1 then ops[index + 1] else null
  }

  /** The body of the previousOperation getter. */
  function PreviousIn(ops: seq<Operation>, id: int): Operation? {
    var index := FindIndexById(ops, id);
    if index > 0 then ops[index - 1] else null
  }

  /** Operation ids are distinct within a list. */
  predicate UniqueIds(ops: seq<Operation>) {
    forall i, j :: 0 <= i < j < |ops| ==> ops[i].id != ops[j].id
  }

  /** The operation after the first one carrying an id, or null after the last. */
  lemma NextAt(ops: seq<Operation>, i: nat)
    requires i < |ops| && forall k :: 0 <= k < i ==> ops[k].id != ops[i].id
    ensures NextIn(ops, ops[i].id) == if i + 1 < |ops| then ops[i + 1] else null
  {
  }

  /** The operation before the first one carrying an id, or null for the first. */
  lemma PreviousAt(ops: seq<Operation>, i: nat)
    requires i < |ops| && forall k :: 0 <= k < i ==> ops[k].id != ops[i].id
    ensures PreviousIn(ops, ops[i].id) == if i > 0 then ops[i - 1] else null
  {
  }

  /** An operation whose id is not in the list sees the FIRST operation as its next one. */
  lemma NextOfAbsent(ops: seq<Operation>, id: int)
    requires ops != [] && forall k :: 0 <= k < |ops| ==> ops[k].id != id
    ensures NextIn(ops, id) == ops[0] && PreviousIn(ops, id) == null
  {
  }

  /** With distinct ids, previous undoes next. */
  lemma PreviousOfNext(ops: seq<Operation>, i: nat)
    requires UniqueIds(ops) && i + 1 < |ops|
    ensures NextIn(ops, ops[i].id) == ops[i + 1]
    ensures PreviousIn(ops, ops[i + 1].id) == ops[i]
  {
    NextAt(ops, i);
    PreviousAt(ops, i + 1);
  }

  /** The operations of a task, as a set for frames. */
  function OpsOf(t: Task?): set<Operation>
    reads t
  {
    if t == null then {} else set o | o in t.operations
  }

  // ---------------------------------------------------------------------------
  // The operation

  class Operation {
    const id: int
    const kind: OperationKind
    const name: string
    const icon: string
    const title: string
    const shortTitle: Option<string>
    const commands: seq<string>
    const task: Task?
    var state: TaskState
    var enabled: bool
    var results: seq<FileInfo>
    var protocol: string
    var parsedProtocol: seq<ProtocolEntry>
    var time: Timing
    /** The `statechange` subject, as the log of what it has emitted. */
    var stateEvents: seq<StateChange>
    var webService: string
    /** The operation list the OCTRA operations keep from `start`. */
    var operations: Option<seq<Operation>>

    /** The constructor: `++Operation.counter` as id unless one is given, then
        `changeState(state)` with PENDING when no state is given. */
    constructor (kind: OperationKind, name: string, icon: string, commands: seq<string>,
                 title: Option<string>, shortTitle: Option<string>, task: Task?,
                 state: Option<TaskState>, id: Option<int>, counter: Counter)
      requires state == Some(FINISHED) ==> task != null
      modifies counter, task
      ensures this.id == (if id.Some? then id.value else old(counter.value) + 1)
      ensures counter.value == (if id.Some? then old(counter.value) else old(counter.value) + 1)
      ensures this.kind == kind && this.name == name && this.icon == icon && this.commands == commands
      ensures this.title == title.GetOr([]) && this.shortTitle == shortTitle && this.task == task
      ensures this.state == state.GetOr(PENDING)
      ensures stateEvents == Emitted(this.id, PENDING, state.GetOr(PENDING))
      ensures enabled && results == [] && protocol == [] && parsedProtocol == []
      ensures time == Timing(0, 0, 0) && webService == [] && operations.None?
      ensures task != null ==> task.files == old(task.files) && task.operations == old(task.operations)
      ensures task != null ==> task.state == (if state == Some(FINISHED) && FinishesTask() then FINISHED else old(task.state))
    {
      var newId: int;
      if id.Some? {
        newId := id.value;
      } else {
        newId := counter.Next();
      }
      this.id := newId;
      this.kind := kind;
      this.name := name;
      this.icon := icon;
      this.commands := commands;
      this.title := title.GetOr([]);
      this.shortTitle := shortTitle;
      this.task := task;
      this.state := PENDING;
      this.enabled := true;
      this.results := [];
      this.protocol := [];
      this.parsedProtocol := [];
      this.time := Timing(0, 0, 0);
      this.stateEvents := [];
      this.webService := [];
      this.operations := None;
      new;
      var thrown := ChangeState(state.GetOr(PENDING));
    }

    /** The `lastResult` getter. */
    function LastResult(): (r: Option<FileInfo>)
      reads this
      ensures r.None? <==> results == []
      ensures r.Some? ==> r.value == results[|results| - 1] && r.value in results
    {
      if |results| > 0 then Some(results[|results| - 1]) else None
    }

    /** The `nextOperation` getter. */
    function NextOperation(): (r: Operation?)
      reads task
      ensures task == null ==> r == null
      ensures r != null ==> r in task.operations
    {
      if task == null then null else NextIn(task.operations, id)
    }

    /** The `previousOperation` getter (which throws without a task). */
    function PreviousOperation(): (r: Operation?)
      requires task != null
      reads task
      ensures r != null ==> r in task.operations
    {
      PreviousIn(task.operations, id)
    }

    /** What `changeState(FINISHED)` checks: the immediately next operation is absent,
        disabled or SKIPPED. Operations further on are not looked at. */
    predicate FinishesTask()
      reads this, task, OpsOf(task)
    {
      var n := NextOperation();
      n == null || !n.enabled || n.state == SKIPPED
    }

    /** changeState: set the state, emit `{opID, oldState, newState}` on a real change, and
        finish the task when FINISHED and the next operation does not go on. `thrown` is the
        TypeError of `this.task.changeState` when there is no task. */
    method ChangeState(s: TaskState) returns (thrown: bool)
      modifies this, task
      ensures state == s
      ensures stateEvents == old(stateEvents) + Emitted(id, old(state), s)
      ensures thrown <==> s == FINISHED && task == null
      ensures task != null ==> task.state == (if s == FINISHED && FinishesTask() then FINISHED else old(task.state))
      ensures task != null ==> task.files == old(task.files) && task.operations == old(task.operations)
      ensures task != null ==> task.directory == old(task.directory) && task.language == old(task.language)
      ensures task != null ==> task.asr == old(task.asr)
      ensures enabled == old(enabled) && results == old(results) && protocol == old(protocol)
      ensures parsedProtocol == old(parsedProtocol) && time == old(time)
      ensures webService == old(webService) && operations == old(operations)
    {
      var oldState := state;
      state := s;
      if oldState != s {
        stateEvents := stateEvents + [StateChange(id, oldState, s)];
      }

      var nextOp := NextOperation();
      while nextOp != null
        invariant nextOp != null ==> nextOp == NextOperation()
        invariant nextOp == null ==> FinishesTask()
        decreases if nextOp == null then 0 else 1
      {
        nextOp := NextOperation();
        nextOp := if nextOp.enabled && nextOp.state != SKIPPED then nextOp else null;
        if nextOp != null {
          break;
        }
      }
      assert nextOp == null <==> FinishesTask();

      thrown := false;
      if s == FINISHED && nextOp == null {
        if task == null {
          thrown := true;
        } else {
          task.ChangeState(FINISHED);
        }
      }
    }

    /** The `enabled` setter. */
    method SetEnabled(value: bool)
      modifies this
      ensures enabled == value
      ensures state == old(state) && results == old(results) && protocol == old(protocol)
      ensures parsedProtocol == old(parsedProtocol) && time == old(time) && stateEvents == old(stateEvents)
      ensures webService == old(webService) && operations == old(operations)
    {
      enabled := value;
    }

    /** parseProtocol: the records are collected line by line, as its regex loop finds them,
        and are those ParseProtocol describes. */
    method ParseProtocolText(p: string) returns (r: seq<ProtocolEntry>)
      ensures r == ParseProtocol(p)
    {
      if p == [] {
        return [];
      }
      var lines := SplitLines(ReplaceAll(p, "<br/>", "\n"));
      r := [];
      var i := 0;
      assert lines[0..] == lines;
      while i < |lines|
        invariant 0 <= i <= |lines|
        invariant r + Collect(lines[i..]) == Collect(lines)
      {
        CollectStep(lines, i, r);
        r := r + LineRecords(lines[i]);
        i := i + 1;
      }
      assert lines[i..] == [];
    }

    /** updateProtocol: the raw text and its parsed records are set together. */
    method UpdateProtocol(p: string)
      modifies this
      ensures protocol == p && parsedProtocol == ParseProtocol(p)
      ensures state == old(state) && enabled == old(enabled) && results == old(results)
      ensures time == old(time) && stateEvents == old(stateEvents)
      ensures webService == old(webService) && operations == old(operations)
    {
      var parsed := ParseProtocolText(p);
      protocol := p;
      parsedProtocol := parsed;
    }
  }

  // ---------------------------------------------------------------------------
  // The record toAny writes

  /** The record `toAny` resolves to, with the results' own records. */
  datatype OperationRecord = OperationRecord(
    id: int, name: string, state: TaskState, protocol: string, time: Timing,
    enabled: bool, webService: string, results: seq<FileRecord>)

  function ResultRecords(fs: seq<FileInfo>): (rs: seq<FileRecord>)
    reads set f | f in fs
    ensures |rs| == |fs| && forall k :: 0 <= k < |fs| ==> rs[k] == ToRecord(fs[k])
  {
    seq(|fs|, k reads set f | f in fs requires 0 <= k < |fs| => ToRecord(fs[k]))
  }

  /** toAny with the web service it writes: the base class writes '', the ASR operation its own. */
  function RecordOf(op: Operation, webService: string): (o: OperationRecord)
    reads op, set f | f in op.results
    ensures o.id == op.id && o.name == op.name && o.state == op.state && o.protocol == op.protocol
    ensures o.time == op.time && o.enabled == op.enabled && o.webService == webService
    ensures |o.results| == |op.results|
    ensures forall k :: 0 <= k < |op.results| ==> o.results[k] == ToRecord(op.results[k])
  {
    OperationRecord(op.id, op.name, op.state, op.protocol, op.time, op.enabled, webService,
                    ResultRecords(op.results))
  }

  /** The base class's toAny, which writes an empty web service. */
  function ToAny(op: Operation): (o: OperationRecord)
    reads op, set f | f in op.results
    ensures o.webService == [] && o.results == ResultRecords(op.results)
  {
    RecordOf(op, [])
  }
}
