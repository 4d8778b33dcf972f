/** The scheduler and the ingestion rules of the task service (src/app/obj/tasks/task.service.ts):
    the statistics and the status label, one tick of the scheduler, the search for the next
    task to run, the lookup of a task by file hash, the merge of a late transcript into its
    queued audio task, and the restoring of the id counters. */
module TaskServices {
  import opened Wrappers
  import opened TaskStates
  import opened Strings
  import opened FileInfos
  import opened Tasks
  import opened TaskLists
  import opened InputFilters

  datatype OverallState = Processing | Waiting | Stopped | NotStarted

  /** `_statistics` */
  datatype Statistics = Statistics(queued: nat, waiting: nat, running: nat, finished: nat, errors: nat)

  /** `options.max_running_tasks` */
  const MaxRunningTasks := 3

  // ---------------------------------------------------------------------------
  // Statistics

  /** The number of states in the bucket. */
  function CountIn(ss: seq<TaskState>, bucket: set<TaskState>): (n: nat)
    ensures n <= |ss|
  {
    if ss == [] then 0
    else CountIn(ss[..|ss| - 1], bucket) + (if ss[|ss| - 1] in bucket then 1 else 0)
  }

  /** The buckets updateStatistics counts into. */
  function Tally(ss: seq<TaskState>): Statistics {
    Statistics(CountIn(ss, {QUEUED}), CountIn(ss, {PENDING, READY}), CountIn(ss, {PROCESSING, UPLOADING}),
               CountIn(ss, {FINISHED}), CountIn(ss, {ERROR}))
  }

  /** The bucket one more task in state s adds to. */
  function Bump(st: Statistics, s: TaskState): Statistics {
    if s == QUEUED then st.(queued := st.queued + 1)
    else if s == PENDING || s == READY then st.(waiting := st.waiting + 1)
    else if s == PROCESSING || s == UPLOADING then st.(running := st.running + 1)
    else if s == FINISHED then st.(finished := st.finished + 1)
    else if s == ERROR then st.(errors := st.errors + 1)
    else st
  }

  lemma TallyStep(ss: seq<TaskState>, s: TaskState)
    ensures Tally(ss + [s]) == Bump(Tally(ss), s)
  {
    assert (ss + [s])[..|ss|] == ss;
  }

  function Total(st: Statistics): nat {
    st.queued + st.waiting + st.running + st.finished + st.errors
  }

  /** Each task lands in exactly one bucket, except a SKIPPED one, which lands in none. */
  lemma {:induction false} TallyPartitions(ss: seq<TaskState>)
    ensures Total(Tally(ss)) + CountIn(ss, {SKIPPED}) == |ss|
  {
    if ss != [] {
      var init := ss[..|ss| - 1];
      var last := ss[|ss| - 1];
      TallyPartitions(init);
      assert Tally(ss) == Bump(Tally(init), last) by {
        assert ss == init + [last];
        TallyStep(init, last);
      }
      BumpTotal(Tally(init), last);
    }
  }

  /** A bump adds one to the total, except for SKIPPED. */
  lemma BumpTotal(st: Statistics, s: TaskState)
    ensures Total(Bump(st, s)) == Total(st) + (if s == SKIPPED then 0 else 1)
  {
  }

  /** The tasks' states, in order. */
  function States(ts: seq<Task>): (ss: seq<TaskState>)
    reads set t | t in ts
    ensures |ss| == |ts|
  {
    seq(|ts|, k reads set t | t in ts requires 0 <= k < |ts| => ts[k].state)
  }

  // ---------------------------------------------------------------------------
  // The status label

  /** The `stateLabel` getter; None where it falls through and returns undefined. */
  function StateLabel(overall: OverallState, st: Statistics): (r: Option<string>)
    ensures r.None? <==> overall == Waiting
  {
    match overall
    case Processing =>
      if st.running == 0 then
        if st.waiting > 1 then Some(NatToString(st.waiting) + " tasks need your attention")
        else if st.waiting == 1 then Some("1 task needs your attention")
        else if st.queued > 0 then Some(NatToString(st.queued) + " audio file(s) waiting to be verified by you.")
        else Some("All jobs done. Waiting for new tasks...")
      else Some("Processing...")
    case NotStarted =>
      if st.queued > 0 then Some(NatToString(st.queued) + " audio file(s) waiting to be verified by you.")
      else Some("Ready")
    case Stopped =>
      if st.running > 0 then Some("waiting for " + NatToString(st.running) + " tasks to stop their work...")
      else Some("Stopped")
    case Waiting => None
  }

  /** The decision table: while processing, all done exactly when nothing runs, waits or is
      queued, and "Processing..." exactly when something runs; when stopped, "Stopped" exactly
      when nothing runs. */
  lemma StateLabelTable(overall: OverallState, st: Statistics)
    ensures overall == Processing ==>
      (StateLabel(overall, st) == Some("All jobs done. Waiting for new tasks...") <==>
         st.running == 0 && st.waiting == 0 && st.queued == 0)
    ensures overall == Processing ==> (StateLabel(overall, st) == Some("Processing...") <==> st.running > 0)
    ensures overall == Stopped ==> (StateLabel(overall, st) == Some("Stopped") <==> st.running == 0)
    ensures overall == NotStarted ==> (StateLabel(overall, st) == Some("Ready") <==> st.queued == 0)
  {
    var r := StateLabel(overall, st);
    if overall == Processing && st.running == 0 && st.waiting > 1 {
      assert r.value[0] == NatToString(st.waiting)[0];
    }
    if overall == Processing && st.running == 0 && st.waiting == 0 && st.queued > 0 {
      assert r.value[0] == NatToString(st.queued)[0];
    }
    if overall == NotStarted && st.queued > 0 {
      assert r.value[0] == NatToString(st.queued)[0];
    }
  }

  /** A label with a count reports it: the count is read back from the label's leading digits. */
  lemma StateLabelCount(st: Statistics)
    requires st.running == 0 && st.waiting > 1
    ensures var text := StateLabel(Processing, st).value;
      var digits := NatToString(st.waiting);
      IsPrefix(digits, text) && ParseNat(text[..|digits|]) == st.waiting
  {
    var digits := NatToString(st.waiting);
    assert (digits + " tasks need your attention")[..|digits|] == digits;
    NatToStringRoundTrip(st.waiting);
  }

  // ---------------------------------------------------------------------------
  // The next task to run

  predicate IsToolName(name: string) {
    name == "OCTRA" || name == "Emu WebApp"
  }

  /** An enabled operation that is not SKIPPED. */
  predicate Active(o: Operation)
    reads o
  {
    o.state != SKIPPED && o.enabled
  }

  /** An active operation the scheduler can run: PENDING or READY, and not a tool. */
  predicate Launchable(o: Operation)
    reads o
  {
    Active(o) && (o.state == PENDING || o.state == READY) && !IsToolName(o.name)
  }

  /** An active tool operation not yet FINISHED: the user has to work on it first. */
  predicate Blocks(o: Operation)
    reads o
  {
    Active(o) && o.state != FINISHED && IsToolName(o.name)
  }

  /** What the scan of a READY task's operations looks for: a launchable operation with no
      unfinished tool operation before it. */
  predicate LaunchableBeforeBlock(ops: seq<Operation>)
    reads set o | o in ops
  {
    exists i :: 0 <= i < |ops| && Launchable(ops[i]) && forall k :: 0 <= k < i ==> !Blocks(ops[k])
  }

  /** The inner loop of findNextWaitingTask over a READY task's operations: it stops with the
      task at the first launchable operation, and `break`s at the first unfinished tool. */
  method ScanOperations(ops: seq<Operation>) returns (found: bool)
    ensures found <==> LaunchableBeforeBlock(ops)
  {
    for j := 0 to |ops|
      invariant forall k :: 0 <= k < j ==> !Launchable(ops[k]) && !Blocks(ops[k])
    {
      var op := ops[j];
      if op.state != SKIPPED && op.enabled {
        if (op.state == PENDING || op.state == READY) && !IsToolName(op.name) {
          return true;
        } else if op.state != FINISHED && IsToolName(op.name) {
          assert Blocks(ops[j]);
          return false;
        }
      }
    }
    return false;
  }

  /** What the scheduler looks at in a task. */
  function TaskFrame(t: Task): (r: set<object>)
    reads t, set o | o in t.operations
    ensures t in r && (forall f :: f in t.files ==> f in r) && (forall o :: o in t.operations ==> o in r)
    ensures forall o, f :: o in t.operations && f in o.results ==> f in r
  {
    {t as object} + (set f: FileInfo | f in t.files :: f as object) + (set o: Operation | o in t.operations :: o as object)
    + (set o, f | o in t.operations && f in o.results :: f as object)
  }

  /** Every task has its first file and its first two operations (the upload and the ASR
      step), as the Task constructor, which is not part of this model, builds them. */
  predicate Formed(t: Task)
    reads t
  {
    |t.files| >= 1 && |t.operations| >= 2
  }

  predicate AllFormed(ts: seq<Task>)
    reads set t | t in ts
  {
    forall k :: 0 <= k < |ts| ==> Formed(ts[k])
  }

  /** A PENDING task whose audio is at hand: a local wav file, or an upload whose last result is
      online. */
  predicate AudioReady(t: Task)
    reads t, (set o | o in t.operations), TaskFrame(t)
    requires Formed(t)
  {
    var up := t.operations[0];
    (t.files[0].file.Some? && t.files[0].extension == ".wav")
    || (|up.results| > 0 && up.results[|up.results| - 1].online)
  }

  /** The task findNextWaitingTask stops at. */
  predicate Runnable(t: Task)
    reads t, (set o | o in t.operations), TaskFrame(t)
    requires Formed(t)
  {
    (t.state == PENDING && AudioReady(t)) || (t.state == READY && LaunchableBeforeBlock(t.operations))
  }

  /** Task i of the list is runnable. */
  predicate RunnableAt(ts: seq<Task>, i: int)
    reads set t | t in ts, (set t, o | t in ts && o in t.operations :: o)
    reads (set t, f | t in ts && f in t.files :: f), (set t, o, f | t in ts && o in t.operations && f in o.results :: f)
  {
    0 <= i < |ts| && Formed(ts[i]) && Runnable(ts[i])
  }

  /** Task i is the first runnable task. */
  predicate FirstRunnableAt(ts: seq<Task>, i: int)
    reads set t | t in ts, (set t, o | t in ts && o in t.operations :: o)
    reads (set t, f | t in ts && f in t.files :: f), (set t, o, f | t in ts && o in t.operations && f in o.results :: f)
  {
    RunnableAt(ts, i) && forall k :: 0 <= k < i ==> !RunnableAt(ts, k)
  }

  /** findNextWaitingTask over the list of all tasks: the first PENDING task whose audio is at
      hand or READY task with an operation to launch, or null. */
  method NextWaitingTask(tasks: seq<Task>) returns (r: Task?)
    requires AllFormed(tasks)
    ensures r == null <==> forall k :: 0 <= k < |tasks| ==> !RunnableAt(tasks, k)
    ensures r != null ==> exists i :: FirstRunnableAt(tasks, i) && tasks[i] == r
  {
    for i := 0 to |tasks|
      invariant forall k :: 0 <= k < i ==> !RunnableAt(tasks, k)
    {
      var entry := tasks[i];
      assert Formed(entry);
      var up := entry.operations[0];
      if entry.state == PENDING
        && ((entry.files[0].file.Some? && entry.files[0].extension == ".wav")
            || (|up.results| > 0 && up.results[|up.results| - 1].online))
      {
        assert FirstRunnableAt(tasks, i);
        return entry;
      } else if entry.state == READY {
        var found := ScanOperations(entry.operations);
        if found {
          assert FirstRunnableAt(tasks, i);
          return entry;
        }
      }
    }
    return null;
  }

  /** The counting pass of updateStatistics: each task is counted in the bucket of its state. */
  method CountStates(tasks: seq<Task>) returns (st: Statistics)
    ensures st == Tally(States(tasks))
  {
    ghost var ss := States(tasks);
    var queued, waiting, running, finished, errors := 0, 0, 0, 0, 0;
    for i := 0 to |tasks|
      invariant Statistics(queued, waiting, running, finished, errors) == Tally(ss[..i])
    {
      var s := tasks[i].state;
      assert ss[..i + 1] == ss[..i] + [s];
      TallyStep(ss[..i], s);
      if s == PROCESSING || s == UPLOADING {
        running := running + 1;
      }
      if s == PENDING || s == READY {
        waiting := waiting + 1;
      }
      if s == QUEUED {
        queued := queued + 1;
      }
      if s == FINISHED {
        finished := finished + 1;
      }
      if s == ERROR {
        errors := errors + 1;
      }
    }
    assert ss[..|tasks|] == ss;
    st := Statistics(queued, waiting, running, finished, errors);
  }

  // ---------------------------------------------------------------------------
  // Lookup by hash

  /** A task getTaskWithHash accepts for the key: its first file carries an original file name,
      its upload is PENDING or ERROR, and one of its files hashes to the key. */
  predicate HashMatch(t: Task, key: string, hash: (Option<string>, int) -> string)
    reads t, (set o | o in t.operations), (set f | f in t.files)
    requires Formed(t)
  {
    t.files[0].originalFileName.Some?
    && (t.operations[0].state == PENDING || t.operations[0].state == ERROR)
    && exists j :: 0 <= j < |t.files| && hash(t.files[j].originalFileName, t.files[j].size) == key
  }

  predicate HashMatchAt(ts: seq<Task>, i: int, key: string, hash: (Option<string>, int) -> string)
    reads set t | t in ts, (set t, o | t in ts && o in t.operations :: o), (set t, f | t in ts && f in t.files :: f)
  {
    0 <= i < |ts| && Formed(ts[i]) && HashMatch(ts[i], key, hash)
  }

  /** getTaskWithHash over the list of all tasks, with the preprocessor's hash of (original file
      name, size) as a parameter: the first task that matches the key, or null. */
  method TaskWithHash(tasks: seq<Task>, key: string, hash: (Option<string>, int) -> string) returns (r: Task?)
    requires AllFormed(tasks)
    ensures r == null <==> forall k :: 0 <= k < |tasks| ==> !HashMatchAt(tasks, k, key, hash)
    ensures r != null ==>
      exists i :: HashMatchAt(tasks, i, key, hash) && tasks[i] == r
        && forall k :: 0 <= k < i ==> !HashMatchAt(tasks, k, key, hash)
  {
    for i := 0 to |tasks|
      invariant forall k :: 0 <= k < i ==> !HashMatchAt(tasks, k, key, hash)
    {
      var task := tasks[i];
      assert Formed(task);
      var upload := task.operations[0].state;
      if task.files[0].originalFileName.Some? {
        for j := 0 to |task.files|
          invariant upload == PENDING || upload == ERROR ==>
            forall m :: 0 <= m < j ==> hash(task.files[m].originalFileName, task.files[m].size) != key
        {
          var file := task.files[j];
          var cmpHash := hash(file.originalFileName, file.size);
          if cmpHash == key && (upload == PENDING || upload == ERROR) {
            assert HashMatchAt(tasks, i, key, hash);
            return task;
          }
        }
      }
      assert !HashMatchAt(tasks, i, key, hash);
    }
    return null;
  }

  /** With a hash that tells its arguments apart, the task found for the hash of a name and a
      size holds a file with that original name and size; and every such task is found. */
  lemma HashIdentifies(t: Task, name: Option<string>, size: int, hash: (Option<string>, int) -> string)
    requires Formed(t)
    requires forall a, b, c, d :: hash(a, b) == hash(c, d) ==> a == c && b == d
    ensures HashMatch(t, hash(name, size), hash) <==>
      t.files[0].originalFileName.Some? && (t.operations[0].state == PENDING || t.operations[0].state == ERROR)
      && exists j :: 0 <= j < |t.files| && t.files[j].originalFileName == name && t.files[j].size == size
  {
    if HashMatch(t, hash(name, size), hash) {
      var j :| 0 <= j < |t.files| && hash(t.files[j].originalFileName, t.files[j].size) == hash(name, size);
      var a, b := t.files[j].originalFileName, t.files[j].size;
      assert hash(a, b) == hash(name, size);
      assert a == name && b == size;
    }
  }

  // ---------------------------------------------------------------------------
  // The late-transcript merge of itemProcessed

  /** A QUEUED task with a file whose name, with its first '_annot' removed, is the given name. */
  predicate AnnotMatch(t: Task, name: string)
    reads t, set f | f in t.files
  {
    t.state == QUEUED && exists j :: 0 <= j < |t.files| && ReplaceFirst(t.files[j].name, "_annot", "") == name
  }

  /** The task the `find` of itemProcessed picks: the first one that matches, or null. */
  function Partner(ts: seq<Task>, name: string): (r: Task?)
    reads set t | t in ts, (set t, f | t in ts && f in t.files :: f)
    ensures r != null ==> r in ts && AnnotMatch(r, name)
    ensures r == null <==> forall k :: 0 <= k < |ts| ==> !AnnotMatch(ts[k], name)
  {
    if ts == [] then null
    else if AnnotMatch(ts[0], name) then ts[0]
    else
      var r := Partner(ts[1..], name);
      assert forall k :: 1 <= k < |ts| ==> ts[k] == ts[1..][k - 1];
      r
  }

  /** The task picked is the first match: no task before it matches. */
  lemma {:induction false} PartnerIsFirst(ts: seq<Task>, name: string)
    requires Partner(ts, name) != null
    ensures exists i ::
      0 <= i < |ts| && ts[i] == Partner(ts, name) && forall k :: 0 <= k < i ==> !AnnotMatch(ts[k], name)
  {
    if !AnnotMatch(ts[0], name) {
      PartnerIsFirst(ts[1..], name);
      var i :| 0 <= i < |ts[1..]| && ts[1..][i] == Partner(ts[1..], name)
        && forall k :: 0 <= k < i ==> !AnnotMatch(ts[1..][k], name);
      assert ts[i + 1] == Partner(ts, name);
      forall k | 0 <= k < i + 1
        ensures !AnnotMatch(ts[k], name)
      {
        if k > 0 { assert ts[k] == ts[1..][k - 1]; }
      }
    } else {
      assert ts[0] == Partner(ts, name);
    }
  }

  /** A match after a run of tasks that do not match is the task picked. */
  lemma {:induction false} PartnerAt(ts: seq<Task>, name: string, i: nat)
    requires i < |ts| && AnnotMatch(ts[i], name)
    requires forall k :: 0 <= k < i ==> !AnnotMatch(ts[k], name)
    ensures Partner(ts, name) == ts[i]
  {
    if i > 0 {
      assert !AnnotMatch(ts[0], name);
      PartnerAt(ts[1..], name, i - 1);
    }
  }

  /** The `find` of itemProcessed: the first task that matches the new task's first file name. */
  method FindQueuedPartner(tasks: seq<Task>, name: string) returns (r: Task?)
    ensures r == Partner(tasks, name)
  {
    for i := 0 to |tasks|
      invariant forall k :: 0 <= k < i ==> !AnnotMatch(tasks[k], name)
    {
      var a := tasks[i];
      var foundIt := false;
      for j := 0 to |a.files|
        invariant !foundIt ==> forall m :: 0 <= m < j ==> ReplaceFirst(a.files[m].name, "_annot", "") != name
        invariant foundIt ==> exists m :: 0 <= m < |a.files| && ReplaceFirst(a.files[m].name, "_annot", "") == name
      {
        if !foundIt && ReplaceFirst(a.files[j].name, "_annot", "") == name {
          foundIt := true;
        }
      }
      if a.state == QUEUED && foundIt {
        PartnerAt(tasks, name, i);
        return a;
      }
    }
    return null;
  }

  /** Two wav files are never merged. */
  predicate BothWav(a: FileInfo, b: FileInfo)
    reads a, b
  {
    a.extension == ".wav" && b.extension == ".wav"
  }

  /** The merge into the task found: the new file is appended unless both first files are wav,
      and then the ASR step (operation 1) is disabled and SKIPPED. */
  method MergeFile(found: Task, f: FileInfo) returns (merged: bool)
    requires Formed(found)
    modifies found, found.operations[1], found.operations[1].task
    ensures merged <==> !old(BothWav(found.files[0], f))
    ensures found.files == old(found.files) + (if merged then [f] else [])
    ensures found.state == old(found.state) && found.operations == old(found.operations)
    ensures var asr := found.operations[1];
      if merged then !asr.enabled && asr.state == SKIPPED
      else asr.enabled == old(asr.enabled) && asr.state == old(asr.state)
    ensures var asr := found.operations[1];
      asr.task != null && asr.task != found ==>
        asr.task.state == old(asr.task.state) && asr.task.files == old(asr.task.files)
  {
    merged := !(found.files[0].extension == ".wav" && f.extension == ".wav");
    if merged {
      found.AddFile(f);
      if |found.files| > 1 {
        var asr := found.operations[1];
        asr.SetEnabled(false);
        var thrown := asr.ChangeState(SKIPPED);
      }
    }
  }

  /** The task branch of itemProcessed up to the registration: the new task becomes QUEUED; the
      first QUEUED listed task holding a file of the new task's first file name (with '_annot'
      removed) is looked up, and unless both first files are wav files the new file is merged
      into it. A null `found` means the new task is to be registered; a task found for two wav
      files is neither merged nor registered. */
  method MergeLateTranscript(tasks: seq<Task>, result: Task) returns (found: Task?, merged: bool)
    requires AllFormed(tasks) && Formed(result) && result !in tasks
    modifies result, set t | t in tasks
    modifies set t, o | t in tasks && o in t.operations :: o
    modifies set t, o | t in tasks && o in t.operations :: o.task
    ensures result.state == QUEUED && result.files == old(result.files)
    ensures found == old(Partner(tasks, result.files[0].name))
    ensures found == null ==> !merged
    ensures found != null ==>
      (merged <==> !old(BothWav(found.files[0], result.files[0])))
      && found.files == old(found.files) + (if merged then [result.files[0]] else [])
      && found.state == old(found.state) && found.operations == old(found.operations)
    ensures merged ==> found != null && !found.operations[1].enabled && found.operations[1].state == SKIPPED
  {
    result.ChangeState(QUEUED);
    var name := result.files[0].name;
    assert Partner(tasks, name) == old(Partner(tasks, result.files[0].name));
    found := FindQueuedPartner(tasks, name);
    merged := false;
    if found != null {
      assert Formed(found) && found.operations[1] in found.operations;
      merged := MergeFile(found, result.files[0]);
    }
  }

  /** Some task's upload is still running (`findIndex` on the first operation's state). */
  predicate AnyUploading(ts: seq<Task>)
    reads set t | t in ts, (set t, o | t in ts && o in t.operations :: o)
  {
    exists k :: 0 <= k < |ts| && Formed(ts[k]) && ts[k].operations[0] in ts[k].operations
      && ts[k].operations[0].state == UPLOADING
  }

  /** The decision of a tick of start, on the tasks getAllTasks returns and the running count of
      the refreshed statistics: a task is started only when fewer than max_running_tasks run and
      no task's upload is in progress, and then it is the first runnable task. */
  method PickTask(tasks: seq<Task>, running: nat) returns (started: Task?)
    requires AllFormed(tasks)
    ensures started != null <==>
      running < MaxRunningTasks && !AnyUploading(tasks) && exists k :: RunnableAt(tasks, k)
    ensures started != null ==> exists i :: FirstRunnableAt(tasks, i) && tasks[i] == started
  {
    var uploading := exists k :: 0 <= k < |tasks| && tasks[k].operations[0].state == UPLOADING;
    started := null;
    if running < MaxRunningTasks && !uploading {
      started := NextWaitingTask(tasks);
    }
  }

  /** One tick of start on the tasks getAllTasks returns: the statistics are recounted, and the
      task to start is picked with their running count. */
  method Tick(tasks: seq<Task>) returns (st: Statistics, started: Task?)
    requires AllFormed(tasks)
    ensures st == old(Tally(States(tasks)))
    ensures started != null <==>
      st.running < MaxRunningTasks && old(!AnyUploading(tasks) && exists k :: RunnableAt(tasks, k))
    ensures started != null ==> old(exists i :: FirstRunnableAt(tasks, i) && tasks[i] == started)
  {
    st := CountStates(tasks);
    assert States(tasks) == old(States(tasks));
    started := PickTask(tasks, st.running);
    assert AnyUploading(tasks) == old(AnyUploading(tasks));
    assert forall i :: RunnableAt(tasks, i) == old(RunnableAt(tasks, i));
  }

  /** toggleProcessing's switch: processing stops, anything else starts processing. */
  function Toggled(s: OverallState): (r: OverallState)
    ensures r == Processing || r == Stopped
    ensures r == Processing <==> s != Processing
  {
    if s == Processing then Stopped else Processing
  }

  // ---------------------------------------------------------------------------
  // The counter repair of importDBData

  /** `Math.max` */
  function Max(a: int, b: int): int {
    if a >= b then a else b
  }

  /** The running maximum over some operations' ids. */
  function MaxOpId(ops: seq<Operation>, m: int): (r: int)
    ensures r >= m && forall j :: 0 <= j < |ops| ==> ops[j].id <= r
  {
    if ops == [] then m else Max(MaxOpId(ops[..|ops| - 1], m), ops[|ops| - 1].id)
  }

  /** One task taken into the two running maxima (task ids, operation ids). */
  function TaskStep(m: (int, int), t: Task): (r: (int, int))
    reads t
    ensures r.0 >= m.0 && r.1 >= m.1 && t.id <= r.0
    ensures forall j :: 0 <= j < |t.operations| ==> t.operations[j].id <= r.1
  {
    (Max(m.0, t.id), MaxOpId(t.operations, m.1))
  }

  /** The maxima importDBData computes over the imported records, from (0, 0): the ids of the
      task records and of their operations. Directory records are passed over, with their ids,
      their tasks and their tasks' operations. */
  function ImportedMaxima(rs: seq<Entry>): (r: (int, int))
    reads set e | e in rs && e.TaskEntry? :: e.task
    ensures r.0 >= 0 && r.1 >= 0
    ensures forall k :: 0 <= k < |rs| && rs[k].TaskEntry? ==> rs[k].task.id <= r.0
    ensures forall k, j :: 0 <= k < |rs| && rs[k].TaskEntry? && 0 <= j < |rs[k].task.operations| ==>
      rs[k].task.operations[j].id <= r.1
  {
    if rs == [] then (0, 0)
    else
      var m := ImportedMaxima(rs[..|rs| - 1]);
      match rs[|rs| - 1]
      case TaskEntry(t) => TaskStep(m, t)
      case DirEntry(_) => m
  }

  /** The ids inside an imported directory: the directory's own, its tasks' and their
      operations' do not reach the maxima. */
  lemma DirectoryIgnored(rs: seq<Entry>, d: TaskDirectory)
    ensures ImportedMaxima(rs + [DirEntry(d)]) == ImportedMaxima(rs)
  {
    assert (rs + [DirEntry(d)])[..|rs|] == rs;
  }

  /** So after importing one directory whose task has a positive id, the task counter may stay
      below that id, and the next task gets an id already in use. */
  lemma DirectoryTaskEscapes(d: TaskDirectory, c: Task)
    requires d.entries == [c] && c.id > 0
    ensures ImportedMaxima([DirEntry(d)]).0 < c.id
  {
    DirectoryIgnored([], d);
  }

  /** The tasks of a directory taken into the running maxima. */
  function ChildMaxima(cs: seq<Task>, m: (int, int)): (r: (int, int))
    reads set c | c in cs
    ensures r.0 >= m.0 && r.1 >= m.1
    ensures forall k :: 0 <= k < |cs| ==> cs[k].id <= r.0
    ensures forall k, j :: 0 <= k < |cs| && 0 <= j < |cs[k].operations| ==> cs[k].operations[j].id <= r.1
  {
    if cs == [] then m else TaskStep(ChildMaxima(cs[..|cs| - 1], m), cs[|cs| - 1])
  }

  /** The maxima over every id of the imported records, directories included: what the counter
      repair needs for the ids it hands out afterwards to be fresh (AllMaximaBound). */
  function AllMaxima(rs: seq<Entry>): (r: (int, int))
    reads set e | e in rs && e.TaskEntry? :: e.task
    reads set e | e in rs && e.DirEntry? :: e.dir
    reads set e, c | e in rs && e.DirEntry? && c in e.dir.entries :: c
    ensures r.0 >= 0 && r.1 >= 0
  {
    if rs == [] then (0, 0)
    else
      var m := AllMaxima(rs[..|rs| - 1]);
      match rs[|rs| - 1]
      case TaskEntry(t) => TaskStep(m, t)
      case DirEntry(d) => ChildMaxima(d.entries, (Max(m.0, d.id), m.1))
  }

  /** Every task id (records, directories, their tasks) is at most the first maximum, every
      operation id at most the second. */
  lemma {:induction false} AllMaximaBound(rs: seq<Entry>)
    ensures var r := AllMaxima(rs);
      (forall k :: 0 <= k < |rs| ==> EntryId(rs[k]) <= r.0)
      && (forall k, j :: 0 <= k < |rs| && rs[k].TaskEntry? && 0 <= j < |rs[k].task.operations| ==>
            rs[k].task.operations[j].id <= r.1)
      && (forall k, c :: 0 <= k < |rs| && rs[k].DirEntry? && 0 <= c < |rs[k].dir.entries| ==>
            rs[k].dir.entries[c].id <= r.0)
      && (forall k, c, j ::
            0 <= k < |rs| && rs[k].DirEntry? && 0 <= c < |rs[k].dir.entries| && 0 <= j < |rs[k].dir.entries[c].operations|
            ==> rs[k].dir.entries[c].operations[j].id <= r.1)
  {
    if rs != [] {
      var init := rs[..|rs| - 1];
      AllMaximaBound(init);
      var m := AllMaxima(init);
      assert forall k :: 0 <= k < |init| ==> rs[k] == init[k];
    }
  }

  /** The loop over one task's operations. */
  method MaxOverOperations(ops: seq<Operation>, m: int) returns (r: int)
    ensures r == MaxOpId(ops, m)
  {
    r := m;
    for j := 0 to |ops|
      invariant r == MaxOpId(ops[..j], m)
    {
      assert ops[..j + 1][..j] == ops[..j];
      r := Max(r, ops[j].id);
    }
    assert ops[..|ops|] == ops;
  }

  /** The loop over a directory's tasks. */
  method MaxOverChildren(cs: seq<Task>, m: (int, int)) returns (r: (int, int))
    ensures r == ChildMaxima(cs, m)
  {
    r := m;
    for c := 0 to |cs|
      invariant r == ChildMaxima(cs[..c], m)
    {
      assert cs[..c + 1][..c] == cs[..c];
      var child := cs[c];
      var maxOp := MaxOverOperations(child.operations, r.1);
      r := (Max(r.0, child.id), maxOp);
    }
    assert cs[..|cs|] == cs;
  }

  /** The loop of importDBData over the imported records, directories included. */
  method MaxOverRecords(rs: seq<Entry>) returns (maxTask: int, maxOp: int)
    ensures (maxTask, maxOp) == AllMaxima(rs)
  {
    maxTask, maxOp := 0, 0;
    for i := 0 to |rs|
      invariant (maxTask, maxOp) == AllMaxima(rs[..i])
    {
      assert rs[..i + 1][..i] == rs[..i];
      match rs[i]
      case TaskEntry(t) =>
        maxTask := Max(maxTask, t.id);
        maxOp := MaxOverOperations(t.operations, maxOp);
      case DirEntry(d) =>
        var m := MaxOverChildren(d.entries, (Max(maxTask, d.id), maxOp));
        maxTask, maxOp := m.0, m.1;
    }
    assert rs[..|rs|] == rs;
  }

  /** The counter repair of importDBData: each counter is raised to the largest id of its kind
      when it is below it, so that the next id it hands out is above every imported one. */
  method RestoreCounters(rs: seq<Entry>, taskCounter: Counter, opCounter: Counter)
    requires taskCounter != opCounter
    modifies taskCounter, opCounter
    ensures var m := AllMaxima(rs);
      taskCounter.value == Max(old(taskCounter.value), m.0) && opCounter.value == Max(old(opCounter.value), m.1)
  {
    var maxTask, maxOp := MaxOverRecords(rs);
    if taskCounter.value < maxTask {
      taskCounter.value := maxTask;
    }
    if opCounter.value < maxOp {
      opCounter.value := maxOp;
    }
  }

  /** After the repair, the ids the counters hand out next (`++counter`) are above every id of
      the imported records. */
  lemma RestoredIdsFresh(rs: seq<Entry>, taskNext: int, opNext: int)
    requires taskNext > AllMaxima(rs).0 && opNext > AllMaxima(rs).1
    ensures forall k :: 0 <= k < |rs| ==> EntryId(rs[k]) != taskNext
    ensures forall k, c :: 0 <= k < |rs| && rs[k].DirEntry? && 0 <= c < |rs[k].dir.entries| ==>
      rs[k].dir.entries[c].id != taskNext
    ensures forall k, j :: 0 <= k < |rs| && rs[k].TaskEntry? && 0 <= j < |rs[k].task.operations| ==>
      rs[k].task.operations[j].id != opNext
    ensures forall k, c, j ::
      0 <= k < |rs| && rs[k].DirEntry? && 0 <= c < |rs[k].dir.entries| && 0 <= j < |rs[k].dir.entries[c].operations|
      ==> rs[k].dir.entries[c].operations[j].id != opNext
  {
    AllMaximaBound(rs);
  }

  // ---------------------------------------------------------------------------
  // The split-channel check of checkFiles

  /** A directory the audio splitter produced. */
  predicate IsSplitDir(e: Entry) {
    e.DirEntry? && Contains(e.dir.path, "_dir")
  }

  /** The channel file the split prompt drops: with 'FIRST' a QUEUED task with an available
      first file whose full name contains '_2.', with 'SECOND' one whose contains '_1.'. */
  predicate DroppedChannel(t: Task, prompt: string)
    reads t, set f | f in t.files
    requires |t.files| > 0
  {
    (prompt == "FIRST" || prompt == "SECOND")
    && t.state == QUEUED && t.files[0].Available()
    && Contains(t.files[0].Fullname(), if prompt == "FIRST" then "_2." else "_1.")
  }

  /** Every task inside a directory has a first file. */
  predicate ChildrenHaveFiles(es: seq<Entry>)
    reads set e | e in es && e.DirEntry? :: e.dir
    reads set e, c | e in es && e.DirEntry? && c in e.dir.entries :: c
  {
    forall e, c :: e in es && e.DirEntry? && c in e.dir.entries ==> |c.files| > 0
  }

  /** The tasks of one directory checkFiles puts on its removal list, in order. */
  function DirRemovals(cs: seq<Task>, prompt: string): (r: seq<Task>)
    reads set c | c in cs, (set c, f | c in cs && f in c.files :: f)
    requires forall c :: 0 <= c < |cs| ==> |cs[c].files| > 0
    ensures forall t :: t in r ==> t in cs
  {
    if cs == [] then []
    else
      var last := cs[|cs| - 1];
      DirRemovals(cs[..|cs| - 1], prompt) + (if DroppedChannel(last, prompt) then [last] else [])
  }

  /** The cleanups checkFiles starts for one directory: one per task it keeps. */
  function DirCleanups(d: TaskDirectory, cs: seq<Task>, prompt: string): (r: seq<TaskDirectory>)
    reads set c | c in cs, (set c, f | c in cs && f in c.files :: f)
    requires forall c :: 0 <= c < |cs| ==> |cs[c].files| > 0
    ensures forall x :: x in r ==> x == d
  {
    if cs == [] then []
    else
      var last := cs[|cs| - 1];
      DirCleanups(d, cs[..|cs| - 1], prompt) + (if DroppedChannel(last, prompt) then [] else [d])
  }

  /** Each task of a directory is either removed or has its directory cleaned up. */
  lemma {:induction false} DirPartition(d: TaskDirectory, cs: seq<Task>, prompt: string)
    requires forall c :: 0 <= c < |cs| ==> |cs[c].files| > 0
    ensures |DirRemovals(cs, prompt)| + |DirCleanups(d, cs, prompt)| == |cs|
    ensures forall t :: t in DirRemovals(cs, prompt) ==> DroppedChannel(t, prompt)
  {
    if cs != [] {
      DirPartition(d, cs[..|cs| - 1], prompt);
    }
  }

  /** The removal list of checkFiles over the top-level entries, for a prompt other than 'BOTH'. */
  function SplitRemovals(es: seq<Entry>, prompt: string): seq<Task>
    reads set e | e in es && e.DirEntry? :: e.dir
    reads set e, c | e in es && e.DirEntry? && c in e.dir.entries :: c
    reads set e, c, f | e in es && e.DirEntry? && c in e.dir.entries && f in c.files :: f
    requires ChildrenHaveFiles(es)
  {
    if es == [] then []
    else
      var last := es[|es| - 1];
      SplitRemovals(es[..|es| - 1], prompt) + (if IsSplitDir(last) then DirRemovals(last.dir.entries, prompt) else [])
  }

  /** The cleanups checkFiles starts over the top-level entries, for a prompt other than 'BOTH'. */
  function SplitCleanups(es: seq<Entry>, prompt: string): seq<TaskDirectory>
    reads set e | e in es && e.DirEntry? :: e.dir
    reads set e, c | e in es && e.DirEntry? && c in e.dir.entries :: c
    reads set e, c, f | e in es && e.DirEntry? && c in e.dir.entries && f in c.files :: f
    requires ChildrenHaveFiles(es)
  {
    if es == [] then []
    else
      var last := es[|es| - 1];
      SplitCleanups(es[..|es| - 1], prompt) + (if IsSplitDir(last) then DirCleanups(last.dir, last.dir.entries, prompt) else [])
  }

  /** The scan of one split directory: a task of the dropped channel goes on the removal
      list, every other task asks for a cleanup of the directory. */
  method ScanSplitDir(dir: TaskDirectory, prompt: string) returns (removals: seq<Task>, cleanups: seq<TaskDirectory>)
    requires forall c :: 0 <= c < |dir.entries| ==> |dir.entries[c].files| > 0
    ensures removals == DirRemovals(dir.entries, prompt) && cleanups == DirCleanups(dir, dir.entries, prompt)
  {
    removals, cleanups := [], [];
    for c := 0 to |dir.entries|
      invariant removals == DirRemovals(dir.entries[..c], prompt)
      invariant cleanups == DirCleanups(dir, dir.entries[..c], prompt)
    {
      assert dir.entries[..c + 1][..c] == dir.entries[..c];
      var dirEntry := dir.entries[c];
      var nothingToDo := true;
      if prompt == "FIRST" {
        if dirEntry.state == QUEUED && dirEntry.files[0].Available() && IndexOf(dirEntry.files[0].Fullname(), "_2.") > -1 {
          removals := removals + [dirEntry];
          nothingToDo := false;
        }
      } else if prompt == "SECOND" {
        if dirEntry.state == QUEUED && dirEntry.files[0].Available() && IndexOf(dirEntry.files[0].Fullname(), "_1.") > -1 {
          removals := removals + [dirEntry];
          nothingToDo := false;
        }
      }
      if nothingToDo {
        cleanups := cleanups + [dir];
      }
    }
    assert dir.entries[..|dir.entries|] == dir.entries;
  }

  /** The scan of checkFiles: the tasks to remove and the directories to clean up (once for
      each task kept), or neither when both channels are wanted. */
  method CheckFilesScan(entries: seq<Entry>, prompt: string) returns (removeList: seq<Task>, cleanups: seq<TaskDirectory>)
    requires ChildrenHaveFiles(entries)
    ensures prompt == "BOTH" ==> removeList == [] && cleanups == []
    ensures prompt != "BOTH" ==> removeList == SplitRemovals(entries, prompt) && cleanups == SplitCleanups(entries, prompt)
  {
    removeList, cleanups := [], [];
    if prompt != "BOTH" {
      for i := 0 to |entries|
        invariant removeList == SplitRemovals(entries[..i], prompt)
        invariant cleanups == SplitCleanups(entries[..i], prompt)
      {
        removeList, cleanups := ScanEntry(entries, i, prompt, removeList, cleanups);
      }
      assert entries[..|entries|] == entries;
    }
  }

  /** One pass of the scan of checkFiles: a split directory at `i` adds its removals and
      cleanups to those of the entries before it. */
  method ScanEntry(entries: seq<Entry>, i: nat, prompt: string, removeList0: seq<Task>, cleanups0: seq<TaskDirectory>)
    returns (removeList: seq<Task>, cleanups: seq<TaskDirectory>)
    requires ChildrenHaveFiles(entries) && i < |entries|
    requires removeList0 == SplitRemovals(entries[..i], prompt) && cleanups0 == SplitCleanups(entries[..i], prompt)
    ensures removeList == SplitRemovals(entries[..i + 1], prompt) && cleanups == SplitCleanups(entries[..i + 1], prompt)
  {
    assert entries[..i + 1][..i] == entries[..i];
    removeList, cleanups := removeList0, cleanups0;
    var entry := entries[i];
    if entry.DirEntry? && IndexOf(entry.dir.path, "_dir") > -1 {
      assert entry in entries;
      var removals, dirCleanups := ScanSplitDir(entry.dir, prompt);
      removeList := removeList + removals;
      cleanups := cleanups + dirCleanups;
    }
  }

  // ---------------------------------------------------------------------------
  // The input filter of cleanUpInputArray

  /** The files the task service accepts: wav audio, and transcripts a converter reads
      (validTranscript). */
  predicate AcceptedInput(converters: seq<string>, extension: string) {
    extension == ".wav" || Converts(converters, extension)
  }

  /** cleanUpInputArray of this service: the filter with its acceptance rule, which the result
      meets everywhere (CleanUpIsClean) and by which it keeps every accepted file
      (CleanUpKeepsAccepted). */
  method CleanUpInput(entries: seq<InputEntry>, converters: seq<string>) returns (result: seq<InputEntry>)
    ensures result == CleanUp(entries, x => AcceptedInput(converters, x))
    ensures AllClean(result, x => AcceptedInput(converters, x))
    ensures Files(result) == Accepted(entries, x => AcceptedInput(converters, x))
  {
    result := CleanUpInputArray(entries, x => AcceptedInput(converters, x));
    CleanUpIsClean(entries, x => AcceptedInput(converters, x));
    CleanUpKeepsAccepted(entries, x => AcceptedInput(converters, x));
  }

  class TaskService {
    const taskList: TaskList
    var overallState: OverallState
    var statistics: Statistics
    /** The service's own `state`. */
    var state: TaskState

    constructor (taskList: TaskList)
      ensures this.taskList == taskList && overallState == NotStarted && statistics == Statistics(0, 0, 0, 0, 0)
      ensures state == READY
    {
      this.taskList := taskList;
      overallState := NotStarted;
      statistics := Statistics(0, 0, 0, 0, 0);
      state := READY;
    }

    /** The `stateLabel` getter. */
    function Label(): (r: Option<string>)
      reads this
      ensures r == StateLabel(overallState, statistics)
    {
      StateLabel(overallState, statistics)
    }

    /** One tick of start: while processing, the statistics are refreshed and the task to start
        is picked by PickTask; when there is one the service becomes READY unless it is
        PROCESSING. The timer that calls start again a second later is not part of this model. */
    method Start() returns (started: Task?)
      requires AllFormed(AllTasks(taskList.Snapshot()))
      modifies this
      ensures overallState == old(overallState)
      ensures old(overallState) != Processing ==>
        started == null && statistics == old(statistics) && state == old(state)
      ensures old(overallState) == Processing ==>
        state == (if started != null && old(state) != PROCESSING then READY else old(state))
      ensures old(overallState) == Processing ==>
        statistics == old(Tally(States(AllTasks(taskList.Snapshot()))))
        && (started != null ==>
              statistics.running < MaxRunningTasks
              && old(var tasks := AllTasks(taskList.Snapshot());
                     !AnyUploading(tasks) && exists i :: FirstRunnableAt(tasks, i) && tasks[i] == started))
    {
      started := null;
      if overallState == Processing {
        // updateStatistics, then start's own getAllTasks, which return the same list
        var tasks := AllTasks(taskList.Snapshot());
        var st, picked := Tick(tasks);
        started := picked;
        statistics := st;
        if started != null && state != PROCESSING {
          state := READY;
        }
      }
    }

    /** toggleProcessing: processing stops, or starts and runs a tick of start. Resuming and
        stopping the tasks themselves is not part of this model. */
    method ToggleProcessing() returns (started: Task?)
      requires AllFormed(AllTasks(taskList.Snapshot()))
      modifies this
      ensures overallState == Toggled(old(overallState))
      ensures overallState == Stopped ==> started == null && statistics == old(statistics) && state == old(state)
      ensures overallState == Processing ==>
        state == (if started != null && old(state) != PROCESSING then READY else old(state))
        && (started != null ==> statistics.running < MaxRunningTasks)
    {
      ghost var snap := taskList.Snapshot();
      overallState := Toggled(overallState);
      started := null;
      if overallState == Processing {
        assert AllFormed(AllTasks(taskList.Snapshot())) by {
          assert taskList.entries == old(taskList.entries);
          assert taskList.Snapshot() == snap;
        }
        started := Start();
      }
    }

    /** addEntry: the entry goes to the list, and a directory the list accepted is then cleaned
        up. Saving the counters afterwards is not part of this model. */
    method AddEntry(e: Entry, saveToDB: bool) returns (accepted: bool)
      modifies taskList, if e.DirEntry? then set c | c in e.dir.entries else {}
      ensures accepted <==> FirstTaskWithId(AllTasks(old(taskList.Snapshot())), EntryId(e)) == null
      ensures !accepted ==> taskList.entries == old(taskList.entries) && taskList.events == old(taskList.events)
      ensures accepted && e.TaskEntry? ==>
        taskList.entries == old(taskList.entries) + [e]
        && taskList.events == old(taskList.events) + [EntryChangeEvent(Added, saveToDB, e)]
      ensures accepted && e.DirEntry? ==>
        taskList.CleanupOutcome(old(taskList.entries) + [e], old(taskList.events) + [EntryChangeEvent(Added, saveToDB, e)],
                                e.dir, old(e.dir.entries), saveToDB)
    {
      accepted := taskList.AddEntry(e, saveToDB);
      if accepted {
        taskList.Cleanup(Some(e), saveToDB);
      }
    }

    /** The task branch of itemProcessed: the late-transcript merge, and the new task registered
        (with saving) when no partner was found. */
    method ItemProcessedTask(result: Task) returns (found: Task?, merged: bool)
      requires Formed(result) && AllFormed(AllTasks(taskList.Snapshot()))
      requires result !in AllTasks(taskList.Snapshot())
      modifies taskList, result
      modifies set t | t in AllTasks(taskList.Snapshot())
      modifies set t, o | t in AllTasks(taskList.Snapshot()) && o in t.operations :: o
      modifies set t, o | t in AllTasks(taskList.Snapshot()) && o in t.operations :: o.task
      ensures result.state == QUEUED && result.files == old(result.files)
      ensures found == old(Partner(AllTasks(taskList.Snapshot()), result.files[0].name))
      ensures found != null ==>
        (merged <==> !old(BothWav(found.files[0], result.files[0])))
        && found.files == old(found.files) + (if merged then [result.files[0]] else [])
        && found.state == old(found.state) && found.operations == old(found.operations)
        && taskList.entries == old(taskList.entries) && taskList.events == old(taskList.events)
      ensures merged ==> found != null && !found.operations[1].enabled && found.operations[1].state == SKIPPED
      ensures found == null ==>
        !merged
        && taskList.entries == old(taskList.entries) + (if FirstTaskWithId(old(AllTasks(taskList.Snapshot())), result.id) == null then [TaskEntry(result)] else [])
    {
      found, merged := MergeListed(result);
      if found == null {
        var accepted := AddEntry(TaskEntry(result), true);
      }
    }

    /** The lookup and merge of the task branch of itemProcessed over the tasks the list
        holds; the list itself is left as it was. */
    method MergeListed(result: Task) returns (found: Task?, merged: bool)
      requires Formed(result) && AllFormed(AllTasks(taskList.Snapshot()))
      requires result !in AllTasks(taskList.Snapshot())
      modifies result
      modifies set t | t in AllTasks(taskList.Snapshot())
      modifies set t, o | t in AllTasks(taskList.Snapshot()) && o in t.operations :: o
      modifies set t, o | t in AllTasks(taskList.Snapshot()) && o in t.operations :: o.task
      ensures result.state == QUEUED && result.files == old(result.files)
      ensures found == old(Partner(AllTasks(taskList.Snapshot()), result.files[0].name))
      ensures found == null ==> !merged
      ensures found != null ==>
        (merged <==> !old(BothWav(found.files[0], result.files[0])))
        && found.files == old(found.files) + (if merged then [result.files[0]] else [])
        && found.state == old(found.state) && found.operations == old(found.operations)
      ensures merged ==> found != null && !found.operations[1].enabled && found.operations[1].state == SKIPPED
      ensures taskList.Snapshot() == old(taskList.Snapshot())
    {
      ghost var snap := taskList.Snapshot();
      taskList.TasksAllocated();
      var tasks := taskList.GetAllTasks();
      assert tasks == AllTasks(snap) && AllFormed(tasks) && result !in tasks by {
        assert taskList.entries == old(taskList.entries);
        assert taskList.Snapshot() == snap;
      }
      found, merged := MergeLateTranscript(tasks, result);
      assert unchanged(taskList);
      assert forall d :: d in DirsOf(taskList.entries) ==> unchanged(d);
      assert taskList.Snapshot() == snap;
    }

    /** updateStatistics */
    method UpdateStatistics()
      modifies this
      ensures statistics == old(Tally(States(AllTasks(taskList.Snapshot()))))
      ensures overallState == old(overallState) && state == old(state)
    {
      var tasks := taskList.GetAllTasks();
      assert taskList.entries == old(taskList.entries);
      assert taskList.Snapshot() == old(taskList.Snapshot());
      assert tasks == old(AllTasks(taskList.Snapshot()));
      var st := CountStates(tasks);
      assert States(tasks) == old(States(tasks));
      statistics := st;
    }
  }
}
