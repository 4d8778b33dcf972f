/** The proceedings table: the task rows, their selection, deleting the selected rows,
    switching a pipeline step on and off for all tasks, and the small decisions behind the
    popover and the mail link (src/app/components/proceedings/proceedings.component.ts). */
module ProceedingsTable {
  import opened Wrappers
  import opened TaskStates
  import opened FileInfos
  import opened Tasks
  import opened EnableFlags
  import opened Uri
  import Strings

  // ---------------------------------------------------------------------------
  // The selection

  /** `indexOf`: the first position of x, or -1. */
  function IndexOf(s: seq<int>, x: int): (r: int)
    ensures -1 <= r < |s|
    ensures r >= 0 ==> s[r] == x && forall k :: 0 <= k < r ==> s[k] != x
    ensures r == -1 <==> x !in s
  {
    if s == [] then -1
    else if s[0] == x then 0
    else
      var r := IndexOf(s[1..], x);
      assert forall k :: 1 <= k < |s| ==> s[k] == s[1..][k - 1];
      if r < 0 then -1 else r + 1
  }

  /** The selection after a click on a row: the id leaves it (its first occurrence) when it is
      there, and is appended otherwise. */
  function Toggled(sel: seq<int>, id: int): (r: seq<int>)
    ensures id in sel ==> multiset(r) == multiset(sel) - multiset{id}
    ensures id !in sel ==> multiset(r) == multiset(sel) + multiset{id} && r[|r| - 1] == id
  {
    var i := IndexOf(sel, id);
    if i > -1 then
      assert sel == sel[..i] + [id] + sel[i + 1..];
      sel[..i] + sel[i + 1..]
    else sel + [id]
  }

  predicate NoDuplicates(s: seq<int>) {
    forall i, j :: 0 <= i < j < |s| ==> s[i] != s[j]
  }

  /** On a selection without duplicates a click flips the membership of its id and of no other,
      and keeps the selection free of duplicates. */
  lemma ToggleFlips(sel: seq<int>, id: int)
    requires NoDuplicates(sel)
    ensures id in Toggled(sel, id) <==> id !in sel
    ensures forall x :: x != id ==> (x in Toggled(sel, id) <==> x in sel)
    ensures NoDuplicates(Toggled(sel, id))
  {
    var i := IndexOf(sel, id);
    if i > -1 {
      var r := sel[..i] + sel[i + 1..];
      assert forall k :: 0 <= k < |r| ==> r[k] == if k < i then sel[k] else sel[k + 1];
      forall x | x in sel && x != id
        ensures x in r
      {
        var k :| 0 <= k < |sel| && sel[k] == x;
        assert r[if k < i then k else k - 1] == x;
      }
    }
  }

  /** Two clicks on a row not selected leave the selection as it was. */
  lemma ToggleTwice(sel: seq<int>, id: int)
    requires id !in sel
    ensures Toggled(Toggled(sel, id), id) == sel
  {
    var once := sel + [id];
    assert IndexOf(once, id) == |sel| by {
      assert once[|sel|] == id;
      assert forall k :: 0 <= k < |sel| ==> once[k] == sel[k];
    }
    assert once[..|sel|] == sel;
  }

  // ---------------------------------------------------------------------------
  // Deleting the selected tasks

  /** `tasks.findIndex(a => a.id === id)` */
  function FindTask(ts: seq<Task>, id: int): (r: int)
    ensures -1 <= r < |ts|
    ensures r >= 0 ==> ts[r].id == id && forall k :: 0 <= k < r ==> ts[k].id != id
    ensures r == -1 <==> forall k :: 0 <= k < |ts| ==> ts[k].id != id
  {
    if ts == [] then -1
    else if ts[0].id == id then 0
    else
      var r := FindTask(ts[1..], id);
      assert forall k :: 1 <= k < |ts| ==> ts[k] == ts[1..][k - 1];
      if r < 0 then -1 else r + 1
  }

  /** `splice(i, 1)` as JavaScript performs it: a negative start counts from the end and is
      clamped at 0, and a start at or past the end removes nothing. */
  function SpliceOne(ts: seq<Task>, i: int): (r: seq<Task>)
    ensures 0 <= i < |ts| ==> r == ts[..i] + ts[i + 1..]
    ensures i < 0 && 0 <= |ts| + i ==> r == ts[..|ts| + i] + ts[|ts| + i + 1..]
    ensures i < 0 && |ts| + i < 0 ==> r == if ts == [] then [] else ts[1..]
    ensures i >= |ts| ==> r == ts
  {
    var start := if i < 0 then (if |ts| + i < 0 then 0 else |ts| + i) else i;
    if start < |ts| then ts[..start] + ts[start + 1..] else ts
  }

  /** One step of onDeleteTasks as written: the task with the id is spliced out by its index,
      which is -1 when no task has the id. */
  function DeleteAsWritten(ts: seq<Task>, id: int): (r: seq<Task>)
    ensures |r| == if ts == [] then 0 else |ts| - 1
  {
    SpliceOne(ts, FindTask(ts, id))
  }

  /** The tasks left after deleting the given ids one after the other, as written. */
  function DeleteAllAsWritten(ts: seq<Task>, ids: seq<int>): seq<Task>
    decreases |ids|
  {
    if ids == [] then ts else DeleteAllAsWritten(DeleteAsWritten(ts, ids[0]), ids[1..])
  }

  /** An id that no task has makes the step remove the LAST task. */
  lemma AbsentIdDeletesLast(ts: seq<Task>, id: int)
    requires ts != [] && forall k :: 0 <= k < |ts| ==> ts[k].id != id
    ensures DeleteAsWritten(ts, id) == ts[..|ts| - 1]
  {
  }

  /** The evidently intended step: the first task with the id goes, and nothing when there is
      none. */
  function DeletePresent(ts: seq<Task>, id: int): (r: seq<Task>)
    ensures FindTask(ts, id) == -1 ==> r == ts
  {
    var i := FindTask(ts, id);
    if i >= 0 then ts[..i] + ts[i + 1..] else ts
  }

  function DeleteAllPresent(ts: seq<Task>, ids: seq<int>): seq<Task>
    decreases |ids|
  {
    if ids == [] then ts else DeleteAllPresent(DeletePresent(ts, ids[0]), ids[1..])
  }

  /** Task ids are distinct. */
  predicate UniqueTaskIds(ts: seq<Task>) {
    forall i, j :: 0 <= i < j < |ts| ==> ts[i].id != ts[j].id
  }

  /** The positions of a list with one element cut out. */
  lemma CutPositions(ts: seq<Task>, i: nat)
    requires i < |ts|
    ensures var r := ts[..i] + ts[i + 1..];
      |r| == |ts| - 1 && forall k :: 0 <= k < |r| ==> r[k] == if k < i then ts[k] else ts[k + 1]
  {
  }

  /** Cutting one task out keeps the ids distinct. */
  lemma CutUnique(ts: seq<Task>, i: nat)
    requires i < |ts| && UniqueTaskIds(ts)
    ensures UniqueTaskIds(ts[..i] + ts[i + 1..])
  {
    var r := ts[..i] + ts[i + 1..];
    CutPositions(ts, i);
    forall a, b | 0 <= a < b < |r|
      ensures r[a].id != r[b].id
    {
      var a', b' := if a < i then a else a + 1, if b < i then b else b + 1;
      assert r[a] == ts[a'] && r[b] == ts[b'] && a' < b';
    }
  }

  /** With distinct ids, cutting out task i leaves exactly the tasks with another id. */
  lemma CutMembers(ts: seq<Task>, i: nat)
    requires i < |ts| && UniqueTaskIds(ts)
    ensures forall t :: t in ts[..i] + ts[i + 1..] <==> t in ts && t.id != ts[i].id
  {
    var r := ts[..i] + ts[i + 1..];
    CutPositions(ts, i);
    forall t | t in r
      ensures t in ts && t.id != ts[i].id
    {
      var k :| 0 <= k < |r| && r[k] == t;
      var k' := if k < i then k else k + 1;
      assert ts[k'] == t && k' != i;
    }
    forall t | t in ts && t.id != ts[i].id
      ensures t in r
    {
      var k :| 0 <= k < |ts| && ts[k] == t;
      assert r[if k < i then k else k - 1] == t;
    }
  }

  /** With distinct task ids, the intended step removes exactly the task with the id. */
  lemma DeletePresentRemoves(ts: seq<Task>, id: int)
    requires UniqueTaskIds(ts)
    ensures UniqueTaskIds(DeletePresent(ts, id))
    ensures forall t :: t in DeletePresent(ts, id) <==> t in ts && t.id != id
  {
    var i := FindTask(ts, id);
    if i >= 0 {
      CutUnique(ts, i);
      CutMembers(ts, i);
    }
  }

  /** With distinct task ids, deleting a list of ids keeps exactly the tasks whose id is not
      in the list. */
  lemma {:induction false} DeleteAllPresentFilters(ts: seq<Task>, ids: seq<int>)
    requires UniqueTaskIds(ts)
    ensures forall t :: t in DeleteAllPresent(ts, ids) <==> t in ts && t.id !in ids
    decreases |ids|
  {
    if ids != [] {
      DeletePresentRemoves(ts, ids[0]);
      DeleteAllPresentFilters(DeletePresent(ts, ids[0]), ids[1..]);
      assert forall x :: x in ids <==> x == ids[0] || x in ids[1..];
    }
  }

  /** On ids that are all present, the step as written and the intended one agree. */
  lemma PresentAgrees(ts: seq<Task>, id: int)
    requires exists k :: 0 <= k < |ts| && ts[k].id == id
    ensures DeleteAsWritten(ts, id) == DeletePresent(ts, id)
  {
  }

  /** A selection built by clicks has no duplicates; when its ids all name tasks, which have
      distinct ids, the loop as written deletes exactly what the intended one does. */
  lemma {:induction false} AsWrittenAgreesWhenPresent(ts: seq<Task>, ids: seq<int>)
    requires UniqueTaskIds(ts) && NoDuplicates(ids)
    requires forall x :: x in ids ==> exists k :: 0 <= k < |ts| && ts[k].id == x
    ensures DeleteAllAsWritten(ts, ids) == DeleteAllPresent(ts, ids)
    decreases |ids|
  {
    if ids != [] {
      assert ids[0] in ids;
      PresentAgrees(ts, ids[0]);
      var rest := DeletePresent(ts, ids[0]);
      DeletePresentRemoves(ts, ids[0]);
      forall x | x in ids[1..]
        ensures exists k :: 0 <= k < |rest| && rest[k].id == x
      {
        var j :| 0 <= j < |ids[1..]| && ids[1..][j] == x;
        assert ids[j + 1] == x && x != ids[0] && x in ids;
        var k :| 0 <= k < |ts| && ts[k].id == x;
        assert ts[k] in rest;
        var k' :| 0 <= k' < |rest| && rest[k'] == ts[k];
      }
      AsWrittenAgreesWhenPresent(rest, ids[1..]);
    }
  }

  // ---------------------------------------------------------------------------
  // Popover colour and mail link

  /** `getPopoverColor` */
  function PopoverColor(op: Operation?): (c: string)
    reads op
    ensures c == "red" <==> op != null && op.state == ERROR
    ensures c == "yellow" <==> op != null && op.state == FINISHED && op.protocol != ""
    ensures c != "red" && c != "yellow" ==> c == "#3a70dd"
  {
    if op != null && op.state == ERROR then "red"
    else if op != null && op.state == FINISHED && op.protocol != "" then "yellow"
    else "#3a70dd"
  }

  /** What a JavaScript string concatenation shows for a url that may be undefined. */
  function Shown(u: Option<string>): string {
    if u.Some? then u.value else "undefined"
  }

  /** What getMailToLink reads of a FINISHED task: the first results of operations 1 and 3. */
  predicate MailReady(t: Task)
    reads t, OpsOf(t)
  {
    |t.operations| >= 5 && |t.operations[1].results| >= 1 && |t.operations[3].results| >= 1
  }

  /** The two result files getMailToLink reads. */
  function MailFiles(t: Task): set<FileInfo>
    reads t, OpsOf(t)
  {
    if MailReady(t) then {t.operations[1].results[0], t.operations[3].results[0]} else {}
  }

  /** The mail body: the pipeline result, the MAUS result and the Emu WebApp link. */
  function MailBody(t: Task, toolUrl: string): (r: string)
    reads t, OpsOf(t), MailFiles(t)
    requires MailReady(t)
    ensures Strings.IsPrefix("Pipeline ASR->G2P->CHUNKER:\n", r)
    ensures |r| >= |toolUrl| && r[|r| - |toolUrl|..] == toolUrl
  {
    var results := Shown(t.operations[1].results[0].url) + "\n\n"
      + "MAUS:\n" + Shown(t.operations[3].results[0].url) + "\n\n" + "EMU WebApp:\n";
    Strings.Framed("Pipeline ASR->G2P->CHUNKER:\n", results, toolUrl);
    "Pipeline ASR->G2P->CHUNKER:\n" + results + toolUrl
  }

  const MailPrefix: string := "mailto:?subject=" + EncodeURI("OH-Portal Links") + "&body="

  /** `getMailToLink`: empty unless the task is FINISHED; the Emu WebApp link comes from an
      operation that is not part of this model and is given. */
  function MailToLink(t: Task, toolUrl: string): (r: string)
    reads t, OpsOf(t), MailFiles(t)
    requires t.state == FINISHED ==> MailReady(t)
    ensures t.state != FINISHED <==> r == ""
  {
    if t.state == FINISHED then MailPrefix + EncodeURIComponent(MailBody(t, toolUrl)) else ""
  }

  /** The link of a FINISHED task carries the body: the text after the prefix decodes to it. */
  lemma MailLinkCarriesBody(t: Task, toolUrl: string)
    requires t.state == FINISHED && MailReady(t)
    ensures |MailPrefix| <= |MailToLink(t, toolUrl)|
    ensures MailToLink(t, toolUrl)[..|MailPrefix|] == MailPrefix
    ensures Decode(MailToLink(t, toolUrl)[|MailPrefix|..]) == Some(MailBody(t, toolUrl))
  {
    var body := MailBody(t, toolUrl);
    DecodeEncode(Component, body);
    assert MailToLink(t, toolUrl)[|MailPrefix|..] == EncodeURIComponent(body);
  }

  // ---------------------------------------------------------------------------
  // The component

  class Proceedings {
    /** The `tasks` input, which onDeleteTasks splices. */
    var tasks: seq<Task>
    /** `selected_tasks` */
    var selectedTasks: seq<int>
    /** What the `operationclick` emitter has emitted. */
    var clicked: seq<Operation>
    var contextMenuHidden: bool

    constructor (tasks: seq<Task>)
      ensures this.tasks == tasks && selectedTasks == [] && clicked == [] && contextMenuHidden
    {
      this.tasks := tasks;
      selectedTasks := [];
      clicked := [];
      contextMenuHidden := true;
    }

    /** `isTaskSelected` */
    function IsTaskSelected(id: int): (r: bool)
      reads this
      ensures r <==> id in selectedTasks
    {
      IndexOf(selectedTasks, id) > -1
    }

    /** `onRowSelected`: a click on a row toggles its task in the selection, except on a tool
        operation; the operation is emitted either way. */
    method OnRowSelected(taskId: int, op: Operation)
      modifies this
      ensures selectedTasks == if IsTool(op.kind) then old(selectedTasks) else Toggled(old(selectedTasks), taskId)
      ensures NoDuplicates(old(selectedTasks)) && !IsTool(op.kind) ==>
        (IsTaskSelected(taskId) <==> !old(IsTaskSelected(taskId))) && NoDuplicates(selectedTasks)
      ensures clicked == old(clicked) + [op]
      ensures tasks == old(tasks) && contextMenuHidden == old(contextMenuHidden)
    {
      if !IsTool(op.kind) {
        ghost var sel := selectedTasks;
        var search := IndexOf(selectedTasks, taskId);
        if search > -1 {
          selectedTasks := selectedTasks[..search] + selectedTasks[search + 1..];
        } else {
          selectedTasks := selectedTasks + [taskId];
        }
        assert selectedTasks == Toggled(sel, taskId);
        if NoDuplicates(sel) {
          ToggleFlips(sel, taskId);
        }
      }
      clicked := clicked + [op];
    }

    /** `onDeleteTasks`: the selected ids are taken in order, each task found by id is spliced
        out, and the selection ends empty. The loop's `i--` undoes its `i++`, so it always
        works on the head of the selection. */
    method OnDeleteTasks()
      modifies this
      ensures tasks == DeleteAllAsWritten(old(tasks), old(selectedTasks))
      ensures selectedTasks == [] && contextMenuHidden
      ensures clicked == old(clicked)
    {
      var i := 0;
      while i < |selectedTasks|
        invariant i == 0
        invariant DeleteAllAsWritten(tasks, selectedTasks) == DeleteAllAsWritten(old(tasks), old(selectedTasks))
        invariant clicked == old(clicked)
        decreases |selectedTasks|
      {
        var taskIndex := FindTask(tasks, selectedTasks[i]);
        ghost var before := tasks;
        tasks := SpliceOne(tasks, taskIndex);
        assert tasks == DeleteAsWritten(before, selectedTasks[0]);
        assert DeleteAllAsWritten(before, selectedTasks) == DeleteAllAsWritten(tasks, selectedTasks[1..]);
        assert selectedTasks[..i] + selectedTasks[i + 1..] == selectedTasks[1..];
        selectedTasks := selectedTasks[..i] + selectedTasks[i + 1..];
      }
      contextMenuHidden := true;
    }

    /** `deactivateOperation`: the template flips and every task whose operation at `index`
        is PENDING takes the new flag there. */
    method DeactivateOperation(operation: Operation, index: nat)
      requires Reach(tasks, index)
      modifies operation, OpsAt(tasks, index)
      ensures operation.enabled == !old(operation.enabled)
      ensures forall t :: t in tasks && t.operations[index] != operation ==>
        t.operations[index].enabled
        == Copied(old(t.operations[index].state), old(t.operations[index].enabled), operation.enabled)
      ensures forall t :: t in tasks ==> t.operations[index].state == old(t.operations[index].state)
    {
      operation.enabled := !operation.enabled;
      CopyFlag(tasks, index, operation.enabled);
    }
  }
}
