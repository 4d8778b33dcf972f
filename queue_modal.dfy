/** The queue modal: it shows the QUEUED tasks before they are submitted, lets the user switch
    steps of the pipeline on and off for all of them, and sets their language
    (src/app/modals/queue-modal/queue-modal.component.ts). */
module QueueModals {
  import opened Wrappers
  import opened TaskStates
  import opened FileInfos
  import opened Tasks
  import opened EnableFlags

  /** The tasks the modal works on whose state is QUEUED, in order (`tasks.filter`). */
  function Queued(ts: seq<Task>): (r: seq<Task>)
    reads set t | t in ts
    ensures |r| <= |ts|
    ensures forall i :: 0 <= i < |r| ==> r[i] in ts && r[i].state == QUEUED
    ensures forall i :: 0 <= i < |ts| && ts[i].state == QUEUED ==> ts[i] in r
  {
    if ts == [] then []
    else Queued(ts[..|ts| - 1]) + (if ts[|ts| - 1].state == QUEUED then [ts[|ts| - 1]] else [])
  }

  /** Every operation of the task belongs to it, under distinct ids. */
  predicate Owns(t: Task)
    reads t
  {
    (forall k :: 0 <= k < |t.operations| ==> t.operations[k].task == t) && UniqueIds(t.operations)
  }

  /** The operations of the tasks. */
  function TaskOps(ts: seq<Task>): set<Operation>
    reads set t | t in ts
  {
    set t, o | t in ts && o in t.operations :: o
  }

  /** The operations at one index of some of the tasks are operations of the tasks. */
  lemma OpsAtWithin(ts: seq<Task>, sub: seq<Task>, j: nat)
    requires Reach(sub, j) && forall i :: 0 <= i < |sub| ==> sub[i] in ts
    ensures OpsAt(sub, j) <= TaskOps(ts)
  {
    forall o | o in OpsAt(sub, j)
      ensures o in TaskOps(ts)
    {
      var t :| t in sub && t.operations[j] == o;
      assert t in ts && o in t.operations;
    }
  }

  /** `orangeCount` marks a QUEUED task whose first file, or second file when there is one,
      has no content yet. */
  predicate Orange(t: Task)
    reads t, (set f | f in t.files)
  {
    t.state == QUEUED && |t.files| >= 1
    && (t.files[0].file.None? || (|t.files| > 1 && t.files[1].file.None?))
  }

  /** The files of the tasks, for frames. */
  function FilesOf(ts: seq<Task>): set<FileInfo>
    reads set t | t in ts
  {
    set t, f | t in ts && f in t.files :: f
  }

  /** The number of tasks `orangeCount` counts. */
  function OrangeCount(ts: seq<Task>): (n: nat)
    reads (set t | t in ts), FilesOf(ts)
    ensures n <= |Queued(ts)|
    ensures n == 0 <==> forall t :: t in ts ==> !Orange(t)
  {
    if ts == [] then 0
    else
      var init := ts[..|ts| - 1];
      assert forall t :: t in init ==> t in ts;
      OrangeCount(init) + (if Orange(ts[|ts| - 1]) then 1 else 0)
  }

  /** When every QUEUED task is orange, all of them are counted. */
  lemma {:induction false} AllOrange(ts: seq<Task>)
    requires forall t :: t in ts && t.state == QUEUED ==> Orange(t)
    ensures OrangeCount(ts) == |Queued(ts)|
  {
    if ts != [] {
      AllOrange(ts[..|ts| - 1]);
    }
  }

  /** `getShortCode`: the last two characters of a language code; a shorter code is returned
      whole, since `substring` clamps a negative start to 0. */
  function ShortCode(code: string): (r: string)
    ensures |code| >= 2 ==> |r| == 2 && code == code[..|code| - 2] + r
    ensures |code| < 2 ==> r == code
  {
    if |code| >= 2 then code[|code| - 2..] else code
  }

  class QueueModal {
    /** The `tasks` input. */
    const tasks: seq<Task>
    /** The `operations` input: the service's template operations, which belong to no task. */
    const operations: seq<Operation>
    /** `taskService.selectedlanguage.code` */
    var selectedLanguage: string
    /** What `storage.saveTask` was given, in order. */
    var savedTasks: seq<Task>
    /** What `storage.saveUserSettings('defaultTaskOptions', …)` was given, in order. */
    var savedLanguages: seq<string>
    var dismissed: bool

    constructor (tasks: seq<Task>, operations: seq<Operation>, selectedLanguage: string)
      ensures this.tasks == tasks && this.operations == operations && this.selectedLanguage == selectedLanguage
      ensures savedTasks == [] && savedLanguages == [] && !dismissed
    {
      this.tasks := tasks;
      this.operations := operations;
      this.selectedLanguage := selectedLanguage;
      savedTasks := [];
      savedLanguages := [];
      dismissed := false;
    }

    /** The wiring the modal relies on: the templates belong to no task and have distinct ids,
        every task owns its operations, and a QUEUED task has an operation for every template. */
    predicate Wired()
      reads set t | t in tasks
    {
      (forall j :: 0 <= j < |operations| ==> operations[j].task == null)
      && UniqueIds(operations)
      && forall t :: t in tasks ==> Owns(t) && (t.state == QUEUED ==> |operations| <= |t.operations|)
    }

    /** `onSubmit`: every task whose first file has content becomes PENDING; the others keep
        their state. The QUEUED tasks left behind are all orange. */
    method OnSubmit()
      requires forall t :: t in tasks ==> |t.files| >= 1
      modifies this, set t | t in tasks
      ensures forall t :: t in tasks ==>
        t.state == (if old(t.files[0].file).Some? then PENDING else old(t.state))
      ensures forall t :: t in tasks ==> t.files == old(t.files)
      ensures dismissed && selectedLanguage == old(selectedLanguage)
      ensures savedTasks == old(savedTasks) && savedLanguages == old(savedLanguages)
      ensures OrangeCount(tasks) == |Queued(tasks)|
    {
      for i := 0 to |tasks|
        invariant forall t :: t in tasks ==> t.files == old(t.files)
        invariant forall t :: t in tasks ==>
          t.state == old(t.state) || (old(t.files[0].file).Some? && t.state == PENDING)
        invariant forall k :: 0 <= k < i ==>
          tasks[k].state == (if old(tasks[k].files[0].file).Some? then PENDING else old(tasks[k].state))
        invariant savedTasks == old(savedTasks) && savedLanguages == old(savedLanguages)
        invariant selectedLanguage == old(selectedLanguage)
      {
        var task := tasks[i];
        if task.files[0].file.Some? {
          task.ChangeState(PENDING);
        }
      }
      assert forall t :: t in tasks ==> exists k :: 0 <= k < |tasks| && tasks[k] == t;
      dismissed := true;
      AllOrange(tasks);
    }

    /** `changeLanguageforAllQueuedTasks`: the QUEUED tasks, and only they, get the selected
        language and are saved, in order; then the language is saved as the default. */
    method ChangeLanguageForAllQueuedTasks()
      modifies this, set t | t in tasks
      ensures forall t :: t in tasks ==>
        t.language == (if old(t.state) == QUEUED then old(selectedLanguage) else old(t.language))
      ensures forall t :: t in tasks ==> t.state == old(t.state) && t.files == old(t.files)
      ensures savedTasks == old(savedTasks) + old(Queued(tasks))
      ensures savedLanguages == old(savedLanguages) + [old(selectedLanguage)]
      ensures selectedLanguage == old(selectedLanguage) && dismissed == old(dismissed)
    {
      var queued := Queued(tasks);
      SetLanguages(queued);
      savedLanguages := savedLanguages + [selectedLanguage];
    }

    /** The loop of changeLanguageforAllQueuedTasks over the tasks the filter kept: each one,
        still QUEUED when its turn comes, gets the selected language and is saved, in order. */
    method SetLanguages(queued: seq<Task>)
      requires forall k :: 0 <= k < |queued| ==> queued[k].state == QUEUED
      modifies this, set t | t in queued
      ensures forall t :: t in queued ==> t.language == selectedLanguage
      ensures forall t :: t in queued ==> t.state == old(t.state) && t.files == old(t.files)
      ensures savedTasks == old(savedTasks) + queued
      ensures savedLanguages == old(savedLanguages) && selectedLanguage == old(selectedLanguage)
      ensures dismissed == old(dismissed)
    {
      for i := 0 to |queued|
        invariant forall t :: t in queued ==> t.state == old(t.state) && t.files == old(t.files)
        invariant forall k :: 0 <= k < i ==> queued[k].language == selectedLanguage
        invariant savedTasks == old(savedTasks) + queued[..i]
        invariant savedLanguages == old(savedLanguages) && selectedLanguage == old(selectedLanguage)
        invariant dismissed == old(dismissed)
      {
        var task := queued[i];
        if task.state == QUEUED {
          task.language := selectedLanguage;
          savedTasks := savedTasks + [task];
        }
        assert queued[..i + 1] == queued[..i] + [task];
      }
      assert queued[..|queued|] == queued;
    }

    /** `onASRLangCHanged`: a different language becomes the selected one and goes to the
        QUEUED tasks; the same language changes nothing. */
    method OnAsrLanguageChanged(code: string)
      modifies this, set t | t in tasks
      ensures code == old(selectedLanguage) ==>
        savedTasks == old(savedTasks) && savedLanguages == old(savedLanguages)
        && forall t :: t in tasks ==> t.language == old(t.language)
      ensures code != old(selectedLanguage) ==>
        selectedLanguage == code && savedLanguages == old(savedLanguages) + [code]
        && forall t :: t in tasks ==> t.language == (if old(t.state) == QUEUED then code else old(t.language))
      ensures selectedLanguage == code
    {
      if code != selectedLanguage {
        selectedLanguage := code;
        ChangeLanguageForAllQueuedTasks();
      }
    }

    /** `updateEnableState`: for every template, its flag goes to the operation at the same
        index of each QUEUED task that has not started it; nothing else changes. */
    method UpdateEnableState()
      requires Wired()
      modifies TaskOps(tasks)
      ensures forall t, k :: t in tasks && 0 <= k < |t.operations| ==>
        t.operations[k].state == old(t.operations[k].state)
      ensures forall t, k :: t in tasks && t.state == QUEUED && 0 <= k < |operations| ==>
        t.operations[k].enabled
        == Copied(old(t.operations[k].state), old(t.operations[k].enabled), operations[k].enabled)
      ensures forall t, k :: t in tasks && 0 <= k < |t.operations| && !(t.state == QUEUED && k < |operations|) ==>
        t.operations[k].enabled == old(t.operations[k].enabled)
    {
      var queued := Queued(tasks);
      for j := 0 to |operations|
        invariant forall t, k :: t in tasks && 0 <= k < |t.operations| ==>
          t.operations[k].state == old(t.operations[k].state)
        invariant forall t, k :: t in tasks && t.state == QUEUED && 0 <= k < j ==>
          t.operations[k].enabled
          == Copied(old(t.operations[k].state), old(t.operations[k].enabled), operations[k].enabled)
        invariant forall t, k :: t in tasks && 0 <= k < |t.operations| && !(t.state == QUEUED && k < j) ==>
          t.operations[k].enabled == old(t.operations[k].enabled)
      {
        OpsAtWithin(tasks, queued, j);
        label Before:
        CopyFlagOwned(queued, j, operations[j].enabled);
        forall t, k | t in tasks && t.state == QUEUED && 0 <= k < j + 1
          ensures t.operations[k].enabled
            == Copied(old(t.operations[k].state), old(t.operations[k].enabled), operations[k].enabled)
        {
          if k == j {
            assert old@Before(t.operations[k].enabled) == old(t.operations[k].enabled);
          } else {
            assert t.operations[k].enabled == old@Before(t.operations[k].enabled);
          }
        }
      }
    }

    /** CopyFlag at one index of the QUEUED tasks of a wired modal, stated for every operation
        of every task. */
    method CopyFlagOwned(queued: seq<Task>, j: nat, flag: bool)
      requires Wired() && queued == Queued(tasks) && j < |operations|
      modifies OpsAt(queued, j)
      ensures forall t, k :: t in tasks && 0 <= k < |t.operations| ==>
        t.operations[k].state == old(t.operations[k].state)
      ensures forall t :: t in tasks && t.state == QUEUED && old(t.operations[j].state) == PENDING ==>
        t.operations[j].enabled == flag
      ensures forall t, k :: t in tasks && 0 <= k < |t.operations| && old(t.operations[k].state) != PENDING ==>
        t.operations[k].enabled == old(t.operations[k].enabled)
      ensures forall t, k :: t in tasks && 0 <= k < |t.operations| && !(t.state == QUEUED && k == j) ==>
        t.operations[k].enabled == old(t.operations[k].enabled)
      ensures forall i :: 0 <= i < |operations| ==> operations[i].enabled == old(operations[i].enabled)
      ensures forall t :: t in tasks ==> t.state == old(t.state) && t.operations == old(t.operations)
    {
      CopyFlag(queued, j, flag);
    }

    /** The inner loop of deactivateOperation: the operations at two indices of every QUEUED
        task take the templates' flags where they are PENDING. */
    method CopyTwo(a: nat, b: nat)
      requires Wired() && a < |operations| && b < |operations| && a != b
      modifies TaskOps(tasks)
      ensures forall t, k :: t in tasks && 0 <= k < |t.operations| ==>
        t.operations[k].state == old(t.operations[k].state)
      ensures forall t, k :: t in tasks && t.state == QUEUED && (k == a || k == b) && old(t.operations[k].state) == PENDING ==>
        t.operations[k].enabled == operations[k].enabled
      ensures forall t, k :: t in tasks && 0 <= k < |t.operations| && !(t.state == QUEUED && (k == a || k == b)) ==>
        t.operations[k].enabled == old(t.operations[k].enabled)
      ensures forall t, k :: t in tasks && 0 <= k < |t.operations| && old(t.operations[k].state) != PENDING ==>
        t.operations[k].enabled == old(t.operations[k].enabled)
      ensures forall i :: 0 <= i < |operations| ==> operations[i].enabled == old(operations[i].enabled)
      ensures forall t :: t in tasks ==> t.state == old(t.state) && t.operations == old(t.operations)
    {
      var queued := Queued(tasks);
      OpsAtWithin(tasks, queued, a);
      CopyFlagOwned(queued, a, operations[a].enabled);
      label Between:
      OpsAtWithin(tasks, queued, b);
      CopyFlagOwned(queued, b, operations[b].enabled);
      forall t, k | t in tasks && t.state == QUEUED && (k == a || k == b) && old(t.operations[k].state) == PENDING
        ensures t.operations[k].enabled == operations[k].enabled
      {
        if k == a {
          assert t.operations[k].enabled == old@Between(t.operations[k].enabled);
        }
      }
    }

    /** The templates deactivateOperation may change when the one at `index` is clicked: that
        one, the one before an OCTRA step and the one after an ASR step. */
    predicate Touched(index: nat, j: nat)
      requires index < |operations|
    {
      j == index || (operations[index].kind == OCTRA && j + 1 == index)
      || (operations[index].kind == ASR && j == index + 1)
    }

    /** `deactivateOperation`: the template flips. Switching OCTRA off while the step before it
        is off switches that step back on, and so does switching ASR off while the step after
        it is off, so that the two are never both off; the QUEUED tasks then follow the
        templates (`updateEnableState`). */
    method DeactivateOperation(index: nat)
      requires Wired() && index < |operations|
      requires operations[index].kind == OCTRA ==> 0 < index
      requires operations[index].kind == ASR ==> index + 1 < |operations|
      modifies (set o | o in operations), TaskOps(tasks)
      ensures operations[index].enabled == !old(operations[index].enabled)
      ensures operations[index].kind == OCTRA ==>
        operations[index - 1].enabled == (old(operations[index - 1].enabled) || !operations[index].enabled)
      ensures operations[index].kind == ASR ==>
        operations[index + 1].enabled == (old(operations[index + 1].enabled) || !operations[index].enabled)
      ensures forall j :: 0 <= j < |operations| && !Touched(index, j) ==>
        operations[j].enabled == old(operations[j].enabled)
      ensures forall t, k :: t in tasks && 0 <= k < |t.operations| ==>
        t.operations[k].state == old(t.operations[k].state)
      ensures forall t, k :: t in tasks && t.state == QUEUED && 0 <= k < |operations| ==>
        t.operations[k].enabled
        == Copied(old(t.operations[k].state), old(t.operations[k].enabled), operations[k].enabled)
      ensures forall t, k :: t in tasks && 0 <= k < |t.operations| && !(t.state == QUEUED && k < |operations|) ==>
        t.operations[k].enabled == old(t.operations[k].enabled)
    {
      Flip(index);
      UpdateEnableState();
    }

    /** The part of deactivateOperation before `updateEnableState`: the templates change as
        described there, and the inner loops touch only PENDING operations of QUEUED tasks. */
    method Flip(index: nat)
      requires Wired() && index < |operations|
      requires operations[index].kind == OCTRA ==> 0 < index
      requires operations[index].kind == ASR ==> index + 1 < |operations|
      modifies (set o | o in operations), TaskOps(tasks)
      ensures operations[index].enabled == !old(operations[index].enabled)
      ensures operations[index].kind == OCTRA ==>
        operations[index - 1].enabled == (old(operations[index - 1].enabled) || !operations[index].enabled)
      ensures operations[index].kind == ASR ==>
        operations[index + 1].enabled == (old(operations[index + 1].enabled) || !operations[index].enabled)
      ensures forall j :: 0 <= j < |operations| && !Touched(index, j) ==>
        operations[j].enabled == old(operations[j].enabled)
      ensures forall t, k :: t in tasks && 0 <= k < |t.operations| ==>
        t.operations[k].state == old(t.operations[k].state)
      ensures forall t, k :: t in tasks && 0 <= k < |t.operations| && old(t.operations[k].state) != PENDING ==>
        t.operations[k].enabled == old(t.operations[k].enabled)
      ensures forall t, k :: t in tasks && 0 <= k < |t.operations| && !(t.state == QUEUED && k < |operations|) ==>
        t.operations[k].enabled == old(t.operations[k].enabled)
    {
      var operation := operations[index];
      SetTemplate(operation, !operation.enabled);
      if operation.kind == OCTRA {
        var previous := operations[index - 1];
        if !previous.enabled && !operation.enabled {
          SetTemplate(previous, true);
          CopyTwo(index - 1, index);
        }
      } else if operation.kind == ASR {
        var next := operations[index + 1];
        if !next.enabled && !operation.enabled {
          SetTemplate(next, true);
          CopyTwo(index + 1, index);
        }
      }
    }

    /** A template's flag set by deactivateOperation: the template belongs to no task, so no
        operation of a task changes. */
    method SetTemplate(o: Operation, flag: bool)
      requires Wired() && o.task == null
      modifies o
      ensures o.enabled == flag
      ensures forall t, k :: t in tasks && 0 <= k < |t.operations| ==>
        t.operations[k].enabled == old(t.operations[k].enabled) && t.operations[k].state == old(t.operations[k].state)
      ensures forall t :: t in tasks ==> t.state == old(t.state) && t.operations == old(t.operations)
    {
      forall t, k | t in tasks && 0 <= k < |t.operations|
        ensures t.operations[k] != o
      {
        assert Owns(t) && t.operations[k].task == t;
      }
      o.enabled := flag;
    }
  }
}
