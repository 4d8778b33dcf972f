/** Copying a template operation's enabled flag to the operation at the same index of each
    task, the loop the queue modal and the proceedings table share
    (src/app/modals/queue-modal/queue-modal.component.ts,
    src/app/components/proceedings/proceedings.component.ts). */
module EnableFlags {
  import opened TaskStates
  import opened Tasks

  /** The flag an operation ends with once a template flag was copied to it: only an operation
      that has not started (PENDING) takes it. */
  function Copied(state: TaskState, enabled: bool, flag: bool): (r: bool)
    ensures state == PENDING ==> r == flag
    ensures state != PENDING ==> r == enabled
  {
    if state == PENDING then flag else enabled
  }

  /** The operation at `index` of each task. */
  function OpsAt(tasks: seq<Task>, index: nat): set<Operation>
    reads set t | t in tasks
    requires forall t :: t in tasks ==> index < |t.operations|
  {
    set t | t in tasks :: t.operations[index]
  }

  /** The tasks have an operation at `index`. */
  predicate Reach(tasks: seq<Task>, index: nat)
    reads set t | t in tasks
  {
    forall t :: t in tasks ==> index < |t.operations|
  }

  /** The loop body the components share: every task whose operation at `index` is PENDING
      gets `flag` there. Operations in any other state keep their flag, and no operation
      changes state. The same operation reached through two tasks is harmless: the copy is
      the same. */
  method CopyFlag(tasks: seq<Task>, index: nat, flag: bool)
    requires Reach(tasks, index)
    modifies OpsAt(tasks, index)
    ensures forall t :: t in tasks ==>
      t.operations[index].enabled == Copied(old(t.operations[index].state), old(t.operations[index].enabled), flag)
    ensures forall t :: t in tasks ==> t.operations[index].state == old(t.operations[index].state)
  {
    for i := 0 to |tasks|
      invariant forall t :: t in tasks ==> t.operations[index].state == old(t.operations[index].state)
      invariant forall t :: t in tasks ==>
        t.operations[index].enabled == old(t.operations[index].enabled)
        || (old(t.operations[index].state) == PENDING && t.operations[index].enabled == flag)
      invariant forall k :: 0 <= k < i ==>
        tasks[k].operations[index].enabled
        == Copied(old(tasks[k].operations[index].state), old(tasks[k].operations[index].enabled), flag)
    {
      var op := tasks[i].operations[index];
      if op.state == PENDING {
        op.enabled := flag;
      }
    }
    assert forall t :: t in tasks ==> exists k :: 0 <= k < |tasks| && tasks[k] == t;
  }
}
