/** The states shared by tasks and their operations. */
module TaskStates {

  datatype TaskState = PENDING | QUEUED | UPLOADING | PROCESSING | READY | FINISHED | ERROR | SKIPPED

  /** The operation-state change record `{opID, oldState, newState}` that `statechange` emits. */
  datatype StateChange = StateChange(opId: int, oldState: TaskState, newState: TaskState)
}
