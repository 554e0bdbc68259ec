/** The states of an execution context, which scheduler and debugger share. */
module ProcessState {
  datatype ProcState = Unused | New | Ready | Running | Waiting | Exiting
}
