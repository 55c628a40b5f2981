/** KMP_IDLE, KMP_RUNNING and KMP_INTERRUPTED of mquickjs_kmp.c. */
module RunStates {
  datatype RunState = Idle | Running | Interrupted
}
