/** Result types shared by the restore and multisig-confirmation workflows. */
module Outcomes {

  datatype Option<T> = None | Some(value: T)

  /** How a blocking workflow ends.
      Returned(ok): the C function returns `ok`.
      Halted(reason): `Abort(reason)` stops the device; nothing after it runs.
      Blocked: a prompt was shown but the scripted user responses ran out, so
      the workflow would still be waiting for the user. */
  datatype Verdict = Returned(ok: bool) | Halted(reason: string) | Blocked
}
