/** Values exchanged with i3 over its IPC socket, and the error values the
    client hands back (Go's `error` interface, as one closed datatype). */
module Ipc {

  /** One entry of a RUN_COMMAND reply. `error` is non-empty for
      unsuccessful commands. */
  datatype CommandResult = CommandResult(success: bool, error: string)

  /** One entry of a GET_WORKSPACES reply (its rectangle is not modelled). */
  datatype Workspace = Workspace(
    num: int,
    name: string,
    visible: bool,
    focused: bool,
    urgent: bool,
    output: string)

  datatype Error =
    /** the socket exchange itself failed (opaque to this model) */
    | RoundTripError(text: string)
    /** the reply payload did not decode */
    | DecodeError(text: string)
    /** `*CommandUnsuccessfulError`: the command text and the first result
        whose `Success` is false */
    | CommandUnsuccessful(command: string, cr: CommandResult)
    /** "BUG: major == 0 is non-sensical" */
    | MajorIsZero
    /** "i3 version too old: got M.m, want >= M'.m'" */
    | TooOld(gotMajor: int, gotMinor: int, wantMajor: int, wantMinor: int)
    /** "Cant find current workspace" */
    | NoFocusedWorkspace
}
