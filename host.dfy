/** The world outside the process as the core sees it: the i3 IPC socket
    and the xrandr executable. Every request is recorded, in order, in one
    trace, and every answer is a function of that trace up to and including
    the request being answered, so any scripted or history-dependent
    behaviour of i3 and xrandr is one value of `Answers`. */
module Host {
  import opened Wrappers
  import opened Ipc
  import Command

  datatype Request =
    /** an i3 GET_WORKSPACES message */
    | WorkspacesQuery
    /** an i3 RUN_COMMAND message carrying `command` */
    | CommandRequest(command: string)
    /** one launch of `xrandr args...` */
    | XrandrRun(args: seq<string>)

  datatype Answers = Answers(
    /** the decoded GET_WORKSPACES reply, or the error of the exchange */
    workspaces: seq<Request> -> Result<seq<Workspace>, Error>,
    /** the outcome of a RUN_COMMAND exchange */
    command: seq<Request> -> Command.Exchange,
    /** whether xrandr exited successfully */
    xrandr: seq<Request> -> bool)

  /** `n` copies of `r`. */
  function Repeat(r: Request, n: nat): (s: seq<Request>)
    ensures |s| == n && forall i :: 0 <= i < n ==> s[i] == r
  {
    if n == 0 then [] else [r] + Repeat(r, n - 1)
  }

  class Host {
    var trace: seq<Request>
    const answers: Answers

    constructor (answers: Answers)
      ensures trace == [] && this.answers == answers
    {
      this.answers := answers;
      trace := [];
    }

    /** `GetWorkspaces()`'s socket exchange and decoding. */
    method QueryWorkspaces() returns (reply: Result<seq<Workspace>, Error>)
      modifies this
      ensures trace == old(trace) + [WorkspacesQuery]
      ensures reply == answers.workspaces(trace)
    {
      trace := trace + [WorkspacesQuery];
      reply := answers.workspaces(trace);
    }

    /** The socket exchange of `RunCommand(command)`. */
    method RoundTrip(command: string) returns (ex: Command.Exchange)
      modifies this
      ensures trace == old(trace) + [CommandRequest(command)]
      ensures ex == answers.command(trace)
    {
      trace := trace + [CommandRequest(command)];
      ex := answers.command(trace);
    }

    /** `exec.Command("xrandr", args...).CombinedOutput()`, reduced to
        whether it returned a nil error. */
    method ExecXrandr(args: seq<string>) returns (ok: bool)
      modifies this
      ensures trace == old(trace) + [XrandrRun(args)]
      ensures ok == answers.xrandr(trace)
    {
      trace := trace + [XrandrRun(args)];
      ok := answers.xrandr(trace);
    }
  }
}
