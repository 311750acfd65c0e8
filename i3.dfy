/** The program's i3 helpers: which workspace is focused, switching to a
    workspace, and moving a display's pinned workspaces onto it. */
module I3 {
  import opened Wrappers
  import opened Ipc
  import opened Host
  import opened Config
  import Command
  import Seqs
  import Text

  /** `fmt.Sprintf("workspace %d", n)`. */
  function SwitchCommand(n: int): string
  {
    "workspace " + Text.FormatInt(n)
  }

  /** `fmt.Sprintf("workspace %d; move workspace to %s", workspace, output)`. */
  function MoveCommand(workspace: int, output: string): string
  {
    "workspace " + Text.FormatInt(workspace) + "; move workspace to " + output
  }

  /** The switch command names its workspace unambiguously. */
  lemma SwitchCommandInjective(a: int, b: int)
    requires SwitchCommand(a) == SwitchCommand(b)
    ensures a == b
  {
    assert SwitchCommand(a)[10..] == Text.FormatInt(a);
    assert SwitchCommand(b)[10..] == Text.FormatInt(b);
    Text.FormatIntInjective(a, b);
  }

  /** The move command texts for each of `wss`, in order, to `output`. */
  function MoveCommands(output: string, wss: seq<int>): (r: seq<string>)
    ensures |r| == |wss|
    ensures forall i :: 0 <= i < |wss| ==> r[i] == MoveCommand(wss[i], output)
  {
    seq(|wss|, i requires 0 <= i < |wss| => MoveCommand(wss[i], output))
  }

  /** The move command names its workspace unambiguously: the number ends
      at the `;`, which `%d` text never contains. */
  lemma MoveCommandInjective(a: int, b: int, output: string)
    requires MoveCommand(a, output) == MoveCommand(b, output)
    ensures a == b
  {
    var fa, fb := Text.FormatInt(a), Text.FormatInt(b);
    var m := MoveCommand(a, output);
    assert m == "workspace " + fa + "; move workspace to " + output;
    assert m == "workspace " + fb + "; move workspace to " + output;
    Text.FormatIntChars(a);
    Text.FormatIntChars(b);
    // Otherwise the shorter number's `;` would face a digit of the longer.
    assert |fa| == |fb|;
    assert m[10..10 + |fa|] == fa;
    assert m[10..10 + |fb|] == fb;
    Text.FormatIntInjective(a, b);
  }

  /** One RUN_COMMAND request per command text, in order. */
  function Requests(cmds: seq<string>): (r: seq<Request>)
    ensures |r| == |cmds|
    ensures forall i :: 0 <= i < |cmds| ==> r[i] == CommandRequest(cmds[i])
  {
    seq(|cmds|, i requires 0 <= i < |cmds| => CommandRequest(cmds[i]))
  }

  /** The RUN_COMMAND requests that move each of `wss`, in order, to `output`. */
  function MoveRequests(output: string, wss: seq<int>): (r: seq<Request>)
    ensures |r| == |wss|
    ensures forall i :: 0 <= i < |wss| ==> r[i] == CommandRequest(MoveCommand(wss[i], output))
  {
    Requests(MoveCommands(output, wss))
  }

  /** The move requests of a display determine its pinned workspaces, in
      order: different lists never produce the same requests. */
  lemma MoveRequestsInjective(output: string, a: seq<int>, b: seq<int>)
    requires MoveRequests(output, a) == MoveRequests(output, b)
    ensures a == b
  {
    forall i | 0 <= i < |a| ensures a[i] == b[i] {
      assert MoveRequests(output, a)[i] == MoveRequests(output, b)[i];
      MoveCommandInjective(a[i], b[i], output);
    }
  }

  /** The last request of `t` is a RUN_COMMAND message. */
  predicate EndsWithCommand(t: seq<Request>)
  {
    t != [] && t[|t| - 1].CommandRequest?
  }

  /** The error `RunCommand` returns for the last request of `t`. */
  function ReplyError(ans: Answers, t: seq<Request>): Option<Error>
    requires EndsWithCommand(t)
  {
    Command.RunCommand(t[|t| - 1].command, ans.command(t)).err
  }

  /** Every RUN_COMMAND request of `t` at a position in [lo, hi) was
      answered without error. */
  ghost predicate RepliesOk(ans: Answers, t: seq<Request>, lo: int, hi: int)
    requires hi <= |t|
  {
    forall j :: 0 <= lo <= j < hi && t[j].CommandRequest? ==> ReplyError(ans, t[..j + 1]).None?
  }

  datatype Current = Current(num: int, err: Option<Error>)

  predicate IsFocused(w: Workspace) { w.focused }

  /** What `GetCurrentWorkspaceNumber` returns for a GET_WORKSPACES reply:
      the number of the first focused workspace, or -1 and an error. */
  function CurrentWorkspace(reply: Result<seq<Workspace>, Error>): (r: Current)
    ensures reply.Failure? ==> r == Current(-1, Some(reply.error))
    ensures reply.Success? && r.err.Some? ==> r == Current(-1, Some(NoFocusedWorkspace))
    ensures reply.Success? ==>
      (r.err.None? <==> exists i :: 0 <= i < |reply.value| && reply.value[i].focused)
    ensures reply.Success? && r.err.None? ==>
      exists i :: 0 <= i < |reply.value| && reply.value[i].focused && r.num == reply.value[i].num
        && forall j :: 0 <= j < i ==> !reply.value[j].focused
  {
    match reply
    case Failure(e) => Current(-1, Some(e))
    case Success(ws) =>
      match Seqs.FirstIndex(ws, IsFocused)
      case None => Current(-1, Some(NoFocusedWorkspace))
      case Some(i) => Current(ws[i].num, None)
  }

  /** `GetCurrentWorkspaceNumber()`. */
  method GetCurrentWorkspaceNumber(host: Host) returns (num: int, err: Option<Error>)
    modifies host
    ensures host.trace == old(host.trace) + [WorkspacesQuery]
    ensures Current(num, err) == CurrentWorkspace(host.answers.workspaces(host.trace))
  {
    var reply := host.QueryWorkspaces();
    if reply.Failure? {
      return -1, Some(reply.error);
    }
    var ws := reply.value;
    for i := 0 to |ws|
      invariant forall j :: 0 <= j < i ==> !ws[j].focused
    {
      if ws[i].focused {
        return ws[i].num, None;
      }
    }
    return -1, Some(NoFocusedWorkspace);
  }

  /** A trace and the error that ended it, if any. */
  datatype Step = Step(trace: seq<Request>, err: Option<Error>)

  /** The effect of `SetCurrentWorkspace(n)` after history `h`. */
  function Switch(ans: Answers, h: seq<Request>, n: int): Step
  {
    var t := h + [CommandRequest(SwitchCommand(n))];
    Step(t, ReplyError(ans, t))
  }

  /** `SetCurrentWorkspace(n)`: exactly one command, `workspace <n>`, whose
      error is returned. */
  method SetCurrentWorkspace(host: Host, n: int) returns (err: Option<Error>)
    modifies host
    ensures host.trace == old(host.trace) + [CommandRequest(SwitchCommand(n))]
    ensures err == ReplyError(host.answers, host.trace)
    ensures Step(host.trace, err) == Switch(host.answers, old(host.trace), n)
  {
    var command := SwitchCommand(n);
    var ex := host.RoundTrip(command);
    var reply := Command.RunCommand(command, ex);
    err := reply.err;
  }

  /** Sending the command texts `cmds` one after another after history
      `h`, stopping at the first whose reply is an error. */
  function Sends(ans: Answers, h: seq<Request>, cmds: seq<string>): Step
    decreases cmds
  {
    if cmds == [] then Step(h, None)
    else
      var t := h + [CommandRequest(cmds[0])];
      var e := ReplyError(ans, t);
      if e.Some? then Step(t, e) else Sends(ans, t, cmds[1..])
  }

  /** The effect of `UpdateWorkspaces` for a display named `output` with
      pinned workspaces `wss`, after history `h`. */
  function Updates(ans: Answers, h: seq<Request>, output: string, wss: seq<int>): Step
  {
    Sends(ans, h, MoveCommands(output, wss))
  }

  /** The requests sent are the first of `cmds`, in order; all of them when
      the result is nil, and at least one when it is an error. */
  lemma {:induction false} SendsIssuesPrefix(ans: Answers, h: seq<Request>, cmds: seq<string>)
    ensures var r := Sends(ans, h, cmds);
      && |h| <= |r.trace| <= |h| + |cmds|
      && r.trace == h + Requests(cmds)[..|r.trace| - |h|]
      && (r.err.None? ==> |r.trace| == |h| + |cmds|)
      && (r.err.Some? ==> |r.trace| > |h|)
    decreases cmds
  {
    if cmds != [] {
      var all := Requests(cmds);
      var req := CommandRequest(cmds[0]);
      var t := h + [req];
      var rest := Requests(cmds[1..]);
      assert all == [req] + rest;
      if ReplyError(ans, t).Some? {
        Seqs.PrefixOfAppend([req], rest, 0);
        assert all[..1] == [req];
      } else {
        var r := Sends(ans, t, cmds[1..]);
        assert r == Sends(ans, h, cmds);
        SendsIssuesPrefix(ans, t, cmds[1..]);
        var k := |r.trace| - |t|;
        assert r.trace == t + rest[..k];
        Seqs.PrefixOfAppend([req], rest, k);
        Seqs.AppendAssoc(h, [req], rest[..k]);
        assert r.trace == h + all[..k + 1];
      }
    }
  }

  /** Every request sent before the last one was answered without error,
      and all of them were when the result is nil. */
  lemma {:induction false} SendsStopsAtFirstFailure(ans: Answers, h: seq<Request>, cmds: seq<string>)
    ensures var r := Sends(ans, h, cmds);
      && h <= r.trace
      && RepliesOk(ans, r.trace, |h|, |r.trace| - 1)
      && (r.err.None? ==> RepliesOk(ans, r.trace, |h|, |r.trace|))
    decreases cmds
  {
    if cmds != [] {
      var t := h + [CommandRequest(cmds[0])];
      assert EndsWithCommand(t) by {
        assert t[|t| - 1] == CommandRequest(cmds[0]);
      }
      if ReplyError(ans, t).Some? {
        assert Sends(ans, h, cmds) == Step(t, ReplyError(ans, t));
      } else {
        var r := Sends(ans, t, cmds[1..]);
        assert r == Sends(ans, h, cmds);
        SendsStopsAtFirstFailure(ans, t, cmds[1..]);
        Seqs.PrefixTrans(h, t, r.trace);
        RepliesOkExtend(ans, r.trace, t, |r.trace| - 1);
        if r.err.None? {
          RepliesOkExtend(ans, r.trace, t, |r.trace|);
        }
      }
    }
  }

  /** An error is the error of the last request sent. */
  lemma {:induction false} SendsFailureIsLastCommand(ans: Answers, h: seq<Request>, cmds: seq<string>)
    ensures var r := Sends(ans, h, cmds);
      r.err.Some? ==>
        |r.trace| > |h| && EndsWithCommand(r.trace) && r.err == ReplyError(ans, r.trace)
    decreases cmds
  {
    if cmds != [] {
      var t := h + [CommandRequest(cmds[0])];
      assert EndsWithCommand(t) by {
        assert t[|t| - 1] == CommandRequest(cmds[0]);
      }
      if ReplyError(ans, t).Some? {
        assert Sends(ans, h, cmds) == Step(t, ReplyError(ans, t));
      } else {
        assert Sends(ans, t, cmds[1..]) == Sends(ans, h, cmds);
        SendsFailureIsLastCommand(ans, t, cmds[1..]);
      }
    }
  }

  /** The commands issued are the first of the move commands, in list
      order; all of them when the result is nil (so an empty list issues
      nothing and returns nil), and at least one when it is an error. */
  lemma UpdatesIssuesPrefix(ans: Answers, h: seq<Request>, output: string, wss: seq<int>)
    ensures var r := Updates(ans, h, output, wss);
      && |h| <= |r.trace| <= |h| + |wss|
      && r.trace == h + MoveRequests(output, wss)[..|r.trace| - |h|]
      && (r.err.None? ==> |r.trace| == |h| + |wss|)
      && (r.err.Some? ==> |r.trace| > |h|)
    ensures wss == [] ==> Updates(ans, h, output, wss) == Step(h, None)
  {
    SendsIssuesPrefix(ans, h, MoveCommands(output, wss));
  }

  /** Every command before the last one succeeded, and all of them did when
      the result is nil. */
  lemma UpdatesStopsAtFirstFailure(ans: Answers, h: seq<Request>, output: string, wss: seq<int>)
    ensures var r := Updates(ans, h, output, wss);
      && h <= r.trace
      && RepliesOk(ans, r.trace, |h|, |r.trace| - 1)
      && (r.err.None? ==> RepliesOk(ans, r.trace, |h|, |r.trace|))
  {
    SendsStopsAtFirstFailure(ans, h, MoveCommands(output, wss));
  }

  /** An error is the error of the last command issued, so no later
      command follows it. */
  lemma UpdatesFailureIsLastCommand(ans: Answers, h: seq<Request>, output: string, wss: seq<int>)
    ensures var r := Updates(ans, h, output, wss);
      r.err.Some? ==>
        |r.trace| > |h| && EndsWithCommand(r.trace) && r.err == ReplyError(ans, r.trace)
  {
    SendsFailureIsLastCommand(ans, h, MoveCommands(output, wss));
  }

  /** A run of good replies after a prefix whose last command succeeded
      extends back over that command. */
  lemma RepliesOkExtend(ans: Answers, t: seq<Request>, prefix: seq<Request>, hi: int)
    requires |prefix| >= 1 && prefix <= t && hi <= |t|
    requires EndsWithCommand(prefix) && ReplyError(ans, prefix).None?
    requires RepliesOk(ans, t, |prefix|, hi)
    ensures RepliesOk(ans, t, |prefix| - 1, hi)
  {
    assert t[..|prefix|] == prefix;
  }

  /** `UpdateWorkspaces(display)`. */
  method UpdateWorkspaces(host: Host, display: Display) returns (err: Option<Error>)
    modifies host
    ensures Step(host.trace, err) == Updates(host.answers, old(host.trace), display.name, display.workspaces)
  {
    var wss := display.workspaces;
    ghost var cmds := MoveCommands(display.name, wss);
    var i := 0;
    while i < |wss|
      invariant 0 <= i <= |wss|
      invariant Updates(host.answers, old(host.trace), display.name, wss)
        == Sends(host.answers, host.trace, cmds[i..])
    {
      var command := MoveCommand(wss[i], display.name);
      assert cmds[i..][0] == command;
      var ex := host.RoundTrip(command);
      var reply := Command.RunCommand(command, ex);
      assert cmds[i..][1..] == cmds[i + 1..];
      if reply.err.Some? {
        return reply.err;
      }
      i := i + 1;
    }
    assert cmds[i..] == [];
    return None;
  }
}
