/** The hotplug reaction of the `display` package: from a snapshot of the
    connected outputs to one xrandr run and the i3 workspace moves that
    follow it. */
module Randr {
  import opened Wrappers
  import opened Ipc
  import opened Host
  import opened Config
  import I3
  import Text
  import Seqs

  /** Output name to "is connected", as `getOutputConfiguration` builds it. */
  type Snapshot = map<string, bool>

  /** Go's `snapshot[name]`: a missing name reads as false. */
  predicate Connected(s: Snapshot, name: string)
  {
    name in s && s[name]
  }

  /** A display is active when its output is connected and none of its
      `TurnOffWhen` outputs is. */
  predicate Active(d: Display, s: Snapshot)
  {
    Connected(s, d.name) && forall i :: 0 <= i < |d.turnOffWhen| ==> !Connected(s, d.turnOffWhen[i])
  }

  /** `isDisplayActive(display, currentOutputConfiguration)`. */
  method IsDisplayActive(d: Display, s: Snapshot) returns (active: bool)
    ensures !Connected(s, d.name) ==> !active
    ensures active <==>
      Connected(s, d.name) && forall i :: 0 <= i < |d.turnOffWhen| ==> !Connected(s, d.turnOffWhen[i])
  {
    if !Connected(s, d.name) {
      return false;
    }
    for i := 0 to |d.turnOffWhen|
      invariant forall j :: 0 <= j < i ==> !Connected(s, d.turnOffWhen[j])
    {
      if Connected(s, d.turnOffWhen[i]) {
        return false;
      }
    }
    return true;
  }

  /** Only which names `TurnOffWhen` lists matters, not their order or
      repetitions. */
  lemma ActiveIgnoresOrder(d: Display, e: Display, s: Snapshot)
    requires d.name == e.name
    requires forall x :: x in d.turnOffWhen <==> x in e.turnOffWhen
    ensures Active(d, s) == Active(e, s)
  {
    if forall i :: 0 <= i < |d.turnOffWhen| ==> !Connected(s, d.turnOffWhen[i]) {
      SameNamesSameVerdict(d.turnOffWhen, e.turnOffWhen, s);
    }
    if forall i :: 0 <= i < |e.turnOffWhen| ==> !Connected(s, e.turnOffWhen[i]) {
      SameNamesSameVerdict(e.turnOffWhen, d.turnOffWhen, s);
    }
  }

  lemma SameNamesSameVerdict(a: seq<string>, b: seq<string>, s: Snapshot)
    requires forall x :: x in b ==> x in a
    requires forall i :: 0 <= i < |a| ==> !Connected(s, a[i])
    ensures forall i :: 0 <= i < |b| ==> !Connected(s, b[i])
  {
    forall i | 0 <= i < |b| ensures !Connected(s, b[i]) {
      assert b[i] in b;
      var j :| 0 <= j < |a| && a[j] == b[i];
    }
  }

  /** A connected `TurnOffWhen` peer turns the display off. */
  lemma PeerTurnsOff(d: Display, s: Snapshot, peer: string)
    requires peer in d.turnOffWhen && Connected(s, peer)
    ensures !Active(d, s)
  {
  }

  /** `getDisplayOptions(display, active)`: the xrandr argument group of one
      display. */
  function GetDisplayOptions(d: Display, active: bool): (r: seq<string>)
    ensures !active ==> r == ["--output", d.name, "--off"]
    ensures active ==> |r| >= 3 && r[..3] == ["--output", d.name, "--auto"]
    ensures active && d.randrExtraOptions == "" ==> r == ["--output", d.name, "--auto"]
    ensures active && d.randrExtraOptions != "" ==>
      r[3..] == Text.Split(d.randrExtraOptions, ' ')
      && Text.Join(r[3..], ' ') == d.randrExtraOptions
      && forall i :: 3 <= i < |r| ==> ' ' !in r[i]
  {
    if active then
      var prefix := ["--output", d.name, "--auto"];
      if d.randrExtraOptions != "" then
        Text.JoinSplit(d.randrExtraOptions, ' ');
        prefix + Text.Split(d.randrExtraOptions, ' ')
      else prefix
    else ["--output", d.name, "--off"]
  }

  /** The argument group of a display under snapshot `s`. */
  function Group(d: Display, s: Snapshot): seq<string>
  {
    GetDisplayOptions(d, Active(d, s))
  }

  /** The full xrandr argument vector: every display's group, in
      configuration order. */
  function Args(ds: seq<Display>, s: Snapshot): seq<string>
  {
    if ds == [] then [] else Group(ds[0], s) + Args(ds[1..], s)
  }

  /** Sum of the group lengths. */
  function GroupsLength(ds: seq<Display>, s: Snapshot): nat
  {
    if ds == [] then 0 else |Group(ds[0], s)| + GroupsLength(ds[1..], s)
  }

  /** Argument building is compositional and order-preserving: the vector
      of a concatenated configuration is the concatenation of the vectors. */
  lemma {:induction false} ArgsAppend(ds: seq<Display>, es: seq<Display>, s: Snapshot)
    ensures Args(ds + es, s) == Args(ds, s) + Args(es, s)
  {
    if ds == [] {
      assert ds + es == es;
    } else {
      assert (ds + es)[0] == ds[0];
      assert (ds + es)[1..] == ds[1..] + es;
      ArgsAppend(ds[1..], es, s);
    }
  }

  /** The vector's length is the sum of the group lengths, each at least 3. */
  lemma {:induction false} ArgsLength(ds: seq<Display>, s: Snapshot)
    ensures |Args(ds, s)| == GroupsLength(ds, s)
    ensures GroupsLength(ds, s) >= 3 * |ds|
  {
    if ds != [] {
      ArgsLength(ds[1..], s);
    }
  }

  /** How many times xrandr is tried before the cycle gives up. */
  const Retries: nat := 5

  /** The attempts made and whether the last one succeeded. */
  datatype Attempts = Attempts(trace: seq<Request>, ok: bool)

  /** The xrandr retry loop after history `h` with `left` attempts left. */
  function Retry(ans: Answers, h: seq<Request>, args: seq<string>, left: nat): Attempts
    requires left >= 1
    decreases left
  {
    var t := h + [XrandrRun(args)];
    if ans.xrandr(t) then Attempts(t, true)
    else if left == 1 then Attempts(t, false)
    else Retry(ans, t, args, left - 1)
  }

  /** The loop runs xrandr with the same arguments between 1 and `left`
      times: up to and including the first success, and `left` times when
      every attempt fails. */
  lemma {:induction false} RetryBounded(ans: Answers, h: seq<Request>, args: seq<string>, left: nat)
    requires left >= 1
    ensures var r := Retry(ans, h, args, left); var k := |r.trace| - |h|;
      && 1 <= k <= left
      && r.trace == h + Repeat(XrandrRun(args), k)
      && (r.ok <==> ans.xrandr(r.trace))
      && (!r.ok ==> k == left)
      && forall j :: 1 <= j < k ==> !ans.xrandr(h + Repeat(XrandrRun(args), j))
    decreases left
  {
    var t := h + [XrandrRun(args)];
    assert t == h + Repeat(XrandrRun(args), 1);
    if !ans.xrandr(t) && left > 1 {
      RetryBounded(ans, t, args, left - 1);
      var r := Retry(ans, t, args, left - 1);
      var k := |r.trace| - |t|;
      assert r.trace == h + Repeat(XrandrRun(args), k + 1) by {
        assert [XrandrRun(args)] + Repeat(XrandrRun(args), k) == Repeat(XrandrRun(args), k + 1);
      }
      forall j | 1 <= j < k + 1 ensures !ans.xrandr(h + Repeat(XrandrRun(args), j)) {
        if j > 1 {
          assert t + Repeat(XrandrRun(args), j - 1) == h + Repeat(XrandrRun(args), j) by {
            assert [XrandrRun(args)] + Repeat(XrandrRun(args), j - 1) == Repeat(XrandrRun(args), j);
          }
        }
      }
    }
  }

  /** The loop succeeds exactly when one of the `left` attempts would. */
  lemma RetrySucceedsIffSomeAttemptDoes(ans: Answers, h: seq<Request>, args: seq<string>, left: nat)
    requires left >= 1
    ensures Retry(ans, h, args, left).ok <==>
      exists j :: 1 <= j <= left && ans.xrandr(h + Repeat(XrandrRun(args), j))
  {
    RetryBounded(ans, h, args, left);
  }

  /** The workspace moves of a cycle: the pinned workspaces of each active
      display, in configuration order. */
  function MovePlan(ds: seq<Display>, s: Snapshot): seq<Request>
  {
    if ds == [] then []
    else
      var own := if Active(ds[0], s) then I3.MoveRequests(ds[0].name, ds[0].workspaces) else [];
      own + MovePlan(ds[1..], s)
  }

  /** The reconcile loop: `refreshDisplay` for each active display, in
      configuration order, stopping at the first failure. */
  function Reconcile(ans: Answers, h: seq<Request>, ds: seq<Display>, s: Snapshot): I3.Step
    decreases ds
  {
    if ds == [] then I3.Step(h, None)
    else if !Active(ds[0], s) then Reconcile(ans, h, ds[1..], s)
    else
      var u := I3.Updates(ans, h, ds[0].name, ds[0].workspaces);
      if u.err.Some? then u else Reconcile(ans, u.trace, ds[1..], s)
  }

  /** The commands issued are the first of the planned moves; all of them
      when no command failed, and up to the failing one otherwise. */
  lemma {:induction false} ReconcileIssuesPrefix(ans: Answers, h: seq<Request>, ds: seq<Display>, s: Snapshot)
    ensures var r := Reconcile(ans, h, ds, s);
      && |h| <= |r.trace| <= |h| + |MovePlan(ds, s)|
      && r.trace == h + MovePlan(ds, s)[..|r.trace| - |h|]
      && (r.err.None? ==> r.trace == h + MovePlan(ds, s))
      && (r.err.Some? ==> |r.trace| > |h|)
    decreases ds, 1
  {
    if ds != [] {
      var rest := MovePlan(ds[1..], s);
      if !Active(ds[0], s) {
        assert Reconcile(ans, h, ds, s) == Reconcile(ans, h, ds[1..], s);
        assert MovePlan(ds, s) == rest;
        ReconcileIssuesPrefix(ans, h, ds[1..], s);
      } else {
        ReconcileActiveHead(ans, h, ds, s);
      }
    }
  }

  /** The step of `ReconcileIssuesPrefix` for an active first display. */
  lemma {:induction false} ReconcileActiveHead(ans: Answers, h: seq<Request>, ds: seq<Display>, s: Snapshot)
    requires ds != [] && Active(ds[0], s)
    ensures var r := Reconcile(ans, h, ds, s);
      && |h| <= |r.trace| <= |h| + |MovePlan(ds, s)|
      && r.trace == h + MovePlan(ds, s)[..|r.trace| - |h|]
      && (r.err.None? ==> r.trace == h + MovePlan(ds, s))
      && (r.err.Some? ==> |r.trace| > |h|)
    decreases ds, 0
  {
    var rest := MovePlan(ds[1..], s);
    var mr := I3.MoveRequests(ds[0].name, ds[0].workspaces);
    var u := I3.Updates(ans, h, ds[0].name, ds[0].workspaces);
    I3.UpdatesIssuesPrefix(ans, h, ds[0].name, ds[0].workspaces);
    assert MovePlan(ds, s) == mr + rest;
    var k := |u.trace| - |h|;
    if u.err.Some? {
      assert Reconcile(ans, h, ds, s) == u;
      Seqs.PrefixWithinLeft(mr, rest, k);
    } else {
      var r := Reconcile(ans, u.trace, ds[1..], s);
      assert r == Reconcile(ans, h, ds, s);
      ReconcileIssuesPrefix(ans, u.trace, ds[1..], s);
      var m := |r.trace| - |u.trace|;
      assert u.trace == h + mr;
      assert k == |mr|;
      assert r.trace == u.trace + rest[..m];
      Seqs.PrefixOfAppend(mr, rest, m);
      Seqs.AppendAssoc(h, mr, rest[..m]);
    }
  }

  /** When reconciliation fails, the error is that of the last command it
      issued, and every command before that one succeeded. */
  lemma {:induction false} ReconcileStopsAtFirstFailure(ans: Answers, h: seq<Request>, ds: seq<Display>, s: Snapshot)
    ensures var r := Reconcile(ans, h, ds, s);
      && h <= r.trace
      && I3.RepliesOk(ans, r.trace, |h|, |r.trace| - 1)
      && (r.err.None? ==> I3.RepliesOk(ans, r.trace, |h|, |r.trace|))
      && (r.err.Some? ==>
            |r.trace| > |h| && I3.EndsWithCommand(r.trace)
            && r.err == I3.ReplyError(ans, r.trace))
    decreases ds
  {
    if ds != [] {
      if !Active(ds[0], s) {
        assert Reconcile(ans, h, ds, s) == Reconcile(ans, h, ds[1..], s);
        ReconcileStopsAtFirstFailure(ans, h, ds[1..], s);
      } else {
        var u := I3.Updates(ans, h, ds[0].name, ds[0].workspaces);
        I3.UpdatesStopsAtFirstFailure(ans, h, ds[0].name, ds[0].workspaces);
        I3.UpdatesFailureIsLastCommand(ans, h, ds[0].name, ds[0].workspaces);
        if u.err.Some? {
          assert Reconcile(ans, h, ds, s) == u;
        } else {
          var r := Reconcile(ans, u.trace, ds[1..], s);
          assert r == Reconcile(ans, h, ds, s);
          ReconcileStopsAtFirstFailure(ans, u.trace, ds[1..], s);
          Seqs.PrefixTrans(h, u.trace, r.trace);
          assert r.trace[..|u.trace|] == u.trace;
          RepliesOkJoin(ans, r.trace, |h|, |u.trace|, |r.trace| - 1);
          if r.err.None? {
            RepliesOkJoin(ans, r.trace, |h|, |u.trace|, |r.trace|);
          }
        }
      }
    }
  }

  /** Two adjacent runs of good replies form one, when the first was
      established on a prefix of the trace. */
  lemma RepliesOkJoin(ans: Answers, t: seq<Request>, lo: int, mid: int, hi: int)
    requires 0 <= lo <= mid <= |t| && hi <= |t|
    requires I3.RepliesOk(ans, t[..mid], lo, mid)
    requires I3.RepliesOk(ans, t, mid, hi)
    ensures I3.RepliesOk(ans, t, lo, hi)
  {
    forall j | 0 <= lo <= j < hi && j < mid && t[j].CommandRequest?
      ensures I3.ReplyError(ans, t[..j + 1]).None?
    {
      assert t[..mid][..j + 1] == t[..j + 1];
      assert t[..mid][j] == t[j];
    }
  }

  /** Why a cycle, or the event loop, ended the process (`log.Fatalf`). */
  datatype Fatal =
    | WorkspaceQueryFailed(err: Error)
    | XrandrExhausted
    | WorkspaceUpdateFailed(err: Error)
    | FocusRestoreFailed(err: Error)
    | EventWaitFailed(err: Error)

  datatype Outcome = Unchanged | Applied | Aborted(cause: Fatal)

  /** The trace after the cycle, how it ended, and the remembered snapshot. */
  datatype CycleRun = CycleRun(trace: seq<Request>, outcome: Outcome, last: Option<Snapshot>)

  /** One `Refresh()`, from the last applied snapshot `last` (None before
      the first cycle) and the current snapshot `snap`, after history `h`. */
  function Cycle(ds: seq<Display>, last: Option<Snapshot>, snap: Snapshot, ans: Answers, h: seq<Request>): (r: CycleRun)
    ensures r.outcome.Unchanged? <==> last == Some(snap)
    ensures r.outcome.Unchanged? ==> r.trace == h && r.last == last
    ensures r.last == if r.outcome.Applied? then Some(snap) else last
    ensures |h| <= |r.trace| && r.trace[..|h|] == h
    ensures !r.outcome.Unchanged? ==> |r.trace| > |h| && r.trace[|h|] == WorkspacesQuery
  {
    if last == Some(snap) then CycleRun(h, Unchanged, last)
    else
      var h1 := h + [WorkspacesQuery];
      var cur := I3.CurrentWorkspace(ans.workspaces(h1));
      if cur.err.Some? then CycleRun(h1, Aborted(WorkspaceQueryFailed(cur.err.value)), last)
      else
        var x := Retry(ans, h1, Args(ds, snap), Retries);
        RetryBounded(ans, h1, Args(ds, snap), Retries);
        if !x.ok then CycleRun(x.trace, Aborted(XrandrExhausted), last)
        else
          var u := Reconcile(ans, x.trace, ds, snap);
          ReconcileIssuesPrefix(ans, x.trace, ds, snap);
          if u.err.Some? then CycleRun(u.trace, Aborted(WorkspaceUpdateFailed(u.err.value)), last)
          else
            var w := I3.Switch(ans, u.trace, cur.num);
            if w.err.Some? then CycleRun(w.trace, Aborted(FocusRestoreFailed(w.err.value)), last)
            else CycleRun(w.trace, Applied, Some(snap))
  }

  /** Every planned move takes a pinned workspace of an active display to
      that display: inactive displays contribute no command. */
  lemma {:induction false} MovePlanOnlyActive(ds: seq<Display>, s: Snapshot, j: nat)
    requires j < |MovePlan(ds, s)|
    ensures exists i, w ::
      && 0 <= i < |ds| && Active(ds[i], s) && w in ds[i].workspaces
      && MovePlan(ds, s)[j] == CommandRequest(I3.MoveCommand(w, ds[i].name))
    decreases ds
  {
    var own := if Active(ds[0], s) then I3.MoveRequests(ds[0].name, ds[0].workspaces) else [];
    assert MovePlan(ds, s) == own + MovePlan(ds[1..], s);
    if j < |own| {
      assert MovePlan(ds, s)[j] == own[j];
      assert ds[0].workspaces[j] in ds[0].workspaces;
    } else {
      MovePlanOnlyActive(ds[1..], s, j - |own|);
      var i, w :| 0 <= i < |ds[1..]| && Active(ds[1..][i], s) && w in ds[1..][i].workspaces
        && MovePlan(ds[1..], s)[j - |own|] == CommandRequest(I3.MoveCommand(w, ds[1..][i].name));
      assert ds[1..][i] == ds[i + 1];
    }
  }

  /** The hot-plug scenario: an external monitor HDMI2, pinned to
      workspaces 3 and 4, and a laptop panel eDP1, pinned to 1 and 2, that
      turns off when HDMI2 is connected. */
  const ExampleDisplays: seq<Display> :=
    [Display("HDMI2", "", [], [3, 4]), Display("eDP1", "", ["HDMI2"], [1, 2])]

  /** Both outputs connected. */
  const ExampleSnapshot: Snapshot := map["HDMI2" := true, "eDP1" := true]

  /** With both connected, HDMI2 is active and eDP1 is not. */
  lemma ExampleDecisions()
    ensures Active(ExampleDisplays[0], ExampleSnapshot)
    ensures !Active(ExampleDisplays[1], ExampleSnapshot)
  {
    assert ExampleDisplays[1].turnOffWhen[0] == "HDMI2";
  }

  /** One xrandr call enables HDMI2 and turns eDP1 off. */
  lemma ExampleArgs()
    ensures Args(ExampleDisplays, ExampleSnapshot)
      == ["--output", "HDMI2", "--auto", "--output", "eDP1", "--off"]
  {
    ExampleDecisions();
    var edp := ExampleDisplays[1];
    assert ExampleDisplays[1..] == [edp];
    assert [edp][1..] == [];
    assert Group(ExampleDisplays[0], ExampleSnapshot) == ["--output", "HDMI2", "--auto"];
    assert Group(edp, ExampleSnapshot) == ["--output", "eDP1", "--off"];
  }

  /** The text that moves workspace 3 to HDMI2. */
  lemma ExampleMoveThree()
    ensures I3.MoveCommand(3, "HDMI2") == "workspace 3; move workspace to HDMI2"
  {
  }

  /** The text that moves workspace 4 to HDMI2. */
  lemma ExampleMoveFour()
    ensures I3.MoveCommand(4, "HDMI2") == "workspace 4; move workspace to HDMI2"
  {
  }

  /** Workspaces 3 and 4 move to HDMI2; eDP1 receives no move. */
  lemma ExamplePlan()
    ensures MovePlan(ExampleDisplays, ExampleSnapshot)
      == [CommandRequest("workspace 3; move workspace to HDMI2"),
          CommandRequest("workspace 4; move workspace to HDMI2")]
  {
    ExampleDecisions();
    ExampleMoveThree();
    ExampleMoveFour();
    var edp := ExampleDisplays[1];
    assert ExampleDisplays[1..] == [edp];
    assert [edp][1..] == [];
    assert MovePlan([edp], ExampleSnapshot) == [];
  }

  /** A cycle that will not fail the workspace query or xrandr, and whose
      snapshot is new, next. */
  ghost predicate ReachesReconcile(ds: seq<Display>, last: Option<Snapshot>, snap: Snapshot, ans: Answers, h: seq<Request>)
  {
    && last != Some(snap)
    && I3.CurrentWorkspace(ans.workspaces(h + [WorkspacesQuery])).err.None?
    && Retry(ans, h + [WorkspacesQuery], Args(ds, snap), Retries).ok
  }

  /** A failed focused-workspace query ends the cycle right after the
      query: no xrandr run, no move, and `last` is kept. */
  lemma QueryFailureStopsCycle(ds: seq<Display>, last: Option<Snapshot>, snap: Snapshot, ans: Answers, h: seq<Request>)
    requires last != Some(snap)
    requires I3.CurrentWorkspace(ans.workspaces(h + [WorkspacesQuery])).err.Some?
    ensures var r := Cycle(ds, last, snap, ans, h);
      && r.trace == h + [WorkspacesQuery]
      && r.outcome == Aborted(WorkspaceQueryFailed(I3.CurrentWorkspace(ans.workspaces(h + [WorkspacesQuery])).err.value))
      && r.last == last
  {
  }

  /** After the last xrandr failure the cycle ends: no workspace move, no
      focus restore, and the remembered snapshot is kept. */
  lemma XrandrExhaustionStopsCycle(ds: seq<Display>, last: Option<Snapshot>, snap: Snapshot, ans: Answers, h: seq<Request>)
    requires Cycle(ds, last, snap, ans, h).outcome == Aborted(XrandrExhausted)
    ensures Cycle(ds, last, snap, ans, h).trace
      == h + [WorkspacesQuery] + Repeat(XrandrRun(Args(ds, snap)), Retries)
    ensures Cycle(ds, last, snap, ans, h).last == last
  {
    RetryBounded(ans, h + [WorkspacesQuery], Args(ds, snap), Retries);
  }

  /** A success on any of the allowed attempts lets the cycle go on. */
  lemma XrandrSuccessProceeds(ds: seq<Display>, last: Option<Snapshot>, snap: Snapshot, ans: Answers, h: seq<Request>, j: nat)
    requires last != Some(snap)
    requires I3.CurrentWorkspace(ans.workspaces(h + [WorkspacesQuery])).err.None?
    requires 1 <= j <= Retries
    requires ans.xrandr(h + [WorkspacesQuery] + Repeat(XrandrRun(Args(ds, snap)), j))
    ensures Cycle(ds, last, snap, ans, h).outcome != Aborted(XrandrExhausted)
    ensures ReachesReconcile(ds, last, snap, ans, h)
  {
    RetrySucceedsIffSomeAttemptDoes(ans, h + [WorkspacesQuery], Args(ds, snap), Retries);
  }

  /** A cycle that applies a new snapshot makes its requests in this order:
      the focused-workspace query, one to five xrandr runs with the full
      argument vector, the moves of the active displays' pinned
      workspaces in configuration order, and the switch back to the
      workspace focused at the start; then it remembers the snapshot. */
  lemma {:induction false} AppliedCycleOrder(ds: seq<Display>, last: Option<Snapshot>, snap: Snapshot, ans: Answers, h: seq<Request>)
    requires Cycle(ds, last, snap, ans, h).outcome.Applied?
    ensures var num := I3.CurrentWorkspace(ans.workspaces(h + [WorkspacesQuery])).num;
      exists k :: 1 <= k <= Retries
        && Cycle(ds, last, snap, ans, h).trace
          == h + [WorkspacesQuery] + Repeat(XrandrRun(Args(ds, snap)), k)
             + MovePlan(ds, snap) + [CommandRequest(I3.SwitchCommand(num))]
    ensures Cycle(ds, last, snap, ans, h).last == Some(snap)
  {
    var h1 := h + [WorkspacesQuery];
    var x := Retry(ans, h1, Args(ds, snap), Retries);
    RetryBounded(ans, h1, Args(ds, snap), Retries);
    ReconcileIssuesPrefix(ans, x.trace, ds, snap);
    var k := |x.trace| - |h1|;
    assert x.trace == h1 + Repeat(XrandrRun(Args(ds, snap)), k);
  }

  /** A failed workspace move ends the cycle after a non-empty prefix of
      the planned moves: no focus restore, and the remembered snapshot is
      kept. */
  lemma {:induction false} UpdateFailureStopsCycle(ds: seq<Display>, last: Option<Snapshot>, snap: Snapshot, ans: Answers, h: seq<Request>)
    requires Cycle(ds, last, snap, ans, h).outcome.Aborted?
    requires Cycle(ds, last, snap, ans, h).outcome.cause.WorkspaceUpdateFailed?
    ensures exists k, m ::
      && 1 <= k <= Retries && 1 <= m <= |MovePlan(ds, snap)|
      && Cycle(ds, last, snap, ans, h).trace
        == h + [WorkspacesQuery] + Repeat(XrandrRun(Args(ds, snap)), k) + MovePlan(ds, snap)[..m]
    ensures Cycle(ds, last, snap, ans, h).last == last
  {
    var h1 := h + [WorkspacesQuery];
    var x := Retry(ans, h1, Args(ds, snap), Retries);
    RetryBounded(ans, h1, Args(ds, snap), Retries);
    ReconcileIssuesPrefix(ans, x.trace, ds, snap);
    var k := |x.trace| - |h1|;
    var u := Reconcile(ans, x.trace, ds, snap);
    var m := |u.trace| - |x.trace|;
    assert x.trace == h1 + Repeat(XrandrRun(Args(ds, snap)), k);
    assert u.trace == x.trace + MovePlan(ds, snap)[..m];
  }

  /** Once a snapshot has been applied, or found unchanged, a cycle with
      the same snapshot does nothing, whatever happened in between. */
  lemma CycleIdempotent(ds: seq<Display>, last: Option<Snapshot>, snap: Snapshot, ans: Answers, h: seq<Request>, ans2: Answers, h2: seq<Request>)
    requires !Cycle(ds, last, snap, ans, h).outcome.Aborted?
    ensures var r := Cycle(ds, last, snap, ans, h);
      Cycle(ds, r.last, snap, ans2, h2) == CycleRun(h2, Unchanged, r.last)
  {
  }

  /** The kinds of RandR event the subscription delivers. */
  datatype EventKind = ScreenChangeNotify | Notify | OtherEvent

  /** What one `WaitForEvent` returned; `outputs` is what
      `getOutputConfiguration` reads if the event triggers a cycle. */
  datatype Received = Event(kind: EventKind, outputs: Snapshot) | WaitFailed(err: Error)

  /** The trace after the events, the remembered snapshot, and why the
      loop ended the process, if it did. */
  datatype ListenRun = ListenRun(trace: seq<Request>, last: Option<Snapshot>, stop: Option<Fatal>)

  /** The `ListenEvents` loop over the events `rs`: a screen-change
      notification runs a cycle, other events are ignored, and any fatal
      error ends the loop. */
  function Listen(ds: seq<Display>, last: Option<Snapshot>, rs: seq<Received>, ans: Answers, h: seq<Request>): ListenRun
    decreases rs
  {
    if rs == [] then ListenRun(h, last, None)
    else match rs[0]
      case WaitFailed(e) => ListenRun(h, last, Some(EventWaitFailed(e)))
      case Event(kind, snap) =>
        if kind != ScreenChangeNotify then Listen(ds, last, rs[1..], ans, h)
        else
          var c := Cycle(ds, last, snap, ans, h);
          if c.outcome.Aborted? then ListenRun(c.trace, c.last, Some(c.outcome.cause))
          else Listen(ds, c.last, rs[1..], ans, c.trace)
  }

  /** Events other than a screen-change notification cause no request and
      change no state. */
  lemma {:induction false} OtherEventsIgnored(ds: seq<Display>, last: Option<Snapshot>, rs: seq<Received>, ans: Answers, h: seq<Request>)
    requires forall i :: 0 <= i < |rs| ==> rs[i].Event? && rs[i].kind != ScreenChangeNotify
    ensures Listen(ds, last, rs, ans, h) == ListenRun(h, last, None)
    decreases rs
  {
    if rs != [] {
      OtherEventsIgnored(ds, last, rs[1..], ans, h);
    }
  }

  /** Events are handled one after another: handling `rs1 + rs2` is
      handling `rs1`, then, unless that ended the process, `rs2` from the
      resulting state. */
  lemma {:induction false} ListenAppend(ds: seq<Display>, last: Option<Snapshot>, rs1: seq<Received>, rs2: seq<Received>, ans: Answers, h: seq<Request>)
    ensures var a := Listen(ds, last, rs1, ans, h);
      Listen(ds, last, rs1 + rs2, ans, h)
        == if a.stop.Some? then a else Listen(ds, a.last, rs2, ans, a.trace)
    decreases rs1
  {
    if rs1 == [] {
      assert rs1 + rs2 == rs2;
    } else {
      assert (rs1 + rs2)[0] == rs1[0];
      assert (rs1 + rs2)[1..] == rs1[1..] + rs2;
      match rs1[0]
      case WaitFailed(_) =>
      case Event(kind, snap) =>
        if kind != ScreenChangeNotify {
          ListenAppend(ds, last, rs1[1..], rs2, ans, h);
        } else {
          var c := Cycle(ds, last, snap, ans, h);
          if !c.outcome.Aborted? {
            ListenAppend(ds, c.last, rs1[1..], rs2, ans, c.trace);
          }
        }
    }
  }

  /** A second screen-change notification with the same outputs is a
      no-op. */
  lemma RepeatedNotificationIsNoop(ds: seq<Display>, last: Option<Snapshot>, e: Received, rest: seq<Received>, ans: Answers, h: seq<Request>)
    requires e.Event? && e.kind == ScreenChangeNotify
    ensures Listen(ds, last, [e, e] + rest, ans, h) == Listen(ds, last, [e] + rest, ans, h)
  {
  }

  /** RandR's connection states. */
  datatype Connection = ConnectionConnected | ConnectionDisconnected | ConnectionUnknown

  /** The part of a GetOutputInfo reply the snapshot uses. */
  datatype OutputInfo = OutputInfo(name: string, connection: Connection)

  /** No entry after position `i` (and before `n`) has the name of entry `i`. */
  predicate LastWithName(outputs: seq<OutputInfo>, i: int, n: int)
    requires 0 <= i < |outputs| && n <= |outputs|
  {
    forall j :: i < j < n ==> outputs[j].name != outputs[i].name
  }

  /** The map `getOutputConfiguration` fills from the output infos, in
      order: every output name is a key, and a name's value is whether the
      last entry with that name is connected. */
  method GetOutputConfiguration(outputs: seq<OutputInfo>) returns (config: Snapshot)
    ensures config.Keys == set i | 0 <= i < |outputs| :: outputs[i].name
    ensures forall i :: 0 <= i < |outputs| && LastWithName(outputs, i, |outputs|) ==>
      config[outputs[i].name] == (outputs[i].connection == ConnectionConnected)
  {
    config := map[];
    for n := 0 to |outputs|
      invariant config.Keys == set i | 0 <= i < n :: outputs[i].name
      invariant forall i :: 0 <= i < n && LastWithName(outputs, i, n) ==>
        config[outputs[i].name] == (outputs[i].connection == ConnectionConnected)
    {
      ghost var before := config;
      config := config[outputs[n].name := outputs[n].connection == ConnectionConnected];
      forall i | 0 <= i < n + 1 && LastWithName(outputs, i, n + 1)
        ensures config[outputs[i].name] == (outputs[i].connection == ConnectionConnected)
      {
        if i < n {
          assert outputs[n].name != outputs[i].name;
          assert LastWithName(outputs, i, n);
          assert config[outputs[i].name] == before[outputs[i].name];
        }
      }
    }
  }

  /** The argument loop of `Refresh`: one group per configured display,
      in order. */
  method BuildArgs(ds: seq<Display>, snap: Snapshot) returns (args: seq<string>)
    ensures args == Args(ds, snap)
  {
    args := [];
    for i := 0 to |ds|
      invariant args + Args(ds[i..], snap) == Args(ds, snap)
    {
      assert ds[i..][1..] == ds[i + 1..];
      var active := IsDisplayActive(ds[i], snap);
      var group := GetDisplayOptions(ds[i], active);
      assert Args(ds[i..], snap) == group + Args(ds[i + 1..], snap);
      Seqs.AppendAssoc(args, group, Args(ds[i + 1..], snap));
      args := args + group;
    }
    assert ds[|ds|..] == [];
  }

  /** The xrandr loop of `Refresh`: at most `Retries` runs, stopping at the
      first success. */
  method ApplyLayout(host: Host, args: seq<string>) returns (ok: bool)
    modifies host
    ensures Attempts(host.trace, ok) == Retry(host.answers, old(host.trace), args, Retries)
  {
    var retriesLeft := Retries;
    while true
      invariant 1 <= retriesLeft <= Retries
      invariant Retry(host.answers, old(host.trace), args, Retries)
        == Retry(host.answers, host.trace, args, retriesLeft)
      decreases retriesLeft
    {
      ghost var before := host.trace;
      ok := host.ExecXrandr(args);
      if ok {
        return;
      }
      if retriesLeft == 1 {
        assert Retry(host.answers, before, args, 1) == Attempts(host.trace, false);
        return;
      }
      retriesLeft := retriesLeft - 1;
    }
  }

  /** The workspace loop of `Refresh`: `refreshDisplay` for every active
      display, in order, returning the first error. */
  method RefreshDisplays(host: Host, ds: seq<Display>, snap: Snapshot) returns (err: Option<Error>)
    modifies host
    ensures I3.Step(host.trace, err) == Reconcile(host.answers, old(host.trace), ds, snap)
  {
    for i := 0 to |ds|
      invariant Reconcile(host.answers, old(host.trace), ds, snap)
        == Reconcile(host.answers, host.trace, ds[i..], snap)
    {
      assert ds[i..][1..] == ds[i + 1..];
      var active := IsDisplayActive(ds[i], snap);
      if active {
        err := I3.UpdateWorkspaces(host, ds[i]);
        if err.Some? {
          return;
        }
      }
    }
    assert ds[|ds|..] == [];
    err := None;
  }

  /** The `display` package's state: the configured displays and
      `lastOutputConfiguration`, which is None (a nil map, never equal to
      a snapshot) until the first cycle completes. */
  class Autodisplay {
    const displays: seq<Display>
    var last: Option<Snapshot>

    constructor (displays: seq<Display>)
      ensures this.displays == displays && last == None
    {
      this.displays := displays;
      last := None;
    }

    /** `Refresh()` with current snapshot `snap`. */
    method Refresh(snap: Snapshot, host: Host) returns (outcome: Outcome)
      modifies this`last, host
      ensures var r := Cycle(displays, old(last), snap, host.answers, old(host.trace));
        host.trace == r.trace && last == r.last && outcome == r.outcome
    {
      if last == Some(snap) {
        return Unchanged;
      }
      var num, err := I3.GetCurrentWorkspaceNumber(host);
      if err.Some? {
        return Aborted(WorkspaceQueryFailed(err.value));
      }
      var args := BuildArgs(displays, snap);
      var ok := ApplyLayout(host, args);
      if !ok {
        return Aborted(XrandrExhausted);
      }
      err := RefreshDisplays(host, displays, snap);
      if err.Some? {
        return Aborted(WorkspaceUpdateFailed(err.value));
      }
      err := I3.SetCurrentWorkspace(host, num);
      if err.Some? {
        return Aborted(FocusRestoreFailed(err.value));
      }
      last := Some(snap);
      return Applied;
    }

    /** `ListenEvents()` over the events `received`: the real loop blocks
        for ever on the next event; this one ends when the events do. */
    method ListenEvents(received: seq<Received>, host: Host) returns (stop: Option<Fatal>)
      modifies this`last, host
      ensures var r := Listen(displays, old(last), received, host.answers, old(host.trace));
        host.trace == r.trace && last == r.last && stop == r.stop
    {
      for i := 0 to |received|
        invariant Listen(displays, old(last), received, host.answers, old(host.trace))
          == Listen(displays, last, received[i..], host.answers, host.trace)
      {
        assert received[i..][1..] == received[i + 1..];
        match received[i]
        case WaitFailed(e) =>
          return Some(EventWaitFailed(e));
        case Event(kind, outputs) =>
          if kind == ScreenChangeNotify {
            var outcome := Refresh(outputs, host);
            if outcome.Aborted? {
              return Some(outcome.cause);
            }
          }
      }
      assert received[|received|..] == [];
      return None;
    }
  }
}
