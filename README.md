# i3-autodisplay, modelled in Dafny

i3-autodisplay watches RandR events. On each screen-change event whose
output snapshot differs from the last one applied, it runs `xrandr` with
one argument vector (up to 5 attempts) and moves each active display's
pinned i3 workspaces onto it. Other events are ignored. One reaction,
`Refresh`, runs this pipeline:

1. take a snapshot of the outputs (name → connected);
2. stop if it equals the last snapshot applied;
3. record the focused i3 workspace;
4. decide for each configured display whether it is active: its output is
   connected and none of its `turnOffWhen` peers is;
5. build one argument vector and run `xrandr` with it, at most 5 times;
6. move the pinned workspaces of each active display onto it, in
   configuration order;
7. restore the focused workspace and remember the snapshot.

Any fatal error (`log.Fatalf`) ends the process.

This model also covers three pieces of the vendored i3 client:

- the first-unsuccessful-result check of `RunCommand`;
- the version gate `AtLeast`, with its lazily filled cache;
- the tree searches `FindChild` (pre-order) and `FindFocused` (it follows
  the focus chain).

## Layout

| file | module | contents |
|---|---|---|
| wrappers.dfy | Wrappers | `Option`, `Result` |
| seqs.dfy | Seqs | first-match search over sequences and small sequence lemmas |
| text.dfy | Text | Go's `strings.Split` on one character, `Join`, `%d` formatting and its inverse |
| ipc.dfy | Ipc | i3 IPC records (`CommandResult`, `Workspace`) and the error values |
| command.dfy | Command | `RunCommand`'s result check, `IsUnsuccessful` |
| version.dfy | I3Version | `Version`, the gate rule `Gate`, the `VersionCache` class with `AtLeast` |
| tree.dfy | Tree | `Node`, `FindChild`, `FindFocused`, pre-order and focus-path reference definitions |
| host.dfy | Host | the outside world: a `Host` object that records every request in one trace and answers each one as a function of that trace |
| config.dfy | Config | `Display` as `randr.go` and `i3.go` use it |
| i3.dfy | I3 | `GetCurrentWorkspaceNumber`, `SetCurrentWorkspace`, `UpdateWorkspaces` |
| randr.dfy | Randr | `isDisplayActive`, `getDisplayOptions`, `Refresh`, `ListenEvents`, `getOutputConfiguration`, and the `Autodisplay` class holding `lastOutputConfiguration` |

### How the model is structured

- **Imperative code, checked against pure functions.** The Go code with
  loops and side effects is written as Dafny methods that change a `Host`.
  Each method's postcondition equates the new trace and its results with a
  pure function of the old trace. The methods and their functions are:
  - `GetCurrentWorkspaceNumber` against `CurrentWorkspace`;
  - `UpdateWorkspaces` against `Updates`, which sends the move texts with
    `Sends`, the generic "send in order, stop at the first error" rule;
  - the xrandr loop against `Retry`;
  - the workspace loop against `Reconcile`;
  - `Refresh` against `Cycle`;
  - `ListenEvents` against `Listen`.
- **Properties live on the functions.** Lemmas about these functions state
  the ordering, bound and stop-at-first-failure properties. Every property
  is a statement about a single request trace.
- **Pure Go code stays pure.** `FindChild`, `FindFocused` and the result
  check of `RunCommand` are pure in Go, so they are plain functions here.
  `FindChild` and `FindFocused` are each proved equal to an independent
  reference definition (the pre-order walk and the focus path).
  `RunCommand`'s postcondition states its result directly, case by case.

## Model

| member | source | states |
|---|---|---|
| Randr.Connected | display/randr.go:114-118 | definition of Go's `map[string]bool` read, where a missing name reads as false; its properties are `IsDisplayActive` and `PeerTurnsOff` |
| Randr.IsDisplayActive | display/randr.go:113-123 | a display whose name is absent from the snapshot or mapped to false is never active; otherwise it is active exactly when no `turnOffWhen` peer is connected |
| Randr.Active | display/randr.go:113-123 | definition of the activation rule: the display's output is connected and no `turnOffWhen` peer is; its properties are `IsDisplayActive`, `ActiveIgnoresOrder` and `PeerTurnsOff` |
| Randr.ActiveIgnoresOrder | display/randr.go:117-121 | the verdict depends only on which names `turnOffWhen` lists, not on their order or repetitions |
| Randr.PeerTurnsOff | display/randr.go:117-121 | one connected peer is enough to make the display inactive |
| Randr.GetDisplayOptions | display/randr.go:125-136 | an inactive display gives exactly `--output <name> --off`; an active one gives `--output <name> --auto`; when its extra options are non-empty they follow, split on single spaces, and joining those tokens with a space gives back the option string |
| Randr.Args | display/randr.go:49-53 | definition of the argument vector: each display's option group, in configuration order; its properties are `ArgsAppend`, `ArgsLength` and `BuildArgs` |
| Randr.ArgsAppend | display/randr.go:49-53 | the argument vector of a concatenated configuration is the concatenation of the vectors, in order |
| Randr.ArgsLength | display/randr.go:49-53 | the vector's length is the sum of the group lengths, at least three per display |
| Randr.BuildArgs | display/randr.go:49-53 | the argument loop produces every display's group in configuration order |
| Randr.Retry | display/randr.go:57-73 | definition of the xrandr retry loop: run, stop on success, give up after the last allowed attempt; its properties are `RetryBounded`, `RetrySucceedsIffSomeAttemptDoes` and `ApplyLayout` |
| Randr.RetryBounded | display/randr.go:57-73 | xrandr runs between 1 and 5 times with the same arguments; it stops at the first success; a failed loop ran exactly 5 times; every run before the last one failed |
| Randr.RetrySucceedsIffSomeAttemptDoes | display/randr.go:57-73 | the loop succeeds exactly when one of the allowed attempts succeeds |
| Randr.ApplyLayout | display/randr.go:57-73 | the retry loop with its decrementing counter makes exactly the xrandr runs of `Retry` with 5 attempts and returns its verdict |
| Randr.MovePlan | display/randr.go:75-79 | definition of the planned moves: the move requests of each active display, in configuration order; its properties are `MovePlanOnlyActive` and `ReconcileIssuesPrefix` |
| Randr.Reconcile | display/randr.go:75-79 | definition of the workspace loop: `UpdateWorkspaces` for each active display, stopping at the first failure; its properties are `ReconcileIssuesPrefix`, `ReconcileStopsAtFirstFailure` and `RefreshDisplays` |
| Randr.ReconcileIssuesPrefix | display/randr.go:75-79 | the issued commands are a prefix of the planned moves; they are all of them when no command fails, and at least one when one fails |
| Randr.ReconcileStopsAtFirstFailure | display/randr.go:75-79 | every command before the last one succeeded; a failure is the error of the last command issued, and nothing follows it |
| Randr.MovePlanOnlyActive | display/randr.go:75-79 | every planned move takes a pinned workspace of an active display to that display |
| Randr.RefreshDisplays | display/randr.go:75-79 | the workspace loop visits only active displays, in order, and returns the first error |
| Randr.Cycle | display/randr.go:37-87 | an unchanged snapshot makes no request and keeps `last`; any other snapshot starts with the workspace query; `last` becomes the snapshot only when the whole cycle succeeds |
| Randr.QueryFailureStopsCycle | display/randr.go:44-47 | a failed focused-workspace query ends the cycle right after the query, with no xrandr run, as a workspace-query abort, and `last` is kept |
| Randr.XrandrExhaustionStopsCycle | display/randr.go:68-71 | after 5 failed xrandr runs the cycle ends: no workspace move, no focus restore, and `last` is kept |
| Randr.XrandrSuccessProceeds | display/randr.go:60-66 | a success on any attempt k ≤ 5 lets the cycle go on to the workspace moves |
| Randr.AppliedCycleOrder | display/randr.go:44-86 | a cycle that applies a snapshot makes, in order: the focused-workspace query, 1 to 5 xrandr runs, the planned moves, and the switch back to the recorded workspace; then it remembers the snapshot |
| Randr.UpdateFailureStopsCycle | display/randr.go:138-143 | a failed move ends the cycle after a non-empty prefix of the plan, with no focus restore, and `last` is kept |
| Randr.CycleIdempotent | display/randr.go:38-42 | after a cycle that applies or finds a snapshot, the same snapshot is a no-op whatever happened in between |
| Randr.ExampleDecisions | display/randr.go:113-123 | HDMI2 connected with eDP1 set to turn off when it is: HDMI2 is active and eDP1 is not |
| Randr.ExampleArgs | display/randr.go:49-53 | in that scenario the vector is `--output HDMI2 --auto --output eDP1 --off` |
| Randr.ExampleMoveThree | i3/i3.go:35 | the command that moves workspace 3 to HDMI2 is the text `workspace 3; move workspace to HDMI2` |
| Randr.ExampleMoveFour | i3/i3.go:35 | the command that moves workspace 4 to HDMI2 is the text `workspace 4; move workspace to HDMI2` |
| Randr.ExamplePlan | display/randr.go:75-79 | in that scenario workspaces 3 and 4 move to HDMI2 and eDP1 receives no move |
| Randr.Listen | display/randr.go:100-110 | definition of the event loop: a screen-change notification runs a cycle, other events are skipped, a fatal error ends the loop; its properties are `OtherEventsIgnored`, `ListenAppend`, `RepeatedNotificationIsNoop` and `Autodisplay.ListenEvents` |
| Randr.OtherEventsIgnored | display/randr.go:106-109 | events other than a screen-change notification make no request and change no state |
| Randr.ListenAppend | display/randr.go:100-110 | events are handled one after another; after a fatal error nothing more happens |
| Randr.RepeatedNotificationIsNoop | display/randr.go:106-109 | a second screen-change notification with the same outputs does nothing |
| Randr.GetOutputConfiguration | display/randr.go:145-165 | the map's keys are exactly the output names; each name maps to whether its last output info says connected |
| Randr.Autodisplay.constructor | display/randr.go:18-21 | `lastOutputConfiguration` starts as no snapshot, so the first `Refresh` always proceeds |
| Randr.Autodisplay.Refresh | display/randr.go:37-87 | the requests, the new `lastOutputConfiguration` and the outcome are those of `Cycle` from the old state |
| Randr.Autodisplay.ListenEvents | display/randr.go:100-110 | the requests, the final state and the fatal stop are those of `Listen` from the old state |
| I3.CurrentWorkspace | i3/i3.go:11-24 | a failed query gives -1 and its error; no focused workspace gives -1 and an error; otherwise the result is the number of the first focused workspace |
| I3.GetCurrentWorkspaceNumber | i3/i3.go:11-24 | exactly one workspace query; then the linear search reaches the result of `CurrentWorkspace` |
| I3.SwitchCommand | i3/i3.go:27 | definition of the `workspace %d` text; its property is `SwitchCommandInjective` |
| I3.Switch | i3/i3.go:26-30 | definition of `SetCurrentWorkspace`'s effect: one switch command, whose reply error is returned; its property is `SetCurrentWorkspace` |
| I3.SetCurrentWorkspace | i3/i3.go:26-30 | exactly one command, `workspace <n>`, and its error is returned |
| I3.SwitchCommandInjective | i3/i3.go:27 | different workspace numbers give different `workspace <n>` commands |
| I3.MoveCommand | i3/i3.go:35 | definition of the `workspace %d; move workspace to %s` text; its property is `MoveCommandInjective` |
| I3.Sends | i3/i3.go:33-41 | definition of sending command texts in order and stopping at the first error; its properties are `SendsIssuesPrefix`, `SendsStopsAtFirstFailure` and `SendsFailureIsLastCommand` |
| I3.Updates | i3/i3.go:32-45 | definition of `UpdateWorkspaces`'s effect: `Sends` over the move texts of the pinned workspaces; its properties are `UpdatesIssuesPrefix`, `UpdatesStopsAtFirstFailure`, `UpdatesFailureIsLastCommand` and `UpdateWorkspaces` |
| I3.MoveRequestsInjective | i3/i3.go:33-37 | the move requests of a display determine its pinned workspace list: two different lists never give the same requests |
| I3.UpdatesIssuesPrefix | i3/i3.go:32-45 | the commands are a prefix of the move commands; with no error all were issued; with an error at least one was; an empty list issues nothing and returns nil |
| I3.UpdatesStopsAtFirstFailure | i3/i3.go:37-41 | every command before the last one succeeded, and all of them did when the result is nil |
| I3.UpdatesFailureIsLastCommand | i3/i3.go:39-41 | an error is the error of the last command issued, so no later command follows it |
| I3.MoveCommandInjective | i3/i3.go:35 | two different workspace numbers moved to the same output give different command texts, because the number ends at the `;` |
| I3.SendsIssuesPrefix | i3/i3.go:33-41 | sending command texts one after another issues a prefix of them, in order: all of them when no reply is an error, at least one otherwise |
| I3.SendsStopsAtFirstFailure | i3/i3.go:37-41 | every request before the last one sent was answered without error, and all were when the result is nil |
| I3.SendsFailureIsLastCommand | i3/i3.go:39-41 | an error is the reply error of the last request sent |
| I3.UpdateWorkspaces | i3/i3.go:32-45 | the loop makes the requests and returns the error of `Updates` |
| Text.Split | display/randr.go:129 | `strings.Split` on one character gives one more piece than there are separators, and no piece contains the separator |
| Text.JoinSplit | display/randr.go:129 | joining the pieces of a split with the separator gives back the string |
| Text.SplitJoin | display/randr.go:129 | splitting a join of separator-free pieces gives back the pieces |
| Text.FormatInt | i3/i3.go:27 | definition of the `%d` verb: a minus sign for negative numbers, then the decimal digits; its properties are `ParseFormatInt`, `FormatIntInjective` and `FormatIntChars` |
| Text.ParseFormatInt | i3/i3.go:27 | `%d` formatting of a workspace number can be parsed back to the number |
| Text.FormatIntInjective | i3/i3.go:35 | different numbers give different `%d` texts |
| Tree.FindChild | vendor/go.i3wm.org/i3/tree.go:92-107 | a node satisfying the predicate is returned itself; any result satisfies the predicate |
| Tree.FindChildIn | vendor/go.i3wm.org/i3/tree.go:96-105 | definition of the child loops: the first child whose subtree has a match gives the result; any result satisfies the predicate; its properties are `FindChild` and `FindChildIsFirstInPreorder` |
| Tree.FindChildIsFirstInPreorder | vendor/go.i3wm.org/i3/tree.go:92-107 | the result is the first match of the pre-order walk that visits every tiling child before the floating ones; it is nil exactly when no node of the subtree matches |
| Tree.FocusedChild | vendor/go.i3wm.org/i3/tree.go:132-143 | the child followed has the ID `Focus[0]` and is in `Nodes` or `FloatingNodes`; a match in `Nodes` wins; the result is nil exactly when no child has that ID |
| Tree.FocusPath | vendor/go.i3wm.org/i3/tree.go:109-124 | the focus path starts at the node, follows the focused child at each step, and ends where the focus list is empty or no child has its ID |
| Tree.FindFocused | vendor/go.i3wm.org/i3/tree.go:125-144 | a node satisfying the predicate is returned itself; a node that does not satisfy it and has an empty focus list gives nil; any result satisfies the predicate |
| Tree.FindFocusedIsFirstOnFocusPath | vendor/go.i3wm.org/i3/tree.go:109-144 | the result is the first node on the focus path that satisfies the predicate, so any result lies on that path |
| Command.RunCommand | vendor/go.i3wm.org/i3/v4/command.go:45-64 | a failed round trip gives no results and its error; a decoding error is passed through; the error is nil exactly when decoding succeeded and every result succeeded; otherwise it carries the command and the first unsuccessful result |
| Command.IsUnsuccessful | vendor/go.i3wm.org/i3/v4/command.go:21-24 | definition: the error is a command-unsuccessful error; its property is `UnsuccessfulExactly` |
| Command.UnsuccessfulExactly | vendor/go.i3wm.org/i3/v4/command.go:21-24 | `IsUnsuccessful` holds for a decoded reply exactly when some result failed, and the error carries the command |
| Command.DecodeErrorPassesThrough | vendor/go.i3wm.org/i3/v4/command.go:51-63 | a decoding error is returned unchanged, without the success scan |
| I3Version.Compare | vendor/go.i3wm.org/i3/v4/version.go:53-61 | a non-empty variant passes; a failure is "too old" with the cached and the wanted versions |
| I3Version.Gate | vendor/go.i3wm.org/i3/v4/version.go:42-62 | major 0 always fails and leaves the cache alone; a filled cache is kept; an unset cache takes the fetched version; a fetch error is returned as it is; otherwise the result is nil exactly when the variant is non-empty, or the major matches and the minor is at least the one wanted |
| I3Version.FilledCacheIgnoresFetch | vendor/go.i3wm.org/i3/v4/version.go:46-52 | once the cache holds a version the fetch is never consulted |
| I3Version.OtherMajorFails | vendor/go.i3wm.org/i3/v4/version.go:57-61 | without a variant a different major fails, even a newer one |
| I3Version.VariantPasses | vendor/go.i3wm.org/i3/v4/version.go:53-56 | a non-empty variant passes every nonzero major |
| I3Version.GateMonotone | vendor/go.i3wm.org/i3/v4/version.go:57 | passing a gate passes every lower minor of the same major |
| I3Version.VersionCache.constructor | vendor/go.i3wm.org/i3/v4/version.go:35-37 | the package-level `version` starts as the zero `Version`, so the first `AtLeast` with a nonzero major fetches it |
| I3Version.VersionCache.AtLeast | vendor/go.i3wm.org/i3/v4/version.go:41-62 | the new cache and the returned error are those of `Gate` from the old cache |
| Host.Host.QueryWorkspaces | vendor/go.i3wm.org/i3/workspaces.go:21-30 | one workspace query is appended to the trace and answered |
| Host.Host.RoundTrip | vendor/go.i3wm.org/i3/v4/command.go:46 | one command request is appended to the trace and answered |
| Host.Host.ExecXrandr | display/randr.go:62-63 | one xrandr run is appended to the trace and answered |

## Left out

- X11 and RandR access is not modelled: `init`, `SelectInput`, the blocking
  `WaitForEvent`, and the screen-resource and output-info queries in
  `getOutputConfiguration`.
  - The snapshot, the output infos and the events are inputs.
  - A failing X query inside `getOutputConfiguration` is not modelled.
  - A failing `WaitForEvent` is an input event that ends the loop.
- Randr.Autodisplay.ListenEvents: the Go loop never ends; the model handles
  a finite sequence of events and returns when they run out.
- The `xrandr` process is reduced to one success or failure per attempt.
  Its output, the logging and the one-second sleep between attempts are
  not modelled.
- Logging is not modelled anywhere: neither `log.Println(command)` before
  each workspace move (i3/i3.go:36) nor the messages of `log.Fatalf`,
  which appear only as the cause of an aborted cycle.
- Configuration loading (YAML, flags, environment) is not modelled. The
  display list is a given, immutable sequence.
- Transport errors (`Command.RoundTripFailed`, a failed workspace query)
  are unconstrained values of the error datatype. They stand for the
  socket errors and for the `AtLeast` gate that each request passes
  first (vendor/go.i3wm.org/i3/v4/socket.go:166-170). Because they are
  unconstrained, the model lets a transport failure carry a
  command-unsuccessful error, which Go's `roundTrip` never returns.
- The i3 socket, the subscription machinery, the byte-order handshake, the
  PID helpers and the thin JSON wrappers are not modelled. The i3 replies
  are functions of the request trace (`Host.Answers`).
- JSON decoding is an input: a reply arrives as decoded results plus an
  optional decoding error.
- Error messages are values of one datatype. The text that `Error()` would
  format is not modelled.
- Workspace numbers and versions are unbounded integers. Go's `int64`
  overflow cannot arise in these operations, which only compare and
  print the numbers.
- `Node` keeps only the fields the searches read. Geometry, `Percent` and
  the other fields are omitted.
- Tree.FindChild and Tree.FindFocused return a node value, not a pointer.
  Two equal subtrees are therefore indistinguishable.
- `i3/i3.go` imports `go.i3wm.org/i3`.
  - That package's own `command.go` is not part of this model.
  - `RunCommand` is modelled from the `v4` copy in the vendor tree.
- `refreshDisplay` (display/randr.go:138-143) is inlined into the workspace
  loop of `Refresh`. Its `log.Fatalf` is the `WorkspaceUpdateFailed` abort.
- The calls of `Refresh` are split into `BuildArgs`, `ApplyLayout` and
  `RefreshDisplays`, one for each loop.
