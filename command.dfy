/** The result check of the i3 client's `RunCommand`: a reply is a list of
    command results, and the call fails with the first unsuccessful one. */
module Command {
  import opened Wrappers
  import opened Ipc
  import Seqs

  /** What one RUN_COMMAND round trip produced: a transport failure, or a
      reply payload decoded into `crs`. `decodeErr` is the error of the JSON
      decoding, which may have filled part of `crs` before failing. */
  datatype Exchange =
    | RoundTripFailed(err: Error)
    | Replied(crs: seq<CommandResult>, decodeErr: Option<Error>)

  /** What `RunCommand` returns: the results and the error (nil = None). */
  datatype Reply = Reply(results: seq<CommandResult>, err: Option<Error>)

  predicate Failed(cr: CommandResult) { !cr.success }

  /** `IsUnsuccessful(err)`: the error is a `*CommandUnsuccessfulError`. */
  predicate IsUnsuccessful(err: Option<Error>)
  {
    err.Some? && err.value.CommandUnsuccessful?
  }

  /** `RunCommand(command)` once the round trip has produced `ex`. */
  function RunCommand(command: string, ex: Exchange): (r: Reply)
    ensures ex.RoundTripFailed? ==> r == Reply([], Some(ex.err))
    ensures ex.Replied? ==> r.results == ex.crs
    ensures ex.Replied? && ex.decodeErr.Some? ==> r.err == ex.decodeErr
    ensures r.err.None? <==>
      ex.Replied? && ex.decodeErr.None? && forall j :: 0 <= j < |ex.crs| ==> ex.crs[j].success
    ensures ex.Replied? && ex.decodeErr.None? && r.err.Some? ==>
      exists i :: 0 <= i < |ex.crs| && !ex.crs[i].success
        && (forall j :: 0 <= j < i ==> ex.crs[j].success)
        && r.err == Some(CommandUnsuccessful(command, ex.crs[i]))
  {
    match ex
    case RoundTripFailed(e) => Reply([], Some(e))
    case Replied(crs, decodeErr) =>
      if decodeErr.Some? then Reply(crs, decodeErr)
      else match Seqs.FirstIndex(crs, Failed)
        case None => Reply(crs, None)
        case Some(i) => Reply(crs, Some(CommandUnsuccessful(command, crs[i])))
  }

  /** `IsUnsuccessful` recognises exactly the failures of a decoded reply
      that reports an unsuccessful command; every other error (transport,
      decoding) is passed through unchanged and, being produced elsewhere,
      is whatever the transport made it. */
  lemma UnsuccessfulExactly(command: string, crs: seq<CommandResult>)
    ensures IsUnsuccessful(RunCommand(command, Replied(crs, None)).err)
        <==> exists i :: 0 <= i < |crs| && !crs[i].success
    ensures IsUnsuccessful(RunCommand(command, Replied(crs, None)).err) ==>
        RunCommand(command, Replied(crs, None)).err.value.command == command
  {
  }

  /** A decoding error is returned as it is, whatever the results say. */
  lemma DecodeErrorPassesThrough(command: string, crs: seq<CommandResult>, e: Error)
    ensures RunCommand(command, Replied(crs, Some(e))) == Reply(crs, Some(e))
  {
  }
}
