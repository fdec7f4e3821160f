/**
 The hardware side of the loop, seen as a sink that accepts or rejects each
 command. Every display and fan call in the loop is followed by `?`, so the
 first rejected command ends the tick and nothing after it is sent.
 */
module Sink {
  import opened Types

  datatype Delivery =
    | Delivered
    | FailedAt(sent: seq<Command>, failed: Command)

  /** Sends `cmds` in order, stopping at the first one the hardware rejects. */
  function Deliver(cmds: seq<Command>, accepts: Command -> bool): (r: Delivery)
    ensures r.Delivered? <==> forall i :: 0 <= i < |cmds| ==> accepts(cmds[i])
    ensures r.FailedAt? ==>
              && |r.sent| < |cmds|
              && r.sent == cmds[..|r.sent|]
              && r.failed == cmds[|r.sent|]
              && !accepts(r.failed)
              && forall i :: 0 <= i < |r.sent| ==> accepts(r.sent[i])
  {
    if |cmds| == 0 then Delivered
    else if !accepts(cmds[0]) then FailedAt([], cmds[0])
    else
      match Deliver(cmds[1..], accepts)
      case Delivered => Delivered
      case FailedAt(sent, failed) => FailedAt([cmds[0]] + sent, failed)
  }
}
