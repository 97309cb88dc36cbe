/** What the kernel and the clock answer, and what the socket loops make of every
    sequence of answers: a script of replies, one for each call. */
module SocketReplies {
  import opened Bytes
  import opened Wrappers

  // Replies --------------------------------------------------------------------

  datatype SendReply = SendInterrupted | WouldBlock | SendError | Took(count: nat)
  datatype PollReply = PollInterrupted | PollError | Expired | Ready(writable: bool, hangup: bool)
  datatype PeekReply = PeekInterrupted | EndOfStream | NothingToRead | PeekError | Pending
  datatype AcceptReply = AcceptInterrupted | AcceptError | Connected(configured: bool)

  /** What the next call gets, whichever call it is. */
  datatype Reply = Reply(
    clock: uint64, send: SendReply, poll: PollReply, peek: PeekReply, accept: AcceptReply)

  /** How an operation ended; `Cut` when the script did first. */
  datatype Status = Done | Failed | Cut

  // The loops as functions of the script ------------------------------------------

  /** The outcome of a loop: what was sent, and the replies left. */
  datatype Progress = Progress(status: Status, sent: nat, rest: seq<Reply>)

  /** Waiting for room: each pass reads the clock and polls. */
  function Waited(script: seq<Reply>, deadline: uint64): (p: Progress)
    ensures |p.rest| <= |script| && p.sent == 0
    decreases |script|
  {
    if script == [] then Progress(Cut, 0, script)
    else if script[0].clock >= deadline then Progress(Failed, 0, script[1..])
    else if |script| == 1 then Progress(Cut, 0, [])
    else
      match script[1].poll
      case PollInterrupted => Waited(script[2..], deadline)
      case PollError => Progress(Failed, 0, script[2..])
      case Expired => Progress(Failed, 0, script[2..])
      case Ready(writable, hangup) =>
        if writable then Progress(Done, 0, script[2..])
        else if hangup then Progress(Failed, 0, script[2..])
        else Waited(script[2..], deadline)
  }

  /** What a send loop does with a reply; `Done` when it goes on. */
  function After(reply: SendReply, script: seq<Reply>, deadline: uint64): (p: Progress)
    ensures |p.rest| <= |script| && p.sent == 0
  {
    match reply
    case SendInterrupted => Progress(Done, 0, script)
    case WouldBlock => Waited(script, deadline)
    case SendError => Progress(Failed, 0, script)
    case Took(count) => Progress(if count == 0 then Failed else Done, 0, script)
  }

  /** What a reply takes of `count` bytes offered. */
  function Taking(reply: SendReply, count: nat): (n: nat)
    ensures n <= count
  {
    if !reply.Took? then 0 else if reply.count <= count then reply.count else count
  }

  /** One pass of the send loop. */
  function Pass(script: seq<Reply>, count: nat, deadline: uint64): (p: Progress)
    ensures |p.rest| <= |script| && p.sent <= count
    ensures p.status == Done ==> |p.rest| < |script|
    ensures p.status != Done ==> p.sent == 0
  {
    if script == [] then Progress(Cut, 0, script)
    else if script[0].clock >= deadline then Progress(Failed, 0, script[1..])
    else if |script| == 1 then Progress(Cut, 0, [])
    else After(script[1].send, script[2..], deadline).(sent := Taking(script[1].send, count))
  }

  /** Sending `count` bytes. */
  function Sent(script: seq<Reply>, count: nat, deadline: uint64): (p: Progress)
    ensures |p.rest| <= |script| && p.sent <= count
    ensures p.status == Done <==> p.sent == count
    decreases |script|
  {
    if count == 0 then Progress(Done, 0, script)
    else
      var p := Pass(script, count, deadline);
      if p.status != Done then p
      else
        var q := Sent(p.rest, count - p.sent, deadline);
        q.(sent := p.sent + q.sent)
  }

  /** After `done` bytes, sending `count` more leads to the whole outcome. */
  predicate Towards(whole: Progress, done: nat, script: seq<Reply>, count: nat, deadline: uint64) {
    var p := Sent(script, count, deadline);
    whole == Progress(p.status, done + p.sent, p.rest)
  }

  lemma PassContinues(whole: Progress, done: nat, script: seq<Reply>, count: nat, deadline: uint64)
    requires count > 0 && Towards(whole, done, script, count, deadline)
    ensures var p := Pass(script, count, deadline);
      && (p.status != Done ==> whole == Progress(p.status, done, p.rest))
      && (p.status == Done ==> Towards(whole, done + p.sent, p.rest, count - p.sent, deadline))
  {
  }

  /** Peeking at the connection; no value when the script ends first. */
  function Peeked(script: seq<Reply>): Option<bool> {
    if script == [] then None
    else
      match script[0].peek
      case PeekInterrupted => Peeked(script[1..])
      case EndOfStream => Some(true)
      case PeekError => Some(true)
      case NothingToRead => Some(false)
      case Pending => Some(false)
  }

  function AfterPeek(script: seq<Reply>): (rest: seq<Reply>)
    ensures |rest| <= |script| && (Peeked(script).Some? ==> |rest| < |script|)
  {
    if script == [] then [] else if script[0].peek.PeekInterrupted? then AfterPeek(script[1..]) else script[1..]
  }

  // What makes sending fail, and what makes it succeed ------------------------------

  /** A reply that can end a send: a late clock, an error, or a peer that is gone. */
  predicate Adverse(r: Reply, deadline: uint64) {
    || r.clock >= deadline || r.send.SendError? || r.send == Took(0)
    || r.poll.PollError? || r.poll.Expired? || (r.poll.Ready? && r.poll.hangup && !r.poll.writable)
  }

  predicate Fair(script: seq<Reply>, deadline: uint64) {
    forall k :: 0 <= k < |script| ==> !Adverse(script[k], deadline)
  }

  lemma FairTail(script: seq<Reply>, deadline: uint64)
    requires Fair(script, deadline) && |script| >= 2
    ensures Fair(script[2..], deadline) && !Adverse(script[0], deadline) && !Adverse(script[1], deadline)
  {
  }

  lemma {:induction false} WaitFailsForCause(script: seq<Reply>, deadline: uint64)
    requires Fair(script, deadline)
    ensures Waited(script, deadline).status != Failed && Fair(Waited(script, deadline).rest, deadline)
    decreases |script|
  {
    if |script| >= 2 {
      FairTail(script, deadline);
      WaitFailsForCause(script[2..], deadline);
    }
  }

  lemma PassFailsForCause(script: seq<Reply>, count: nat, deadline: uint64)
    requires Fair(script, deadline)
    ensures Pass(script, count, deadline).status != Failed && Fair(Pass(script, count, deadline).rest, deadline)
  {
    hide Waited;
    if |script| >= 2 {
      FairTail(script, deadline);
      WaitFailsForCause(script[2..], deadline);
    }
  }

  /** Sending fails only for a cause: interrupted calls, full buffers and partial sends
      alone never make it fail. */
  lemma {:induction false} SendFailsForCause(script: seq<Reply>, count: nat, deadline: uint64)
    requires Fair(script, deadline)
    ensures Sent(script, count, deadline).status != Failed
    decreases |script|
  {
    hide Pass, Fair;
    if count > 0 {
      var p := Pass(script, count, deadline);
      PassFailsForCause(script, count, deadline);
      if p.status == Done {
        SendFailsForCause(p.rest, count - p.sent, deadline);
      }
    }
  }

  /** However little each send takes, enough of them before the deadline send all. */
  lemma {:induction false} SteadyProgressSuffices(script: seq<Reply>, count: nat, deadline: uint64)
    requires |script| >= 2 * count
    requires forall k :: 0 <= k < |script| ==>
               script[k].clock < deadline && script[k].send.Took? && script[k].send.count > 0
    ensures Sent(script, count, deadline).status == Done
    decreases count
  {
    if count > 0 {
      var p := Pass(script, count, deadline);
      assert p.rest == script[2..] && p.sent > 0;
      assert forall k :: 0 <= k < |p.rest| ==> p.rest[k] == script[k + 2];
      SteadyProgressSuffices(p.rest, count - p.sent, deadline);
    }
  }
}
