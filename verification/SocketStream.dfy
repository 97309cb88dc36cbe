/** Sending packets to one client at a time over a nonblocking socket: partial
    sends, interrupted calls, a full socket buffer, and an absolute deadline per
    frame. The history of a run records what the program did and sent. */
module SocketStream {
  import opened Bytes
  import opened SocketReplies
  import opened Wrappers

  const INT_MAX: nat := 0x7fff_ffff
  const MILLISECOND: nat := 1_000_000

  // The history of a run -------------------------------------------------------

  /** The calls whose order matters. A send or a wait records its frame's deadline. */
  datatype Call =
    | Clock(now: uint64)
    | Send(frame: nat, deadline: uint64)
    | Wait(deadline: uint64, milliseconds: int)

  /** A client: the number of its first frame, and every byte its socket took. */
  datatype Connection = Connection(first: nat, sent: seq<byte>)

  /** Frames are numbered over the whole run; `pairs` holds the packets of each. */
  datatype History = History(
    calls: seq<Call>, pairs: seq<seq<byte>>, deadlines: seq<uint64>, connections: seq<Connection>)

  /** A send comes right after a clock reading below its frame's deadline. A wait
      does too, and lasts until the deadline, rounded up to a millisecond. */
  ghost predicate TimelyCall(calls: seq<Call>, deadlines: seq<uint64>, k: nat)
    requires k < |calls|
  {
    match calls[k]
    case Clock(_) => true
    case Send(frame, deadline) =>
      && frame < |deadlines| && deadline == deadlines[frame]
      && k > 0 && calls[k - 1].Clock? && calls[k - 1].now < deadline
    case Wait(deadline, milliseconds) =>
      && k > 0 && calls[k - 1].Clock? && calls[k - 1].now < deadline
      && 0 <= milliseconds <= INT_MAX
      && var remaining := deadline - calls[k - 1].now;
      remaining + MILLISECOND <= U64 ==>
        milliseconds > 0 && (milliseconds - 1) * MILLISECOND < remaining
        && (milliseconds == INT_MAX || remaining <= milliseconds * MILLISECOND)
  }

  ghost predicate Timely(calls: seq<Call>, deadlines: seq<uint64>) {
    forall k :: 0 <= k < |calls| ==> TimelyCall(calls, deadlines, k)
  }

  /** The number of the first frame of every client. */
  function Firsts(h: History): (f: seq<nat>)
    ensures |f| == |h.connections| && forall c :: 0 <= c < |f| ==> f[c] == h.connections[c].first
  {
    seq(|h.connections|, c requires 0 <= c < |h.connections| => h.connections[c].first)
  }

  /** The number of the frame after the last one of connection `c`. */
  function LastOf(h: History, c: nat): nat
    requires c < |h.connections|
  {
    if c + 1 < |h.connections| then h.connections[c + 1].first else |h.pairs|
  }

  /** Whole pairs, all of them but perhaps the last, and a prefix of that one. */
  ghost predicate Framed(pairs: seq<seq<byte>>, first: nat, last: nat, sent: seq<byte>) {
    && first <= last <= |pairs|
    && sent <= Concat(pairs[first..last])
    && (first < last ==> Concat(pairs[first..last - 1]) <= sent)
  }

  ghost predicate FramedAt(h: History, c: nat)
    requires c < |h.connections|
  {
    Framed(h.pairs, h.connections[c].first, LastOf(h, c), h.connections[c].sent)
  }

  ghost predicate Legal(h: History) {
    && Timely(h.calls, h.deadlines) && |h.deadlines| == |h.pairs|
    && forall c :: 0 <= c < |h.connections| ==> FramedAt(h, c)
  }

  /** The current client has been sent `done` bytes of the current frame. */
  ghost predicate Midway(h: History, done: nat) {
    && Legal(h) && h.connections != [] && h.pairs != []
    && var (c, n) := (h.connections[|h.connections| - 1], |h.pairs| - 1);
    && c.first <= n && done <= |h.pairs[n]|
    && c.sent == Concat(h.pairs[c.first..n]) + h.pairs[n][..done]
  }

  /** The current client has been sent every frame so far in full. */
  ghost predicate AtRest(h: History) {
    && Legal(h) && h.connections != []
    && var c := h.connections[|h.connections| - 1];
    c.first <= |h.pairs| && c.sent == Concat(h.pairs[c.first..])
  }

  // What the program does to the history ---------------------------------------

  function Opened(h: History): History {
    h.(connections := h.connections + [Connection(|h.pairs|, [])])
  }

  function Begun(h: History, pair: seq<byte>, deadline: uint64): History {
    h.(pairs := h.pairs + [pair], deadlines := h.deadlines + [deadline])
  }

  function Taken(h: History, piece: seq<byte>): History
    requires h.connections != []
  {
    var n := |h.connections| - 1;
    h.(connections := h.connections[..n] + [h.connections[n].(sent := h.connections[n].sent + piece)])
  }

  function Called(h: History, call: Call): History {
    h.(calls := h.calls + [call])
  }

  lemma CalledKeeps(h: History, call: Call, done: nat)
    requires TimelyCall(h.calls + [call], h.deadlines, |h.calls|)
    ensures Legal(h) ==> Legal(Called(h, call))
    ensures AtRest(h) ==> AtRest(Called(h, call))
    ensures Midway(h, done) ==> Midway(Called(h, call), done)
  {
    if Legal(h) {
      forall k | 0 <= k < |h.calls| + 1 ensures TimelyCall(h.calls + [call], h.deadlines, k) {
        assert k < |h.calls| ==> TimelyCall(h.calls, h.deadlines, k);
      }
      forall c | 0 <= c < |h.connections| ensures FramedAt(Called(h, call), c) {
        assert FramedAt(h, c) && LastOf(Called(h, call), c) == LastOf(h, c);
      }
    }
  }

  lemma OpenedRests(h: History)
    requires Legal(h)
    ensures AtRest(Opened(h))
  {
    var o := Opened(h);
    forall c | 0 <= c < |o.connections| ensures FramedAt(o, c) {
      if c < |h.connections| {
        assert FramedAt(h, c);
        assert LastOf(o, c) == LastOf(h, c);
      }
    }
    assert h.pairs[|h.pairs|..] == [];
  }

  lemma OpenedFirsts(h: History)
    ensures Firsts(Opened(h)) == Firsts(h) + [|h.pairs|]
  {
  }

  lemma FramedStill(pairs: seq<seq<byte>>, pair: seq<byte>, first: nat, last: nat, sent: seq<byte>)
    requires Framed(pairs, first, last, sent)
    ensures Framed(pairs + [pair], first, last, sent)
  {
    assert (pairs + [pair])[first..last] == pairs[first..last];
    assert first < last ==> (pairs + [pair])[first..last - 1] == pairs[first..last - 1];
  }

  lemma ConcatGrows(pairs: seq<seq<byte>>, first: nat, n: nat)
    requires first <= n < |pairs|
    ensures Concat(pairs[first..n + 1]) == Concat(pairs[first..n]) + pairs[n]
  {
    assert pairs[first..n + 1][..n - first] == pairs[first..n];
  }

  lemma PartFramed(pairs: seq<seq<byte>>, first: nat, n: nat, done: nat, sent: seq<byte>)
    requires first <= n < |pairs| && done <= |pairs[n]|
    requires sent == Concat(pairs[first..n]) + pairs[n][..done]
    ensures Framed(pairs, first, n + 1, sent)
  {
    ConcatGrows(pairs, first, n);
  }

  lemma BegunStarts(h: History, pair: seq<byte>, deadline: uint64)
    requires AtRest(h)
    ensures Midway(Begun(h, pair, deadline), 0)
  {
    hide Framed, TimelyCall, Concat;
    var b := Begun(h, pair, deadline);
    var n := |h.connections| - 1;
    var (first, sent) := (h.connections[n].first, h.connections[n].sent);
    assert b.pairs[first..|h.pairs|] == h.pairs[first..];
    assert sent == sent + pair[..0] && b.pairs[|h.pairs|][..0] == pair[..0];
    PartFramed(b.pairs, first, |h.pairs|, 0, sent);
    assert FramedAt(b, n);
    forall c | 0 <= c < n ensures FramedAt(b, c) {
      assert FramedAt(h, c);
      FramedStill(h.pairs, pair, h.connections[c].first, LastOf(h, c), h.connections[c].sent);
    }
    forall k | 0 <= k < |b.calls| ensures TimelyCall(b.calls, b.deadlines, k) {
      StillTimely(h.calls, h.deadlines, deadline, k);
    }
  }

  lemma StillTimely(calls: seq<Call>, deadlines: seq<uint64>, deadline: uint64, k: nat)
    requires Timely(calls, deadlines) && k < |calls|
    ensures TimelyCall(calls, deadlines + [deadline], k)
  {
    assert TimelyCall(calls, deadlines, k);
  }

  /** Only the last connection of `t` differs from `h`, in what it was sent. */
  lemma LastSentKeeps(h: History, t: History, sent: seq<byte>)
    requires Legal(h) && h.connections != []
    requires var n := |h.connections| - 1;
      && t == h.(connections := h.connections[..n] + [h.connections[n].(sent := sent)])
      && Framed(h.pairs, h.connections[n].first, |h.pairs|, sent)
    ensures Legal(t)
  {
    var n := |h.connections| - 1;
    forall c | 0 <= c < |t.connections| ensures FramedAt(t, c) {
      if c < n {
        assert FramedAt(h, c);
      }
    }
  }

  lemma TookKeeps(h: History, done: nat, count: nat, piece: seq<byte>)
    requires Midway(h, done) && done + count <= |h.pairs[|h.pairs| - 1]|
    requires piece == h.pairs[|h.pairs| - 1][done..done + count]
    ensures Midway(Taken(h, piece), done + count)
  {
    hide FramedAt, TimelyCall;
    var (n, m) := (|h.connections| - 1, |h.pairs| - 1);
    var (pair, c) := (h.pairs[m], h.connections[n]);
    assert pair[..done + count] == pair[..done] + piece;
    assert c.sent + piece == Concat(h.pairs[c.first..m]) + pair[..done + count];
    PartFramed(h.pairs, c.first, m, done + count, c.sent + piece);
    LastSentKeeps(h, Taken(h, piece), c.sent + piece);
  }

  /** A client in the middle of a frame has not been sent it in full. */
  lemma MidwayIsNotRest(h: History, done: nat)
    requires Midway(h, done) && done < |h.pairs[|h.pairs| - 1]|
    ensures !AtRest(h)
  {
    var m := |h.pairs| - 1;
    var first := h.connections[|h.connections| - 1].first;
    ConcatGrows(h.pairs, first, m);
    assert h.pairs[first..m + 1] == h.pairs[first..];
  }

  lemma MidwayIsLegal(h: History, done: nat)
    requires Midway(h, done)
    ensures Legal(h)
  {
  }

  lemma AtRestIsLegal(h: History)
    requires AtRest(h)
    ensures Legal(h)
  {
  }

  lemma MidwayEnds(h: History)
    requires h.pairs != [] && Midway(h, |h.pairs[|h.pairs| - 1]|)
    ensures AtRest(h)
  {
    var m := |h.pairs| - 1;
    var first := h.connections[|h.connections| - 1].first;
    ConcatGrows(h.pairs, first, m);
    assert h.pairs[first..m + 1] == h.pairs[first..];
    assert h.pairs[m][..|h.pairs[m]|] == h.pairs[m];
  }

  // The program ----------------------------------------------------------------

  /** The calls made, without the bytes they moved: what a clock reading or a wait
      leaves unchanged. */
  ghost predicate SameStream(h: History, t: History) {
    h.pairs == t.pairs && h.deadlines == t.deadlines && h.connections == t.connections
  }

  /** The frames and clients of a run, without what was sent: what a send leaves unchanged. */
  ghost predicate SameFrames(h: History, t: History) {
    h.pairs == t.pairs && h.deadlines == t.deadlines && Firsts(h) == Firsts(t)
  }

  lemma StreamKept(h: History, t: History, done: nat)
    requires SameStream(h, t) && Timely(t.calls, t.deadlines)
    ensures Legal(h) ==> Legal(t)
    ensures AtRest(h) ==> AtRest(t)
    ensures Midway(h, done) ==> Midway(t, done)
  {
    if Legal(h) {
      forall c | 0 <= c < |t.connections| ensures FramedAt(t, c) {
        assert FramedAt(h, c) && LastOf(t, c) == LastOf(h, c);
      }
    }
  }

  lemma TimelyGrows(calls: seq<Call>, deadlines: seq<uint64>, call: Call)
    requires Timely(calls, deadlines) && TimelyCall(calls + [call], deadlines, |calls|)
    ensures Timely(calls + [call], deadlines)
  {
    forall k | 0 <= k < |calls| ensures TimelyCall(calls + [call], deadlines, k) {
      assert TimelyCall(calls, deadlines, k);
    }
  }

  /** The last call was a clock reading below the deadline. */
  ghost predicate JustRead(calls: seq<Call>, deadline: uint64) {
    calls != [] && calls[|calls| - 1].Clock? && calls[|calls| - 1].now < deadline
  }

  /** The timeout of a wait: the time left, rounded up, within 64 and 32 bits. */
  function WaitMilliseconds(now: uint64, deadline: uint64): (ms: nat)
    requires now < deadline
    ensures ms <= 0x7fff_ffff
    ensures var remaining := deadline - now;
      if remaining + 1_000_000 <= U64 then
        ms > 0 && (ms - 1) * 1_000_000 < remaining && (ms == 0x7fff_ffff || remaining <= ms * 1_000_000)
      else ms == 0
  {
    var milliseconds := (deadline - now + 999_999) % U64 / MILLISECOND;
    if milliseconds > INT_MAX then INT_MAX else milliseconds
  }

  /** `bytes` follows the first `start` bytes of the current frame. */
  ghost predicate Current(h: History, bytes: seq<byte>, deadline: uint64, start: nat) {
    && h.pairs != [] && |h.deadlines| == |h.pairs|
    && var n := |h.pairs| - 1;
    start + |bytes| <= |h.pairs[n]| && bytes == h.pairs[n][start..start + |bytes|] && deadline == h.deadlines[n]
  }

  lemma RestIsCurrent(h: History, bytes: seq<byte>, deadline: uint64, start: nat, i: nat)
    requires Current(h, bytes, deadline, start) && i <= |bytes|
    ensures Current(h, bytes[i..], deadline, start + i)
  {
    var pair := h.pairs[|h.pairs| - 1];
    assert bytes[i..] == pair[start + i..start + |bytes|];
  }

  class Socket {
    var script: seq<Reply>
    ghost var history: History

    constructor (replies: seq<Reply>)
      ensures script == replies && history == History([], [], [], []) && Legal(history)
    {
      script := replies;
      history := History([], [], [], []);
    }

    method ReadClock() returns (now: Option<uint64>)
      requires Timely(history.calls, history.deadlines)
      modifies this
      ensures now.None? ==> script == old(script) && history == old(history)
      ensures now.Some? <==> old(script) != []
      ensures now.Some? ==>
                && now.value == old(script)[0].clock && script == old(script)[1..]
                && history == Called(old(history), Clock(now.value))
      ensures Timely(history.calls, history.deadlines)
    {
      if script == [] {
        return None;
      }
      var reply := script[0];
      script := script[1..];
      TimelyGrows(history.calls, history.deadlines, Clock(reply.clock));
      history := Called(history, Clock(reply.clock));
      return Some(reply.clock);
    }

    /** Waits for room in the socket buffer, until the deadline. */
    method WaitWritable(deadline: uint64) returns (status: Status)
      requires Timely(history.calls, history.deadlines)
      modifies this
      ensures Timely(history.calls, history.deadlines) && SameStream(old(history), history)
      ensures Progress(status, 0, script) == Waited(old(script), deadline)
    {
      while true
        invariant Timely(history.calls, history.deadlines) && SameStream(old(history), history)
        invariant Waited(script, deadline) == Waited(old(script), deadline)
        decreases |script|
      {
        ghost var before := script;
        var now := ReadClock();
        if now.None? {
          return Cut;
        }
        if now.value >= deadline {
          return Failed;
        }
        var milliseconds := WaitMilliseconds(now.value, deadline);
        if script == [] {
          return Cut;
        }
        var result := script[0].poll;
        script := script[1..];
        assert script == before[2..] && result == before[1].poll;
        TimelyGrows(history.calls, history.deadlines, Wait(deadline, milliseconds));
        history := Called(history, Wait(deadline, milliseconds));
        match result {
          case PollInterrupted =>
          case PollError => return Failed;
          case Expired => return Failed;
          case Ready(writable, hangup) =>
            if writable {
              return Done;
            }
            if hangup {
              return Failed;
            }
        }
      }
    }

    /** The `send` call: the socket takes at most what it is offered. */
    method SendSome(rest: seq<byte>, deadline: uint64, ghost start: nat) returns (reply: SendReply, sent: nat)
      requires script != [] && Midway(history, start) && Current(history, rest, deadline, start)
      requires JustRead(history.calls, deadline)
      modifies this
      ensures reply == old(script)[0].send && script == old(script)[1..] && sent == Taking(reply, |rest|)
      ensures SameFrames(old(history), history)
      ensures Midway(history, start + sent)
    {
      hide Midway, TimelyCall;
      reply := script[0].send;
      script := script[1..];
      ghost var n := |history.pairs| - 1;
      CalledKeeps(history, Send(n, deadline), start);
      history := Called(history, Send(n, deadline));
      sent := if !reply.Took? then 0 else if reply.count <= |rest| then reply.count else |rest|;
      TookKeeps(history, start, sent, rest[..sent]);
      history := Taken(history, rest[..sent]);
    }

    /** The check before each send: the clock is read, and is below the deadline. */
    method CheckDeadline(deadline: uint64, ghost start: nat) returns (status: Status)
      requires Midway(history, start)
      modifies this
      ensures status == if old(script) == [] then Cut else if old(script)[0].clock >= deadline then Failed
                        else if |old(script)| == 1 then Cut else Done
      ensures script == if old(script) == [] then [] else old(script)[1..]
      ensures SameStream(old(history), history) && Midway(history, start)
      ensures status == Done ==> JustRead(history.calls, deadline)
    {
      var now := ReadClock();
      StreamKept(old(history), history, start);
      status := if now.None? then Cut else if now.value >= deadline then Failed else if script == [] then Cut else Done;
    }

    /** What a send loop does with a reply: `Done` when it goes on. */
    method AfterSend(reply: SendReply, deadline: uint64, ghost start: nat) returns (status: Status)
      requires Midway(history, start)
      modifies this
      ensures Progress(status, 0, script) == After(reply, old(script), deadline)
      ensures SameStream(old(history), history) && Midway(history, start)
    {
      match reply {
        case SendInterrupted =>
          return Done;
        case WouldBlock =>
          status := WaitWritable(deadline);
          StreamKept(old(history), history, start);
        case SendError =>
          return Failed;
        case Took(count) =>
          return if count == 0 then Failed else Done;
      }
    }

    /** One pass of the send loop, after `i` bytes: `Done` when the loop goes on. */
    method SendPass(bytes: seq<byte>, i: nat, count: nat, deadline: uint64, ghost start: nat)
      returns (status: Status, sent: nat)
      requires count > 0 && i + count == |bytes|
      requires Current(history, bytes, deadline, start) && Midway(history, start + i)
      modifies this
      ensures Progress(status, sent, script) == Pass(old(script), count, deadline)
      ensures SameFrames(old(history), history)
      ensures Midway(history, start + i + sent)
    {
      hide Midway, JustRead, After;
      sent := 0;
      status := CheckDeadline(deadline, start + i);
      if status == Done {
        assert script[1..] == old(script)[2..];
        RestIsCurrent(history, bytes, deadline, start, i);
        var reply;
        reply, sent := SendSome(bytes[i..], deadline, start + i);
        status := AfterSend(reply, deadline, start + i + sent);
      }
    }

    /** The same pass, towards the outcome of the whole loop: what is sent by then, and
        what is left. */
    method SendStep(bytes: seq<byte>, i: nat, count: nat, deadline: uint64, ghost start: nat, ghost goal: Progress)
      returns (status: Status, sent: nat, left: nat)
      requires count > 0 && i + count == |bytes|
      requires Current(history, bytes, deadline, start) && Midway(history, start + i)
      requires Towards(goal, i, script, count, deadline)
      modifies this
      ensures sent + left == |bytes| && (status == Done ==> |script| < |old(script)|)
      ensures status != Done ==> goal == Progress(status, sent, script)
      ensures status == Done ==> Towards(goal, sent, script, left, deadline)
      ensures SameFrames(old(history), history)
      ensures Midway(history, start + sent)
    {
      hide Midway, Current, Sent, Pass;
      PassContinues(goal, i, script, count, deadline);
      status, sent := SendPass(bytes, i, count, deadline, start);
      sent, left := i + sent, count - sent;
    }

    /** Sends `bytes`, the part of the current frame after its first `start` bytes.
        Success means the socket took all of them, failure a proper prefix. */
    method SendAll(bytes: seq<byte>, deadline: uint64, ghost start: nat) returns (status: Status, ghost reached: nat)
      requires Midway(history, start) && Current(history, bytes, deadline, start)
      modifies this
      ensures SameFrames(old(history), history)
      ensures start <= reached && Midway(history, reached)
      ensures Progress(status, reached - start, script) == Sent(old(script), |bytes|, deadline)
    {
      hide Midway;
      var i: nat, count: nat := 0, |bytes|;
      ghost var goal := Sent(script, count, deadline);
      while count > 0
        invariant i + count == |bytes| && Midway(history, start + i)
        invariant SameFrames(old(history), history)
        invariant Towards(goal, i, script, count, deadline)
        decreases |script|
      {
        status, i, count := SendStep(bytes, i, count, deadline, start, goal);
        if status != Done {
          return status, start + i;
        }
      }
      return Done, start + i;
    }

    /** Whether the peer has closed or broken the connection. */
    method PeerClosed() returns (closed: Option<bool>)
      modifies this
      ensures history == old(history)
      ensures closed == Peeked(old(script)) && script == AfterPeek(old(script))
    {
      while script != []
        invariant history == old(history)
        invariant Peeked(script) == Peeked(old(script)) && AfterPeek(script) == AfterPeek(old(script))
        decreases |script|
      {
        var reply := script[0].peek;
        script := script[1..];
        match reply {
          case PeekInterrupted =>
          case EndOfStream => return Some(true);
          case PeekError => return Some(true);
          case NothingToRead => return Some(false);
          case Pending => return Some(false);
        }
      }
      return None;
    }
  }
}
