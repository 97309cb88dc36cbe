/** How a wait, a send and a peek end, told by the replies they get: the loops as
    relations between what was answered and what came of it. */
module SocketOutcomes {
  import opened Bytes
  import opened SocketReplies
  import opened Wrappers

  // Waiting ------------------------------------------------------------------------

  /** A poll that reports nothing. */
  predicate NoNews(p: PollReply) {
    p == PollInterrupted || p == Ready(false, false)
  }

  ghost predicate QuietPass(s: seq<Reply>, k: nat, deadline: uint64) {
    2 * k + 1 < |s| && s[2 * k].clock < deadline && NoNews(s[2 * k + 1].poll)
  }

  /** Each of the first `n` passes of a wait is in time and reports nothing. */
  ghost predicate Waiting(s: seq<Reply>, n: nat, deadline: uint64) {
    forall k: nat :: k < n ==> QuietPass(s, k, deadline)
  }

  /** Pass `n` finds room. */
  ghost predicate Room(s: seq<Reply>, n: nat, deadline: uint64) {
    && 2 * n + 1 < |s| && s[2 * n].clock < deadline
    && (s[2 * n + 1].poll == Ready(true, false) || s[2 * n + 1].poll == Ready(true, true))
  }

  ghost predicate Late(s: seq<Reply>, n: nat, deadline: uint64) {
    2 * n < |s| && s[2 * n].clock >= deadline
  }

  /** Pass `n` is in time, and ends the wait: an error, no time left, or a hangup. */
  ghost predicate Broken(s: seq<Reply>, n: nat, deadline: uint64) {
    && 2 * n + 1 < |s| && s[2 * n].clock < deadline
    && (s[2 * n + 1].poll == PollError || s[2 * n + 1].poll == Expired || s[2 * n + 1].poll == Ready(false, true))
  }

  lemma NextPass(s: seq<Reply>, n: nat, deadline: uint64)
    requires |s| >= 2
    ensures QuietPass(s[2..], n, deadline) == QuietPass(s, n + 1, deadline)
    ensures Room(s[2..], n, deadline) == Room(s, n + 1, deadline)
    ensures Late(s[2..], n, deadline) == Late(s, n + 1, deadline)
    ensures Broken(s[2..], n, deadline) == Broken(s, n + 1, deadline)
  {
  }

  lemma WaitingOn(s: seq<Reply>, n: nat, deadline: uint64)
    requires |s| >= 2
    ensures Waiting(s, n + 1, deadline) <==> QuietPass(s, 0, deadline) && Waiting(s[2..], n, deadline)
  {
    hide QuietPass;
    forall k: nat ensures QuietPass(s[2..], k, deadline) == QuietPass(s, k + 1, deadline) {
      NextPass(s, k, deadline);
    }
    if QuietPass(s, 0, deadline) && Waiting(s[2..], n, deadline) {
      forall k: nat | k < n + 1 ensures QuietPass(s, k, deadline) {
        if k > 0 {
          assert QuietPass(s[2..], k - 1, deadline);
        }
      }
    }
    if Waiting(s, n + 1, deadline) {
      assert QuietPass(s, 0, deadline);
      forall k: nat | k < n ensures QuietPass(s[2..], k, deadline) {
        assert QuietPass(s, k + 1, deadline);
      }
    }
  }

  /** What follows `n` passes without a report decides the wait. */
  lemma {:induction false} WaitEnds(s: seq<Reply>, n: nat, deadline: uint64)
    requires Waiting(s, n, deadline)
    ensures Room(s, n, deadline) ==> Waited(s, deadline) == Progress(Done, 0, s[2 * n + 2..])
    ensures Late(s, n, deadline) ==> Waited(s, deadline) == Progress(Failed, 0, s[2 * n + 1..])
    ensures Broken(s, n, deadline) ==> Waited(s, deadline) == Progress(Failed, 0, s[2 * n + 2..])
    decreases n
  {
    if n > 0 {
      assert QuietPass(s, 0, deadline);
      WaitingOn(s, n - 1, deadline);
      NextPass(s, n - 1, deadline);
      WaitEnds(s[2..], n - 1, deadline);
    }
  }

  /** How many passes a wait makes before the one that decides it. */
  lemma {:induction false} WaitDecided(s: seq<Reply>, deadline: uint64) returns (n: nat)
    requires Waited(s, deadline).status != Cut
    ensures Waiting(s, n, deadline)
    ensures Room(s, n, deadline) || Late(s, n, deadline) || Broken(s, n, deadline)
    decreases |s|
  {
    n := 0;
    if QuietPass(s, 0, deadline) {
      n := WaitDecided(s[2..], deadline);
      WaitingOn(s, n, deadline);
      NextPass(s, n, deadline);
      n := n + 1;
    }
  }

  /** A wait succeeds exactly when, after passes that report nothing, one finds room,
      and fails exactly when one is late or finds the connection broken. */
  lemma WaitedIff(s: seq<Reply>, deadline: uint64)
    ensures Waited(s, deadline).status == Done <==> exists n: nat :: Waiting(s, n, deadline) && Room(s, n, deadline)
    ensures Waited(s, deadline).status == Failed <==>
            exists n: nat :: Waiting(s, n, deadline) && (Late(s, n, deadline) || Broken(s, n, deadline))
  {
    hide Waited, Waiting;
    forall n: nat | Waiting(s, n, deadline) && (Room(s, n, deadline) || Late(s, n, deadline) || Broken(s, n, deadline))
      ensures Waited(s, deadline).status == if Room(s, n, deadline) then Done else Failed
    {
      WaitEnds(s, n, deadline);
    }
    if Waited(s, deadline).status != Cut {
      var n := WaitDecided(s, deadline);
    }
  }

  // Sending ------------------------------------------------------------------------

  /** One send, with `left` bytes to go: it is in time, and afterwards there are `left'`
      to go and the replies `t`. */
  ghost predicate SendsTo(s: seq<Reply>, left: nat, t: seq<Reply>, left': nat, deadline: uint64) {
    && |s| >= 2 && s[0].clock < deadline && left > 0
    && match s[1].send
       case SendInterrupted => t == s[2..] && left' == left
       case Took(n) => n > 0 && t == s[2..] && left' == if n >= left then 0 else left - n
       case WouldBlock =>
         && left' == left
         && exists n: nat :: Waiting(s[2..], n, deadline) && Room(s[2..], n, deadline) && t == s[2 * n + 4..]
       case SendError => false
  }

  /** A send that ends in failure, and the replies left. */
  ghost predicate Breaks(s: seq<Reply>, left: nat, t: seq<Reply>, deadline: uint64) {
    && left > 0 && s != []
    && if s[0].clock >= deadline then t == s[1..]
       else
         && |s| >= 2
         && match s[1].send
            case SendError => t == s[2..]
            case Took(n) => n == 0 && t == s[2..]
            case WouldBlock =>
              exists n: nat :: Waiting(s[2..], n, deadline)
                && ((Late(s[2..], n, deadline) && t == s[2 * n + 3..])
                    || (Broken(s[2..], n, deadline) && t == s[2 * n + 4..]))
            case SendInterrupted => false
  }

  lemma OnePass(s: seq<Reply>, left: nat, t: seq<Reply>, left': nat, deadline: uint64)
    requires SendsTo(s, left, t, left', deadline)
    ensures left' <= left && Pass(s, left, deadline) == Progress(Done, left - left', t)
  {
    hide Waiting, Waited;
    if s[1].send == WouldBlock {
      var n: nat :| Waiting(s[2..], n, deadline) && Room(s[2..], n, deadline) && t == s[2 * n + 4..];
      WaitEnds(s[2..], n, deadline);
      RoomInside(s[2..], n, deadline);
      assert s[2..][2 * n + 2..] == t;
    }
  }

  lemma OneSend(s: seq<Reply>, left: nat, t: seq<Reply>, left': nat, deadline: uint64)
    requires SendsTo(s, left, t, left', deadline)
    ensures left' <= left && left > 0
    ensures var (p, q) := (Sent(s, left, deadline), Sent(t, left', deadline));
      p == Progress(q.status, left - left' + q.sent, q.rest)
  {
    hide Pass;
    OnePass(s, left, t, left', deadline);
    assert left > 0;
    hide SendsTo;
  }

  lemma RoomInside(s: seq<Reply>, n: nat, deadline: uint64)
    requires Room(s, n, deadline)
    ensures 2 * n + 2 <= |s|
  {
  }

  lemma FailedPass(s: seq<Reply>, left: nat, t: seq<Reply>, deadline: uint64)
    requires Breaks(s, left, t, deadline)
    ensures Pass(s, left, deadline) == Progress(Failed, 0, t)
  {
    hide Waiting, Waited;
    if s[0].clock < deadline && s[1].send == WouldBlock {
      var n: nat :| Waiting(s[2..], n, deadline)
        && ((Late(s[2..], n, deadline) && t == s[2 * n + 3..]) || (Broken(s[2..], n, deadline) && t == s[2 * n + 4..]));
      WaitEnds(s[2..], n, deadline);
      EndInside(s[2..], n, deadline);
      if Late(s[2..], n, deadline) {
        assert s[2..][2 * n + 1..] == s[2 * n + 3..];
      } else {
        assert s[2..][2 * n + 2..] == s[2 * n + 4..];
      }
    }
  }

  lemma EndInside(s: seq<Reply>, n: nat, deadline: uint64)
    ensures Late(s, n, deadline) ==> 2 * n + 1 <= |s|
    ensures Broken(s, n, deadline) ==> 2 * n + 2 <= |s|
  {
  }

  lemma FailedSend(s: seq<Reply>, left: nat, t: seq<Reply>, deadline: uint64)
    requires Breaks(s, left, t, deadline)
    ensures Sent(s, left, deadline) == Progress(Failed, 0, t)
  {
    hide Pass;
    FailedPass(s, left, t, deadline);
    assert left > 0;
    hide Breaks;
  }

  /** Sends one after another. */
  ghost predicate Sends(scripts: seq<seq<Reply>>, lefts: seq<nat>, deadline: uint64) {
    && |scripts| == |lefts| > 0
    && forall i :: 0 <= i < |scripts| - 1 ==> SendsTo(scripts[i], lefts[i], scripts[i + 1], lefts[i + 1], deadline)
  }

  lemma {:induction false} SendsAdd(scripts: seq<seq<Reply>>, lefts: seq<nat>, deadline: uint64)
    requires Sends(scripts, lefts, deadline)
    ensures var n := |lefts| - 1;
      && lefts[n] <= lefts[0]
      && var (p, q) := (Sent(scripts[0], lefts[0], deadline), Sent(scripts[n], lefts[n], deadline));
      p == Progress(q.status, lefts[0] - lefts[n] + q.sent, q.rest)
    decreases |lefts|
  {
    hide SendsTo, Sent;
    if |lefts| > 1 {
      OneSend(scripts[0], lefts[0], scripts[1], lefts[1], deadline);
      SendsAdd(scripts[1..], lefts[1..], deadline);
    }
  }

  lemma PassIsSend(s: seq<Reply>, left: nat, deadline: uint64) returns (t: seq<Reply>, left': nat)
    requires left > 0 && Pass(s, left, deadline).status == Done
    ensures SendsTo(s, left, t, left', deadline) && |t| < |s|
  {
    hide Waited, Waiting;
    var p := Pass(s, left, deadline);
    t, left' := p.rest, left - p.sent;
    if s[1].send == WouldBlock {
      var n := WaitDecided(s[2..], deadline);
      WaitEnds(s[2..], n, deadline);
      assert s[2..][2 * n + 2..] == s[2 * n + 4..];
    }
  }

  lemma PassBreaks(s: seq<Reply>, left: nat, deadline: uint64)
    requires left > 0 && Pass(s, left, deadline).status == Failed
    ensures Breaks(s, left, Pass(s, left, deadline).rest, deadline)
  {
    hide Waited, Waiting;
    if s[0].clock < deadline && s[1].send == WouldBlock {
      var n := WaitDecided(s[2..], deadline);
      WaitEnds(s[2..], n, deadline);
      if Late(s[2..], n, deadline) {
        assert s[2..][2 * n + 1..] == s[2 * n + 3..];
      } else {
        assert s[2..][2 * n + 2..] == s[2 * n + 4..];
      }
    }
  }

  lemma SendsFirst(s: seq<Reply>, left: nat, scripts: seq<seq<Reply>>, lefts: seq<nat>, deadline: uint64)
    requires Sends(scripts, lefts, deadline) && SendsTo(s, left, scripts[0], lefts[0], deadline)
    ensures Sends([s] + scripts, [left] + lefts, deadline)
  {
    hide SendsTo;
  }

  lemma {:induction false} SendsOf(s: seq<Reply>, count: nat, deadline: uint64)
    returns (scripts: seq<seq<Reply>>, lefts: seq<nat>)
    requires Sent(s, count, deadline).status != Cut
    ensures Sends(scripts, lefts, deadline) && scripts[0] == s && lefts[0] == count
    ensures var n := |lefts| - 1;
      if Sent(s, count, deadline).status == Done then lefts[n] == 0
      else Breaks(scripts[n], lefts[n], Sent(s, count, deadline).rest, deadline)
    decreases |s|
  {
    hide SendsTo, Breaks, Pass;
    scripts, lefts := [s], [count];
    if count > 0 {
      var p := Pass(s, count, deadline);
      if p.status == Done {
        var t, left := PassIsSend(s, count, deadline);
        OneSend(s, count, t, left, deadline);
        scripts, lefts := SendsOf(t, left, deadline);
        SendsFirst(s, count, scripts, lefts, deadline);
        scripts, lefts := [s] + scripts, [count] + lefts;
      } else {
        PassBreaks(s, count, deadline);
      }
    }
  }

  /** Some sends lead from one script and count to another. */
  ghost predicate Reaches(s: seq<Reply>, count: nat, t: seq<Reply>, left: nat, deadline: uint64) {
    exists scripts, lefts ::
      && Sends(scripts, lefts, deadline) && scripts[0] == s && lefts[0] == count
      && scripts[|scripts| - 1] == t && lefts[|lefts| - 1] == left
  }

  lemma ReachedAdds(s: seq<Reply>, count: nat, t: seq<Reply>, left: nat, deadline: uint64)
    requires Reaches(s, count, t, left, deadline)
    ensures left <= count
    ensures var (p, q) := (Sent(s, count, deadline), Sent(t, left, deadline));
      p == Progress(q.status, count - left + q.sent, q.rest)
  {
    hide SendsTo, Sent;
    var scripts, lefts :|
      && Sends(scripts, lefts, deadline) && scripts[0] == s && lefts[0] == count
      && scripts[|scripts| - 1] == t && lefts[|lefts| - 1] == left;
    SendsAdd(scripts, lefts, deadline);
  }

  lemma SentReaches(s: seq<Reply>, count: nat, deadline: uint64) returns (t: seq<Reply>, left: nat)
    requires Sent(s, count, deadline).status != Cut
    ensures Reaches(s, count, t, left, deadline)
    ensures if Sent(s, count, deadline).status == Done then left == 0
            else Breaks(t, left, Sent(s, count, deadline).rest, deadline)
  {
    hide SendsTo, Sent, Breaks;
    var scripts, lefts := SendsOf(s, count, deadline);
    t, left := scripts[|scripts| - 1], lefts[|lefts| - 1];
  }

  /** Sending succeeds exactly when sends in time, interrupted, partial, or after a wait
      for room, take everything, and fails exactly when after such sends one is late,
      in error, takes nothing, or waits in vain; either way the replies left are those
      after the last one that was read. */
  lemma SentIff(s: seq<Reply>, count: nat, deadline: uint64, rest: seq<Reply>)
    ensures Sent(s, count, deadline) == Progress(Done, count, rest) <==> Reaches(s, count, rest, 0, deadline)
    ensures Sent(s, count, deadline).status == Failed && Sent(s, count, deadline).rest == rest <==>
            exists t, left :: Reaches(s, count, t, left, deadline) && Breaks(t, left, rest, deadline)
  {
    hide Reaches, Breaks, Pass;
    if Reaches(s, count, rest, 0, deadline) {
      ReachedAdds(s, count, rest, 0, deadline);
    }
    forall t, left | Reaches(s, count, t, left, deadline) && Breaks(t, left, rest, deadline)
      ensures Sent(s, count, deadline).status == Failed && Sent(s, count, deadline).rest == rest
    {
      ReachedAdds(s, count, t, left, deadline);
      FailedSend(t, left, rest, deadline);
    }
    if Sent(s, count, deadline).status != Cut {
      var t, left := SentReaches(s, count, deadline);
      ReachedAdds(s, count, t, left, deadline);
    }
  }

  // Peeking ------------------------------------------------------------------------

  /** After `n` interrupted peeks, one that finds the connection open, or not. */
  ghost predicate FoundOpen(s: seq<Reply>, n: nat) {
    && n < |s| && (forall k :: 0 <= k < n ==> s[k].peek == PeekInterrupted)
    && (s[n].peek == NothingToRead || s[n].peek == Pending)
  }

  ghost predicate FoundClosed(s: seq<Reply>, n: nat) {
    && n < |s| && (forall k :: 0 <= k < n ==> s[k].peek == PeekInterrupted)
    && (s[n].peek == EndOfStream || s[n].peek == PeekError)
  }

  lemma {:induction false} PeekEnds(s: seq<Reply>, n: nat)
    requires FoundOpen(s, n) || FoundClosed(s, n)
    ensures Peeked(s) == Some(FoundClosed(s, n)) && AfterPeek(s) == s[n + 1..]
    decreases n
  {
    if n > 0 {
      assert forall k :: 0 <= k < |s| - 1 ==> s[1..][k] == s[k + 1];
      PeekEnds(s[1..], n - 1);
      assert s[1..][n..] == s[n + 1..];
    }
  }

  lemma {:induction false} PeekDecided(s: seq<Reply>) returns (n: nat)
    requires Peeked(s).Some?
    ensures FoundOpen(s, n) || FoundClosed(s, n)
    decreases |s|
  {
    n := 0;
    if s[0].peek == PeekInterrupted {
      n := PeekDecided(s[1..]);
      n := n + 1;
    }
  }
}
