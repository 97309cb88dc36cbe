/** How a client's session and the whole service go, told by the replies and by what
    the hardware supplies. */
module SessionOutcomes {
  import opened Bytes
  import opened ClientStream
  import opened ConfigEpoch
  import opened SocketOutcomes
  import opened SocketReplies
  import opened Wrappers

  // One frame ----------------------------------------------------------------------

  /** The settings hold still during one of the captures, after any in which they moved,
      and the accelerator answers. */
  ghost predicate Settles(supply: Supply) {
    && supply.powers.Some?
    && exists k: nat :: k < |supply.attempts| && Stable(supply.attempts[k])
                        && forall j :: 0 <= j < k ==> Moved(supply.attempts[j])
  }

  /** Two seconds after the clock reading that follows the transform. */
  function Limit(s: seq<Reply>): uint64
    requires |s| >= 2
  {
    (s[1].clock + 2_000_000_000) % 0x1_0000_0000_0000_0000
  }

  /** Both packets, of 131144 bytes each, are taken in full, and `t` is left. */
  ghost predicate FrameGoes(s: seq<Reply>, supply: Supply, t: seq<Reply>) {
    && Settles(supply) && |s| >= 2
    && exists m :: Reaches(s[2..], 131144, m, 0, Limit(s)) && Reaches(m, 131144, t, 0, Limit(s))
  }

  ghost predicate PacketBreaks(s: seq<Reply>, t: seq<Reply>, deadline: uint64) {
    exists m, left :: Reaches(s, 131144, m, left, deadline) && Breaks(m, left, t, deadline)
  }

  /** One of the packets fails. */
  ghost predicate FrameBreaks(s: seq<Reply>, supply: Supply, t: seq<Reply>) {
    && Settles(supply) && |s| >= 2
    && (PacketBreaks(s[2..], t, Limit(s))
        || exists m :: Reaches(s[2..], 131144, m, 0, Limit(s)) && PacketBreaks(m, t, Limit(s)))
  }

  /** The frame is sent, and the peer has not closed. */
  ghost predicate GoesOn(s: seq<Reply>, supply: Supply, t: seq<Reply>) {
    exists u, n: nat :: FrameGoes(s, supply, u) && FoundOpen(u, n) && t == u[n + 1..]
  }

  /** The frame is sent, and the peer has closed or broken the connection. */
  ghost predicate Closes(s: seq<Reply>, supply: Supply, t: seq<Reply>) {
    exists u, n: nat :: FrameGoes(s, supply, u) && FoundClosed(u, n) && t == u[n + 1..]
  }

  lemma SettlesIff(supply: Supply)
    ensures Settles(supply) <==> Supplied(supply)
  {
    hide Stable, Moved;
    var attempts := supply.attempts;
    forall k: nat
      ensures Kept(attempts, 0) == Some(k) <==>
              k < |attempts| && Stable(attempts[k]) && forall j :: 0 <= j < k ==> Moved(attempts[j])
    {
      KeptMeaning(attempts, 0, k);
    }
    if Kept(attempts, 0).Some? {
      assert Kept(attempts, 0) == Some(Kept(attempts, 0).value);
    }
  }

  lemma FrameSentIff(s: seq<Reply>, supply: Supply, t: seq<Reply>)
    ensures var p := FrameSent(s, supply);
      && (p.status == Done && p.rest == t <==> FrameGoes(s, supply, t))
      && (p.status == Failed && p.rest == t <==> FrameBreaks(s, supply, t))
  {
    hide Sent, Reaches, Breaks, Settles, Supplied;
    SettlesIff(supply);
    if Begins(s, supply) {
      var (first, deadline) := (Sent(s[2..], 131144, Limit(s)), Limit(s));
      forall u ensures first == Progress(Done, 131144, u) <==> Reaches(s[2..], 131144, u, 0, deadline) {
        SentIff(s[2..], 131144, deadline, u);
      }
      SentIff(s[2..], 131144, deadline, t);
      SentIff(first.rest, 131144, deadline, t);
    }
  }

  lemma TurnIff(s: seq<Reply>, supply: Supply, t: seq<Reply>)
    ensures TurnOf(s, supply) == Turn(None, t) <==> GoesOn(s, supply, t)
    ensures TurnOf(s, supply) == Turn(Some(Done), t) <==> Closes(s, supply, t)
    ensures TurnOf(s, supply) == Turn(Some(Failed), t) <==> FrameBreaks(s, supply, t)
  {
    hide FrameSent, FrameGoes, FrameBreaks, Peeked, AfterPeek, FoundOpen, FoundClosed;
    var p := FrameSent(s, supply);
    forall u ensures p.status == Done && p.rest == u <==> FrameGoes(s, supply, u) {
      FrameSentIff(s, supply, u);
    }
    FrameSentIff(s, supply, t);
    forall n: nat | FoundOpen(p.rest, n) || FoundClosed(p.rest, n)
      ensures n < |p.rest| && Peeked(p.rest) == Some(FoundClosed(p.rest, n)) && AfterPeek(p.rest) == p.rest[n + 1..]
      ensures FoundOpen(p.rest, n) != FoundClosed(p.rest, n)
    {
      PeekEnds(p.rest, n);
      FoundOneWay(p.rest, n);
    }
    if p.status == Done && Peeked(p.rest).Some? {
      var n := PeekDecided(p.rest);
    }
  }

  lemma FoundOneWay(s: seq<Reply>, n: nat)
    requires FoundOpen(s, n) || FoundClosed(s, n)
    ensures n < |s| && FoundOpen(s, n) != FoundClosed(s, n)
  {
  }

  // One client ---------------------------------------------------------------------

  /** Frames one after another, the peer staying open. */
  ghost predicate Streaming(scripts: seq<seq<Reply>>, supplies: seq<Supply>) {
    && 0 < |scripts| <= |supplies| + 1
    && forall i :: 0 <= i < |scripts| - 1 ==> GoesOn(scripts[i], supplies[i], scripts[i + 1])
  }

  /** `n` frames lead from one script to another. */
  ghost predicate Streams(s: seq<Reply>, supplies: seq<Supply>, n: nat, t: seq<Reply>) {
    exists scripts :: Streaming(scripts, supplies) && |scripts| == n + 1 && scripts[0] == s && scripts[n] == t
  }

  lemma {:induction false} StreamingAdds(scripts: seq<seq<Reply>>, supplies: seq<Supply>)
    requires Streaming(scripts, supplies)
    ensures var n := |scripts| - 1;
      var (p, q) := (Served(scripts[0], supplies), Served(scripts[n], supplies[n..]));
      p == Session(q.status, n + q.used, n + q.begun, q.rest)
    decreases |scripts|
  {
    hide GoesOn, TurnOf, Begins;
    var n := |scripts| - 1;
    if n == 0 {
      assert supplies[0..] == supplies;
    } else {
      TurnIff(scripts[0], supplies[0], scripts[1]);
      assert GoesOn(scripts[0], supplies[0], scripts[1]);
      StreamingAdds(scripts[1..], supplies[1..]);
      assert supplies[1..][n - 1..] == supplies[n..];
    }
  }

  /** After `n` frames the session is as if it began there. */
  lemma StreamsAdds(s: seq<Reply>, supplies: seq<Supply>, n: nat, t: seq<Reply>)
    requires Streams(s, supplies, n, t)
    ensures n <= |supplies|
    ensures var (p, q) := (Served(s, supplies), Served(t, supplies[n..]));
      p == Session(q.status, n + q.used, n + q.begun, q.rest)
  {
    hide GoesOn, Served;
    var scripts :| Streaming(scripts, supplies) && |scripts| == n + 1 && scripts[0] == s && scripts[n] == t;
    StreamingAdds(scripts, supplies);
  }

  lemma StreamsNone(s: seq<Reply>, supplies: seq<Supply>)
    ensures Streams(s, supplies, 0, s)
  {
    assert Streaming([s], supplies);
  }

  lemma StreamsFirst(s: seq<Reply>, supplies: seq<Supply>, t: seq<Reply>, n: nat, u: seq<Reply>)
    requires supplies != [] && GoesOn(s, supplies[0], t) && Streams(t, supplies[1..], n, u)
    ensures Streams(s, supplies, n + 1, u)
  {
    hide GoesOn;
    var scripts :| Streaming(scripts, supplies[1..]) && |scripts| == n + 1 && scripts[0] == t && scripts[n] == u;
    var all := [s] + scripts;
    forall i | 0 <= i < |all| - 1 ensures GoesOn(all[i], supplies[i], all[i + 1]) {
      if i > 0 {
        assert GoesOn(scripts[i - 1], supplies[1..][i - 1], scripts[i]);
      }
    }
    assert Streaming(all, supplies);
  }

  /** How many frames a session streams, and where it stands then. */
  lemma {:induction false} SessionStreams(s: seq<Reply>, supplies: seq<Supply>) returns (n: nat, t: seq<Reply>)
    ensures Streams(s, supplies, n, t) && n <= |supplies|
    ensures n == |supplies| || TurnOf(t, supplies[n]).ended.Some?
    decreases |supplies|
  {
    hide GoesOn, TurnOf, Streams;
    n, t := 0, s;
    StreamsNone(s, supplies);
    if supplies != [] && TurnOf(s, supplies[0]).ended == None {
      var next := TurnOf(s, supplies[0]).rest;
      TurnIff(s, supplies[0], next);
      n, t := SessionStreams(next, supplies[1..]);
      StreamsFirst(s, supplies, next, n, t);
      n := n + 1;
    }
  }

  lemma SessionAt(s: seq<Reply>, supplies: seq<Supply>, t: seq<Reply>)
    requires supplies != []
    ensures Closes(s, supplies[0], t) ==> Served(s, supplies) == Session(Done, 1, 1, t)
    ensures FrameBreaks(s, supplies[0], t) ==> Served(s, supplies) == Session(Failed, 1, 1, t)
  {
    hide Closes, FrameBreaks, TurnOf;
    TurnIff(s, supplies[0], t);
  }

  /** A session ends well exactly when, after some frames, a frame is sent and the peer
      has closed, and fails exactly when a packet of a frame does; every frame up to
      then was begun. The replies left are those after the last one read. */
  lemma SessionIff(s: seq<Reply>, supplies: seq<Supply>, n: nat, t: seq<Reply>)
    ensures Served(s, supplies) == Session(Done, n + 1, n + 1, t) <==>
            n < |supplies| && exists u :: Streams(s, supplies, n, u) && Closes(u, supplies[n], t)
    ensures Served(s, supplies) == Session(Failed, n + 1, n + 1, t) <==>
            n < |supplies| && exists u :: Streams(s, supplies, n, u) && FrameBreaks(u, supplies[n], t)
    ensures Served(s, supplies).status != Cut ==> Served(s, supplies).begun == Served(s, supplies).used > 0
  {
    hide Streams, Closes, FrameBreaks, TurnOf, GoesOn;
    forall u | n < |supplies| && Streams(s, supplies, n, u)
      ensures Closes(u, supplies[n], t) ==> Served(s, supplies) == Session(Done, n + 1, n + 1, t)
      ensures FrameBreaks(u, supplies[n], t) ==> Served(s, supplies) == Session(Failed, n + 1, n + 1, t)
    {
      StreamsAdds(s, supplies, n, u);
      SessionAt(u, supplies[n..], t);
    }
    var m, u := SessionStreams(s, supplies);
    StreamsAdds(s, supplies, m, u);
    if m < |supplies| {
      var turn := TurnOf(u, supplies[m]);
      TurnIff(u, supplies[m], turn.rest);
    }
  }

  /** A session that is cut short has begun the frames it streamed, and one more if the
      hardware supplied it and the clock could be read twice. */
  lemma CutSession(s: seq<Reply>, supplies: seq<Supply>) returns (n: nat, t: seq<Reply>)
    requires Served(s, supplies).status == Cut
    ensures Streams(s, supplies, n, t) && n <= |supplies|
    ensures Served(s, supplies).begun == n + (if n < |supplies| && Settles(supplies[n]) && |t| >= 2 then 1 else 0)
  {
    hide Streams, TurnOf, GoesOn, Settles, Supplied;
    n, t := SessionStreams(s, supplies);
    StreamsAdds(s, supplies, n, t);
    if n < |supplies| {
      SettlesIff(supplies[n]);
    }
  }

  /** A peer that is found closed right after its frame gets no further one. */
  lemma ClosedEnds(s: seq<Reply>, supplies: seq<Supply>, u: seq<Reply>, n: nat)
    requires supplies != [] && FrameGoes(s, supplies[0], u) && FoundClosed(u, n)
    ensures n < |u| && Served(s, supplies) == Session(Done, 1, 1, u[n + 1..])
  {
    hide FrameGoes;
    assert Closes(s, supplies[0], u[n + 1..]);
    SessionAt(s, supplies, u[n + 1..]);
  }

  // Steady clients -----------------------------------------------------------------

  /** In time for any deadline set here, taking bytes, and staying open. */
  ghost predicate Steady(s: seq<Reply>) {
    && (forall j, k :: 0 <= j < |s| && 0 <= k < |s| ==>
          s[k].clock < s[j].clock + 2_000_000_000 < 0x1_0000_0000_0000_0000)
    && forall k :: 0 <= k < |s| ==>
         && s[k].send.Took? && s[k].send.count > 0
         && (s[k].peek == NothingToRead || s[k].peek == Pending)
  }

  lemma SteadyTail(s: seq<Reply>, k: nat)
    requires Steady(s) && k <= |s|
    ensures Steady(s[k..])
  {
  }

  ghost predicate Willing(s: seq<Reply>, deadline: uint64) {
    forall k :: 0 <= k < |s| ==> s[k].clock < deadline && s[k].send.Took? && s[k].send.count > 0
  }

  lemma {:induction false} WillingSends(s: seq<Reply>, count: nat, deadline: uint64) returns (k: nat)
    requires Willing(s, deadline) && |s| >= 2 * count
    ensures k <= 2 * count && Sent(s, count, deadline) == Progress(Done, count, s[k..])
    decreases count
  {
    k := 0;
    if count > 0 {
      hide Willing, Pass;
      WillingPass(s, count, deadline);
      var p := Pass(s, count, deadline);
      k := WillingSends(s[2..], count - p.sent, deadline);
      assert s[2..][k..] == s[k + 2..];
      k := k + 2;
    }
  }

  lemma WillingPass(s: seq<Reply>, count: nat, deadline: uint64)
    requires Willing(s, deadline) && |s| >= 2 && count > 0
    ensures var p := Pass(s, count, deadline); p == Progress(Done, p.sent, s[2..]) && 0 < p.sent <= count
    ensures Willing(s[2..], deadline)
  {
  }

  lemma SteadyIsWilling(s: seq<Reply>, t: seq<Reply>, k: nat)
    requires Steady(s) && |s| >= 2 && k <= |s| && t == s[k..]
    ensures Willing(t, Limit(s))
  {
  }

  lemma SteadyFrame(s: seq<Reply>, supply: Supply) returns (k: nat)
    requires Steady(s) && Settles(supply) && |s| >= 524579
    ensures k <= 524579 && GoesOn(s, supply, s[k..])
  {
    hide Steady, Settles, Willing, Sent;
    SteadyIsWilling(s, s[2..], 2);
    var i := WillingSends(s[2..], 131144, Limit(s));
    var m := s[2..][i..];
    assert m == s[i + 2..];
    SteadyIsWilling(s, m, i + 2);
    var j := WillingSends(m, 131144, Limit(s));
    var u := m[j..];
    k := i + j + 3;
    assert u == s[k - 1..];
    SentIff(s[2..], 131144, Limit(s), m);
    SentIff(m, 131144, Limit(s), u);
    OpenAt(s, k - 1);
    assert FrameGoes(s, supply, u) && FoundOpen(u, 0);
    assert u[0 + 1..] == s[k..];
  }

  lemma OpenAt(s: seq<Reply>, k: nat)
    requires Steady(s) && k < |s|
    ensures FoundOpen(s[k..], 0)
  {
  }

  /** However little a steady client takes at a time, it is sent every frame the hardware
      supplies, as long as there are replies. */
  lemma {:induction false} SteadyClientGetsAll(s: seq<Reply>, supplies: seq<Supply>)
    requires Steady(s) && |s| >= 524579 * |supplies|
    requires forall i :: 0 <= i < |supplies| ==> Settles(supplies[i])
    ensures Served(s, supplies).begun == |supplies| && Served(s, supplies).status == Cut
    decreases |supplies|
  {
    if supplies != [] {
      hide Steady, Settles, GoesOn, TurnOf, Begins;
      var k := SteadyFrame(s, supplies[0]);
      TurnIff(s, supplies[0], s[k..]);
      SteadyTail(s, k);
      SteadyClientGetsAll(s[k..], supplies[1..]);
      TurnBegins(s, supplies[0]);
    }
  }

  lemma TurnBegins(s: seq<Reply>, supply: Supply)
    requires TurnOf(s, supply).ended == None
    ensures Begins(s, supply)
  {
  }

  // All clients ----------------------------------------------------------------------

  /** No client comes of this accept. */
  predicate Skipped(reply: AcceptReply) {
    reply == AcceptInterrupted || reply == Connected(false)
  }

  ghost predicate NextClient(s: seq<Reply>, n: nat) {
    n < |s| && (forall k :: 0 <= k < n ==> Skipped(s[k].accept)) && s[n].accept == Connected(true)
  }

  ghost predicate NoClient(s: seq<Reply>, n: nat) {
    n <= |s| && (forall k :: 0 <= k < n ==> Skipped(s[k].accept)) && (n < |s| ==> s[n].accept == AcceptError)
  }

  /** Interrupted accepts and clients that cannot be configured are passed over; the
      next client gets a session, and if that ends, the one after it goes on with what
      is left. An error ends the service. */
  lemma {:induction false} ServiceGoes(s: seq<Reply>, supplies: seq<Supply>, n: nat)
    ensures NoClient(s, n) ==> Accepted(s, supplies) == Service([], 0)
    ensures NextClient(s, n) ==>
              var p := Served(s[n + 1..], supplies);
              var q := Accepted(p.rest, supplies[p.used..]);
              Accepted(s, supplies) == if p.status == Cut then Service([p.begun], p.used)
                                       else Service([p.begun] + q.clients, p.used + q.used)
    decreases n
  {
    hide Served;
    if (NextClient(s, n) || NoClient(s, n)) && n > 0 {
      var t := s[1..];
      assert Skipped(s[0].accept) && forall k :: 0 <= k < |t| ==> t[k] == s[k + 1];
      assert NextClient(s, n) ==> NextClient(t, n - 1) && t[n..] == s[n + 1..];
      assert NoClient(s, n) ==> NoClient(t, n - 1);
      ServiceGoes(t, supplies, n - 1);
    }
  }

  lemma {:induction false} ServiceDecided(s: seq<Reply>) returns (n: nat)
    ensures NoClient(s, n) || NextClient(s, n)
    decreases |s|
  {
    n := 0;
    if s != [] && Skipped(s[0].accept) {
      n := ServiceDecided(s[1..]);
      n := n + 1;
    }
  }
}
