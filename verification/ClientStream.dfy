/** The streamer's accept and frame loops: one capture, one transform and one pair
    of packets per sequence number, for one client after another. */
module ClientStream {
  import opened Bytes
  import opened ConfigEpoch
  import opened Nsft
  import opened SocketReplies
  import opened SocketStream
  import opened Wrappers

  const SEND_TIMEOUT_NS: nat := 2_000_000_000

  /** What the hardware supplies to one pass of the frame loop: the capture attempts
      and the transform, or none if the accelerator failed. */
  datatype Supply = Supply(attempts: seq<Attempt>, powers: Option<seq<uint32>>)

  predicate Complete(s: Supply) {
    |s.attempts| == CAPTURE_ATTEMPTS && (s.powers.Some? ==> |s.powers.value| == CHANNELS * FFT_N)
  }

  predicate AllComplete(supplies: seq<Supply>) {
    forall i :: 0 <= i < |supplies| ==> Complete(supplies[i])
  }

  /** Everything both packets of a frame are made of, the captured block,
      and the clock reading its deadline counts from. */
  datatype FrameData = FrameData(
    sequence: uint32, timestamp: uint64, metadata: SpectrumMetadata, block: seq<byte>, powers: seq<uint32>,
    ready: uint64)

  function PacketOf(f: FrameData, channel: nat, encode: uint32 -> uint16): (p: seq<byte>)
    requires |f.powers| == CHANNELS * FFT_N && channel < CHANNELS
    ensures |p| == PACKET_BYTES
  {
    Packet(f.sequence, channel, f.timestamp, f.metadata, f.powers, encode)
  }

  function PairOf(f: FrameData, encode: uint32 -> uint16): (p: seq<byte>)
    requires |f.powers| == CHANNELS * FFT_N
    ensures |p| == 2 * PACKET_BYTES
  {
    PacketOf(f, 0, encode) + PacketOf(f, 1, encode)
  }

  function DeadlineOf(f: FrameData): uint64 {
    (f.ready + SEND_TIMEOUT_NS) % U64
  }

  // What the loops make of a script ------------------------------------------------

  /** Both packets of a frame, one after the other. */
  function PairSent(script: seq<Reply>, deadline: uint64): (p: Progress)
    ensures |p.rest| <= |script|
  {
    var first := Sent(script, PACKET_BYTES, deadline);
    if first.status != Done then first else Sent(first.rest, PACKET_BYTES, deadline)
  }

  /** The captures settle and the accelerator answers. */
  predicate Supplied(s: Supply) {
    Kept(s.attempts, 0).Some? && s.powers.Some?
  }

  /** A frame is begun when the hardware supplies it and the clock can be read twice. */
  predicate Begins(script: seq<Reply>, supply: Supply) {
    Supplied(supply) && |script| >= 2
  }

  /** One frame: two clock readings around the transform, and then the packets, with
      a deadline that counts from the second reading. */
  function FrameSent(script: seq<Reply>, supply: Supply): (p: Progress)
    ensures |p.rest| <= |script| && (p.status != Cut ==> |p.rest| < |script|)
    ensures p.status != Cut ==> Begins(script, supply)
  {
    if !Begins(script, supply) then Progress(Cut, 0, [])
    else PairSent(script[2..], (script[1].clock + SEND_TIMEOUT_NS) % U64)
  }

  /** One pass of a client's frame loop: how the session ends, if it does. */
  datatype Turn = Turn(ended: Option<Status>, rest: seq<Reply>)

  function TurnOf(script: seq<Reply>, supply: Supply): (t: Turn)
    ensures |t.rest| <= |script| && (t.ended != Some(Cut) ==> |t.rest| < |script|)
    ensures t.ended != Some(Cut) ==> Begins(script, supply)
  {
    var p := FrameSent(script, supply);
    if p.status != Done then Turn(Some(p.status), p.rest)
    else
      var ended := match Peeked(p.rest) case None => Some(Cut) case Some(closed) => if closed then Some(Done) else None;
      Turn(ended, AfterPeek(p.rest))
  }

  /** How the session of one client ends, after how many frames attempted and begun,
      and the replies left. */
  datatype Session = Session(status: Status, used: nat, begun: nat, rest: seq<Reply>)

  /** One frame after another, until one is not sent in full or the peer has closed. */
  function Served(script: seq<Reply>, supplies: seq<Supply>): (s: Session)
    ensures |s.rest| <= |script| && s.begun <= s.used <= |supplies|
    ensures s.status != Cut ==> s.begun == s.used
    decreases |supplies|
  {
    if supplies == [] then Session(Cut, 0, 0, script)
    else
      var (t, begun) := (TurnOf(script, supplies[0]), if Begins(script, supplies[0]) then 1 else 0);
      if t.ended.Some? then Session(t.ended.value, 1, begun, t.rest)
      else
        var q := Served(t.rest, supplies[1..]);
        Session(q.status, 1 + q.used, 1 + q.begun, q.rest)
  }

  /** After `used` frames, the rest of the session leads to the whole outcome. */
  predicate LeadsTo(whole: Session, used: nat, script: seq<Reply>, supplies: seq<Supply>) {
    var s := Served(script, supplies);
    whole == Session(s.status, used + s.used, used + s.begun, s.rest)
  }

  lemma TurnLeads(whole: Session, used: nat, script: seq<Reply>, supplies: seq<Supply>)
    requires supplies != [] && LeadsTo(whole, used, script, supplies)
    ensures var t := TurnOf(script, supplies[0]);
      && (t.ended == None ==> LeadsTo(whole, used + 1, t.rest, supplies[1..]))
      && (t.ended.Some? ==>
            whole == Session(t.ended.value, used + 1, used + (if Begins(script, supplies[0]) then 1 else 0), t.rest))
  {
    hide TurnOf, Begins;
  }

  /** What the accept loop makes of a script: how many frames are begun for each
      client, and how many are attempted in all. */
  datatype Service = Service(clients: seq<nat>, used: nat)

  function Accepted(script: seq<Reply>, supplies: seq<Supply>): (s: Service)
    ensures s.used <= |supplies|
    decreases |script|
  {
    if script == [] then Service([], 0)
    else
      match script[0].accept
      case AcceptInterrupted => Accepted(script[1..], supplies)
      case AcceptError => Service([], 0)
      case Connected(configured) =>
        if !configured then Accepted(script[1..], supplies)
        else
          var s := Served(script[1..], supplies);
          if s.status == Cut then Service([s.begun], s.used)
          else
            var q := Accepted(s.rest, supplies[s.used..]);
            Service([s.begun] + q.clients, s.used + q.used)
  }

  function Total(clients: seq<nat>): nat {
    if clients == [] then 0 else Total(clients[..|clients| - 1]) + clients[|clients| - 1]
  }

  /** Each client starts where the frames of those before it end. */
  ghost predicate ClientsAre(h: History, clients: seq<nat>) {
    && |h.connections| == |clients| && |h.pairs| == Total(clients)
    && forall c :: 0 <= c < |clients| ==> h.connections[c].first == Total(clients[..c])
  }

  /** After these clients, the rest of the service leads to the whole outcome. */
  predicate AcceptsTo(whole: Service, clients: seq<nat>, used: nat, script: seq<Reply>, supplies: seq<Supply>) {
    var s := Accepted(script, supplies);
    whole == Service(clients + s.clients, used + s.used)
  }

  lemma SessionLeads(whole: Service, clients: seq<nat>, used: nat, script: seq<Reply>, supplies: seq<Supply>)
    requires script != [] && script[0].accept == Connected(true) && AcceptsTo(whole, clients, used, script, supplies)
    ensures var s := Served(script[1..], supplies);
      && (s.status == Cut ==> whole == Service(clients + [s.begun], used + s.used))
      && (s.status != Cut ==>
            AcceptsTo(whole, clients + [s.begun], used + s.used, s.rest, supplies[s.used..]))
  {
    hide Served;
    var s := Served(script[1..], supplies);
    if s.status != Cut {
      var q := Accepted(s.rest, supplies[s.used..]);
      assert clients + ([s.begun] + q.clients) == clients + [s.begun] + q.clients;
    }
  }

  lemma ClientsGrow(before: History, h: History, clients: seq<nat>, begun: nat)
    requires ClientsAre(before, clients) && |h.pairs| == |before.pairs| + begun
    requires Firsts(h) == Firsts(before) + [|before.pairs|]
    ensures ClientsAre(h, clients + [begun])
  {
    var all := clients + [begun];
    assert all[..|clients|] == clients;
    forall c | 0 <= c < |all| ensures h.connections[c].first == Total(all[..c]) {
      assert h.connections[c].first == Firsts(h)[c];
      if c < |clients| {
        assert Firsts(h)[c] == Firsts(before)[c] && all[..c] == clients[..c];
      }
    }
  }

  // What a run records --------------------------------------------------------------

  /** The frame is made of what the hardware supplied: the settings and the block of
      the attempt that was kept, and the accelerator's answer. */
  ghost predicate FromSupply(f: FrameData, s: Supply) {
    && Kept(s.attempts, 0).Some? && Kept(s.attempts, 0).value < |s.attempts|
    && FrameOf(s.attempts[Kept(s.attempts, 0).value], f.metadata, f.block)
    && s.powers == Some(f.powers)
  }

  ghost predicate AllFromSupplies(frames: seq<FrameData>, supplies: seq<Supply>) {
    |frames| == |supplies| && forall i :: 0 <= i < |frames| ==> FromSupply(frames[i], supplies[i])
  }

  lemma SuppliesGrow(frames: seq<FrameData>, supplies: seq<Supply>, f: FrameData, s: Supply)
    requires AllFromSupplies(frames, supplies) && FromSupply(f, s)
    ensures AllFromSupplies(frames + [f], supplies + [s])
  {
    hide FromSupply;
  }

  /** Frame `i` of the run is the one numbered `i + 1`, modulo 2^32. */
  ghost predicate RecordedAt(frames: seq<FrameData>, h: History, returned: seq<Returned>, encode: uint32 -> uint16,
                             i: nat)
    requires i < |frames| == |h.pairs| == |h.deadlines| <= |returned|
  {
    && |frames[i].powers| == CHANNELS * FFT_N
    && h.pairs[i] == PairOf(frames[i], encode) && h.deadlines[i] == DeadlineOf(frames[i])
    && frames[i].sequence == (i + 1) % U32 && frames[i].metadata == returned[i].metadata
  }

  ghost predicate Recorded(frames: seq<FrameData>, h: History, returned: seq<Returned>, encode: uint32 -> uint16) {
    && |frames| == |h.pairs| == |h.deadlines| <= |returned|
    && forall i :: 0 <= i < |frames| ==> RecordedAt(frames, h, returned, encode, i)
  }

  lemma RecordedGrows(frames: seq<FrameData>, h: History, returned: seq<Returned>, encode: uint32 -> uint16,
                      f: FrameData, h': History)
    requires Recorded(frames, h, returned, encode) && |f.powers| == CHANNELS * FFT_N && |frames| < |returned|
    requires h'.pairs == h.pairs + [PairOf(f, encode)] && h'.deadlines == h.deadlines + [DeadlineOf(f)]
    requires f.sequence == (|frames| + 1) % U32 && f.metadata == returned[|frames|].metadata
    ensures Recorded(frames + [f], h', returned, encode)
  {
    hide PairOf, DeadlineOf;
    forall i | 0 <= i < |frames| + 1 ensures RecordedAt(frames + [f], h', returned, encode, i) {
      assert i < |frames| ==> RecordedAt(frames, h, returned, encode, i);
    }
  }

  /** The number after that of the `n`th frame. */
  function Next(number: uint32, ghost n: nat): (next: uint32)
    requires number == n % U32
    ensures next == (n + 1) % U32
  {
    (number + 1) % U32
  }

  class Streamer {
    const socket: Socket
    const tracker: EpochTracker
    const packet: array<byte>
    const output: array<uint32>
    const encode: uint32 -> uint16
    ghost var frames: seq<FrameData>
    ghost var supplied: seq<Supply>

    constructor (replies: seq<Reply>, encode: uint32 -> uint16)
      ensures Sound() && frames == [] && tracker.frames == [] && socket.history.connections == []
      ensures socket.script == replies && this.encode == encode
      ensures fresh(socket) && fresh(tracker) && fresh(packet) && fresh(output)
    {
      socket := new Socket(replies);
      tracker := new EpochTracker();
      packet := new byte[PACKET_BYTES];
      output := new uint32[CHANNELS * FFT_N];
      this.encode := encode;
      frames := [];
      supplied := [];
    }

    /** Whatever has happened: what the run has recorded is true of its frames. */
    ghost predicate Sound()
      reads this, socket, tracker
    {
      && packet.Length == PACKET_BYTES && output.Length == CHANNELS * FFT_N && tracker.Valid()
      && Legal(socket.history) && Recorded(frames, socket.history, tracker.frames, encode)
      && AllFromSupplies(frames, supplied)
    }

    /** Builds one packet of the current frame and sends it. */
    method SendPacket(f: FrameData, channel: nat, deadline: uint64) returns (status: Status, ghost reached: nat)
      requires packet.Length == PACKET_BYTES && output.Length == CHANNELS * FFT_N && channel < CHANNELS
      requires output[..] == f.powers && CurrentFrame(socket.history, f, deadline, encode)
      requires Midway(socket.history, channel * PACKET_BYTES)
      modifies socket, packet
      ensures output[..] == f.powers && SameFrames(old(socket.history), socket.history)
      ensures reached <= (channel + 1) * PACKET_BYTES && Midway(socket.history, reached)
      ensures status == Done <==> reached == (channel + 1) * PACKET_BYTES
      ensures var p := Sent(old(socket.script), PACKET_BYTES, deadline);
        status == p.status && socket.script == p.rest
    {
      hide Midway, Sent, PacketOf, Packet;
      var count := BuildNsftPacket(packet, f.sequence, channel, f.timestamp, f.metadata, output, encode);
      var bytes := packet[..count];
      PacketIsBuilt(f, channel, encode, bytes);
      PacketIsCurrent(socket.history, f, channel, deadline, encode, bytes);
      status, reached := socket.SendAll(bytes, deadline, channel * PACKET_BYTES);
    }

    /** Sends both packets of the current frame, stopping at the first failure: the
        client has been sent whole pairs afterwards exactly on success. */
    method SendPair(f: FrameData, deadline: uint64) returns (status: Status)
      requires packet.Length == PACKET_BYTES && output.Length == CHANNELS * FFT_N
      requires output[..] == f.powers && CurrentFrame(socket.history, f, deadline, encode)
      requires Midway(socket.history, 0)
      modifies socket, packet
      ensures SameFrames(old(socket.history), socket.history) && Legal(socket.history)
      ensures status == Done <==> AtRest(socket.history)
      ensures var p := PairSent(old(socket.script), deadline);
        status == p.status && socket.script == p.rest
    {
      hide Midway, AtRest, Legal, Sent, PairOf, Firsts;
      status := Done;
      ghost var before := socket.script;
      for channel := 0 to CHANNELS
        invariant status == Done && Midway(socket.history, channel * PACKET_BYTES)
        invariant output[..] == f.powers && SameFrames(old(socket.history), socket.history)
        invariant Partly(before, channel, socket.script, deadline)
      {
        CurrentStill(old(socket.history), socket.history, f, deadline, encode);
        ghost var reached;
        status, reached := SendPacket(f, channel, deadline);
        MidwayIsLegal(socket.history, reached);
        if status != Done {
          CurrentStill(old(socket.history), socket.history, f, deadline, encode);
          MidwayIsNotRest(socket.history, reached);
          return;
        }
      }
      CurrentStill(old(socket.history), socket.history, f, deadline, encode);
      MidwayIsLegal(socket.history, 2 * PACKET_BYTES);
      MidwayEnds(socket.history);
    }

    /** The accelerator fills the output window. */
    method Fill(powers: seq<uint32>)
      requires output.Length == |powers|
      modifies output
      ensures output[..] == powers
    {
      forall i | 0 <= i < output.Length {
        output[i] := powers[i];
      }
    }

    /** Everything before a frame's packets: capture, timestamp, transform, and the
        clock reading the deadline counts from. None of it reaches the client. */
    method Acquire(sequence: uint32, supply: Supply) returns (f: Option<FrameData>)
      requires output.Length == CHANNELS * FFT_N && Complete(supply)
      requires tracker.Valid() && Timely(socket.history.calls, socket.history.deadlines)
      modifies socket, tracker, output
      ensures SameStream(old(socket.history), socket.history)
      ensures Timely(socket.history.calls, socket.history.deadlines)
      ensures tracker.Valid() && old(tracker.frames) <= tracker.frames
      ensures f.Some? <==> Begins(old(socket.script), supply)
      ensures f.Some? ==>
                && socket.script == old(socket.script)[2..] && FromSupply(f.value, supply)
                && f.value.timestamp == old(socket.script)[0].clock && f.value.ready == old(socket.script)[1].clock
                && f.value.sequence == sequence && output[..] == f.value.powers
                && |tracker.frames| == |old(tracker.frames)| + 1
                && tracker.frames[|old(tracker.frames)|].metadata == f.value.metadata
    {
      hide Timely, FrameOf, Kept, AllStamped, Stamped;
      var capture, _ := tracker.CaptureFrame(supply.attempts);
      if capture.Fatal? {
        return None;
      }
      var timestamp := socket.ReadClock();
      if timestamp.None? || supply.powers.None? {
        return None;
      }
      Fill(supply.powers.value);
      var ready := socket.ReadClock();
      if ready.None? {
        return None;
      }
      return Some(FrameData(sequence, timestamp.value, capture.metadata, capture.block, supply.powers.value,
                            ready.value));
    }

    /** The packets of an acquired frame. `before` is the history as it was before
        the frame's clock readings. */
    method DeliverFrame(f: FrameData, supply: Supply, ghost before: History) returns (status: Status)
      requires packet.Length == PACKET_BYTES && output.Length == CHANNELS * FFT_N && output[..] == f.powers
      requires AtRest(before) && SameStream(before, socket.history) && FromSupply(f, supply)
      requires Timely(socket.history.calls, socket.history.deadlines) && AllFromSupplies(frames, supplied)
      requires |tracker.frames| == |frames| + 1 && f.metadata == tracker.frames[|frames|].metadata
      requires Recorded(frames, before, tracker.frames, encode) && f.sequence == (|frames| + 1) % U32
      modifies this`frames, this`supplied, socket, packet
      ensures frames == old(frames) + [f] && supplied == old(supplied) + [supply]
      ensures AllFromSupplies(frames, supplied) && Firsts(socket.history) == Firsts(before)
      ensures Legal(socket.history) && Recorded(frames, socket.history, tracker.frames, encode)
      ensures var p := PairSent(old(socket.script), DeadlineOf(f));
        status == p.status && socket.script == p.rest
      ensures status == Done <==> AtRest(socket.history)
    {
      hide AtRest, Legal, Recorded, AllFromSupplies, FromSupply, Timely, PairSent, PairOf, DeadlineOf, Midway,
           CurrentFrame;
      var deadline := DeadlineOf(f);
      ghost var pair := PairOf(f, encode);
      FrameBegins(frames, before, socket.history, tracker.frames, encode, f, pair, deadline);
      SuppliesGrow(frames, supplied, f, supply);
      frames := frames + [f];
      supplied := supplied + [supply];
      socket.history := Begun(socket.history, pair, deadline);
      ghost var h := socket.history;
      status := SendPair(f, deadline);
      MoreReturned(frames, h, socket.history, tracker.frames, tracker.frames, encode);
    }

    /** Captures, transforms and sends the frame numbered `sequence`. */
    method StreamFrame(sequence: uint32, supply: Supply) returns (status: Status)
      requires Sound() && AtRest(socket.history) && Complete(supply)
      requires |tracker.frames| == |frames| && sequence == (|frames| + 1) % U32
      modifies this`frames, this`supplied, socket, tracker, packet, output
      ensures Sound() && Firsts(socket.history) == Firsts(old(socket.history))
      ensures supplied == old(supplied) + (if Begins(old(socket.script), supply) then [supply] else [])
      ensures status != Cut ==> |tracker.frames| == |frames|
      ensures status == Done ==> AtRest(socket.history)
      ensures var p := FrameSent(old(socket.script), supply);
        status == p.status && (status != Cut ==> socket.script == p.rest)
    {
      hide AtRest, FromSupply, Timely, PairSent, RecordedAt, Midway, FramedAt, AllStamped, Stamped, Complete, Supplied;
      ghost var h := socket.history;
      ghost var returned := tracker.frames;
      var f := Acquire(sequence, supply);
      if f.None? {
        StreamKept(h, socket.history, 0);
        MoreReturned(frames, h, socket.history, returned, tracker.frames, encode);
        return Cut;
      }
      MoreReturned(frames, h, h, returned, tracker.frames, encode);
      status := DeliverFrame(f.value, supply, h);
    }

    /** One pass of a client's frame loop: no value when the loop goes on. */
    method ServeFrame(sequence: uint32, supply: Supply) returns (ended: Option<Status>)
      requires Sound() && AtRest(socket.history) && Complete(supply)
      requires |tracker.frames| == |frames| && sequence == (|frames| + 1) % U32
      modifies this`frames, this`supplied, socket, tracker, packet, output
      ensures Sound() && Firsts(socket.history) == Firsts(old(socket.history))
      ensures supplied == old(supplied) + (if Begins(old(socket.script), supply) then [supply] else [])
      ensures ended != Some(Cut) ==> |tracker.frames| == |frames|
      ensures ended == None ==> AtRest(socket.history)
      ensures var t := TurnOf(old(socket.script), supply);
        ended == t.ended && (ended != Some(Cut) ==> socket.script == t.rest)
    {
      hide AtRest, Legal, Recorded, AllFromSupplies, FrameSent, Begins, AllStamped, Stamped, Complete;
      var status := StreamFrame(sequence, supply);
      if status != Done {
        return Some(status);
      }
      var closed := socket.PeerClosed();
      return match closed case None => Some(Cut) case Some(c) => if c then Some(Done) else None;
    }

    /** The frame loop of one client: it ends when a send fails or the peer has
        closed, and the number of the last frame carries over to the next client. */
    method ServeClient(last: uint32, supplies: seq<Supply>) returns (status: Status, sequence: uint32, used: nat)
      requires Sound() && AtRest(socket.history) && AllComplete(supplies)
      requires |tracker.frames| == |frames| && last == |frames| % U32
      modifies this`frames, this`supplied, socket, tracker, packet, output
      ensures Sound() && Firsts(socket.history) == Firsts(old(socket.history))
      ensures sequence == (|old(frames)| + used) % U32
      ensures status != Cut ==> |tracker.frames| == |frames|
      ensures var s := Served(old(socket.script), supplies);
        && status == s.status && used == s.used && (status != Cut ==> socket.script == s.rest)
        && supplied == old(supplied) + supplies[..s.begun]
    {
      hide AtRest, Legal, Recorded, TurnOf, Begins, AllStamped, Stamped, Complete, FromSupply, Served, Firsts;
      sequence := last;
      used := 0;
      ghost var goal := Served(socket.script, supplies);
      assert supplies[0..] == supplies;
      while used < |supplies|
        invariant used <= |supplies| && Sound() && AtRest(socket.history)
        invariant Firsts(socket.history) == Firsts(old(socket.history))
        invariant supplied == old(supplied) + supplies[..used]
        invariant |tracker.frames| == |frames| == |old(frames)| + used && sequence == |frames| % U32
        invariant LeadsTo(goal, used, socket.script, supplies[used..])
      {
        assert supplies[used..][1..] == supplies[used + 1..];
        assert supplies[..used] + [supplies[used]] == supplies[..used + 1];
        TurnLeads(goal, used, socket.script, supplies[used..]);
        sequence := Next(sequence, |frames|);
        var ended := ServeFrame(sequence, supplies[used]);
        used := used + 1;
        if ended.Some? {
          return ended.value, sequence, used;
        }
      }
      NothingLeft(socket.script, supplies[used..]);
      return Cut, sequence, used;
    }

    /** The accept loop. Whatever the script and the hardware supply, the clients, the
        frames begun for each, and the last sequence number are those the script yields,
        frame `i` is made of supply `i`, and the run is sound where it is observed. */
    method Serve(supplies: seq<Supply>) returns (sequence: uint32)
      requires Sound() && frames == [] && tracker.frames == [] && socket.history.connections == []
      requires AllComplete(supplies)
      modifies this`frames, this`supplied, socket, tracker, packet, output
      ensures Sound() && |frames| <= |supplies| && supplied == supplies[..|frames|]
      ensures var s := Accepted(old(socket.script), supplies);
        ClientsAre(socket.history, s.clients) && sequence == s.used % U32
    {
      hide AtRest, Legal, Recorded, AllFromSupplies, AllStamped, Stamped, Served, Accepted, ClientsAre, AcceptsTo,
           AllComplete, Firsts;
      sequence := 0;
      var (rest, total) := (supplies, 0);
      ghost var clients: seq<nat> := [];
      ghost var goal := Accepted(socket.script, supplies);
      FramesCounted(frames, socket.history, tracker.frames, encode, supplied);
      NoClientsYet(socket.history, goal, socket.script, supplies);
      while socket.script != []
        invariant Sound() && |tracker.frames| == |frames| == total <= |supplies| && sequence == total % U32
        invariant AllComplete(rest) && rest == supplies[total..] && supplied == supplies[..total]
        invariant ClientsAre(socket.history, clients) && AcceptsTo(goal, clients, total, socket.script, rest)
        decreases |socket.script|
      {
        ghost var before := socket.script;
        var reply := socket.script[0].accept;
        socket.script := socket.script[1..];
        match reply {
          case AcceptInterrupted =>
            NoClientHere(goal, clients, total, before, rest);
          case AcceptError =>
            NoClientHere(goal, clients, total, before, rest);
            return;
          case Connected(configured) =>
            if !configured {
              NoClientHere(goal, clients, total, before, rest);
            } else {
              SessionLeads(goal, clients, total, before, rest);
              var status, used;
              ghost var begun := Served(socket.script, rest).begun;
              status, sequence, used, clients := AcceptClient(sequence, rest, clients);
              Consumed(supplies, total, rest, begun, used);
              if status == Cut {
                FramesCounted(frames, socket.history, tracker.frames, encode, supplied);
                return;
              }
              total, rest := total + used, rest[used..];
            }
        }
      }
      NothingAccepted(goal, clients, total, rest);
    }

    /** A connection is opened and served. */
    method AcceptClient(last: uint32, supplies: seq<Supply>, ghost clients: seq<nat>)
      returns (status: Status, sequence: uint32, used: nat, ghost more: seq<nat>)
      requires Sound() && AllComplete(supplies) && ClientsAre(socket.history, clients)
      requires |tracker.frames| == |frames| && last == |frames| % U32
      modifies this`frames, this`supplied, socket, tracker, packet, output
      ensures Sound() && sequence == (|old(frames)| + used) % U32
      ensures status != Cut ==> |tracker.frames| == |frames| == |old(frames)| + used
      ensures var s := Served(old(socket.script), supplies);
        && status == s.status && used == s.used && (status != Cut ==> socket.script == s.rest)
        && supplied == old(supplied) + supplies[..s.begun]
        && more == clients + [s.begun] && ClientsAre(socket.history, more)
    {
      hide AtRest, Legal, RecordedAt, FromSupply, AllStamped, Stamped, Served, ClientsAre, Complete, Firsts, Timely;
      ghost var h := socket.history;
      OpenedRests(h);
      OpenedFirsts(h);
      AtRestIsLegal(Opened(h));
      socket.history := Opened(h);
      MoreReturned(frames, h, socket.history, tracker.frames, tracker.frames, encode);
      status, sequence, used := ServeClient(last, supplies);
      ghost var begun := Served(old(socket.script), supplies).begun;
      ClientsGrow(h, socket.history, clients, begun);
      more := clients + [begun];
    }
  }

  // The accept loop, step by step -------------------------------------------------

  lemma Consumed(supplies: seq<Supply>, total: nat, rest: seq<Supply>, begun: nat, used: nat)
    requires total <= |supplies| && rest == supplies[total..] && begun <= |rest| && used <= |rest| && AllComplete(rest)
    ensures supplies[..total] + rest[..begun] == supplies[..total + begun]
    ensures rest[used..] == supplies[total + used..] && AllComplete(rest[used..])
  {
  }

  lemma NoClientsYet(h: History, goal: Service, script: seq<Reply>, supplies: seq<Supply>)
    requires h.connections == [] && h.pairs == [] && goal == Accepted(script, supplies)
    ensures ClientsAre(h, []) && AcceptsTo(goal, [], 0, script, supplies)
  {
    hide Accepted;
  }

  lemma NoClientHere(goal: Service, clients: seq<nat>, total: nat, script: seq<Reply>, rest: seq<Supply>)
    requires script != [] && script[0].accept != Connected(true) && AcceptsTo(goal, clients, total, script, rest)
    ensures if script[0].accept == AcceptError then goal == Service(clients, total)
            else AcceptsTo(goal, clients, total, script[1..], rest)
  {
    assert clients + [] == clients;
  }

  lemma NothingAccepted(goal: Service, clients: seq<nat>, total: nat, rest: seq<Supply>)
    requires AcceptsTo(goal, clients, total, [], rest)
    ensures goal == Service(clients, total)
  {
    assert clients + [] == clients;
  }

  lemma NothingLeft(script: seq<Reply>, supplies: seq<Supply>)
    requires supplies == []
    ensures Served(script, supplies) == Session(Cut, 0, 0, script)
  {
  }

  /** Frames, pairs and supplies correspond one to one. */
  lemma FramesCounted(frames: seq<FrameData>, h: History, returned: seq<Returned>, encode: uint32 -> uint16,
                      supplied: seq<Supply>)
    requires Recorded(frames, h, returned, encode) && AllFromSupplies(frames, supplied)
    ensures |frames| == |h.pairs| == |supplied|
  {
  }

  // Sending a frame, step by step -------------------------------------------------

  lemma PacketIsBuilt(f: FrameData, channel: nat, encode: uint32 -> uint16, bytes: seq<byte>)
    requires |f.powers| == CHANNELS * FFT_N && channel < CHANNELS
    requires bytes == Packet(f.sequence, channel, f.timestamp, f.metadata, f.powers, encode)
    ensures bytes == PacketOf(f, channel, encode)
  {
    hide Packet;
  }

  /** The script after the first `channel` packets were sent in full. */
  predicate Partly(before: seq<Reply>, channel: nat, script: seq<Reply>, deadline: uint64) {
    if channel == 0 then script == before
    else
      var p := if channel == 1 then Sent(before, PACKET_BYTES, deadline) else PairSent(before, deadline);
      p.status == Done && script == p.rest
  }

  lemma CurrentStill(h: History, t: History, f: FrameData, deadline: uint64, encode: uint32 -> uint16)
    requires CurrentFrame(h, f, deadline, encode) && SameFrames(h, t)
    ensures CurrentFrame(t, f, deadline, encode) && |t.pairs[|t.pairs| - 1]| == 2 * PACKET_BYTES
  {
    hide PacketOf;
  }

  /** Recording a new frame and starting to send it. */
  lemma FrameBegins(frames: seq<FrameData>, before: History, h: History, returned: seq<Returned>,
                    encode: uint32 -> uint16, f: FrameData, pair: seq<byte>, deadline: uint64)
    requires AtRest(before) && SameStream(before, h) && Timely(h.calls, h.deadlines)
    requires Recorded(frames, before, returned, encode) && |f.powers| == CHANNELS * FFT_N && |frames| < |returned|
    requires pair == PairOf(f, encode) && deadline == DeadlineOf(f)
    requires f.sequence == (|frames| + 1) % U32 && f.metadata == returned[|frames|].metadata
    ensures var b := Begun(h, pair, deadline);
      Midway(b, 0) && CurrentFrame(b, f, deadline, encode) && Recorded(frames + [f], b, returned, encode)
  {
    StreamKept(before, h, 0);
    BegunStarts(h, pair, deadline);
    RecordedGrows(frames, before, returned, encode, f, Begun(h, pair, deadline));
  }

  ghost predicate CurrentFrame(h: History, f: FrameData, deadline: uint64, encode: uint32 -> uint16) {
    && |f.powers| == CHANNELS * FFT_N && h.pairs != [] && |h.deadlines| == |h.pairs|
    && h.pairs[|h.pairs| - 1] == PairOf(f, encode) && h.deadlines[|h.pairs| - 1] == deadline
  }

  lemma HalfIsCurrent(h: History, a: seq<byte>, b: seq<byte>, channel: nat, deadline: uint64, bytes: seq<byte>)
    requires h.pairs != [] && |h.deadlines| == |h.pairs|
    requires h.pairs[|h.pairs| - 1] == a + b && h.deadlines[|h.pairs| - 1] == deadline
    requires |a| == |b| == PACKET_BYTES && channel < CHANNELS && bytes == if channel == 0 then a else b
    ensures Current(h, bytes, deadline, channel * PACKET_BYTES)
  {
    assert (a + b)[..PACKET_BYTES] == a && (a + b)[PACKET_BYTES..2 * PACKET_BYTES] == b;
  }

  lemma PacketIsCurrent(h: History, f: FrameData, channel: nat, deadline: uint64, encode: uint32 -> uint16,
                        bytes: seq<byte>)
    requires CurrentFrame(h, f, deadline, encode) && channel < CHANNELS && bytes == PacketOf(f, channel, encode)
    ensures Current(h, bytes, deadline, channel * PACKET_BYTES)
  {
    hide PacketOf;
    var (a, b) := (PacketOf(f, 0, encode), PacketOf(f, 1, encode));
    HalfIsCurrent(h, a, b, channel, deadline, bytes);
  }

  lemma MoreReturned(frames: seq<FrameData>, h: History, t: History, returned: seq<Returned>, more: seq<Returned>,
                     encode: uint32 -> uint16)
    requires Recorded(frames, h, returned, encode) && returned <= more
    requires t.pairs == h.pairs && t.deadlines == h.deadlines
    ensures Recorded(frames, t, more, encode)
  {
    forall i | 0 <= i < |frames| ensures RecordedAt(frames, t, more, encode, i) {
      assert RecordedAt(frames, h, returned, encode, i);
    }
  }

  // What each client receives --------------------------------------------------

  /** Any prefix of whole parts is some whole parts and a prefix of the next. */
  lemma {:induction false} PrefixSplits(parts: seq<seq<byte>>, received: seq<byte>) returns (k: nat)
    requires received <= Concat(parts)
    ensures k <= |parts| && Concat(parts[..k]) <= received
    ensures if k == |parts| then received == Concat(parts) else received[|Concat(parts[..k])|..] <= parts[k]
    decreases |parts|
  {
    var n := |parts| - 1;
    if parts == [] {
      k := 0;
    } else if |received| <= |Concat(parts[..n])| {
      assert received == Concat(parts)[..|received|] == Concat(parts[..n])[..|received|];
      k := PrefixSplits(parts[..n], received);
      assert parts[..n][..k] == parts[..k];
      if k == n {
        assert received[|Concat(parts[..n])|..] == [];
      }
    } else {
      k := if |received| == |Concat(parts)| then |parts| else n;
      assert parts[..|parts|] == parts;
      assert received == Concat(parts)[..|received|];
      assert Concat(parts)[..|Concat(parts[..n])|] == Concat(parts[..n]);
      assert received[|Concat(parts[..n])|..] == parts[n][..|received| - |Concat(parts[..n])|];
    }
  }

  /** Both packets of a pair carry the same sequence, timestamp and epoch, on the two
      channels in order, and verify. */
  lemma PairAgrees(f: FrameData, encode: uint32 -> uint16)
    requires |f.powers| == CHANNELS * FFT_N
    ensures var p := PairOf(f, encode);
      var (a, b) := (p[..PACKET_BYTES], p[PACKET_BYTES..]);
      && TrailerVerifies(a) && TrailerVerifies(b)
      && DecodeHeader(a).channel == 0 && DecodeHeader(b).channel == 1
      && DecodeHeader(a).sequence == DecodeHeader(b).sequence == f.sequence
      && DecodeHeader(a).timestamp == DecodeHeader(b).timestamp == f.timestamp
      && DecodeHeader(a).configEpoch == DecodeHeader(b).configEpoch == f.metadata.configEpoch
  {
    PacketRoundTrip(f.sequence, 0, f.timestamp, f.metadata, f.powers, encode);
    PacketRoundTrip(f.sequence, 1, f.timestamp, f.metadata, f.powers, encode);
    var p := PairOf(f, encode);
    assert p[..PACKET_BYTES] == PacketOf(f, 0, encode) && p[PACKET_BYTES..] == PacketOf(f, 1, encode);
  }

  /** A run as its methods leave it. */
  ghost predicate SoundRun(frames: seq<FrameData>, h: History, returned: seq<Returned>, encode: uint32 -> uint16) {
    Legal(h) && Recorded(frames, h, returned, encode)
  }

  /** The packets and the number of every frame of a run. */
  lemma FrameOfRun(frames: seq<FrameData>, h: History, returned: seq<Returned>, encode: uint32 -> uint16, i: nat)
    requires SoundRun(frames, h, returned, encode) && i < |h.pairs|
    ensures i < |frames| == |h.deadlines| && frames[i].sequence == (i + 1) % U32
    ensures |frames[i].powers| == CHANNELS * FFT_N && h.pairs[i] == PairOf(frames[i], encode)
    ensures h.deadlines[i] == DeadlineOf(frames[i])
  {
    assert RecordedAt(frames, h, returned, encode, i);
  }

  /** Whatever part of its stream client `c` has received, it is the whole pairs of
      consecutive frames, starting with the first one captured for it, and then a
      prefix of at most one more pair. */
  lemma ClientReceivesPairs(h: History, c: nat, received: seq<byte>) returns (k: nat)
    requires Legal(h) && c < |h.connections| && received <= h.connections[c].sent
    ensures h.connections[c].first <= k <= LastOf(h, c) <= |h.pairs|
    ensures Concat(h.pairs[h.connections[c].first..k]) <= received
    ensures var rest := received[|Concat(h.pairs[h.connections[c].first..k])|..];
      if k == LastOf(h, c) then rest == [] else rest <= h.pairs[k]
  {
    var (first, last) := (h.connections[c].first, LastOf(h, c));
    assert FramedAt(h, c);
    var parts := h.pairs[first..last];
    var n := PrefixSplits(parts, received);
    k := first + n;
    assert parts[..n] == h.pairs[first..k];
  }

  lemma {:induction false} ConnectionsAscend(h: History, c: nat, d: nat)
    requires Legal(h) && c < d < |h.connections|
    ensures LastOf(h, c) <= h.connections[d].first
    decreases d
  {
    if c + 1 < d {
      ConnectionsAscend(h, c, d - 1);
      assert FramedAt(h, d - 1);
    }
  }

  /** The frames of an earlier client all come before those of a later one. */
  lemma ClientsShareNoFrame(h: History, c: nat, d: nat, i: nat, j: nat)
    requires Legal(h) && c < d < |h.connections|
    requires h.connections[c].first <= i < LastOf(h, c) && h.connections[d].first <= j < LastOf(h, d)
    ensures i < j < |h.pairs|
  {
    ConnectionsAscend(h, c, d);
    assert FramedAt(h, d);
  }

  /** Two frames of a run, for whichever clients, have the same sequence number only
      if 2^32 divides their distance, and neighbours are numbered consecutively. */
  lemma SequencesNeverReused(frames: seq<FrameData>, h: History, returned: seq<Returned>, encode: uint32 -> uint16,
                             i: nat, j: nat)
    requires SoundRun(frames, h, returned, encode) && i < j < |h.pairs|
    ensures j < |frames| && (frames[i].sequence == frames[j].sequence <==> (j - i) % U32 == 0)
    ensures j == i + 1 ==> frames[j].sequence == (frames[i].sequence + 1) % U32
  {
    hide PairOf, DeadlineOf;
    FrameOfRun(frames, h, returned, encode, i);
    FrameOfRun(frames, h, returned, encode, j);
    SameResidue(i + 1, j + 1);
  }

  /** Every send of every run follows a clock reading below its frame's deadline. */
  lemma SendsAreTimely(frames: seq<FrameData>, h: History, returned: seq<Returned>, encode: uint32 -> uint16, k: nat)
    requires SoundRun(frames, h, returned, encode) && k < |h.calls| && h.calls[k].Send?
    ensures h.calls[k].frame < |frames| && k > 0 && h.calls[k - 1].Clock?
    ensures h.calls[k - 1].now < DeadlineOf(frames[h.calls[k].frame])
  {
    hide PairOf, DeadlineOf;
    assert TimelyCall(h.calls, h.deadlines, k);
    FrameOfRun(frames, h, returned, encode, h.calls[k].frame);
  }

  /** The epochs of two streamed frames, for whichever clients, are equal exactly when
      a multiple of 2^32 configuration changes was observed between their captures. */
  lemma StreamedEpochs(s: Streamer, i: nat, j: nat)
    requires s.Sound() && i < j < |s.frames|
    ensures |s.frames| <= |s.tracker.frames|
    ensures var (f, g) := (s.tracker.frames[i], s.tracker.frames[j]);
      && 0 < f.at <= g.at <= |s.tracker.log|
      && (s.frames[i].metadata.configEpoch == s.frames[j].metadata.configEpoch <==>
            ChangesFrom(s.tracker.log, f.at, g.at) % U32 == 0)
  {
    hide PairOf, DeadlineOf;
    assert RecordedAt(s.frames, s.socket.history, s.tracker.frames, s.encode, i);
    assert RecordedAt(s.frames, s.socket.history, s.tracker.frames, s.encode, j);
    EpochsOfFrames(s.tracker, i, j);
  }
}
