/**
  The DHCP client of RFC 2131 section 3.1: retry loop, DISCOVER/OFFER/REQUEST/ACK round, reply
  filter and lease memory, run against an arbitrary tape of what the network and the context do.
 */
module DhcpClient {
  import opened Common
  import opened Framing
  import opened DhcpPacket
  import opened DhcpRounds

  const MAX_TRIES := 5
  const BROADCAST: IPv4 := [255, 255, 255, 255]

  /** The broadcast frames of a trace: one for each message, from 0.0.0.0:68 to port 67. */
  function FramesOf(log: seq<Event>): seq<seq<byte>> {
    if log == [] then [] else
      FramesOf(log[..|log| - 1])
      + (match log[|log| - 1]
         case Sent(msg) => [Packet(ZERO_IP, BROADCAST, CLIENT_PORT, SERVER_PORT, msg)]
         case Saw(_) => [])
  }

  lemma SentIsFramed(log: seq<Event>, msg: seq<byte>, frame: seq<byte>)
    requires frame == Packet(ZERO_IP, BROADCAST, CLIENT_PORT, SERVER_PORT, msg)
    ensures FramesOf(log + [Sent(msg)]) == FramesOf(log) + [frame]
  {
    assert (log + [Sent(msg)])[..|log|] == log;
  }

  lemma SeenIsNot(log: seq<Event>, i: Input)
    ensures FramesOf(log + [Saw(i)]) == FramesOf(log)
  {
    assert (log + [Saw(i)])[..|log|] == log;
  }

  lemma NothingYet<T>(a: seq<T>)
    ensures a + [] == a
  {}

  lemma OneOver<T>(a: seq<T>, b: seq<T>)
    requires b != []
    ensures a + b == a + [b[0]] + b[1..]
  {}

  /** What a log grew by is what the tape got shorter by. */
  lemma TookFromTape(log: seq<Event>, tape: seq<Input>, es: seq<Event>, left: seq<Input>)
    requires Inputs(log) + tape == Inputs(log + es) + left
    ensures tape == Inputs(es) + left
  {
    InputsJoin(log, es);
    var n := |Inputs(log)|;
    assert tape == (Inputs(log) + tape)[n..] == (Inputs(log) + Inputs(es) + left)[n..] == Inputs(es) + left;
  }

  /** A frame broadcasts msg from no address, port 68, to port 67 of everyone. */
  predicate Broadcasts(f: seq<byte>, msg: seq<byte>) {
    && |f| == 28 + |msg| && f[9] == 17 && f[12..16] == [0, 0, 0, 0] && f[16..20] == [255, 255, 255, 255]
    && U16(f, 20) == 68 && U16(f, 22) == 67 && f[28..] == msg
  }

  /** Every frame on the wire broadcasts a message of the log, and every message of the log is broadcast. */
  lemma {:induction false} WireBroadcasts(log: seq<Event>)
    ensures forall f <- FramesOf(log) :: exists e <- log :: e.Sent? && Broadcasts(f, e.msg)
    ensures forall e <- log :: e.Sent? ==> exists f <- FramesOf(log) :: Broadcasts(f, e.msg)
    decreases |log|
  {
    if log != [] {
      var n := |log| - 1;
      WireBroadcasts(log[..n]);
      assert log == log[..n] + [log[n]];
      if log[n].Sent? {
        var f := Packet(ZERO_IP, BROADCAST, CLIENT_PORT, SERVER_PORT, log[n].msg);
        PacketBytes(ZERO_IP, BROADCAST, CLIENT_PORT, SERVER_PORT, log[n].msg);
        assert FramesOf(log) == FramesOf(log[..n]) + [f] && Broadcasts(f, log[n].msg);
      } else {
        assert FramesOf(log) == FramesOf(log[..n]) + [];
      }
    }
  }

  /** One interface's packet socket, with the tape of inputs and random transaction ids still to come. */
  class RawSock {
    ghost const script: seq<Input>  // the tape from the start
    ghost const given: seq<Xid>     // the ids from the start
    var tape: seq<Input>
    var xids: seq<Xid>
    var wire: seq<seq<byte>>        // the frames broadcast so far
    ghost var log: seq<Event>

    /** Every message in the log is a frame on the wire, and every input in it was taken off the tape, in order. */
    ghost predicate Valid()
      reads this
    {
      wire == FramesOf(log) && script == Inputs(log) + tape
    }

    constructor (tape: seq<Input>, xids: seq<Xid>)
      ensures Valid() && log == [] && this.tape == script == tape && this.xids == given == xids
    {
      this.script, this.given, this.tape, this.xids, wire, log := tape, xids, tape, xids, [], [];
    }

    /** Takes the next input. */
    method Take() returns (i: Input)
      requires Valid() && tape != []
      modifies this`tape, this`log
      ensures Valid() && i == old(tape)[0] && tape == old(tape)[1..] && log == old(log) + [Saw(i)]
    {
      i := tape[0];
      SeenIsNot(log, i);
      InputsMore(log, Saw(i));
      OneOver(Inputs(log), tape);
      log := log + [Saw(i)];
      tape := tape[1..];
    }

    /** ctx.Err() and the select on ctx.Done(). */
    method ContextDone() returns (done: bool)
      requires Valid()
      modifies this`tape, this`log
      ensures Valid() && done == (old(tape) != [] && old(tape)[0].Cancelled?)
      ensures log == old(log) + (if done then [Saw(Cancelled)] else [])
      ensures tape == if done then old(tape)[1..] else old(tape)
    {
      done := tape != [] && tape[0].Cancelled?;
      if done { var _ := Take(); }
    }

    method NewXID() returns (xid: Option<Xid>)
      requires Valid()
      modifies this`xids
      ensures Valid() && xid == XidAt(old(xids), 0)
      ensures xids == if old(xids) == [] then [] else old(xids)[1..]
    {
      if xids == [] { return None; }
      xid := Some(xids[0]);
      xids := xids[1..];
    }

    method Send(msg: seq<byte>) returns (ok: bool)
      requires Valid()
      modifies this`tape, this`wire, this`log
      ensures Valid() && ok == !(old(tape) != [] && old(tape)[0].SendError?)
      ensures log == old(log) + [if ok then Sent(msg) else Saw(SendError)]
      ensures tape == if ok then old(tape) else old(tape)[1..]
    {
      if tape != [] && tape[0].SendError? {
        var _ := Take();
        return false;
      }
      var frame := EncodeIPUDP(ZERO_IP, BROADCAST, CLIENT_PORT, SERVER_PORT, msg);
      SentIsFramed(log, msg, frame[..]);
      Broadcast(msg, frame[..]);
      ok := true;
    }

    /** Sendto on the packet socket. */
    method Broadcast(ghost msg: seq<byte>, frame: seq<byte>)
      requires Valid() && FramesOf(log + [Sent(msg)]) == FramesOf(log) + [frame]
      modifies this`wire, this`log
      ensures Valid() && log == old(log) + [Sent(msg)]
    {
      InputsMore(log, Sent(msg));
      wire := wire + [frame];
      log := log + [Sent(msg)];
    }

    /** The first matching reply before the wait ends; everything before it on the tape is ignored. */
    method RecvReply(xid: Xid, wants: set<byte>) returns (r: Option<Reply>, ghost es: seq<Event>)
      requires Valid()
      modifies this`tape, this`log
      ensures Valid() && log == old(log) + es && Heard(es, xid, wants, r, tape)
    {
      es := [];
      NothingYet(log);
      while tape != []
        invariant Valid() && log == old(log) + es && AllIgnored(es, xid, wants)
        decreases |tape|
      {
        ghost var past := es;
        var next := Take();
        Regroup(old(log), past, [Saw(next)]);
        es := past + [Saw(next)];
        HeardMore(past, next, xid, wants, tape);
        match next {
          case Cancelled => return None, es;
          case Deadline => return None, es;
          case Broken => return None, es;
          case Nothing =>
          case SendError =>
          case Arrives(pkt) =>
            var reply := Accept(pkt, xid, wants);
            if reply.None? { continue; }
            return reply, es;
        }
      }
      HeardEnd(es, xid, wants);
      r := None;
    }

    /** The reply in pkt, if it answers transaction xid in a wanted way. */
    method Accept(pkt: seq<byte>, xid: Xid, wants: set<byte>) returns (r: Option<Reply>)
      ensures r == if Matches(pkt, xid, wants) then Reads(pkt) else None
    {
      var payload := DecodeIPUDP(pkt);
      if payload.None? { return None; }
      var reply := ParseReply(payload.value);
      if reply.None? { return None; }
      if reply.value.xid != xid || MsgType(reply.value) !in wants { return None; }
      return reply;
    }

    // ---- one round -----------------------------------------------------------------------------

    /** Sends msg and waits for its answer. */
    method Ask(msg: seq<byte>, xid: Xid, wants: set<byte>) returns (r: Option<Reply>, ghost es: seq<Event>)
      requires Valid()
      modifies this`tape, this`wire, this`log
      ensures Valid() && log == old(log) + es && Half(es, msg, xid, wants, r, tape)
    {
      ghost var before := log;
      var ok := Send(msg);
      if !ok { return None, [Saw(SendError)]; }
      ghost var heard;
      r, heard := RecvReply(xid, wants);
      es := [Sent(msg)] + heard;
      HalfSent(heard, msg, xid, wants, r, tape);
      Regroup(before, [Sent(msg)], heard);
    }

    /** Everything the round sent and saw, and what it left on the tape, is what x says. */
    method Handshake(mac: Mac) returns (out: Outcome, ghost x: Exchange)
      requires Valid()
      modifies this`tape, this`wire, this`log, this`xids
      ensures Valid() && log == old(log) + x.opening + x.closing && tape == x.left
      ensures Round(x, mac) && x.out == out
      ensures x.xid == XidAt(old(xids), 0) && xids == if old(xids) == [] then [] else old(xids)[1..]
    {
      x := Exchange(None, [], None, [], None, tape, Failed);
      var xid := NewXID();
      if xid.None? { return Failed, x; }
      var discover := BuildMsg(MSG_DISCOVER, xid.value, mac, None, None);
      var offer, opening := Ask(discover, xid.value, {MSG_OFFER});
      x := Exchange(xid, opening, offer, [], None, tape, Failed);
      if offer.None? { return Failed, x; }
      var serverID := Opt4(offer.value, OPT_SERVER_ID);
      if serverID.None? { return Failed, x; }
      var request := BuildMsg(MSG_REQUEST, xid.value, mac, Some(offer.value.yiaddr), serverID);
      ghost var before, waiting := log, tape;
      var ack, closing := Ask(request, xid.value, {MSG_ACK, MSG_NAK});
      TookFromTape(before, waiting, closing, tape);
      x := Exchange(xid, opening, offer, closing, ack, tape, Failed);
      if ack.None? { return Failed, x; }
      if MsgType(ack.value) == MSG_NAK { return Declined, x.(out := Declined); }
      var lease := ToLease(ack.value);
      if lease.None? { return Failed, x; }
      var l := lease.value;
      if l.serverID.None? { l := l.(serverID := serverID); }
      return Bound(l), x.(out := Bound(l));
    }
  }

  // ---- what was leased and given back ------------------------------------------------------------------

  datatype LeaseState = LeaseState(mac: Mac, clientIP: IPv4, serverID: Option<IPv4>)

  /** A lease was recorded for an interface, or its record dropped, with or without a RELEASE. */
  datatype Act = Recorded(ifname: string, st: LeaseState) | Dropped(ifname: string, sent: Option<seq<byte>>)

  /** The record that a history leaves on an interface. */
  function Held(h: seq<Act>, i: string): Option<LeaseState> {
    if h == [] then None
    else match h[|h| - 1]
         case Recorded(j, st) => if i == j then Some(st) else Held(h[..|h| - 1], i)
         case Dropped(j, _) => if i == j then None else Held(h[..|h| - 1], i)
  }

  ghost predicate IsReleaseOf(msg: seq<byte>, st: LeaseState) {
    st.serverID.Some? && exists xid: Xid :: msg == Message(MSG_RELEASE, xid, st.mac, Some(st.clientIP), st.serverID)
  }

  /** The message releases the recorded address: its ciaddr field, its hardware address, its type and its server. */
  predicate NamesLease(msg: seq<byte>, st: LeaseState) {
    && |msg| > 240 && msg[10..12] == [0, 0] && msg[12..16] == st.clientIP && msg[28..34] == st.mac
    && Parsed(msg).Some? && MsgType(Parsed(msg).value) == 7
    && st.serverID.Some? && Opt4(Parsed(msg).value, 54) == st.serverID
  }

  lemma ReleaseNames(msg: seq<byte>, xid: Xid, st: LeaseState)
    requires st.serverID.Some? && msg == Message(MSG_RELEASE, xid, st.mac, Some(st.clientIP), st.serverID)
    ensures NamesLease(msg, st)
  {
    MessageBytes(MSG_RELEASE, xid, st.mac, Some(st.clientIP), st.serverID);
    ParsesBuilt(MSG_RELEASE, xid, st.mac, Some(st.clientIP), st.serverID);
  }

  /** Every RELEASE gives back the lease that was on record, to the server it came from. */
  ghost predicate Paid(h: seq<Act>) {
    forall k :: 0 <= k < |h| && h[k].Dropped? && h[k].sent.Some? ==>
      Held(h[..k], h[k].ifname).Some? && IsReleaseOf(h[k].sent.value, Held(h[..k], h[k].ifname).value)
  }

  lemma PaidMore(h: seq<Act>, a: Act)
    requires Paid(h)
    requires a.Dropped? && a.sent.Some? ==>
      Held(h, a.ifname).Some? && IsReleaseOf(a.sent.value, Held(h, a.ifname).value)
    ensures Paid(h + [a])
  {
    forall k | 0 <= k < |h| ensures (h + [a])[..k] == h[..k] {}
    assert (h + [a])[..|h|] == h;
  }

  lemma HeldMore(h: seq<Act>, a: Act, i: string)
    ensures Held(h + [a], i) == if a.ifname != i then Held(h, i) else if a.Recorded? then Some(a.st) else None
  {
    assert (h + [a])[..|h|] == h;
  }

  function Recordings(h: seq<Act>, i: string): nat {
    if h == [] then 0
    else Recordings(h[..|h| - 1], i) + if h[|h| - 1].Recorded? && h[|h| - 1].ifname == i then 1 else 0
  }

  function Releases(h: seq<Act>, i: string): nat {
    if h == [] then 0
    else Releases(h[..|h| - 1], i)
         + if h[|h| - 1].Dropped? && h[|h| - 1].ifname == i && h[|h| - 1].sent.Some? then 1 else 0
  }

  /** No lease is given back twice: over any run the RELEASEs number at most the leases no longer held. */
  lemma {:induction false} EachLeasePaysOnce(h: seq<Act>, i: string)
    requires Paid(h)
    ensures Releases(h, i) + (if Held(h, i).Some? then 1 else 0) <= Recordings(h, i)
    decreases |h|
  {
    if h != [] {
      var n := |h| - 1;
      assert Paid(h[..n]) by {
        forall k | 0 <= k < n ensures h[..n][..k] == h[..k] {}
      }
      EachLeasePaysOnce(h[..n], i);
    }
  }

  // ---- the client --------------------------------------------------------------------------------------

  /** The hardware address to use: the given one, or the one the interface reports. */
  function Hardware(mac: seq<byte>, hw: Option<seq<byte>>): Option<Mac> {
    if |mac| == 6 then Some(mac) else if hw.Some? && |hw.value| == 6 then Some(hw.value) else None
  }

  /** A given address of six bytes is used, else the interface's own if that has six. */
  lemma HardwareExactly(mac: seq<byte>, hw: Option<seq<byte>>, m: Mac)
    ensures Hardware(mac, hw) == Some(m) <==> m == mac || (|mac| != 6 && hw == Some(m))
  {}

  /**
    The rounds xs, at most five, each with a fresh id, are all that happened on the socket, except
    that it may have ended with a cancellation seen between rounds; lease is what the last one bound.
   */
  ghost predicate Tried(xs: seq<Exchange>, m: Mac, sock: RawSock, lease: Option<Lease>, stopped: bool)
    reads sock
  {
    && |xs| <= MAX_TRIES && sock.Valid() && Rounds(xs, m, sock.script, sock.given)
    && sock.log == (if stopped then Events(xs) + [Saw(Cancelled)] else Events(xs))
    && (lease.Some? <==> xs != [] && xs[|xs| - 1].out.Bound?)
    && (lease.Some? ==> !stopped && xs[|xs| - 1].out == Bound(lease.value))
  }

  /** The ids still unused after n rounds. */
  function UnusedXids(given: seq<Xid>, n: nat): seq<Xid> { if n <= |given| then given[n..] else [] }

  lemma OneXidUsed(given: seq<Xid>, n: nat)
    ensures XidAt(UnusedXids(given, n), 0) == XidAt(given, n)
    ensures UnusedXids(given, n + 1) == var us := UnusedXids(given, n); if us == [] then [] else us[1..]
  {
  }

  class Client {
    var leases: map<string, LeaseState>
    ghost var history: seq<Act>

    /** The map holds exactly what the history left on record, and no lease was given back twice. */
    ghost predicate Valid()
      reads this
    {
      (forall i :: (if i in leases then Some(leases[i]) else None) == Held(history, i)) && Paid(history)
    }

    constructor ()
      ensures Valid() && leases == map[] && history == []
    {
      leases, history := map[], [];
    }

    /**
      hw is the hardware address the interface reports (none if it does not exist), found whether
      the second lookup finds it, bound whether the packet socket could be opened; xs is the rounds,
      stopped whether a cancellation ended them.
     */
    method Acquire(ifname: string, mac: seq<byte>, hw: Option<seq<byte>>, found: bool, bound: bool, sock: RawSock)
      returns (lease: Option<Lease>, ghost xs: seq<Exchange>, ghost stopped: bool)
      requires Valid() && sock.Valid() && sock.log == [] && sock.xids == sock.given
      modifies this, sock
      ensures Valid()
      ensures Hardware(mac, hw).None? || !found || !bound ==>
        lease.None? && leases == old(leases) && history == old(history) && sock.log == []
      ensures Hardware(mac, hw).Some? && found && bound ==>
        && var m := Hardware(mac, hw).value;
        && Tried(xs, m, sock, lease, stopped) && (lease.None? ==> stopped || |xs| == MAX_TRIES)
        && Remembers(old(leases), old(history), ifname, m, lease)
    {
      xs, stopped, lease := [], false, None;
      var addr := mac;
      if |addr| != 6 {
        if hw.None? { return; }
        addr := hw.value;
        if |addr| != 6 { return; }
      }
      if !found || !bound { return; }
      lease, xs, stopped := Attempts(ifname, addr, sock);
    }

    /** A lease is recorded, with the address it was bound for; without one nothing changes. */
    ghost predicate Remembers(was: map<string, LeaseState>, past: seq<Act>, ifname: string, m: Mac,
        lease: Option<Lease>)
      reads this
    {
      if lease.None? then leases == was && history == past
      else
        var st := LeaseState(m, lease.value.ip, lease.value.serverID);
        leases == was[ifname := st] && history == past + [Recorded(ifname, st)]
    }

    /** The retry loop of Acquire. */
    method Attempts(ifname: string, m: Mac, sock: RawSock)
      returns (lease: Option<Lease>, ghost xs: seq<Exchange>, ghost stopped: bool)
      requires Valid() && sock.Valid() && sock.log == [] && sock.xids == sock.given
      modifies this, sock`tape, sock`wire, sock`log, sock`xids
      ensures Valid() && Tried(xs, m, sock, lease, stopped) && (lease.None? ==> stopped || |xs| == MAX_TRIES)
      ensures Remembers(old(leases), old(history), ifname, m, lease)
    {
      lease, xs, stopped := None, [], false;
      var try := 0;
      while try < MAX_TRIES
        invariant 0 <= try <= MAX_TRIES && |xs| == try && lease.None? && !stopped
        invariant Tried(xs, m, sock, None, false) && sock.xids == UnusedXids(sock.given, |xs|)
        invariant Valid() && leases == old(leases) && history == old(history)
        decreases MAX_TRIES - try
      {
        var done := sock.ContextDone();
        if done { return None, xs, true; }
        var out;
        out, xs := Attempt(m, sock, xs);
        if out.Bound? {
          Record(ifname, LeaseState(m, out.lease.ip, out.lease.serverID));
          lease := Some(out.lease);
          return;
        }
        try := try + 1;
        if out.Declined? || try == MAX_TRIES { continue; }
        done := sock.ContextDone();
        if done { return None, xs, true; }
      }
    }

    /** One round after the rounds before. */
    method Attempt(m: Mac, sock: RawSock, ghost before: seq<Exchange>) returns (out: Outcome, ghost xs: seq<Exchange>)
      requires |before| < MAX_TRIES && Tried(before, m, sock, None, false)
      requires sock.xids == UnusedXids(sock.given, |before|)
      modifies sock`tape, sock`wire, sock`log, sock`xids
      ensures |xs| == |before| + 1 && sock.xids == UnusedXids(sock.given, |xs|)
      ensures Tried(xs, m, sock, if out.Bound? then Some(out.lease) else None, false)
    {
      ghost var x;
      out, x := sock.Handshake(m);
      OneXidUsed(sock.given, |before|);
      EventsMore(before, x);
      OneMoreRound(before, m, sock.script, sock.given, x);
      xs := before + [x];
    }

    method Record(ifname: string, st: LeaseState)
      requires Valid()
      modifies this
      ensures Valid() && leases == old(leases)[ifname := st] && history == old(history) + [Recorded(ifname, st)]
    {
      forall i { HeldMore(history, Recorded(ifname, st), i); }
      PaidMore(history, Recorded(ifname, st));
      leases := leases[ifname := st];
      history := history + [Recorded(ifname, st)];
    }

    /** sent is the RELEASE that went out; xid and dialled are what the environment contributes. */
    method Release(ifname: string, xid: Option<Xid>, dialled: bool) returns (sent: Option<seq<byte>>)
      requires Valid()
      modifies this
      ensures Valid() && leases == old(leases) - {ifname}
      ensures history == if ifname in old(leases) then old(history) + [Dropped(ifname, sent)] else old(history)
      ensures sent.Some? <==> ifname in old(leases) && old(leases)[ifname].serverID.Some? && xid.Some? && dialled
      ensures sent.Some? ==> var st := old(leases)[ifname];
        && sent.value == Message(MSG_RELEASE, xid.value, st.mac, Some(st.clientIP), st.serverID)
        && NamesLease(sent.value, st)
    {
      if ifname !in leases { return None; }
      var st := leases[ifname];
      sent := None;
      if st.serverID.Some? && xid.Some? {
        var msg := BuildMsg(MSG_RELEASE, xid.value, st.mac, Some(st.clientIP), st.serverID);
        ReleaseNames(msg, xid.value, st);
        if dialled { sent := Some(msg); }
      }
      Drop(ifname, sent);
    }

    method Drop(ifname: string, ghost sent: Option<seq<byte>>)
      requires Valid() && ifname in leases && (sent.Some? ==> IsReleaseOf(sent.value, leases[ifname]))
      modifies this
      ensures Valid() && leases == old(leases) - {ifname} && history == old(history) + [Dropped(ifname, sent)]
    {
      forall i { HeldMore(history, Dropped(ifname, sent), i); }
      PaidMore(history, Dropped(ifname, sent));
      leases := leases - {ifname};
      history := history + [Dropped(ifname, sent)];
    }
  }

  /** Over everything Acquire did: five DISCOVERs at most, every REQUEST justified, the lease granted by an ACK. */
  lemma AcquireIsSafe(xs: seq<Exchange>, m: Mac, sock: RawSock, lease: Option<Lease>, stopped: bool)
    requires Tried(xs, m, sock, lease, stopped)
    ensures Discovers(sock.log) <= 5 && AllJustified(sock.log) && FromTape(sock.log, sock.script)
    ensures lease.Some? ==> WasGranted(sock.log, lease.value)
  {
    AllRounds(xs, m, sock.script, sock.given);
    AtMostOneDiscoverPerRound(xs, m);
    RequestsJustified(xs, m);
    AllFromTape(sock.log, sock.script, sock.tape);
    if stopped {
      DiscoversMore(Events(xs), Saw(Cancelled));
      StillJustified(Events(xs), Saw(Cancelled));
    }
    if lease.Some? {
      var k, i := LeaseComesFromAck(xs, m);
    }
  }
}
