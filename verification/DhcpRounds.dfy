/**
  What a DHCP exchange looks like from outside (RFC 2131 section 3.1): the client's messages and
  everything its socket delivered, in one trace, and what every such trace satisfies.
 */
module DhcpRounds {
  import opened Common
  import opened Framing
  import opened DhcpPacket

  /** What the environment does next. */
  datatype Input =
    | Arrives(pkt: seq<byte>)  // the socket delivers a packet
    | Nothing                  // a read times out or is interrupted
    | Broken                   // a read fails
    | Deadline                 // the wait budget is used up
    | SendError                // the next send fails
    | Cancelled                // the context is cancelled

  /** The client sends a message, or takes the next input. */
  datatype Event = Sent(msg: seq<byte>) | Saw(input: Input)

  datatype Outcome = Bound(lease: Lease) | Declined | Failed

  // ---- the reply filter ----------------------------------------------------------------------------

  /** The reply that a packet holds, if any. */
  function Reads(pkt: seq<byte>): Option<Reply> {
    var payload := DecodeIPUDP(pkt);
    if payload.None? then None else Parsed(payload.value)
  }

  predicate Matches(pkt: seq<byte>, xid: Xid, wants: set<byte>) {
    Reads(pkt).Some? && Reads(pkt).value.xid == xid && MsgType(Reads(pkt).value) in wants
  }

  predicate Stops(i: Input) { i.Broken? || i.Deadline? || i.Cancelled? }

  /** i makes recvReply go round its loop again. */
  predicate Ignored(i: Input, xid: Xid, wants: set<byte>) {
    !Stops(i) && (i.Arrives? ==> !Matches(i.pkt, xid, wants))
  }

  // ---- traces ----------------------------------------------------------------------------------------

  /** The inputs that the trace took, in order. */
  function Inputs(es: seq<Event>): seq<Input> {
    if es == [] then []
    else Inputs(es[..|es| - 1]) + (if es[|es| - 1].Saw? then [es[|es| - 1].input] else [])
  }

  lemma InputsMore(es: seq<Event>, e: Event)
    ensures Inputs(es + [e]) == Inputs(es) + (if e.Saw? then [e.input] else [])
  {
    assert (es + [e])[..|es|] == es;
  }

  lemma LastApart<T>(a: seq<T>, b: seq<T>)
    requires b != []
    ensures a + b[..|b| - 1] + [b[|b| - 1]] == a + b && (a + b)[..|a| + |b| - 1] == a + b[..|b| - 1]
  {}

  lemma {:induction false} InputsJoin(es: seq<Event>, more: seq<Event>)
    ensures Inputs(es + more) == Inputs(es) + Inputs(more)
    decreases |more|
  {
    if more == [] {
      assert es + more == es;
    } else {
      var n := |more| - 1;
      InputsJoin(es, more[..n]);
      InputsMore(es + more[..n], more[n]);
      LastApart(es, more);
    }
  }

  /** What a trace saw is the input at that place of the tape it was played from. */
  lemma TakenFromTape(es: seq<Event>, tape: seq<Input>, left: seq<Input>, i: nat)
    requires tape == Inputs(es) + left && i < |es| && es[i].Saw?
    ensures |Inputs(es[..i])| < |tape| && tape[|Inputs(es[..i])|] == es[i].input
  {
    InputsMore(es[..i], es[i]);
    InputsJoin(es[..i + 1], es[i + 1..]);
    assert es[..i] + [es[i]] == es[..i + 1] && es[..i + 1] + es[i + 1..] == es;
  }

  /** Every input in the trace came from tape, in the order of tape and with none left out. */
  ghost predicate FromTape(es: seq<Event>, tape: seq<Input>) {
    forall i :: 0 <= i < |es| && es[i].Saw? ==>
      |Inputs(es[..i])| < |tape| && tape[|Inputs(es[..i])|] == es[i].input
  }

  lemma AllFromTape(es: seq<Event>, tape: seq<Input>, left: seq<Input>)
    requires tape == Inputs(es) + left
    ensures FromTape(es, tape)
  {
    forall i | 0 <= i < |es| && es[i].Saw?
      ensures |Inputs(es[..i])| < |tape| && tape[|Inputs(es[..i])|] == es[i].input
    {
      TakenFromTape(es, tape, left, i);
    }
  }

  /** Waiting for a reply: es is what was taken, r what came of it, left what stays on the tape. */
  predicate Heard(es: seq<Event>, xid: Xid, wants: set<byte>, r: Option<Reply>, left: seq<Input>) {
    && (forall k :: 0 <= k < |es| ==> es[k].Saw?)
    && (forall k :: 0 <= k < |es| - 1 ==> Ignored(es[k].input, xid, wants))
    && (if r.Some? then es != [] && Accepts(es[|es| - 1], xid, wants, r.value)
        else if es != [] && Stops(es[|es| - 1].input) then true
        else left == [] && (es != [] ==> Ignored(es[|es| - 1].input, xid, wants)))
  }

  /** e is the arrival of reply r, which answers transaction xid in a wanted way. */
  predicate Accepts(e: Event, xid: Xid, wants: set<byte>, r: Reply) {
    e.Saw? && e.input.Arrives? && Matches(e.input.pkt, xid, wants) && Reads(e.input.pkt) == Some(r)
  }

  predicate AllIgnored(es: seq<Event>, xid: Xid, wants: set<byte>) {
    forall k :: 0 <= k < |es| ==> es[k].Saw? && Ignored(es[k].input, xid, wants)
  }

  /** What the next input does to a wait that has ignored everything so far. */
  lemma HeardMore(es: seq<Event>, i: Input, xid: Xid, wants: set<byte>, left: seq<Input>)
    requires AllIgnored(es, xid, wants)
    ensures Ignored(i, xid, wants) ==> AllIgnored(es + [Saw(i)], xid, wants)
    ensures Stops(i) ==> Heard(es + [Saw(i)], xid, wants, None, left)
    ensures i.Arrives? && Matches(i.pkt, xid, wants) ==> Heard(es + [Saw(i)], xid, wants, Reads(i.pkt), left)
  {
  }

  lemma HeardEnd(es: seq<Event>, xid: Xid, wants: set<byte>)
    requires AllIgnored(es, xid, wants)
    ensures Heard(es, xid, wants, None, [])
  {
  }

  /** Half a round: the send fails, or msg goes out and the answer is waited for. */
  predicate Half(es: seq<Event>, msg: seq<byte>, xid: Xid, wants: set<byte>, r: Option<Reply>, left: seq<Input>) {
    if es == [Saw(SendError)] then r.None?
    else es != [] && es[0] == Sent(msg) && Heard(es[1..], xid, wants, r, left)
  }

  lemma HalfSent(heard: seq<Event>, msg: seq<byte>, xid: Xid, wants: set<byte>, r: Option<Reply>, left: seq<Input>)
    requires Heard(heard, xid, wants, r, left)
    ensures Half([Sent(msg)] + heard, msg, xid, wants, r, left)
  {
    assert ([Sent(msg)] + heard)[1..] == heard;
  }

  function DiscoverMsg(xid: Xid, mac: Mac): seq<byte> { Message(MSG_DISCOVER, xid, mac, None, None) }

  /** The request for the address that offer proposed, to the server that proposed it. */
  function RequestFor(xid: Xid, mac: Mac, offer: Reply): seq<byte> {
    Message(MSG_REQUEST, xid, mac, Some(offer.yiaddr), Opt4(offer, OPT_SERVER_ID))
  }

  /**
    One round: its transaction id, the two halves with the replies they accepted, what was left on
    the tape after it, and how it ended.
   */
  datatype Exchange = Exchange(xid: Option<Xid>, opening: seq<Event>, offer: Option<Reply>,
                               closing: seq<Event>, ack: Option<Reply>, left: seq<Input>, out: Outcome)

  ghost predicate Round(x: Exchange, mac: Mac) {
    if x.xid.None? then x.opening == [] && x.offer.None? && Closed(x)
    else
      && Half(x.opening, DiscoverMsg(x.xid.value, mac), x.xid.value, {MSG_OFFER}, x.offer, Inputs(x.closing) + x.left)
      && if x.offer.None? || Opt4(x.offer.value, OPT_SERVER_ID).None? then Closed(x)
         else
           && Half(x.closing, RequestFor(x.xid.value, mac, x.offer.value), x.xid.value, {MSG_ACK, MSG_NAK}, x.ack,
             x.left)
           && Ends(x)
  }

  /** The round did not get to its second half. */
  predicate Closed(x: Exchange) { x.closing == [] && x.ack.None? && x.out == Failed }

  /** How the answer to the request decides the round. */
  predicate Ends(x: Exchange)
    requires x.offer.Some?
  {
    if x.ack.None? then x.out == Failed
    else if MsgType(x.ack.value) == MSG_NAK then x.out == Declined
    else if !Leasable(x.ack.value) then x.out == Failed
    else x.out == Bound(Granted(x.offer.value, x.ack.value))
  }

  /** The lease of ack; when it names no server, the one of the offer is kept. */
  function Granted(offer: Reply, ack: Reply): Lease
    requires Leasable(ack)
  {
    var l := LeaseOf(ack);
    if l.serverID.Some? then l else l.(serverID := Opt4(offer, OPT_SERVER_ID))
  }

  /** The events of consecutive rounds. */
  function Events(xs: seq<Exchange>): seq<Event> {
    if xs == [] then [] else Events(xs[..|xs| - 1]) + xs[|xs| - 1].opening + xs[|xs| - 1].closing
  }

  lemma EventsMore(xs: seq<Exchange>, x: Exchange)
    ensures Events(xs + [x]) == Events(xs) + x.opening + x.closing
  {
    assert (xs + [x])[..|xs|] == xs;
  }

  function XidAt(xids: seq<Xid>, k: nat): Option<Xid> { if k < |xids| then Some(xids[k]) else None }

  /** The k-th of the rounds xs, played from tape, with the k-th of the random ids. */
  ghost predicate RoundAt(xs: seq<Exchange>, mac: Mac, tape: seq<Input>, xids: seq<Xid>, k: nat)
    requires k < |xs|
  {
    && Round(xs[k], mac) && xs[k].xid == XidAt(xids, k)
    && Inputs(Events(xs[..k + 1])) + xs[k].left == tape
  }

  /** Consecutive rounds on one tape; none is started after one that bound a lease. */
  ghost predicate Rounds(xs: seq<Exchange>, mac: Mac, tape: seq<Input>, xids: seq<Xid>) {
    && (forall k :: 0 <= k < |xs| ==> RoundAt(xs, mac, tape, xids, k))
    && (forall k :: 0 <= k < |xs| - 1 ==> !xs[k].out.Bound?)
  }

  /** What RoundAt says of a round depends on the rounds up to it only. */
  lemma RoundStays(xs: seq<Exchange>, mac: Mac, tape: seq<Input>, xids: seq<Xid>, x: Exchange, k: nat)
    requires k < |xs| && RoundAt(xs, mac, tape, xids, k)
    ensures RoundAt(xs + [x], mac, tape, xids, k)
  {
    assert (xs + [x])[..k + 1] == xs[..k + 1];
  }

  lemma LatestRound(xs: seq<Exchange>, mac: Mac, tape: seq<Input>, xids: seq<Xid>, x: Exchange)
    requires Round(x, mac) && x.xid == XidAt(xids, |xs|) && Inputs(Events(xs + [x])) + x.left == tape
    ensures RoundAt(xs + [x], mac, tape, xids, |xs|)
  {
    assert (xs + [x])[..|xs| + 1] == xs + [x];
  }

  lemma OneMoreRound(xs: seq<Exchange>, mac: Mac, tape: seq<Input>, xids: seq<Xid>, x: Exchange)
    requires Rounds(xs, mac, tape, xids) && (forall k :: 0 <= k < |xs| ==> !xs[k].out.Bound?)
    requires Round(x, mac) && x.xid == XidAt(xids, |xs|) && Inputs(Events(xs + [x])) + x.left == tape
    ensures Rounds(xs + [x], mac, tape, xids)
  {
    LatestRound(xs, mac, tape, xids, x);
    forall k | 0 <= k <= |xs| ensures RoundAt(xs + [x], mac, tape, xids, k) {
      if k < |xs| { RoundStays(xs, mac, tape, xids, x, k); }
    }
  }

  // ---- what goes out, and what is waited for, in bytes -----------------------------------------------------

  /** The message asks for its answer to be broadcast, and claims no address yet. */
  predicate HasNoAddress(msg: seq<byte>) { |msg| > 240 && msg[10..12] == [0x80, 0] && msg[12..16] == [0, 0, 0, 0] }

  /** So does everything a round sends. */
  lemma RoundHasNoAddress(x: Exchange, mac: Mac, e: Event)
    requires Round(x, mac) && e in x.opening + x.closing && e.Sent?
    ensures HasNoAddress(e.msg)
  {
    var xid := x.xid.value;
    MessageBytes(MSG_DISCOVER, xid, mac, None, None);
    if e in x.opening {
      HalfIs(x.opening, DiscoverMsg(xid, mac), xid, {MSG_OFFER}, x.offer, Inputs(x.closing) + x.left);
    } else {
      var offer := x.offer.value;
      MessageBytes(MSG_REQUEST, xid, mac, Some(offer.yiaddr), Opt4(offer, OPT_SERVER_ID));
      HalfIs(x.closing, RequestFor(xid, mac, offer), xid, {MSG_ACK, MSG_NAK}, x.ack, x.left);
    }
  }

  /** The DHCP part of a packet that answers transaction xid: the cookie, the id, and a wanted type. */
  predicate Answers(p: seq<byte>, xid: Xid, wants: set<byte>) {
    && |p| >= 240 && p[236..240] == [0x63, 0x82, 0x53, 0x63] && p[4..8] == xid
    && var opts := ParseOptions(p[240..], map[]);
       (if 53 in opts && |opts[53]| == 1 then opts[53][0] else 0) in wants
  }

  /** A packet matches exactly if it carries such an answer from the server to the client port. */
  lemma MatchesExactly(pkt: seq<byte>, xid: Xid, wants: set<byte>)
    ensures
      Matches(pkt, xid, wants)
      <==> exists p, hdr, ck, slack, pad :: Carries(pkt, hdr, ck, p, slack, pad) && Answers(p, xid, wants)
  {
    if Matches(pkt, xid, wants) {
      var p := DecodeIPUDP(pkt).value;
      DecodesExactly(pkt, p);
      var hdr, ck, slack, pad :| Carries(pkt, hdr, ck, p, slack, pad);
      assert Answers(p, xid, wants);
    }
    forall p, hdr, ck, slack, pad | Carries(pkt, hdr, ck, p, slack, pad) && Answers(p, xid, wants)
      ensures Matches(pkt, xid, wants)
    {
      DecodesExactly(pkt, p);
    }
  }

  /** An input that a wait passes over: an idle read, or a packet that is no answer. */
  predicate Passed(i: Input, xid: Xid, wants: set<byte>) {
    i.Nothing? || i.SendError? || (i.Arrives? && !Matches(i.pkt, xid, wants))
  }

  /** However many of those come first, the first answer is taken, unless the time, the socket or the context ends. */
  lemma FirstDecides(es: seq<Event>, xid: Xid, wants: set<byte>, r: Option<Reply>, left: seq<Input>,
      before: seq<Input>, i: Input, after: seq<Input>)
    requires Heard(es, xid, wants, r, left) && Inputs(es) + left == before + [i] + after
    requires !Passed(i, xid, wants) && forall b <- before :: Passed(b, xid, wants)
    ensures r == (if i.Arrives? then Reads(i.pkt) else None) && left == after
  {
    InputsOf(es);
    var n, tape := |before|, before + [i] + after;
    assert tape[n] == i && tape[n + 1..] == after;
    assert forall k :: 0 <= k < n ==> tape[k] == before[k] && before[k] in before;
    assert forall k :: 0 <= k < |es| ==> tape[k] == es[k].input;
    assert |es| == n + 1;
    assert left == tape[n + 1..];
  }

  lemma {:induction false} InputsOf(es: seq<Event>)
    requires forall k :: 0 <= k < |es| ==> es[k].Saw?
    ensures |Inputs(es)| == |es| && forall k :: 0 <= k < |es| ==> Inputs(es)[k] == es[k].input
    decreases |es|
  {
    if es != [] { InputsOf(es[..|es| - 1]); }
  }

  // ---- at most one DISCOVER a round --------------------------------------------------------------------

  predicate IsMessage(e: Event, mtype: byte) {
    e.Sent? && Parsed(e.msg).Some? && MsgType(Parsed(e.msg).value) == mtype
  }

  function Discovers(es: seq<Event>): nat {
    if es == [] then 0 else Discovers(es[..|es| - 1]) + (if IsMessage(es[|es| - 1], MSG_DISCOVER) then 1 else 0)
  }

  lemma {:induction false} DiscoversJoin(es: seq<Event>, more: seq<Event>)
    ensures Discovers(es + more) == Discovers(es) + Discovers(more)
    decreases |more|
  {
    if more == [] {
      assert es + more == es;
    } else {
      var n := |more| - 1;
      LastApart(es, more);
      DiscoversJoin(es, more[..n]);
    }
  }

  lemma DiscoversMore(es: seq<Event>, e: Event)
    ensures Discovers(es + [e]) == Discovers(es) + if IsMessage(e, MSG_DISCOVER) then 1 else 0
  {
    assert (es + [e])[..|es|] == es;
  }

  lemma {:induction false} NoDiscovers(es: seq<Event>)
    requires forall k :: 0 <= k < |es| ==> es[k].Saw?
    ensures Discovers(es) == 0
    decreases |es|
  {
    if es != [] { NoDiscovers(es[..|es| - 1]); }
  }

  lemma HalfDiscovers(es: seq<Event>)
    requires es != [] && forall k :: 1 <= k < |es| ==> es[k].Saw?
    ensures Discovers(es) == if IsMessage(es[0], MSG_DISCOVER) then 1 else 0
  {
    assert es == [es[0]] + es[1..] && [es[0]][..0] == [];
    DiscoversJoin([es[0]], es[1..]);
    NoDiscovers(es[1..]);
  }

  /** What the two messages of a round are to a server that parses them. */
  lemma DiscoverParses(xid: Xid, mac: Mac)
    ensures IsMessage(Sent(DiscoverMsg(xid, mac)), MSG_DISCOVER) && Parsed(DiscoverMsg(xid, mac)).value.xid == xid
  {
    ParsesBuilt(MSG_DISCOVER, xid, mac, None, None);
  }

  /** msg, once parsed, asks in transaction xid for what offer proposed. */
  predicate AsksFor(msg: seq<byte>, xid: Xid, offer: Reply) {
    && IsMessage(Sent(msg), MSG_REQUEST) && Parsed(msg).value.xid == xid
    && Opt4(Parsed(msg).value, OPT_REQUESTED_IP) == Some(offer.yiaddr)
    && Opt4(Parsed(msg).value, OPT_SERVER_ID) == Opt4(offer, OPT_SERVER_ID) != None
  }

  lemma RequestParses(xid: Xid, mac: Mac, offer: Reply)
    requires Opt4(offer, OPT_SERVER_ID).Some?
    ensures AsksFor(RequestFor(xid, mac, offer), xid, offer)
  {
    ParsesBuilt(MSG_REQUEST, xid, mac, Some(offer.yiaddr), Opt4(offer, OPT_SERVER_ID));
  }

  lemma HalfIs(es: seq<Event>, msg: seq<byte>, xid: Xid, wants: set<byte>, r: Option<Reply>, left: seq<Input>)
    requires Half(es, msg, xid, wants, r, left)
    ensures es != [] && (es[0] == Sent(msg) || es[0] == Saw(SendError)) && forall k :: 1 <= k < |es| ==> es[k].Saw?
  {
    if es[0] == Sent(msg) {
      forall k | 1 <= k < |es| ensures es[k].Saw? {
        assert es[k] == es[1..][k - 1];
      }
    }
  }

  lemma RoundDiscovers(x: Exchange, mac: Mac)
    requires Round(x, mac)
    ensures Discovers(x.opening) <= 1 && Discovers(x.closing) == 0
  {
    if x.xid.Some? {
      var xid := x.xid.value;
      HalfIs(x.opening, DiscoverMsg(xid, mac), xid, {MSG_OFFER}, x.offer, Inputs(x.closing) + x.left);
      HalfDiscovers(x.opening);
      if x.closing != [] {
        HalfIs(x.closing, RequestFor(xid, mac, x.offer.value), xid, {MSG_ACK, MSG_NAK}, x.ack, x.left);
        HalfDiscovers(x.closing);
        RequestParses(xid, mac, x.offer.value);
      }
    }
  }

  /** One DISCOVER per round at most, so five in all. */
  lemma AtMostOneDiscoverPerRound(xs: seq<Exchange>, mac: Mac)
    requires forall k :: 0 <= k < |xs| ==> Round(xs[k], mac)
    ensures Discovers(Events(xs)) <= |xs|
  {
    FirstDiscovers(xs, mac, |xs|);
    assert xs[..|xs|] == xs;
  }

  lemma {:induction false} FirstDiscovers(xs: seq<Exchange>, mac: Mac, n: nat)
    requires n <= |xs| && forall k :: 0 <= k < |xs| ==> Round(xs[k], mac)
    ensures Discovers(Events(xs[..n])) <= n
    decreases n
  {
    if n > 0 {
      FirstDiscovers(xs, mac, n - 1);
      EventsNext(xs, n - 1);
      RoundAdds(Events(xs[..n - 1]), xs[n - 1], mac);
    }
  }

  lemma EventsNext(xs: seq<Exchange>, n: nat)
    requires n < |xs|
    ensures Events(xs[..n + 1]) == Events(xs[..n]) + xs[n].opening + xs[n].closing
  {
    assert xs[..n + 1] == xs[..n] + [xs[n]];
    EventsMore(xs[..n], xs[n]);
  }

  lemma RoundAdds(past: seq<Event>, x: Exchange, mac: Mac)
    requires Round(x, mac)
    ensures Discovers(past + x.opening + x.closing) <= Discovers(past) + 1
  {
    RoundDiscovers(x, mac);
    DiscoversJoin(past, x.opening);
    DiscoversJoin(past + x.opening, x.closing);
  }

  // ---- every REQUEST is justified --------------------------------------------------------------------------

  /** Between es[k] and es[i] the client only took inputs, and none of them but the last was wanted. */
  predicate Waits(es: seq<Event>, k: nat, i: nat, xid: Xid, wants: set<byte>) {
    k < i <= |es| && forall m :: k < m < i - 1 ==> es[m].Saw? && Ignored(es[m].input, xid, wants)
  }

  /**
    The REQUEST es[i] is sent right after the arrival of an OFFER, the first one to the transaction
    that the DISCOVER es[k] opened; it carries that transaction's id, asks for the address that the
    OFFER proposed and names the server that proposed it.
   */
  predicate RequestJustified(es: seq<Event>, k: nat, i: nat)
    requires i < |es| && IsMessage(es[i], MSG_REQUEST)
  {
    var xid := Parsed(es[i].msg).value.xid;
    && k + 1 < i && IsMessage(es[k], MSG_DISCOVER) && Parsed(es[k].msg).value.xid == xid
    && Waits(es, k, i, xid, {MSG_OFFER})
    && es[i - 1].Saw? && es[i - 1].input.Arrives? && Matches(es[i - 1].input.pkt, xid, {MSG_OFFER})
    && AsksFor(es[i].msg, xid, Reads(es[i - 1].input.pkt).value)
  }

  /** Where a half of a round stands in a trace that has before in front of it and after behind. */
  lemma HalfStands(before: seq<Event>, half: seq<Event>, after: seq<Event>)
    requires |half| > 1
    ensures
      var es, n := before + half + after, |before|;
      && es[n] == half[0] && es[n + |half| - 1] == half[1..][|half| - 2]
      && forall m :: n < m < n + |half| ==> es[m] == half[1..][m - n - 1]
  {}

  /** A half that accepted an answer waited for it, in whatever trace it stands. */
  lemma HalfHeard(
      before: seq<Event>, half: seq<Event>, after: seq<Event>, msg: seq<byte>, xid: Xid, wants: set<byte>, r: Reply,
      left: seq<Input>)
    requires Half(half, msg, xid, wants, Some(r), left)
    ensures
      var es, k, i := before + half + after, |before|, |before| + |half|;
      && k + 1 < i && es[k] == Sent(msg) && Waits(es, k, i, xid, wants) && Accepts(es[i - 1], xid, wants, r)
  {
    HalfStands(before, half, after);
  }

  lemma OpeningHeard(past: seq<Event>, x: Exchange, mac: Mac)
    requires Round(x, mac) && x.offer.Some?
    ensures
      var es, k, i, xid := past + x.opening + x.closing, |past|, |past| + |x.opening|, x.xid.value;
      && x.xid.Some? && k + 1 < i && es[k] == Sent(DiscoverMsg(xid, mac)) && Waits(es, k, i, xid, {MSG_OFFER})
      && Accepts(es[i - 1], xid, {MSG_OFFER}, x.offer.value)
  {
    OpeningIs(x, mac);
    HalfHeard(past, x.opening, x.closing, DiscoverMsg(x.xid.value, mac), x.xid.value, {MSG_OFFER}, x.offer.value,
      Inputs(x.closing) + x.left);
  }

  lemma OpeningIs(x: Exchange, mac: Mac)
    requires Round(x, mac) && x.offer.Some?
    ensures
      && x.xid.Some?
      && Half(x.opening, DiscoverMsg(x.xid.value, mac), x.xid.value, {MSG_OFFER}, Some(x.offer.value),
           Inputs(x.closing) + x.left)
  {}

  lemma RoundRequest(past: seq<Event>, x: Exchange, mac: Mac)
    requires Round(x, mac) && x.closing != [] && x.closing[0].Sent?
    ensures
      var es, i := past + x.opening + x.closing, |past| + |x.opening|;
      && x.offer.Some? && IsMessage(es[i], MSG_REQUEST) && RequestJustified(es, |past|, i)
      && es[i - 1].input.Arrives? && Reads(es[i - 1].input.pkt) == x.offer
  {
    OpeningHeard(past, x, mac);
    DiscoverParses(x.xid.value, mac);
    RequestParses(x.xid.value, mac, x.offer.value);
    var es, i := past + x.opening + x.closing, |past| + |x.opening|;
    assert es[i] == x.closing[0] == Sent(RequestFor(x.xid.value, mac, x.offer.value));
  }

  /** Within a round only the first event of the second half can be a REQUEST. */
  lemma WhereRequests(past: seq<Event>, x: Exchange, mac: Mac, i: nat)
    requires Round(x, mac) && |past| <= i < |past + x.opening + x.closing|
    requires IsMessage((past + x.opening + x.closing)[i], MSG_REQUEST)
    ensures i == |past| + |x.opening| && x.closing != [] && x.closing[0].Sent?
  {
    var es, n := past + x.opening + x.closing, |past| + |x.opening|;
    NoRequestsInOpening(x, mac);
    assert forall j :: |past| <= j < n ==> es[j] == x.opening[j - |past|];
    assert es[i] == x.closing[i - n];
    HalfIs(x.closing, RequestFor(x.xid.value, mac, x.offer.value), x.xid.value, {MSG_ACK, MSG_NAK}, x.ack, x.left);
  }

  lemma NoRequestsInOpening(x: Exchange, mac: Mac)
    requires Round(x, mac)
    ensures forall j :: 0 <= j < |x.opening| ==> !IsMessage(x.opening[j], MSG_REQUEST)
  {
    if x.xid.Some? {
      var xid := x.xid.value;
      DiscoverParses(xid, mac);
      HalfIs(x.opening, DiscoverMsg(xid, mac), xid, {MSG_OFFER}, x.offer, Inputs(x.closing) + x.left);
    }
  }

  lemma JustifiedLonger(past: seq<Event>, more: seq<Event>, k: nat, i: nat)
    requires i < |past| && IsMessage(past[i], MSG_REQUEST) && RequestJustified(past, k, i)
    ensures RequestJustified(past + more, k, i)
  {
    var es := past + more;
    assert es[i] == past[i] && es[i - 1] == past[i - 1] && es[k] == past[k];
    assert forall m :: k < m < i - 1 ==> es[m] == past[m];
  }

  /** The latest round may hold a REQUEST: it is justified within that round. */
  lemma NewRequestJustified(past: seq<Event>, x: Exchange, mac: Mac, i: nat)
    requires Round(x, mac) && |past| <= i < |past + x.opening + x.closing|
    requires IsMessage((past + x.opening + x.closing)[i], MSG_REQUEST)
    ensures RequestJustified(past + x.opening + x.closing, |past|, i)
  {
    WhereRequests(past, x, mac, i);
    RoundRequest(past, x, mac);
  }

  lemma {:induction false} EveryRequestJustified(xs: seq<Exchange>, mac: Mac, i: nat) returns (k: nat)
    requires forall j :: 0 <= j < |xs| ==> Round(xs[j], mac)
    requires i < |Events(xs)| && IsMessage(Events(xs)[i], MSG_REQUEST)
    ensures RequestJustified(Events(xs), k, i)
    decreases |xs|
  {
    var n := |xs| - 1;
    var past, x := Events(xs[..n]), xs[n];
    if i < |past| {
      assert past[i] == (past + x.opening)[i] == (past + x.opening + x.closing)[i];
      k := EveryRequestJustified(xs[..n], mac, i);
      JustifiedLonger(past, x.opening, k, i);
      JustifiedLonger(past + x.opening, x.closing, k, i);
    } else {
      NewRequestJustified(past, x, mac, i);
      k := |past|;
    }
  }

  ghost predicate AllJustified(es: seq<Event>) {
    forall i :: 0 <= i < |es| && IsMessage(es[i], MSG_REQUEST) ==> exists k :: RequestJustified(es, k, i)
  }

  lemma RequestsJustified(xs: seq<Exchange>, mac: Mac)
    requires forall j :: 0 <= j < |xs| ==> Round(xs[j], mac)
    ensures AllJustified(Events(xs))
  {
    var es := Events(xs);
    forall i | 0 <= i < |es| && IsMessage(es[i], MSG_REQUEST) ensures exists k :: RequestJustified(es, k, i) {
      var k := EveryRequestJustified(xs, mac, i);
    }
  }

  lemma StillJustified(es: seq<Event>, e: Event)
    requires AllJustified(es) && e.Saw?
    ensures AllJustified(es + [e])
  {
    forall i | 0 <= i < |es + [e]| && IsMessage((es + [e])[i], MSG_REQUEST)
      ensures exists k :: RequestJustified(es + [e], k, i)
    {
      var k :| RequestJustified(es, k, i);
      JustifiedLonger(es, [e], k, i);
    }
  }

  // ---- every lease was granted ------------------------------------------------------------------------------

  /**
    The trace ends with the arrival of the ACK that grants lease, the first answer to the justified
    REQUEST es[i]; the lease is the whole content of that ACK, with the server of the OFFER if it names none.
   */
  predicate EndsInAck(es: seq<Event>, k: nat, i: nat, lease: Lease) {
    && 0 < i < |es| - 1 && IsMessage(es[i], MSG_REQUEST) && RequestJustified(es, k, i)
    && var xid, last := Parsed(es[i].msg).value.xid, es[|es| - 1];
       && Waits(es, i, |es|, xid, {MSG_ACK, MSG_NAK})
       && last.Saw? && last.input.Arrives? && Matches(last.input.pkt, xid, {MSG_ACK})
       && Leasable(Reads(last.input.pkt).value)
       && lease == Granted(Reads(es[i - 1].input.pkt).value, Reads(last.input.pkt).value)
  }

  lemma ClosingHeard(past: seq<Event>, x: Exchange, mac: Mac)
    requires Round(x, mac) && x.ack.Some?
    ensures
      var es, i := past + x.opening + x.closing, |past| + |x.opening|;
      && x.xid.Some? && x.closing != [] && x.closing[0].Sent? && i < |es| - 1
        && Waits(es, i, |es|, x.xid.value, {MSG_ACK, MSG_NAK})
      && Accepts(es[|es| - 1], x.xid.value, {MSG_ACK, MSG_NAK}, x.ack.value)
  {
    var xid, wants := x.xid.value, {MSG_ACK, MSG_NAK};
    HalfHeard(past + x.opening, x.closing, [], RequestFor(xid, mac, x.offer.value), xid, wants, x.ack.value, x.left);
    assert past + x.opening + x.closing + [] == past + x.opening + x.closing;
  }

  lemma RoundEndsInAck(past: seq<Event>, x: Exchange, mac: Mac)
    requires Round(x, mac) && x.out.Bound?
    ensures EndsInAck(past + x.opening + x.closing, |past|, |past| + |x.opening|, x.out.lease)
  {
    ClosingHeard(past, x, mac);
    RoundRequest(past, x, mac);
  }

  /** A bound lease is exactly what the ACK to its own transaction grants, and has an address and a server. */
  lemma LeaseComesFromAck(xs: seq<Exchange>, mac: Mac) returns (k: nat, i: nat)
    requires xs != [] && Round(xs[|xs| - 1], mac) && xs[|xs| - 1].out.Bound?
    ensures EndsInAck(Events(xs), k, i, xs[|xs| - 1].out.lease)
    ensures xs[|xs| - 1].out.lease.ip != ZERO_IP && xs[|xs| - 1].out.lease.serverID.Some?
  {
    var x := xs[|xs| - 1];
    var past := Events(xs[..|xs| - 1]);
    k := |past|;
    i := k + |x.opening|;
    RoundEndsInAck(past, x, mac);
    BoundIsComplete(x, mac);
  }

  lemma BoundIsComplete(x: Exchange, mac: Mac)
    requires Round(x, mac) && x.out.Bound?
    ensures x.out.lease.ip != ZERO_IP && x.out.lease.serverID.Some?
    ensures
      var own := Opt4(x.ack.value, OPT_SERVER_ID);
      x.out.lease.serverID == if own.Some? then own else Opt4(x.offer.value, OPT_SERVER_ID)
  {
  }

  /** How a round ends: a lease for an ACK that can grant one, a refusal for a NAK, nothing otherwise. */
  lemma RoundEnds(x: Exchange, mac: Mac)
    requires Round(x, mac)
    ensures x.out.Bound? <==> x.ack.Some? && MsgType(x.ack.value) == 5 && Leasable(x.ack.value)
    ensures x.out.Declined? <==> x.ack.Some? && MsgType(x.ack.value) == 6
    ensures x.ack.Some? ==> MsgType(x.ack.value) in {5, 6} && x.offer.Some? && MsgType(x.offer.value) == 2
  {}

  ghost predicate WasGranted(es: seq<Event>, lease: Lease) {
    lease.ip != ZERO_IP && lease.serverID.Some? && exists k, i :: EndsInAck(es, k, i, lease)
  }

  lemma AllRounds(xs: seq<Exchange>, mac: Mac, tape: seq<Input>, xids: seq<Xid>)
    requires Rounds(xs, mac, tape, xids)
    ensures forall k :: 0 <= k < |xs| ==> Round(xs[k], mac)
  {
    forall k | 0 <= k < |xs| ensures Round(xs[k], mac) {
      assert RoundAt(xs, mac, tape, xids, k);
    }
  }
}
