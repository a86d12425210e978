/** The BPF fallback of the packet socket: ethernet framing on send, splitting reads on receive. */
module Bpf {
  import opened Common
  import opened Framing

  const CAPLEN_AT := 16
  const HDRLEN_AT := 24
  const ETH_HEADER := 14
  const ETH_IPV4: Field := [0x08, 0x00]
  const BROADCAST_MAC: seq<byte> := [255, 255, 255, 255, 255, 255]

  function LE16(b: seq<byte>, at: nat): nat
    requires at + 2 <= |b|
  {
    (b[at] as int) + 256 * b[at + 1] as int
  }

  function LE32(b: seq<byte>, at: nat): nat
    requires at + 4 <= |b|
  {
    LE16(b, at) + 0x10000 * LE16(b, at + 2)
  }

  function Align8(n: nat): (m: nat)
    ensures n <= m < n + 8
  {
    (n + 7) / 8 * 8
  }

  // ---- splitting one read ------------------------------------------------------------------------

  /** Reading the two-byte header length out of 24 or 25 bytes runs off the end of the slice. */
  datatype Cut = Cut(frame: seq<byte>, rest: seq<byte>) | Panics

  const DISCARDED := Cut([], [])

  function SplitBPF(data: seq<byte>): Cut {
    if |data| < HDRLEN_AT then DISCARDED
    else if |data| < HDRLEN_AT + 2 then Panics
    else
      var hdrlen := LE16(data, HDRLEN_AT);
      var end := hdrlen + LE32(data, CAPLEN_AT);
      if hdrlen < HDRLEN_AT || end > |data| then DISCARDED
      else Cut(data[hdrlen..end], if Align8(end) >= |data| then [] else data[Align8(end)..])
  }

  /** Each split leaves less, so the receive loop ends on every input. */
  lemma PendingShrinks(data: seq<byte>)
    requires data != [] && SplitBPF(data).Cut?
    ensures |SplitBPF(data).rest| < |data|
  {}

  /** One captured frame as the kernel lays it out: header, frame, padding. */
  datatype Capture = Capture(head: seq<byte>, frame: seq<byte>, pad: seq<byte>) {
    predicate WellFormed() {
      && |head| >= HDRLEN_AT + 2 && LE16(head, HDRLEN_AT) == |head| && LE32(head, CAPLEN_AT) == |frame|
      && |head| + |frame| + |pad| <= Align8(|head| + |frame|)
    }

    predicate Padded() { |head| + |frame| + |pad| == Align8(|head| + |frame|) }

    function Bytes(): seq<byte> { head + frame + pad }
  }

  /** All captures but the last are padded to the boundary. */
  predicate LaidOut(cs: seq<Capture>) {
    && (forall c <- cs :: c.WellFormed())
    && (forall k :: 0 <= k < |cs| - 1 ==> cs[k].Padded())
  }

  function Buffer(cs: seq<Capture>): seq<byte> {
    if cs == [] then [] else cs[0].Bytes() + Buffer(cs[1..])
  }

  function Frames(cs: seq<Capture>): seq<seq<byte>> {
    if cs == [] then [] else [cs[0].frame] + Frames(cs[1..])
  }

  lemma CapturePlaces(c: Capture, tail: seq<byte>)
    ensures
      var data := c.Bytes() + tail;
      data == c.head + (c.frame + c.pad + tail) && data[|c.head|..|c.head| + |c.frame|] == c.frame
  {}

  lemma SplitsFirst(c: Capture, tail: seq<byte>)
    requires c.WellFormed() && (tail != [] ==> c.Padded())
    ensures SplitBPF(c.Bytes() + tail) == Cut(c.frame, tail)
  {
    CapturePlaces(c, tail);
    HeaderKept(c.head, c.frame + c.pad + tail);
    RestIsTail(c.Bytes(), tail, Align8(|c.head| + |c.frame|));
    SplitIs(c.Bytes() + tail, |c.head|, |c.frame|, c.frame, tail);
  }

  lemma SplitIs(data: seq<byte>, hdrlen: nat, caplen: nat, frame: seq<byte>, rest: seq<byte>)
    requires |data| >= HDRLEN_AT + 2 && LE16(data, HDRLEN_AT) == hdrlen && LE32(data, CAPLEN_AT) == caplen
    requires HDRLEN_AT <= hdrlen && hdrlen + caplen <= |data| && data[hdrlen..hdrlen + caplen] == frame
    requires rest == if Align8(hdrlen + caplen) >= |data| then [] else data[Align8(hdrlen + caplen)..]
    ensures SplitBPF(data) == Cut(frame, rest)
  {}

  lemma RestIsTail(front: seq<byte>, tail: seq<byte>, next: nat)
    requires if tail == [] then |front| <= next else |front| == next
    ensures tail == if next >= |front + tail| then [] else (front + tail)[next..]
  {}

  lemma HeaderKept(head: seq<byte>, more: seq<byte>)
    requires |head| >= HDRLEN_AT + 2
    ensures LE16(head + more, HDRLEN_AT) == LE16(head, HDRLEN_AT)
      && LE32(head + more, CAPLEN_AT) == LE32(head, CAPLEN_AT)
  {}

  /** What repeated splitting takes off a read, and whether it runs into the short-header panic. */
  datatype Drained = Drained(frames: seq<seq<byte>>, panics: bool)

  function Drain(data: seq<byte>): Drained
    decreases |data|
  {
    if data == [] then Drained([], false)
    else match SplitBPF(data)
      case Panics => Drained([], true)
      case Cut(frame, rest) => var d := Drain(rest); d.(frames := [frame] + d.frames)
  }

  predicate ShortHeader(data: seq<byte>) { HDRLEN_AT <= |data| < HDRLEN_AT + 2 }

  lemma SplitPanicsExactly(data: seq<byte>)
    ensures SplitBPF(data).Panics? <==> ShortHeader(data)
  {}

  /** What is pending of data after k splits. */
  function Pending(data: seq<byte>, k: nat): seq<byte>
    decreases k
  {
    if k == 0 || data == [] || SplitBPF(data).Panics? then data else Pending(SplitBPF(data).rest, k - 1)
  }

  /** At some point 24 or 25 bytes of data are left. */
  ghost predicate RunsShort(data: seq<byte>) { exists k: nat :: ShortHeader(Pending(data, k)) }

  lemma RunsShortLater(data: seq<byte>)
    requires data != [] && SplitBPF(data).Cut?
    ensures RunsShort(data) <==> RunsShort(SplitBPF(data).rest)
  {
    var rest := SplitBPF(data).rest;
    if RunsShort(rest) {
      var k: nat :| ShortHeader(Pending(rest, k));
      assert Pending(data, k + 1) == Pending(rest, k);
    }
    if RunsShort(data) {
      var k: nat :| ShortHeader(Pending(data, k));
      assert Pending(data, k) == if k == 0 then data else Pending(rest, k - 1);
    }
  }

  /** Draining a read panics exactly if it runs short. */
  lemma {:induction false} DrainPanicsExactly(data: seq<byte>)
    ensures Drain(data).panics <==> RunsShort(data)
    decreases |data|
  {
    if data == [] {
      assert forall k: nat :: Pending(data, k) == data;
    } else if SplitBPF(data).Panics? {
      assert ShortHeader(Pending(data, 0));
    } else {
      RunsShortLater(data);
      DrainPanicsExactly(SplitBPF(data).rest);
    }
  }

  lemma NonEmpty(cs: seq<Capture>)
    requires LaidOut(cs)
    ensures Buffer(cs) == [] <==> cs == []
  {
    if cs != [] {
      assert cs[0].WellFormed();
    }
  }

  /** Splitting a read loses nothing: it returns exactly the captured frames, in order. */
  lemma {:induction false} DrainsAll(cs: seq<Capture>)
    requires LaidOut(cs)
    ensures Drain(Buffer(cs)) == Drained(Frames(cs), false)
    decreases |cs|
  {
    if cs != [] {
      assert cs[0].WellFormed() && (|cs| > 1 ==> cs[0].Padded());
      assert LaidOut(cs[1..]) by {
        forall k | 0 <= k < |cs[1..]| - 1 ensures cs[1..][k].Padded() {
          assert cs[k + 1].Padded();
        }
      }
      NonEmpty(cs[1..]);
      SplitsFirst(cs[0], Buffer(cs[1..]));
      DrainsAll(cs[1..]);
    }
  }

  // ---- the receive loop -------------------------------------------------------------------------

  datatype Read = Chunk(data: seq<byte>) | TimedOut | ReadError

  datatype Delivery = Delivered(packet: seq<byte>) | Quiet | Failed | Crashed

  predicate IsIPv4(frame: seq<byte>) { |frame| >= ETH_HEADER && frame[12..14] == ETH_IPV4 }

  function Packets(frames: seq<seq<byte>>): seq<Delivery> {
    if frames == [] then []
    else (if IsIPv4(frames[0]) then [Delivered(frames[0][ETH_HEADER..])] else []) + Packets(frames[1..])
  }

  /** Everything a caller that keeps asking gets, from the bytes pending and the reads to come. */
  function Stream(pending: seq<byte>, input: seq<Read>): seq<Delivery>
    decreases |input|, 1
  {
    Packets(Drain(pending).frames) + (if Drain(pending).panics then [Crashed] else Later(input))
  }

  function Later(input: seq<Read>): seq<Delivery>
    decreases |input|, 0
  {
    if input == [] then []
    else match input[0]
      case Chunk(data) => if data == [] then [Quiet] + Later(input[1..]) else Stream(data, input[1..])
      case TimedOut => [Quiet] + Later(input[1..])
      case ReadError => [Failed] + Later(input[1..])
  }

  lemma NothingPending(input: seq<Read>)
    ensures Stream([], input) == Later(input)
  {
    assert Packets([]) + Later(input) == Later(input);
  }

  lemma StreamStep(pending: seq<byte>, input: seq<Read>)
    requires pending != [] && SplitBPF(pending).Cut?
    ensures Stream(pending, input) == Packets([SplitBPF(pending).frame]) + Stream(SplitBPF(pending).rest, input)
  {
    var cut := SplitBPF(pending);
    var d := Drain(cut.rest);
    assert ([cut.frame] + d.frames)[1..] == d.frames && [cut.frame][1..] == [];
    assert Packets([cut.frame] + d.frames) == Packets([cut.frame]) + Packets(d.frames);
  }

  lemma {:induction false} PacketsDeliver(frames: seq<seq<byte>>)
    ensures Crashed !in Packets(frames)
    decreases |frames|
  {
    if frames != [] { PacketsDeliver(frames[1..]); }
  }

  /** A caller that keeps asking crashes exactly if draining the bytes pending, or those of some later read, panics. */
  lemma {:induction false} CrashesExactly(pending: seq<byte>, input: seq<Read>)
    ensures Crashed in Stream(pending, input) <==> Drain(pending).panics || SomeReadPanics(input)
    decreases |input|
  {
    PacketsDeliver(Drain(pending).frames);
    if !Drain(pending).panics && input != [] {
      var data := if input[0].Chunk? then input[0].data else [];
      CrashesExactly(data, input[1..]);
      NothingPending(input[1..]);
    }
  }

  predicate SomeReadPanics(input: seq<Read>) {
    input != [] && ((input[0].Chunk? && Drain(input[0].data).panics) || SomeReadPanics(input[1..]))
  }

  class BpfState {
    const mac: seq<byte>
    var pending: seq<byte>
    var input: seq<Read>   // what the kernel hands out from here on; afterwards every read times out

    constructor (mac: seq<byte>, input: seq<Read>)
      ensures this.mac == mac && pending == [] && this.input == input
    {
      this.mac, pending, this.input := mac, [], input;
    }

    /** One call takes one delivery off the front of the stream. */
    method Next() returns (out: Delivery)
      modifies this
      ensures Stream(old(pending), old(input)) == [] ==> out == Quiet && pending == [] && input == []
      ensures Stream(old(pending), old(input)) != [] ==>
        && out == Stream(old(pending), old(input))[0]
        && (!out.Crashed? ==> Stream(pending, input) == Stream(old(pending), old(input))[1..])
    {
      while true
        invariant Stream(pending, input) == Stream(old(pending), old(input))
        decreases |input|, |pending|
      {
        if |pending| == 0 {
          NothingPending(input);
          if input == [] { return Quiet; }
          var read := input[0];
          input := input[1..];
          match read {
            case ReadError =>
              NothingPending(input);
              return Failed;
            case TimedOut =>
              NothingPending(input);
              return Quiet;
            case Chunk(data) =>
              pending := data;
              if |data| == 0 {
                NothingPending(input);
                return Quiet;
              }
          }
        }
        var cut := SplitBPF(pending);
        if cut.Panics? { return Crashed; }
        StreamStep(pending, input);
        assert [cut.frame][1..] == [];
        pending := cut.rest;
        if |cut.frame| >= ETH_HEADER && cut.frame[12..14] == ETH_IPV4 {
          return Delivered(cut.frame[ETH_HEADER..]);
        }
      }
    }

    /** The frame that goes out; a hardware address of another length is cut or zero-filled. */
    method Send(packet: seq<byte>) returns (frame: array<byte>)
      ensures fresh(frame) && frame[..] == EthFrame(mac, packet)
    {
      frame := new byte[ETH_HEADER + |packet|](i => 0);
      Copy(frame, 0, BROADCAST_MAC);
      Copy(frame, 6, Prefix(mac, |packet| + 8));
      Copy(frame, 12, ETH_IPV4);
      Copy(frame, ETH_HEADER, packet);
    }
  }

  function Prefix(s: seq<byte>, n: nat): seq<byte> { if |s| <= n then s else s[..n] }

  function EthFrame(mac: seq<byte>, packet: seq<byte>): seq<byte> {
    BROADCAST_MAC + seq(6, i requires i >= 0 => if i < |mac| then mac[i] else 0) + ETH_IPV4 + packet
  }

  // ---- reads laid out as the kernel does ------------------------------------------------------------

  /** Well laid-out reads are delivered as exactly their IPv4 packets, in order, and never crash. */
  lemma {:induction false} DeliversIPv4(input: seq<seq<Capture>>)
    requires forall cs <- input :: cs != [] && LaidOut(cs)
    ensures Stream([], Chunks(input)) == AllPackets(input)
    decreases |input|
  {
    NothingPending(Chunks(input));
    if input != [] {
      var cs, data, tail := input[0], Buffer(input[0]), Chunks(input[1..]);
      assert cs in input;
      DrainsAll(cs);
      assert cs[0].WellFormed() && data != [];
      forall x <- input[1..] ensures x != [] && LaidOut(x) { assert x in input; }
      DeliversIPv4(input[1..]);
      NothingPending(tail);
      assert Chunks(input)[0] == Chunk(data) && Chunks(input)[1..] == tail;
    }
  }

  function Chunks(input: seq<seq<Capture>>): seq<Read> {
    if input == [] then [] else [Chunk(Buffer(input[0]))] + Chunks(input[1..])
  }

  function AllPackets(input: seq<seq<Capture>>): seq<Delivery> {
    if input == [] then [] else Packets(Frames(input[0])) + AllPackets(input[1..])
  }

  /** A packet sent by one socket and captured by another arrives unchanged. */
  lemma SentArrives(mac: seq<byte>, packet: seq<byte>, c: Capture)
    requires c.WellFormed() && c.frame == EthFrame(mac, packet)
    ensures Stream([], [Chunk(Buffer([c]))]) == [Delivered(packet)]
  {
    assert c.frame[12..14] == ETH_IPV4 && c.frame[ETH_HEADER..] == packet;
    var input := [[c]];
    DeliversIPv4(input);
    assert Chunks(input) == [Chunk(Buffer([c]))] by { assert input[1..] == []; }
    assert Frames([c]) == [c.frame] by { assert [c][1..] == []; }
    assert Packets([c.frame]) == [Delivered(packet)] by { assert [c.frame][1..] == []; }
    assert AllPackets(input) == [Delivered(packet)] by { assert input[1..] == []; }
  }

  /** The frame that is sent: to everyone, from a hardware address of six bytes, with an IPv4 packet in it. */
  lemma FrameSays(mac: seq<byte>, packet: seq<byte>)
    ensures
      var f := EthFrame(mac, packet);
      && f[..6] == [255, 255, 255, 255, 255, 255] && (|mac| == 6 ==> f[6..12] == mac)
      && f[12..14] == [8, 0] && f[14..] == packet
      && forall i :: 0 <= i < 6 ==> f[6 + i] == if i < |mac| then mac[i] else 0
  {}

  // ---- records in bytes --------------------------------------------------------------------------------------

  function LowFirst2(n: nat): (b: seq<byte>)
    ensures |b| == 2
  {
    [n % 256, n / 256 % 256]
  }

  function LowFirst4(n: nat): (b: seq<byte>)
    ensures |b| == 4
  {
    LowFirst2(n) + LowFirst2(n / 0x10000)
  }

  /** The header of a record: time stamp, captured and original length, own length, and whatever fills it up. */
  function RecordHeader(stamp: seq<byte>, caplen: nat, datalen: seq<byte>, extra: seq<byte>): seq<byte> {
    stamp + LowFirst4(caplen) + datalen + LowFirst2(26 + |extra|) + extra
  }

  lemma RecordIsCapture(stamp: seq<byte>, datalen: seq<byte>, extra: seq<byte>, frame: seq<byte>, pad: seq<byte>)
    requires |stamp| == 16 && |datalen| == 4 && 26 + |extra| < 0x10000 && |frame| < 0x1_0000_0000
    requires 26 + |extra| + |frame| + |pad| <= Align8(26 + |extra| + |frame|)
    ensures Capture(RecordHeader(stamp, |frame|, datalen, extra), frame, pad).WellFormed()
  {
    var h := RecordHeader(stamp, |frame|, datalen, extra);
    RecordFields(stamp, |frame|, datalen, extra);
    LowFirstReads(26 + |extra|, h, 24);
    LowFirstReads(|frame| % 0x10000, h, 16);
    LowFirstReads(|frame| / 0x10000, h, 18);
  }

  lemma RecordFields(stamp: seq<byte>, caplen: nat, datalen: seq<byte>, extra: seq<byte>)
    requires |stamp| == 16 && |datalen| == 4
    ensures
      var h := RecordHeader(stamp, caplen, datalen, extra);
      && |h| == 26 + |extra| && HasAt(h, 16, LowFirst2(caplen % 0x10000)) && HasAt(h, 18, LowFirst2(caplen / 0x10000))
      && HasAt(h, 24, LowFirst2(26 + |extra|))
  {
    SameLow(caplen);
  }

  lemma SameLow(n: nat)
    ensures LowFirst2(n) == LowFirst2(n % 0x10000)
  {
    var q, r := n / 0x10000, n % 0x10000;
    DivMod(r / 256, r % 256, r);
    DivMod(256 * q + r / 256, r % 256, n);
    DivMod(q, r / 256, 256 * q + r / 256);
  }

  lemma LowFirstReads(n: nat, b: seq<byte>, at: nat)
    requires n < 0x10000 && HasAt(b, at, LowFirst2(n))
    ensures LE16(b, at) == n
  {
    assert b[at] == n % 256 && b[at + 1] == n / 256 % 256;
  }

  lemma {:induction false} PacketsJoin(frames: seq<seq<byte>>, more: seq<seq<byte>>)
    ensures Packets(frames + more) == Packets(frames) + Packets(more)
    decreases |frames|
  {
    if frames == [] {
      assert frames + more == more;
    } else {
      PacketsJoin(frames[1..], more);
      assert (frames + more)[1..] == frames[1..] + more;
    }
  }

  /** Of the frames split off, each with an IPv4 packet in it is delivered, without its header, and no other is. */
  lemma PacketsExactly(frames: seq<seq<byte>>, f: seq<byte>)
    ensures
      Packets(frames + [f])
      == Packets(frames) + if |f| >= 14 && f[12] == 8 && f[13] == 0 then [Delivered(f[14..])] else []
  {
    PacketsJoin(frames, [f]);
    assert [f][1..] == [];
    if |f| >= 14 { assert f[12..14] == [f[12], f[13]]; }
  }

  /** What a caller is told of reads that bring nothing. */
  lemma EmptyReads(input: seq<Read>)
    ensures Stream([], [ReadError] + input) == [Failed] + Stream([], input)
    ensures Stream([], [TimedOut] + input) == [Quiet] + Stream([], input)
    ensures Stream([], [Chunk([])] + input) == [Quiet] + Stream([], input)
  {
    NothingPending(input);
    NothingPending([ReadError] + input);
    NothingPending([TimedOut] + input);
    NothingPending([Chunk([])] + input);
    assert ([ReadError] + input)[1..] == input && ([TimedOut] + input)[1..] == input;
    assert ([Chunk([])] + input)[1..] == input;
  }
}
