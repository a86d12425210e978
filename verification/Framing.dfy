/** The IPv4/UDP framing that the DHCP client does by hand on its packet socket (RFC 791 section 3.1, RFC 768). */
module Framing {
  import opened Common
  import opened Checksum

  type IPv4 = a: seq<byte> | |a| == 4 witness [0, 0, 0, 0]

  const CLIENT_PORT := 68
  const SERVER_PORT := 67

  // ---- the layout ----------------------------------------------------------------------------

  /** A 16-bit field as it is laid out. */
  type Field = a: seq<byte> | |a| == 2 witness [0, 0]

  const ZERO: Field := [0, 0]

  function Zeros(n: nat): (z: seq<byte>)
    ensures |z| == n
  {
    seq(n, i => 0)
  }

  function IPHeader(total: Field, ck: Field, src: IPv4, dst: IPv4): (h: seq<byte>)
    ensures |h| == 20
  {
    [0x45, 0] + total + [0, 0, 0, 0, 64, 17] + ck + src + dst
  }

  function UDPHeader(srcPort: Field, dstPort: Field, length: Field, ck: Field): (h: seq<byte>)
    ensures |h| == 8
  {
    srcPort + dstPort + length + ck
  }

  /** The pseudo-header that the UDP checksum covers as well. */
  function PseudoHeader(src: IPv4, dst: IPv4, length: Field): (h: seq<byte>)
    ensures |h| == 12
  {
    src + dst + [0, 17] + length
  }

  function IPSum(total: Field, src: IPv4, dst: IPv4): Field {
    Be16(Sum16(IPHeader(total, ZERO, src, dst)))
  }

  /** 0 means "no checksum", so all ones is sent in its place. */
  function UDPSum(src: IPv4, dst: IPv4, udp: seq<byte>): (c: nat)
    ensures 0 < c <= 0xffff
  {
    var c := Sum16(PseudoHeader(src, dst, Be16(|udp|)) + udp);
    if c == 0 then 0xffff else c
  }

  function Datagram(src: IPv4, dst: IPv4, srcPort: Field, dstPort: Field, payload: seq<byte>): (d: seq<byte>)
    ensures |d| == 8 + |payload|
  {
    var n := Be16(8 + |payload|);
    UDPHeader(srcPort, dstPort, n, Be16(UDPSum(src, dst, UDPHeader(srcPort, dstPort, n, ZERO) + payload))) + payload
  }

  /** The length fields are 16 bits wide, so they are truncated for a payload that does not fit. */
  function Packet(src: IPv4, dst: IPv4, srcPort: nat, dstPort: nat, payload: seq<byte>): (p: seq<byte>)
    ensures |p| == 28 + |payload|
  {
    var total := Be16(28 + |payload|);
    IPHeader(total, IPSum(total, src, dst), src, dst) + Datagram(src, dst, Be16(srcPort), Be16(dstPort), payload)
  }

  // ---- the encoder, filling its buffer in place -------------------------------------------------

  /** now is was with x written at offset at. */
  ghost predicate Wrote(now: seq<byte>, was: seq<byte>, at: nat, x: seq<byte>) {
    && |now| == |was| && at + |x| <= |was|
    && (forall k :: at <= k < at + |x| ==> now[k] == x[k - at])
    && (forall k :: 0 <= k < |was| && !(at <= k < at + |x|) ==> now[k] == was[k])
  }

  /** b has x at offset at. */
  ghost predicate HasAt(b: seq<byte>, at: nat, x: seq<byte>) {
    at + |x| <= |b| && forall k :: at <= k < at + |x| ==> b[k] == x[k - at]
  }

  lemma HasAtIs(b: seq<byte>, at: nat, x: seq<byte>)
    requires HasAt(b, at, x)
    ensures b[at..at + |x|] == x
  {}

  method Copy(a: array<byte>, at: nat, x: seq<byte>)
    requires at + |x| <= a.Length
    modifies a
    ensures Wrote(a[..], old(a[..]), at, x)
  {
    for i := 0 to |x|
      invariant forall k :: 0 <= k < a.Length ==> a[k] == if at <= k < at + i then x[k - at] else old(a[k])
    {
      a[at + i] := x[i];
    }
  }

  method FillPseudo(pseudo: array<byte>, src: IPv4, dst: IPv4, length: Field, udp: seq<byte>)
    requires pseudo.Length == 12 + |udp| && forall k :: 0 <= k < 12 ==> pseudo[k] == 0
    modifies pseudo
    ensures pseudo[..] == PseudoHeader(src, dst, length) + udp
  {
    Copy(pseudo, 0, src);
    Copy(pseudo, 4, dst);
    pseudo[9] := 17;
    Copy(pseudo, 10, length);
    Copy(pseudo, 12, udp);
    assert pseudo[..12] == PseudoHeader(src, dst, length);
    assert pseudo[12..] == udp;
  }

  method UDPChecksum(src: IPv4, dst: IPv4, udp: seq<byte>) returns (c: nat)
    ensures c == UDPSum(src, dst, udp)
  {
    var pseudo := new byte[12 + |udp|](i => 0);
    FillPseudo(pseudo, src, dst, Be16(|udp|), udp);
    c := ComputeChecksum(pseudo[..]);
    if c == 0 { c := 0xffff; }
  }

  method FillIP(pkt: array<byte>, total: Field, src: IPv4, dst: IPv4)
    requires pkt.Length >= 20 && forall k :: 0 <= k < pkt.Length ==> pkt[k] == 0
    modifies pkt
    ensures pkt[..20] == IPHeader(total, ZERO, src, dst) && forall k :: 20 <= k < pkt.Length ==> pkt[k] == 0
  {
    pkt[0] := 0x45;
    Copy(pkt, 2, total);
    pkt[8] := 64;
    pkt[9] := 17;
    Copy(pkt, 12, src);
    Copy(pkt, 16, dst);
  }

  method StoreIPChecksum(pkt: array<byte>, ck: Field, ghost total: Field, ghost src: IPv4, ghost dst: IPv4)
    requires pkt.Length >= 20 && pkt[..20] == IPHeader(total, ZERO, src, dst)
    modifies pkt
    ensures pkt[..20] == IPHeader(total, ck, src, dst) && pkt[20..] == old(pkt[20..])
  {
    Copy(pkt, 10, ck);
  }

  method FillUDP(pkt: array<byte>, srcPort: Field, dstPort: Field, length: Field, payload: seq<byte>)
    requires pkt.Length == 28 + |payload| && pkt[26] == 0 && pkt[27] == 0
    modifies pkt
    ensures pkt[..20] == old(pkt[..20]) && pkt[20..] == UDPHeader(srcPort, dstPort, length, ZERO) + payload
  {
    Copy(pkt, 20, srcPort);
    Copy(pkt, 22, dstPort);
    Copy(pkt, 24, length);
    Copy(pkt, 28, payload);
    DatagramIs(pkt[..], srcPort, dstPort, length, payload);
    assert pkt[20..] == pkt[..][20..];
  }

  lemma DatagramIs(b: seq<byte>, srcPort: Field, dstPort: Field, length: Field, payload: seq<byte>)
    requires |b| == 28 + |payload| && HasAt(b, 20, srcPort) && HasAt(b, 22, dstPort) && HasAt(b, 24, length)
    requires b[26] == 0 && b[27] == 0 && HasAt(b, 28, payload)
    ensures b[20..] == UDPHeader(srcPort, dstPort, length, ZERO) + payload
  {
    HasAtIs(b, 20, srcPort);
    HasAtIs(b, 22, dstPort);
    HasAtIs(b, 24, length);
    HasAtIs(b, 28, payload);
    assert b[20..] == b[20..22] + b[22..24] + b[24..26] + [b[26], b[27]] + b[28..];
  }

  method StoreUDPChecksum(pkt: array<byte>, ck: Field, ghost srcPort: Field, ghost dstPort: Field,
      ghost length: Field, ghost payload: seq<byte>)
    requires pkt.Length == 28 + |payload| && pkt[20..] == UDPHeader(srcPort, dstPort, length, ZERO) + payload
    modifies pkt
    ensures pkt[..] == old(pkt[..20]) + (UDPHeader(srcPort, dstPort, length, ck) + payload)
  {
    Copy(pkt, 26, ck);
    assert pkt[..20] == old(pkt[..20]);
    assert old(pkt[20..])[..8] == UDPHeader(srcPort, dstPort, length, ZERO);
    assert pkt[20..28] == UDPHeader(srcPort, dstPort, length, ck);
    assert old(pkt[20..])[8..] == payload;
    assert pkt[28..] == payload;
    assert pkt[..] == pkt[..20] + (pkt[20..28] + pkt[28..]);
  }

  method EncodeIPUDP(src: IPv4, dst: IPv4, srcPort: nat, dstPort: nat, payload: seq<byte>) returns (pkt: array<byte>)
    ensures fresh(pkt) && pkt[..] == Packet(src, dst, srcPort, dstPort, payload)
  {
    var udpLen := 8 + |payload|;
    var total := 20 + udpLen;
    pkt := new byte[total](i => 0);
    PacketIs(src, dst, srcPort, dstPort, payload);
    Encode(pkt, Be16(total), src, dst, Be16(srcPort), Be16(dstPort), Be16(udpLen), payload);
  }

  lemma PacketIs(src: IPv4, dst: IPv4, srcPort: nat, dstPort: nat, payload: seq<byte>)
    ensures
      var total, length := Be16(28 + |payload|), Be16(8 + |payload|);
      var zeroed := UDPHeader(Be16(srcPort), Be16(dstPort), length, ZERO) + payload;
      var ck := Be16(UDPSum(src, dst, zeroed));
      Packet(src, dst, srcPort, dstPort, payload)
      == IPHeader(total, IPSum(total, src, dst), src, dst)
         + (UDPHeader(Be16(srcPort), Be16(dstPort), length, ck) + payload)
  {
  }

  /** The fields once laid out: IP header and its checksum, then the datagram and its checksum. */
  method Encode(pkt: array<byte>, total: Field, src: IPv4, dst: IPv4, srcPort: Field, dstPort: Field, length: Field,
      payload: seq<byte>)
    requires pkt.Length == 28 + |payload| && forall k :: 0 <= k < pkt.Length ==> pkt[k] == 0
    modifies pkt
    ensures
      var zeroed := UDPHeader(srcPort, dstPort, length, ZERO) + payload;
      pkt[..] == IPHeader(total, IPSum(total, src, dst), src, dst)
                 + (UDPHeader(srcPort, dstPort, length, Be16(UDPSum(src, dst, zeroed))) + payload)
  {
    FillIP(pkt, total, src, dst);
    var ck := ComputeChecksum(pkt[..20]);
    StoreIPChecksum(pkt, Be16(ck), total, src, dst);
    FillUDP(pkt, srcPort, dstPort, length, payload);
    var uc := UDPChecksum(src, dst, pkt[20..]);
    StoreUDPChecksum(pkt, Be16(uc), srcPort, dstPort, length, payload);
  }

  // ---- the decoder -----------------------------------------------------------------------------

  function U16(b: seq<byte>, at: nat): nat
    requires at + 2 <= |b|
  {
    Word(b[at], b[at + 1])
  }

  function IHL(pkt: seq<byte>): (n: nat)
    requires |pkt| > 0
  {
    pkt[0] % 16 * 4
  }

  /** The UDP payload of a packet from the server port to the client port, if it is one. */
  function DecodeIPUDP(pkt: seq<byte>): Option<seq<byte>> {
    if |pkt| < 20 || pkt[0] / 16 != 4 then None else
      var ihl := IHL(pkt);
      if ihl < 20 || |pkt| < ihl + 8 || pkt[9] != 17 then None else
        var total := U16(pkt, 2);
        if total > |pkt| || total < ihl + 8 then None else
          var udp := pkt[ihl..total];
          if U16(udp, 2) != CLIENT_PORT || U16(udp, 0) != SERVER_PORT then None else
            var ulen := U16(udp, 4);
            if ulen < 8 || ulen > |udp| then None else Some(udp[8..ulen])
  }

  // ---- what a receiver makes of a packet ---------------------------------------------------------

  /** Where the fields of an encoded packet are (section 3.1 of RFC 791, RFC 768). */
  lemma PacketBytes(src: IPv4, dst: IPv4, srcPort: nat, dstPort: nat, payload: seq<byte>)
    ensures
      var p, n := Packet(src, dst, srcPort, dstPort, payload), |payload|;
      && p[0] == 0x45 && p[1] == 0 && U16(p, 2) == (28 + n) % 0x10000 && p[4..8] == [0, 0, 0, 0]
      && p[8] == 64 && p[9] == 17 && p[12..16] == src && p[16..20] == dst
      && U16(p, 20) == srcPort % 0x10000 && U16(p, 22) == dstPort % 0x10000 && U16(p, 24) == (8 + n) % 0x10000
      && p[28..] == payload
  {
    var total, n := Be16(28 + |payload|), Be16(8 + |payload|);
    var h := IPHeader(total, IPSum(total, src, dst), src, dst);
    var d := Datagram(src, dst, Be16(srcPort), Be16(dstPort), payload);
    HeaderBytes(total, IPSum(total, src, dst), src, dst);
    FieldsStay(h, d);
    DatagramBytes(src, dst, Be16(srcPort), Be16(dstPort), payload);
    WordOf(28 + |payload|);
    WordOf(8 + |payload|);
    WordOf(srcPort);
    WordOf(dstPort);
  }

  lemma FieldsStay(h: seq<byte>, d: seq<byte>)
    requires |h| == 20 && |d| >= 8
    ensures
      var p := h + d;
      && p[0] == h[0] && p[1] == h[1] && U16(p, 2) == U16(h, 2) && p[4..8] == h[4..8] && p[8] == h[8] && p[9] == h[9]
      && p[12..16] == h[12..16] && p[16..20] == h[16..20]
      && U16(p, 20) == U16(d, 0) && U16(p, 22) == U16(d, 2) && U16(p, 24) == U16(d, 4) && p[28..] == d[8..]
  {}

  lemma WordOf(x: nat)
    ensures Word(Be16(x)[0], Be16(x)[1]) == x % 0x10000
  {
    var q, r := x / 0x10000, x % 0x10000;
    var hi, lo := r / 256, r % 256;
    assert x == 256 * (256 * q + hi) + lo;
    DivMod(256 * q + hi, lo, x);
    DivMod(q, hi, 256 * q + hi);
  }

  lemma DivMod(q: nat, r: nat, x: nat)
    requires r < 256 && x == 256 * q + r
    ensures x / 256 == q && x % 256 == r
  {}

  lemma HeaderBytes(total: Field, ck: Field, src: IPv4, dst: IPv4)
    ensures
      var h := IPHeader(total, ck, src, dst);
      && h[0] == 0x45 && h[1] == 0 && U16(h, 2) == Word(total[0], total[1]) && h[4..8] == [0, 0, 0, 0]
      && h[8] == 64 && h[9] == 17 && h[12..16] == src && h[16..20] == dst
  {}

  lemma DatagramBytes(src: IPv4, dst: IPv4, srcPort: Field, dstPort: Field, payload: seq<byte>)
    ensures
      var d, n := Datagram(src, dst, srcPort, dstPort, payload), Be16(8 + |payload|);
      && U16(d, 0) == Word(srcPort[0], srcPort[1]) && U16(d, 2) == Word(dstPort[0], dstPort[1])
      && U16(d, 4) == Word(n[0], n[1]) && d[8..] == payload
  {}

  /** Both checksums of an encoded packet verify: summed over with the checksum in place they give zero. */
  lemma ChecksumsVerify(src: IPv4, dst: IPv4, srcPort: nat, dstPort: nat, payload: seq<byte>)
    requires |payload| <= 65507
    ensures
      var p := Packet(src, dst, srcPort, dstPort, payload);
      && Rfc1071(p[..20]) == 0
      && Rfc1071(p[12..20] + [0, p[9]] + p[24..26] + p[20..]) == 0
      && p[26..28] != ZERO
  {
    var p := Packet(src, dst, srcPort, dstPort, payload);
    var total := Be16(28 + |payload|);
    assert p[..20] == IPHeader(total, IPSum(total, src, dst), src, dst);
    IPSumVerifies(total, src, dst);
    assert p[20..] == Datagram(src, dst, Be16(srcPort), Be16(dstPort), payload);
    UDPSumVerifies(src, dst, Be16(srcPort), Be16(dstPort), payload);
    PacketBytes(src, dst, srcPort, dstPort, payload);
    PseudoIs(src, dst, p);
    assert p[20..][6..8] == p[26..28];
  }

  /** The pseudo-header of a datagram is made of fields of its packet. */
  lemma PseudoIs(src: IPv4, dst: IPv4, p: seq<byte>)
    requires |p| >= 28 && p[12..16] == src && p[16..20] == dst && p[9] == 17 && U16(p, 24) == |p| - 20
    ensures p[12..20] + [0, p[9]] + p[24..26] == PseudoHeader(src, dst, Be16(|p| - 20))
  {
    SplitWord(p, 24);
    assert p[12..20] == p[12..16] + p[16..20];
  }

  lemma IPSumVerifies(total: Field, src: IPv4, dst: IPv4)
    ensures Rfc1071(IPHeader(total, IPSum(total, src, dst), src, dst)) == 0
  {
    var x := [0x45, 0] + total + [0, 0, 0, 0, 64, 17];
    var ck := Sum16(IPHeader(total, ZERO, src, dst));
    HeaderParts(total, ZERO, src, dst);
    HeaderParts(total, Be16(ck), src, dst);
    StoredChecksumVerifies(x, src + dst, ck);
    Sum16IsRfc1071(x + Be16(ck) + (src + dst));
  }

  lemma HeaderParts(total: Field, ck: Field, src: IPv4, dst: IPv4)
    ensures IPHeader(total, ck, src, dst) == ([0x45, 0] + total + [0, 0, 0, 0, 64, 17]) + ck + (src + dst)
  {}

  lemma UDPSumVerifies(src: IPv4, dst: IPv4, srcPort: Field, dstPort: Field, payload: seq<byte>)
    requires |payload| <= 65507
    ensures
      var d := Datagram(src, dst, srcPort, dstPort, payload);
      Rfc1071(PseudoHeader(src, dst, Be16(|d|)) + d) == 0 && d[6..8] != ZERO
  {
    var n := Be16(8 + |payload|);
    var pre := PseudoHeader(src, dst, n) + (srcPort + dstPort + n);
    var uc := UDPSum(src, dst, UDPHeader(srcPort, dstPort, n, ZERO) + payload);
    PseudoParts(src, dst, srcPort, dstPort, n, ZERO, payload);
    PseudoParts(src, dst, srcPort, dstPort, n, Be16(uc), payload);
    StoredChecksumVerifies(pre, payload, uc);
    Sum16IsRfc1071(pre + Be16(uc) + payload);
    assert Datagram(src, dst, srcPort, dstPort, payload)[6..8] == Be16(uc);
  }

  lemma PseudoParts(src: IPv4, dst: IPv4, srcPort: Field, dstPort: Field, n: Field, ck: Field, payload: seq<byte>)
    ensures PseudoHeader(src, dst, n) + (UDPHeader(srcPort, dstPort, n, ck) + payload)
         == (PseudoHeader(src, dst, n) + (srcPort + dstPort + n)) + ck + payload
  {}

  /**
    pkt is any IPv4 packet (options included) that carries p from the server to the client port:
    hdr is its header, slack what the total length covers beyond the datagram, pad the link padding.
   */
  ghost predicate Carries(pkt: seq<byte>, hdr: seq<byte>, ck: seq<byte>, p: seq<byte>, slack: seq<byte>,
      pad: seq<byte>) {
    && |hdr| >= 20 && hdr[0] / 16 == 4 && |hdr| == hdr[0] % 16 * 4 && hdr[9] == 17
    && U16(hdr, 2) == |hdr| + 8 + |p| + |slack|
    && |ck| == 2
    && pkt == hdr + (Be16(SERVER_PORT) + Be16(CLIENT_PORT) + Be16(8 + |p|) + ck) + p + slack + pad
  }

  /** The decoder accepts exactly those packets, and returns exactly what they carry. */
  lemma DecodesExactly(pkt: seq<byte>, p: seq<byte>)
    ensures DecodeIPUDP(pkt) == Some(p) <==> exists hdr, ck, slack, pad :: Carries(pkt, hdr, ck, p, slack, pad)
  {
    if DecodeIPUDP(pkt) == Some(p) {
      var hdr, ck, slack, pad := DecodedParts(pkt, p);
    }
    forall hdr, ck, slack, pad | Carries(pkt, hdr, ck, p, slack, pad) ensures DecodeIPUDP(pkt) == Some(p) {
      CarriedDecodes(pkt, hdr, ck, p, slack, pad);
    }
  }

  lemma DecodedParts(pkt: seq<byte>, p: seq<byte>)
      returns (hdr: seq<byte>, ck: seq<byte>, slack: seq<byte>, pad: seq<byte>)
    requires DecodeIPUDP(pkt) == Some(p)
    ensures Carries(pkt, hdr, ck, p, slack, pad)
  {
    var ihl, total := IHL(pkt), U16(pkt, 2);
    var udp: seq<byte> := pkt[ihl..total];
    var ulen := U16(udp, 4);
    hdr, pad, ck, slack := pkt[..ihl], pkt[total..], udp[6..8], udp[ulen..];
    UDPParts(udp, ulen);
    assert pkt == hdr + udp + pad;
    assert pkt == hdr + (Be16(U16(udp, 0)) + Be16(U16(udp, 2)) + Be16(ulen) + ck) + p + slack + pad;
  }

  lemma UDPParts(udp: seq<byte>, ulen: nat)
    requires 8 <= ulen <= |udp| && ulen == U16(udp, 4)
    ensures udp == (Be16(U16(udp, 0)) + Be16(U16(udp, 2)) + Be16(ulen) + udp[6..8]) + udp[8..ulen] + udp[ulen..]
  {
    SplitWord(udp, 0);
    SplitWord(udp, 2);
    SplitWord(udp, 4);
    assert udp == (udp[0..2] + udp[2..4] + udp[4..6] + udp[6..8]) + udp[8..ulen] + udp[ulen..];
  }

  lemma SplitWord(b: seq<byte>, at: nat)
    requires at + 2 <= |b|
    ensures b[at..at + 2] == Be16(U16(b, at)) && U16(b, at) <= 0xffff
  {
    var w := U16(b, at);
    assert w / 256 == b[at] && w % 256 == b[at + 1];
  }

  lemma CarriedDecodes(pkt: seq<byte>, hdr: seq<byte>, ck: seq<byte>, p: seq<byte>, slack: seq<byte>, pad: seq<byte>)
    requires Carries(pkt, hdr, ck, p, slack, pad)
    ensures DecodeIPUDP(pkt) == Some(p)
  {
    var uh := Be16(SERVER_PORT) + Be16(CLIENT_PORT) + Be16(8 + |p|) + ck;
    var udp := uh + p + slack;
    assert pkt == hdr + udp + pad;
    assert pkt[0] == hdr[0] && pkt[9] == hdr[9] && U16(pkt, 2) == U16(hdr, 2) <= 0xffff;
    assert pkt[|hdr|..|hdr| + |udp|] == udp;
    assert udp[0] == uh[0] && udp[1] == uh[1] && udp[2] == uh[2] && udp[3] == uh[3] && udp[4] == uh[4]
      && udp[5] == uh[5];
    assert udp[8..8 + |p|] == p;
  }

  /** A packet whose checksum fields hold anything at all decodes to its payload, if the payload fits. */
  lemma DecodesWhatever(src: IPv4, dst: IPv4, ck: Field, uc: Field, p: seq<byte>, pad: seq<byte>)
    requires |p| <= 65507
    ensures
      var hdr := IPHeader(Be16(28 + |p|), ck, src, dst);
      DecodeIPUDP(hdr + (UDPHeader(Be16(SERVER_PORT), Be16(CLIENT_PORT), Be16(8 + |p|), uc) + p) + pad) == Some(p)
  {
    var total := Be16(28 + |p|);
    var hdr := IPHeader(total, ck, src, dst);
    var uh := UDPHeader(Be16(SERVER_PORT), Be16(CLIENT_PORT), Be16(8 + |p|), uc);
    assert hdr[2] == total[0] && hdr[3] == total[1];
    assert hdr + (uh + p) + pad == hdr + uh + p + [] + pad;
    CarriedDecodes(hdr + (uh + p) + pad, hdr, uc, p, [], pad);
  }

  /** Framing round trip with trailing padding: it works exactly for the payloads that fit a packet. */
  lemma RoundTrip(src: IPv4, dst: IPv4, p: seq<byte>, pad: seq<byte>)
    ensures DecodeIPUDP(Packet(src, dst, SERVER_PORT, CLIENT_PORT, p) + pad) == Some(p) <==> |p| <= 65507
  {
    if |p| <= 65507 {
      var n := Be16(8 + |p|);
      var zeroed := UDPHeader(Be16(SERVER_PORT), Be16(CLIENT_PORT), n, ZERO) + p;
      DecodesWhatever(src, dst, IPSum(Be16(28 + |p|), src, dst), Be16(UDPSum(src, dst, zeroed)), p, pad);
    } else {
      DecodedFits(Packet(src, dst, SERVER_PORT, CLIENT_PORT, p) + pad);
    }
  }

  lemma DecodedFits(pkt: seq<byte>)
    ensures DecodeIPUDP(pkt).Some? ==> |DecodeIPUDP(pkt).value| <= 65507
  {}

  /** The client never takes its own broadcasts for replies. */
  lemma OwnFramesIgnored(src: IPv4, dst: IPv4, p: seq<byte>, pad: seq<byte>)
    ensures DecodeIPUDP(Packet(src, dst, CLIENT_PORT, SERVER_PORT, p) + pad) == None
  {
    var pkt := Packet(src, dst, CLIENT_PORT, SERVER_PORT, p) + pad;
    assert pkt[0] == 0x45;
    assert pkt[22] == 0 && pkt[23] == 67;
    OtherPortIgnored(pkt);
  }

  lemma OtherPortIgnored(pkt: seq<byte>)
    requires |pkt| >= 28 && pkt[0] == 0x45 && (pkt[22] != 0 || pkt[23] != CLIENT_PORT)
    ensures DecodeIPUDP(pkt) == None
  {
    var total := U16(pkt, 2);
    if 28 <= total <= |pkt| {
      assert pkt[20..total][2] == pkt[22] && pkt[20..total][3] == pkt[23];
    }
  }
}
