/** What netlink messages say: the fields of a frame, and every part of a link message read back. */
module NetlinkMessages {
  import opened Common
  import opened Text
  import opened Framing
  import opened Netlink
  import Bpf

  // ---- byte order ---------------------------------------------------------------------------------------------

  lemma Put16Reads(e: Endian, v: u16, b: seq<byte>, at: nat)
    requires HasAt(b, at, Put16(e, v))
    ensures Get16(e, b, at) == v
  {
    assert b[at] == Put16(e, v)[0] && b[at + 1] == Put16(e, v)[1];
  }

  lemma Put32Reads(e: Endian, v: nat, b: seq<byte>, at: nat)
    requires HasAt(b, at, Put32(e, v)) && v < 0x1_0000_0000
    ensures Get32(e, b, at) == v
  {
    var lo, hi := v % 0x10000, v / 0x10000 % 0x10000;
    var first, last := if e.Little? then lo else hi, if e.Little? then hi else lo;
    assert Put32(e, v) == Put16(e, first) + Put16(e, last);
    assert b[at] == Put32(e, v)[0] && b[at + 1] == Put32(e, v)[1];
    assert b[at + 2] == Put32(e, v)[2] && b[at + 3] == Put32(e, v)[3];
    Put16Reads(e, first, b, at);
    Put16Reads(e, last, b, at + 2);
  }

  /** The orders are what they are called: least and most significant byte first. */
  lemma Orders(v: u16)
    ensures Put16(Little, v) == [v % 256, v / 256] && Put16(Big, v) == [v / 256, v % 256]
    ensures forall b, at: nat | at + 4 <= |b| :: Bpf.LE32(b, at) == Get32(Little, b, at)
  {}

  // ---- frames ----------------------------------------------------------------------------------------------------

  /** The fields of the header in front of a payload. */
  lemma HeaderReads(e: Endian, total: nat, typ: u16, flags: u16, sequence: nat, rest: seq<byte>)
    requires total < 0x1_0000_0000 && sequence < 0x1_0000_0000
    ensures
      var m := MessageHeader(e, total, typ, flags, sequence) + rest;
      && Get32(e, m, 0) == total && Get16(e, m, 4) == typ && Get16(e, m, 6) == flags && Get32(e, m, 8) == sequence
      && m[12..16] == [0, 0, 0, 0] && m[16..] == rest
  {
    var h := MessageHeader(e, total, typ, flags, sequence);
    HeaderHas(e, total, typ, flags, sequence, rest);
    var m := h + rest;
    Put32Reads(e, total, m, 0);
    Put16Reads(e, typ, m, 4);
    Put16Reads(e, flags, m, 6);
    Put32Reads(e, sequence, m, 8);
  }

  lemma HeaderHas(e: Endian, total: nat, typ: u16, flags: u16, sequence: nat, rest: seq<byte>)
    ensures
      var m := MessageHeader(e, total, typ, flags, sequence) + rest;
      && HasAt(m, 0, Put32(e, total)) && HasAt(m, 4, Put16(e, typ)) && HasAt(m, 6, Put16(e, flags))
      && HasAt(m, 8, Put32(e, sequence)) && m[12..16] == [0, 0, 0, 0] && m[16..] == rest
  {}

  /** Both framers count the header and the payload, but not the padding, and carry the payload. */
  lemma FramesRead(e: Endian, typ: u16, flags: u16, sequence: nat, payload: seq<byte>)
    requires 16 + |payload| < 0x1_0000_0000 && sequence < 0x1_0000_0000
    ensures
      var a, b, n := RtnlMessage(e, typ, flags, sequence, payload), WgMessage(e, typ, flags, payload), 16 + |payload|;
      && |a| == n <= |b| && Get32(e, a, 0) == Get32(e, b, 0) == n && Get16(e, a, 4) == Get16(e, b, 4) == typ
      && Get16(e, a, 6) == Get16(e, b, 6) == flags && Get32(e, a, 8) == sequence && a[16..] == payload
      && Get32(e, b, 8) == 1 && b[16..n] == payload && |b| % 4 == 0
  {
    var n := 16 + |payload|;
    var pad := Zeros(Align(n) - n);
    HeaderReads(e, n, typ, flags, sequence, payload);
    HeaderReads(e, n, typ, flags, 1, payload + pad);
    var h := MessageHeader(e, n, typ, flags, 1);
    assert h + payload + pad == h + (payload + pad) && (payload + pad)[..|payload|] == payload;
    assert (h + (payload + pad))[16..n] == (h + (payload + pad))[16..][..|payload|];
  }

  // ---- the attributes of a link -------------------------------------------------------------------------------

  /** The last attribute of type typ in run holds data. */
  ghost predicate LastIs(run: seq<Attr>, typ: u16, data: seq<byte>) { exists i :: LastAt(run, typ, data, i) }

  ghost predicate LastAt(run: seq<Attr>, typ: u16, data: seq<byte>, i: int) {
    0 <= i < |run| && run[i] == Attr(typ, data) && forall k :: i < k < |run| ==> run[k].typ != typ
  }

  lemma LastStays(run: seq<Attr>, typ: u16, data: seq<byte>)
    requires run != [] && LastIs(run, typ, data)
    ensures LastIs(run[1..], typ, data) || (run[0] == Attr(typ, data) && forall a <- run[1..] :: a.typ != typ)
  {
    var i :| LastAt(run, typ, data, i);
    if i > 0 {
      assert LastAt(run[1..], typ, data, i - 1);
    } else {
      forall a | a in run[1..] ensures a.typ != typ {
        var k :| 0 <= k < |run[1..]| && run[1..][k] == a;
        assert run[k + 1].typ != typ;
      }
    }
  }

  /** What is noted under a type is not touched by attributes of other types. */
  lemma {:induction false} OthersNoted(e: Endian, f: Facts, run: seq<Attr>, typ: u16)
    requires forall a <- run :: a.typ != typ
    ensures
      var g := Notes(e, f, run);
      && (typ == 3 ==> g.name == f.name) && (typ == 1 ==> g.mac == f.mac) && (typ == 4 ==> g.mtu == f.mtu)
      && (typ == 16 ==> g.oper == f.oper) && (typ == 18 ==> g.kind == f.kind)
    decreases |run|
  {
    if run != [] {
      assert run[0] in run && forall a <- run[1..] :: a in run;
      OthersNoted(e, Note(e, f, run[0]), run[1..], typ);
    }
  }

  /** Of several attributes of a type the last one counts, wherever it stands. */
  lemma {:induction false} LastCounts(e: Endian, f: Facts, run: seq<Attr>, typ: u16, data: seq<byte>)
    requires LastIs(run, typ, data)
    ensures
      var g := Notes(e, f, run);
      && (typ == 3 ==> g.name == CStr(data)) && (typ == 1 ==> g.mac == data)
      && (typ == 4 && |data| >= 4 ==> g.mtu == Get32(e, data, 0)) && (typ == 16 && |data| >= 1 ==> g.oper == data[0])
    decreases |run|
  {
    LastStays(run, typ, data);
    if LastIs(run[1..], typ, data) {
      LastCounts(e, Note(e, f, run[0]), run[1..], typ, data);
    } else {
      OthersNoted(e, Note(e, f, run[0]), run[1..], typ);
    }
  }

  /** The nested kind, if every nest in the run is this one. */
  lemma {:induction false} NestCounts(e: Endian, f: Facts, run: seq<Attr>, nest: seq<byte>, kind: seq<byte>)
    requires (exists a <- run :: a.typ == 18) && forall a <- run :: a.typ == 18 ==> a.data == nest
    requires forall before :: KindIn(Walk(e, nest).attrs, before) == kind
    ensures Notes(e, f, run).kind == kind
    decreases |run|
  {
    assert run[0] in run && forall a <- run[1..] :: a in run;
    var g := Note(e, f, run[0]);
    if exists a <- run[1..] :: a.typ == 18 {
      NestCounts(e, g, run[1..], nest, kind);
    } else {
      OthersNoted(e, g, run[1..], 18);
    }
  }

  lemma {:induction false} NoKindIn(attrs: seq<Attr>, kind: seq<byte>)
    requires forall a <- attrs :: a.typ != 1
    ensures KindIn(attrs, kind) == kind
    decreases |attrs|
  {
    if attrs != [] {
      assert attrs[0] in attrs && forall a <- attrs[1..] :: a in attrs;
      NoKindIn(attrs[1..], kind);
    }
  }

  lemma {:induction false} LastKindIn(attrs: seq<Attr>, kind: seq<byte>, before: seq<byte>)
    requires LastIs(attrs, 1, kind + [0]) && 0 !in kind
    ensures KindIn(attrs, before) == kind
    decreases |attrs|
  {
    CStrOfTerminated(kind);
    LastStays(attrs, 1, kind + [0]);
    var next := if attrs[0].typ == 1 then CStr(attrs[0].data) else before;
    if LastIs(attrs[1..], 1, kind + [0]) { LastKindIn(attrs[1..], kind, next); } else { NoKindIn(attrs[1..], next); }
  }

  /** A nest that names a kind of device, whatever else it holds. */
  lemma NestReads(e: Endian, nest: seq<Attr>, kind: seq<byte>)
    requires LastIs(nest, 1, kind + [0]) && 0 !in kind && forall a <- nest :: |a.data| <= MAX_DATA
    ensures
      var w := Walk(e, AttrsBytes(e, nest));
      !w.panics && forall before :: KindIn(w.attrs, before) == kind
  {
    RunRoundTrip(e, nest);
    forall before ensures KindIn(nest, before) == kind { LastKindIn(nest, kind, before); }
  }

  // ---- the link message -----------------------------------------------------------------------------------------

  /** A network device as the kernel describes it; kind is empty for one that is not virtual. */
  datatype Device = Device(arphrd: u16, index: int, flags: nat, name: seq<byte>, mac: seq<byte>, mtu: nat, oper: byte,
      kind: seq<byte>)

  predicate Describable(d: Device) {
    && -0x8000_0000 <= d.index < 0x8000_0000 && d.flags < 0x1_0000_0000 && d.mtu < 0x1_0000_0000
    && 0 !in d.name && 0 !in d.kind
  }

  /** The message header of d: family and change mask are of no account. */
  function LinkHeader(e: Endian, d: Device, family: Field, change: seq<byte>): (h: seq<byte>)
    requires |change| == 4 && Describable(d)
    ensures |h| == 16
  {
    family + Put16(e, d.arphrd) + Put32(e, if d.index < 0 then d.index + 0x1_0000_0000 else d.index) + Put32(e, d.flags)
      + change
  }

  /** run and the nest in it describe d, in any order, with any other attributes between. */
  ghost predicate Describes(e: Endian, run: seq<Attr>, nest: seq<Attr>, d: Device) {
    && LastIs(run, 3, d.name + [0]) && LastIs(run, 1, d.mac) && LastIs(run, 4, Put32(e, d.mtu))
    && LastIs(run, 16, [d.oper])
    && (forall a <- run + nest :: |a.data| <= MAX_DATA)
    && (forall a <- run :: a.typ == 18 ==> d.kind != [] && a.data == AttrsBytes(e, nest))
    && (d.kind != [] ==> LastIs(nest, 1, d.kind + [0]) && exists a <- run :: a.typ == 18)
  }

  lemma AttributesRead(e: Endian, run: seq<Attr>, nest: seq<Attr>, d: Device)
    requires Describable(d) && Describes(e, run, nest, d)
    ensures Notes(e, NO_FACTS, run) == Facts(d.name, d.mac, d.mtu, d.oper, d.kind) && !Panics(e, Walked(run, false))
  {
    LastCounts(e, NO_FACTS, run, 3, d.name + [0]);
    LastCounts(e, NO_FACTS, run, 1, d.mac);
    LastCounts(e, NO_FACTS, run, 4, Put32(e, d.mtu));
    LastCounts(e, NO_FACTS, run, 16, [d.oper]);
    CStrOfTerminated(d.name);
    Put32Reads(e, d.mtu, Put32(e, d.mtu), 0);
    if d.kind != [] {
      NestReads(e, nest, d.kind);
      NestCounts(e, NO_FACTS, run, AttrsBytes(e, nest), d.kind);
    } else {
      OthersNoted(e, NO_FACTS, run, 18);
    }
  }

  lemma LinkHeaderReads(e: Endian, d: Device, family: Field, change: seq<byte>, rest: seq<byte>)
    requires Describable(d) && |change| == 4
    ensures
      var m := LinkHeader(e, d, family, change) + rest;
      && Get16(e, m, 2) == d.arphrd && Signed32(Get32(e, m, 4)) == d.index && Get32(e, m, 8) == d.flags
      && m[16..] == rest
  {
    var i := if d.index < 0 then d.index + 0x1_0000_0000 else d.index;
    var m := LinkHeader(e, d, family, change) + rest;
    LinkHeaderHas(e, d, family, change, rest, i);
    Put16Reads(e, d.arphrd, m, 2);
    Put32Reads(e, i, m, 4);
    Put32Reads(e, d.flags, m, 8);
  }

  lemma LinkHeaderHas(e: Endian, d: Device, family: Field, change: seq<byte>, rest: seq<byte>, i: nat)
    requires Describable(d) && |change| == 4 && i == if d.index < 0 then d.index + 0x1_0000_0000 else d.index
    ensures
      var m := LinkHeader(e, d, family, change) + rest;
      HasAt(m, 2, Put16(e, d.arphrd)) && HasAt(m, 4, Put32(e, i)) && HasAt(m, 8, Put32(e, d.flags)) && m[16..] == rest
  {}

  /**
    The kind of d, radio telling whether sysfs knows its name for one: the loopback by flag or
    hardware type; a virtual device by the name of its kind; else, with ethernet hardware, wifi or wired.
   */
  predicate IsKind(d: Device, radio: bool, k: Kind) {
    if d.flags / 8 % 2 == 1 || d.arphrd == 772 then k == KindLoopback
    else if d.kind != [] then
      && (k == KindWireGuard <==> Says(d.kind, "wireguard")) && (k == KindBridge <==> Says(d.kind, "bridge"))
      && (k == KindTun <==> Says(d.kind, "tun") || Says(d.kind, "tap"))
      && (k == KindWifi <==> Says(d.kind, "wlan")) && k != KindLoopback && k != KindEthernet
    else if d.arphrd == 1 then k == if radio then KindWifi else KindEthernet
    else k == KindUnknown
  }

  /** A constant that spells a text is the only one that does. */
  lemma OnlyOne(b: seq<byte>, c: seq<byte>, s: string)
    requires Says(c, s)
    ensures b == c <==> Says(b, s)
  {}

  lemma KindReads(wireless: seq<byte> -> bool, d: Device)
    ensures IsKind(d, d.name != [] && wireless(d.name), Classify(wireless, d.name, d.arphrd, d.flags, d.kind))
  {
    OnlyOne(d.kind, WIREGUARD, "wireguard");
    OnlyOne(d.kind, BRIDGE, "bridge");
    OnlyOne(d.kind, TUN, "tun");
    OnlyOne(d.kind, TAP, "tap");
    OnlyOne(d.kind, WLAN, "wlan");
    assert |WIREGUARD| == 9 && |BRIDGE| == 6 && |WLAN| == 4 && TUN[1] != TAP[1];
  }

  /**
    Every device that the kernel can describe is read as exactly what it is.  It has carrier if the
    lower layer is up or its operational state is up (6), and is up by its first flag.
   */
  lemma LinkReads(e: Endian, wireless: seq<byte> -> bool, d: Device, family: Field, change: seq<byte>, run: seq<Attr>,
      nest: seq<Attr>)
    requires Describable(d) && Describes(e, run, nest, d) && |change| == 4
    ensures
      var r := LinkOf(e, wireless, LinkHeader(e, d, family, change) + AttrsBytes(e, run));
      && r.Link? && r.info.index == d.index && r.info.name == d.name && r.info.mac == d.mac && r.info.mtu == d.mtu
      && (r.info.up <==> d.flags % 2 == 1) && (r.info.carrier <==> d.flags / 0x10000 % 2 == 1 || d.oper == 6)
      && IsKind(d, d.name != [] && wireless(d.name), r.info.kind)
  {
    LinkHeaderReads(e, d, family, change, AttrsBytes(e, run));
    RunRoundTrip(e, run);
    AttributesRead(e, run, nest, d);
    KindReads(wireless, d);
  }

  /** The header of a request, for any interface index. */
  lemma IfInfoReads(e: Endian, index: int, flags: nat, change: nat)
    requires -0x8000_0000 <= index < 0x8000_0000 && flags < 0x1_0000_0000 && change < 0x1_0000_0000
    ensures
      var b := IfInfo(e, index, flags, change);
      && b[..4] == [0, 0, 0, 0] && Signed32(Get32(e, b, 4)) == index && Get32(e, b, 8) == flags
      && Get32(e, b, 12) == change
  {
    var b, i := IfInfo(e, index, flags, change), if index < 0 then index + 0x1_0000_0000 else index;
    IfInfoHas(e, index, flags, change, i);
    Put32Reads(e, i, b, 4);
    Put32Reads(e, flags, b, 8);
    Put32Reads(e, change, b, 12);
  }

  lemma IfInfoHas(e: Endian, index: int, flags: nat, change: nat, i: nat)
    requires -0x8000_0000 <= index < 0x8000_0000 && i == if index < 0 then index + 0x1_0000_0000 else index
    ensures
      var b := IfInfo(e, index, flags, change);
      && b[..4] == [0, 0, 0, 0] && HasAt(b, 4, Put32(e, i)) && HasAt(b, 8, Put32(e, flags))
      && HasAt(b, 12, Put32(e, change))
  {}

  /** A message is too short for its header, or makes the decoder read past a run of attributes, its own or a nest's. */
  lemma LinkFailsExactly(e: Endian, wireless: seq<byte> -> bool, data: seq<byte>)
    ensures LinkOf(e, wireless, data).TooShort? <==> |data| < 16
    ensures
      LinkOf(e, wireless, data).Crash?
      <==> |data| >= 16 && var w := Walk(e, data[16..]);
             w.panics || exists i :: 0 <= i < |w.attrs| && w.attrs[i].typ == 18 && Walk(e, w.attrs[i].data).panics
  {
    if |data| >= 16 {
      var w := Walk(e, data[16..]);
      forall a | a in w.attrs && a.typ == 18 && Walk(e, a.data).panics
        ensures exists i :: 0 <= i < |w.attrs| && w.attrs[i].typ == 18 && Walk(e, w.attrs[i].data).panics
      {
        var i :| 0 <= i < |w.attrs| && w.attrs[i] == a;
      }
    }
  }
}
