/** Netlink attributes: two independent encoders, the nested decoder, and the link message between them. */
module Netlink {
  import opened Common
  import opened Framing

  datatype Endian = Little | Big

  type u16 = n: nat | n < 0x10000

  const HEADER := 4          // sizeof(struct rtattr)
  const MAX_DATA := 65531    // what a 16-bit length that counts its own header can cover

  function Put16(e: Endian, v: u16): (b: seq<byte>)
    ensures |b| == 2
  {
    if e.Little? then [v % 256, v / 256] else [v / 256, v % 256]
  }

  function Get16(e: Endian, b: seq<byte>, at: nat): u16
    requires at + 2 <= |b|
  {
    if e.Little? then (b[at] as int) + 256 * b[at + 1] as int else 256 * (b[at] as int) + b[at + 1] as int
  }

  function Put32(e: Endian, v: nat): (b: seq<byte>)
    ensures |b| == 4
  {
    var lo, hi := v % 0x10000, v / 0x10000 % 0x10000;
    if e.Little? then Put16(e, lo) + Put16(e, hi) else Put16(e, hi) + Put16(e, lo)
  }

  function Get32(e: Endian, b: seq<byte>, at: nat): nat
    requires at + 4 <= |b|
  {
    if e.Little? then Get16(e, b, at) + 0x10000 * Get16(e, b, at + 2)
    else 0x10000 * Get16(e, b, at) + Get16(e, b, at + 2)
  }

  function Align(n: nat): (m: nat)
    ensures n <= m < n + 4 && m % 4 == 0
  {
    (n + 3) / 4 * 4
  }

  // ---- encoding attributes -------------------------------------------------------------------------------

  datatype Attr = Attr(typ: u16, data: seq<byte>)

  /** The length field keeps the low 16 bits. */
  function AttrHeader(e: Endian, a: Attr): (h: seq<byte>)
    ensures |h| == HEADER
  {
    Put16(e, (HEADER + |a.data|) % 0x10000) + Put16(e, a.typ)
  }

  function AttrBytes(e: Endian, a: Attr): (b: seq<byte>)
    ensures |b| == Align(HEADER + |a.data|)
  {
    AttrHeader(e, a) + a.data + Zeros(Align(HEADER + |a.data|) - HEADER - |a.data|)
  }

  function AttrsBytes(e: Endian, run: seq<Attr>): (b: seq<byte>)
    ensures |b| % 4 == 0
  {
    if run == [] then []
    else
      var a, more := AttrBytes(e, run[0]), AttrsBytes(e, run[1..]);
      MultiplesAdd(|a|, |more|);
      a + more
  }

  lemma MultiplesAdd(m: nat, n: nat)
    requires m % 4 == 0 && n % 4 == 0
    ensures (m + n) % 4 == 0
  {}

  /** rtnl's encoder pads the whole buffer, not the attribute. */
  function Appended(e: Endian, b: seq<byte>, a: Attr): seq<byte> {
    var n := |b| + HEADER + |a.data|;
    b + (AttrHeader(e, a) + a.data + Zeros(Align(n) - n))
  }

  method AppendAttr(e: Endian, buf: seq<byte>, typ: u16, data: seq<byte>) returns (b: seq<byte>)
    ensures b == Appended(e, buf, Attr(typ, data))
  {
    var l := HEADER + |data|;
    var hdr := Put16(e, l % 0x10000) + Put16(e, typ);
    b := buf + hdr;
    b := b + data;
    ghost var head, k := buf + (hdr + data), 0;
    assert b == head + Zeros(0);
    while |b| % 4 != 0
      invariant k <= Align(|head|) - |head| && b == head + Zeros(k)
      decreases Align(|head|) - |b|
    {
      b := b + [0];
      k := k + 1;
    }
    assert k == Align(|head|) - |head|;
  }

  /** wg's encoder fills a buffer of the padded size. */
  method WgAttr(e: Endian, typ: u16, data: seq<byte>) returns (b: array<byte>)
    ensures fresh(b) && b[..] == AttrBytes(e, Attr(typ, data))
  {
    var l := HEADER + |data|;
    b := new byte[Align(l)](i => 0);
    Copy(b, 0, Put16(e, l % 0x10000));
    Copy(b, 2, Put16(e, typ));
    Copy(b, 4, data);
    var a := Attr(typ, data);
    assert b[..4] == AttrHeader(e, a);
    assert b[4..l] == data;
    assert b[l..] == Zeros(Align(l) - l);
    assert b[..] == b[..4] + b[4..l] + b[l..];
  }

  /** The two encoders emit the same bytes exactly when the buffer is aligned. */
  lemma SameBytes(e: Endian, buf: seq<byte>, a: Attr)
    ensures Appended(e, buf, a) == buf + AttrBytes(e, a) <==> |buf| % 4 == 0
  {
    var n, m := |buf| + HEADER + |a.data|, HEADER + |a.data|;
    if |buf| % 4 == 0 {
      assert Align(n) == |buf| + Align(m);
    } else {
      assert Align(n) != |buf| + Align(m);
      assert |Appended(e, buf, a)| == Align(n);
    }
  }

  // ---- decoding attributes -------------------------------------------------------------------------------

  /** What the walk hands to its callback, and whether it then slices past the end of the run. */
  datatype Walked = Walked(attrs: seq<Attr>, panics: bool)

  function Walk(e: Endian, b: seq<byte>): Walked
    decreases |b|
  {
    if |b| < HEADER then Walked([], false)
    else
      var l, t := Get16(e, b, 0), Get16(e, b, 2);
      if l < HEADER || l > |b| then Walked([], false)
      else if Align(l) > |b| then Walked([Attr(t, b[HEADER..l])], true)
      else var w := Walk(e, b[Align(l)..]); w.(attrs := [Attr(t, b[HEADER..l])] + w.attrs)
  }

  method ForEachAttr(e: Endian, run: seq<byte>) returns (attrs: seq<Attr>, panics: bool)
    ensures Walked(attrs, panics) == Walk(e, run)
  {
    attrs := [];
    var b := run;
    while |b| >= HEADER
      invariant Walk(e, run) == Walked(attrs + Walk(e, b).attrs, Walk(e, b).panics)
      decreases |b|
    {
      var l, t := Get16(e, b, 0), Get16(e, b, 2);
      if l < HEADER || l > |b| { break; }
      Reassociate(attrs, Attr(t, b[HEADER..l]), if Align(l) > |b| then [] else Walk(e, b[Align(l)..]).attrs);
      attrs := attrs + [Attr(t, b[HEADER..l])];
      if Align(l) > |b| { return attrs, true; }
      b := b[Align(l)..];
    }
    panics := false;
  }

  lemma Reassociate(a: seq<Attr>, x: Attr, b: seq<Attr>)
    ensures a + ([x] + b) == a + [x] + b && a + [x] + [] == a + [x]
  {}

  lemma Words(e: Endian, l: u16, t: u16, more: seq<byte>)
    ensures var b := Put16(e, l) + Put16(e, t) + more; Get16(e, b, 0) == l && Get16(e, b, 2) == t
  {}

  /** A padded run is never sliced past its end. */
  lemma {:induction false} AlignedNeverPanics(e: Endian, b: seq<byte>)
    requires |b| % 4 == 0
    ensures !Walk(e, b).panics
    decreases |b|
  {
    if |b| >= HEADER {
      var l := Get16(e, b, 0);
      if HEADER <= l <= |b| {
        assert Align(l) <= |b|;
        AlignedNeverPanics(e, b[Align(l)..]);
      }
    }
  }

  /** A run whose last attribute is not padded: empty attributes, then one that covers what is left. */
  lemma {:induction false} UnpaddedPanics(e: Endian, n: nat) returns (b: seq<byte>)
    requires n >= HEADER && n % 4 != 0
    ensures |b| == n && Walk(e, b).panics
    decreases n
  {
    if n < 0x10000 {
      b := Put16(e, n) + Put16(e, 1) + Zeros(n - HEADER);
      Words(e, n, 1, Zeros(n - HEADER));
    } else {
      var more := UnpaddedPanics(e, n - HEADER);
      b := Put16(e, HEADER) + Put16(e, 1) + more;
      Words(e, HEADER, 1, more);
      assert Align(HEADER) == HEADER == |Put16(e, HEADER) + Put16(e, 1)|;
      assert b[HEADER..] == more;
    }
  }

  /**
    The walk is safe on all runs of a length exactly if the length is a multiple of four, or too short
    for a header.
   */
  lemma PanicsExactly(e: Endian, n: nat)
    ensures (forall b: seq<byte> | |b| == n :: !Walk(e, b).panics) <==> n < HEADER || n % 4 == 0
  {
    if n >= HEADER && n % 4 != 0 {
      var b := UnpaddedPanics(e, n);
    }
    forall b: seq<byte> | |b| == n && n % 4 == 0 ensures !Walk(e, b).panics {
      AlignedNeverPanics(e, b);
    }
  }

  lemma Slices(h: seq<byte>, d: seq<byte>, z: seq<byte>, rest: seq<byte>)
    ensures
      var b := h + d + z + rest;
      b[|h|..|h| + |d|] == d && b[|h| + |d| + |z|..] == rest && b == h + (d + z + rest)
  {}

  /** The first attribute of a run is found where the walk looks for it. */
  lemma AttrSplits(e: Endian, a: Attr, rest: seq<byte>)
    requires |a.data| <= MAX_DATA
    ensures
      var b, l := AttrBytes(e, a) + rest, HEADER + |a.data|;
      && l <= Align(l) <= |b| && Get16(e, b, 0) == l && Get16(e, b, 2) == a.typ
      && b[HEADER..l] == a.data && b[Align(l)..] == rest
  {
    var l := HEADER + |a.data|;
    var pad := Zeros(Align(l) - HEADER - |a.data|);
    assert AttrBytes(e, a) == AttrHeader(e, a) + a.data + pad;
    Slices(AttrHeader(e, a), a.data, pad, rest);
    Words(e, l, a.typ, a.data + pad + rest);
  }

  lemma FirstAttr(e: Endian, a: Attr, rest: seq<byte>)
    requires |a.data| <= MAX_DATA
    ensures
      Walk(e, AttrBytes(e, a) + rest) == Walked([a] + Walk(e, rest).attrs, Walk(e, rest).panics)
  {
    AttrSplits(e, a, rest);
  }

  lemma TooLong(e: Endian, a: Attr, rest: seq<byte>)
    requires |a.data| > MAX_DATA
    ensures Walk(e, AttrBytes(e, a) + rest).attrs == [] || |Walk(e, AttrBytes(e, a) + rest).attrs[0].data| < |a.data|
  {
    var b := AttrBytes(e, a) + rest;
    assert Get16(e, b, 0) - HEADER < |a.data|;
  }

  /** The walk gives back exactly the attributes that were encoded, if and only if all fit their length field. */
  lemma {:induction false} RunRoundTrip(e: Endian, run: seq<Attr>)
    ensures Walk(e, AttrsBytes(e, run)) == Walked(run, false) <==> forall a <- run :: |a.data| <= MAX_DATA
    decreases |run|
  {
    if run != [] {
      var a, rest := run[0], AttrsBytes(e, run[1..]);
      if |a.data| <= MAX_DATA {
        FirstAttr(e, a, rest);
        RunRoundTrip(e, run[1..]);
        assert run == [a] + run[1..];
        assert ([a] + Walk(e, rest).attrs)[1..] == Walk(e, rest).attrs;
      } else {
        TooLong(e, a, rest);
      }
    }
  }

  /** A container of attributes is itself one attribute, and its contents come out of its value. */
  lemma NestedRoundTrip(e: Endian, typ: u16, run: seq<Attr>)
    requires |AttrsBytes(e, run)| <= MAX_DATA && forall a <- run :: |a.data| <= MAX_DATA
    ensures
      var w := Walk(e, AttrBytes(e, Attr(typ, AttrsBytes(e, run))));
      |w.attrs| == 1 && w.attrs[0].typ == typ && !w.panics && Walk(e, w.attrs[0].data) == Walked(run, false)
  {
    var c := Attr(typ, AttrsBytes(e, run));
    FirstAttr(e, c, []);
    assert AttrBytes(e, c) + [] == AttrBytes(e, c);
    RunRoundTrip(e, run);
  }

  // ---- link messages -------------------------------------------------------------------------------------------

  const IFLA_ADDRESS: u16 := 1
  const IFLA_IFNAME: u16 := 3
  const IFLA_MTU: u16 := 4
  const IFLA_OPERSTATE: u16 := 16
  const IFLA_LINKINFO: u16 := 18
  const IFLA_INFO_KIND: u16 := 1
  const IF_OPER_UP: byte := 6
  const ARPHRD_ETHER: u16 := 1
  const ARPHRD_LOOPBACK: u16 := 772
  const IFINFOMSG := 16

  predicate Bit(flags: nat, weight: nat)
    requires weight > 0
  {
    flags / weight % 2 == 1
  }

  const IFF_UP := 0x1
  const IFF_LOOPBACK := 0x8
  const IFF_LOWER_UP := 0x10000

  const WIREGUARD: seq<byte> := [119, 105, 114, 101, 103, 117, 97, 114, 100]
  const BRIDGE: seq<byte> := [98, 114, 105, 100, 103, 101]
  const TUN: seq<byte> := [116, 117, 110]
  const TAP: seq<byte> := [116, 97, 112]
  const WLAN: seq<byte> := [119, 108, 97, 110]

  datatype Kind = KindUnknown | KindLoopback | KindWireGuard | KindBridge | KindTun | KindWifi | KindEthernet

  datatype LinkInfo = LinkInfo(index: int, up: bool, name: seq<byte>, mac: seq<byte>, mtu: nat, carrier: bool,
      kind: Kind)

  datatype LinkResult = TooShort | Crash | Link(info: LinkInfo)

  /** The text up to the first NUL. */
  function CStr(b: seq<byte>): (s: seq<byte>)
    ensures 0 !in s && |s| <= |b|
  {
    if b == [] || b[0] == 0 then [] else [b[0]] + CStr(b[1..])
  }

  lemma {:induction false} CStrOfTerminated(name: seq<byte>)
    ensures CStr(name + [0]) == name <==> 0 !in name
    decreases |name|
  {
    if name != [] && name[0] != 0 {
      assert (name + [0])[1..] == name[1..] + [0];
      CStrOfTerminated(name[1..]);
      assert name == [name[0]] + name[1..];
      assert CStr(name + [0])[1..] == CStr(name[1..] + [0]);
    }
  }

  method CStrScan(b: seq<byte>) returns (s: seq<byte>)
    ensures s == CStr(b)
  {
    for i := 0 to |b|
      invariant 0 !in b[..i] && CStr(b) == b[..i] + CStr(b[i..])
    {
      assert b[i..][1..] == b[i + 1..] && b[..i + 1] == b[..i] + [b[i]];
      if b[i] == 0 {
        assert CStr(b[i..]) == [];
        return b[..i];
      }
    }
    assert b[..|b|] == b && b[|b|..] == [];
    s := b;
  }

  /** wireless says what sysfs knows about a name; the empty name is never looked up. */
  function Classify(wireless: seq<byte> -> bool, name: seq<byte>, arphrd: u16, flags: nat, kind: seq<byte>): Kind {
    if Bit(flags, IFF_LOOPBACK) || arphrd == ARPHRD_LOOPBACK then KindLoopback
    else if kind == WIREGUARD then KindWireGuard
    else if kind == BRIDGE then KindBridge
    else if kind == TUN || kind == TAP then KindTun
    else if kind == WLAN then KindWifi
    else if kind == [] && arphrd == ARPHRD_ETHER then (if name != [] && wireless(name) then KindWifi else KindEthernet)
    else KindUnknown
  }

  /** What the attribute callback has collected. */
  datatype Facts = Facts(name: seq<byte>, mac: seq<byte>, mtu: nat, oper: byte, kind: seq<byte>)

  const NO_FACTS := Facts([], [], 0, 0, [])

  function KindIn(attrs: seq<Attr>, kind: seq<byte>): seq<byte> {
    if attrs == [] then kind
    else KindIn(attrs[1..], if attrs[0].typ == IFLA_INFO_KIND then CStr(attrs[0].data) else kind)
  }

  function Note(e: Endian, f: Facts, a: Attr): Facts {
    if a.typ == IFLA_IFNAME then f.(name := CStr(a.data))
    else if a.typ == IFLA_ADDRESS then f.(mac := a.data)
    else if a.typ == IFLA_MTU then (if |a.data| >= 4 then f.(mtu := Get32(e, a.data, 0)) else f)
    else if a.typ == IFLA_OPERSTATE then (if |a.data| >= 1 then f.(oper := a.data[0]) else f)
    else if a.typ == IFLA_LINKINFO then f.(kind := KindIn(Walk(e, a.data).attrs, f.kind))
    else f
  }

  function Notes(e: Endian, f: Facts, attrs: seq<Attr>): Facts
    decreases |attrs|
  {
    if attrs == [] then f else Notes(e, Note(e, f, attrs[0]), attrs[1..])
  }

  /** A walk panics on its own account or, earlier, inside the callback for a nested run. */
  predicate Panics(e: Endian, w: Walked) {
    w.panics || exists a <- w.attrs :: a.typ == IFLA_LINKINFO && Walk(e, a.data).panics
  }

  function Signed32(v: nat): int { if v >= 0x8000_0000 then v - 0x1_0000_0000 else v }

  function LinkOf(e: Endian, wireless: seq<byte> -> bool, data: seq<byte>): LinkResult {
    if |data| < IFINFOMSG then TooShort
    else
      var w := Walk(e, data[IFINFOMSG..]);
      if Panics(e, w) then Crash
      else
        var f, flags := Notes(e, NO_FACTS, w.attrs), Get32(e, data, 8);
        Link(LinkInfo(Signed32(Get32(e, data, 4)), Bit(flags, IFF_UP), f.name, f.mac, f.mtu,
                      Bit(flags, IFF_LOWER_UP) || f.oper == IF_OPER_UP,
                      Classify(wireless, f.name, Get16(e, data, 2), flags, f.kind)))
  }

  method NestedKind(e: Endian, d: seq<byte>, before: seq<byte>) returns (kind: seq<byte>, panics: bool)
    ensures kind == KindIn(Walk(e, d).attrs, before) && panics == Walk(e, d).panics
  {
    var attrs;
    attrs, panics := ForEachAttr(e, d);
    kind := before;
    for i := 0 to |attrs|
      invariant KindIn(attrs, before) == KindIn(attrs[i..], kind)
    {
      assert attrs[i..][1..] == attrs[i + 1..];
      if attrs[i].typ == IFLA_INFO_KIND { kind := CStrScan(attrs[i].data); }
    }
  }

  /** The attribute callback of ParseLink over the whole run. */
  method Collect(e: Endian, attrs: seq<Attr>)
    returns (name: seq<byte>, mac: seq<byte>, mtu: nat, oper: byte, kind: seq<byte>, panics: bool)
    ensures panics <==> Panics(e, Walked(attrs, false))
    ensures !panics ==> Facts(name, mac, mtu, oper, kind) == Notes(e, NO_FACTS, attrs)
  {
    name, mac, mtu, oper, kind, panics := [], [], 0, 0, [], false;
    for i := 0 to |attrs|
      invariant Notes(e, NO_FACTS, attrs) == Notes(e, Facts(name, mac, mtu, oper, kind), attrs[i..]) && !panics
      invariant forall k :: 0 <= k < i ==> !(attrs[k].typ == IFLA_LINKINFO && Walk(e, attrs[k].data).panics)
    {
      assert attrs[i..][1..] == attrs[i + 1..];
      var t, d := attrs[i].typ, attrs[i].data;
      if t == IFLA_IFNAME {
        name := CStrScan(d);
      } else if t == IFLA_ADDRESS {
        mac := d;
      } else if t == IFLA_MTU {
        if |d| >= 4 { mtu := Get32(e, d, 0); }
      } else if t == IFLA_OPERSTATE {
        if |d| >= 1 { oper := d[0]; }
      } else if t == IFLA_LINKINFO {
        kind, panics := NestedKind(e, d, kind);
        if panics {
          assert attrs[i] in attrs;
          return;
        }
      }
    }
  }

  method ParseLink(e: Endian, wireless: seq<byte> -> bool, data: seq<byte>) returns (r: LinkResult)
    ensures r == LinkOf(e, wireless, data)
  {
    if |data| < IFINFOMSG { return TooShort; }
    var arphrd, index, flags := Get16(e, data, 2), Signed32(Get32(e, data, 4)), Get32(e, data, 8);
    var attrs, panics := ForEachAttr(e, data[IFINFOMSG..]);
    var name, mac, mtu, oper, kind, nested := Collect(e, attrs);
    if panics || nested { return Crash; }
    var carrier := Bit(flags, IFF_LOWER_UP) || oper == IF_OPER_UP;
    r := Link(LinkInfo(index, Bit(flags, IFF_UP), name, mac, mtu, carrier,
      Classify(wireless, name, arphrd, flags, kind)));
  }

  // ---- what createLink sends -----------------------------------------------------------------------------------

  function IfInfo(e: Endian, index: int, flags: nat, change: nat): (b: seq<byte>)
    requires -0x8000_0000 <= index < 0x8000_0000
    ensures |b| == IFINFOMSG
  {
    Zeros(4) + Put32(e, if index < 0 then index + 0x1_0000_0000 else index) + Put32(e, flags) + Put32(e, change)
  }

  method Marshal(e: Endian, index: int, flags: nat, change: nat) returns (b: array<byte>)
    requires -0x8000_0000 <= index < 0x8000_0000
    ensures fresh(b) && b[..] == IfInfo(e, index, flags, change)
  {
    b := new byte[IFINFOMSG](i => 0);
    FillIfInfo(b, Put32(e, if index < 0 then index + 0x1_0000_0000 else index), Put32(e, flags), Put32(e, change));
  }

  method FillIfInfo(b: array<byte>, index: seq<byte>, flags: seq<byte>, change: seq<byte>)
    requires b.Length == IFINFOMSG && |index| == 4 && |flags| == 4 && |change| == 4
    requires forall k :: 0 <= k < 16 ==> b[k] == 0
    modifies b
    ensures b[..] == Zeros(4) + index + flags + change
  {
    Copy(b, 4, index);
    Copy(b, 8, flags);
    Copy(b, 12, change);
    assert b[..4] == Zeros(4);
    assert b[..] == b[..4] + b[4..8] + b[8..12] + b[12..16];
  }

  function LinkAttrs(e: Endian, name: seq<byte>): seq<Attr> {
    [Attr(IFLA_IFNAME, name + [0]), Attr(IFLA_LINKINFO, AttrBytes(e, Attr(IFLA_INFO_KIND, WIREGUARD + [0])))]
  }

  method CreateLinkBody(e: Endian, name: seq<byte>) returns (body: seq<byte>)
    ensures body == IfInfo(e, 0, 0, 0) + AttrsBytes(e, LinkAttrs(e, name))
  {
    var ifname := WgAttr(e, IFLA_IFNAME, name + [0]);
    var kind := WgAttr(e, IFLA_INFO_KIND, WIREGUARD + [0]);
    var info := WgAttr(e, IFLA_LINKINFO, kind[..]);
    var ifi := Marshal(e, 0, 0, 0);
    TwoAttrs(e, LinkAttrs(e, name)[0], LinkAttrs(e, name)[1]);
    body := ifi[..] + (ifname[..] + info[..]);
  }

  lemma TwoAttrs(e: Endian, a: Attr, b: Attr)
    ensures AttrsBytes(e, [a, b]) == AttrBytes(e, a) + AttrBytes(e, b)
  {
    assert [a, b][1..] == [b] && [b][1..] == [];
    assert AttrsBytes(e, [b]) == AttrBytes(e, b) + [];
  }

  lemma KindNested(e: Endian)
    ensures
      var w := Walk(e, AttrBytes(e, Attr(IFLA_INFO_KIND, WIREGUARD + [0])));
      !w.panics && KindIn(w.attrs, []) == WIREGUARD
  {
    var inner := Attr(IFLA_INFO_KIND, WIREGUARD + [0]);
    FirstAttr(e, inner, []);
    assert AttrBytes(e, inner) + [] == AttrBytes(e, inner);
    CStrOfTerminated(WIREGUARD);
    assert [inner][1..] == [];
  }

  lemma LinkNotes(e: Endian, name: seq<byte>)
    ensures Notes(e, NO_FACTS, LinkAttrs(e, name)) == NO_FACTS.(name := CStr(name + [0]), kind := WIREGUARD)
    ensures !Panics(e, Walked(LinkAttrs(e, name), false))
  {
    KindNested(e);
    NotesTwo(e, NO_FACTS, LinkAttrs(e, name)[0], LinkAttrs(e, name)[1]);
  }

  lemma NotesTwo(e: Endian, f: Facts, a: Attr, b: Attr)
    ensures Notes(e, f, [a, b]) == Note(e, Note(e, f, a), b)
  {
    assert [a, b][1..] == [b] && [b][1..] == [];
    assert Notes(e, f, [a, b]) == Notes(e, Note(e, f, a), [b]);
  }

  /** The daemon reads its own request as a WireGuard link of that name, exactly when the name has no NUL. */
  lemma CreateLinkDecodes(e: Endian, wireless: seq<byte> -> bool, name: seq<byte>)
    requires |name| < MAX_DATA
    ensures
      var r := LinkOf(e, wireless, IfInfo(e, 0, 0, 0) + AttrsBytes(e, LinkAttrs(e, name)));
      r.Link? && r.info.kind == KindWireGuard && (r.info.name == name <==> 0 !in name)
      && r.info.index == 0 && !r.info.up && !r.info.carrier
  {
    var body := AttrsBytes(e, LinkAttrs(e, name));
    ZeroHeader(e, body);
    RunRoundTrip(e, LinkAttrs(e, name));
    LinkNotes(e, name);
    CStrOfTerminated(name);
    QuietLink(e, wireless, IfInfo(e, 0, 0, 0) + body, LinkAttrs(e, name),
      NO_FACTS.(name := CStr(name + [0]), kind := WIREGUARD));
  }

  lemma QuietLink(e: Endian, wireless: seq<byte> -> bool, data: seq<byte>, run: seq<Attr>, f: Facts)
    requires |data| >= IFINFOMSG && Get16(e, data, 2) == 0 && Get32(e, data, 4) == 0 && Get32(e, data, 8) == 0
    requires Walk(e, data[IFINFOMSG..]) == Walked(run, false) && !Panics(e, Walked(run, false))
      && Notes(e, NO_FACTS, run) == f
    requires f.kind == WIREGUARD && f.oper == 0
    ensures LinkOf(e, wireless, data) == Link(LinkInfo(0, false, f.name, f.mac, f.mtu, false, KindWireGuard))
  {}

  lemma ZeroHeader(e: Endian, body: seq<byte>)
    ensures
      var data := IfInfo(e, 0, 0, 0) + body;
      Get16(e, data, 2) == 0 && Get32(e, data, 4) == 0 && Get32(e, data, 8) == 0 && data[IFINFOMSG..] == body
  {
    var data := IfInfo(e, 0, 0, 0) + body;
    assert forall k :: 0 <= k < 16 ==> data[k] == 0;
  }

  // ---- message frames -------------------------------------------------------------------------------------------

  function MessageHeader(e: Endian, total: nat, typ: u16, flags: u16, sequence: nat): (h: seq<byte>)
    ensures |h| == 16
  {
    Put32(e, total) + Put16(e, typ) + Put16(e, flags) + Put32(e, sequence) + Zeros(4)
  }

  /** rtnl appends the payload and stops there; wg pads the message. */
  function RtnlMessage(e: Endian, typ: u16, flags: u16, sequence: nat, payload: seq<byte>): seq<byte> {
    MessageHeader(e, 16 + |payload|, typ, flags, sequence) + payload
  }

  function WgMessage(e: Endian, typ: u16, flags: u16, body: seq<byte>): seq<byte> {
    MessageHeader(e, 16 + |body|, typ, flags, 1) + body + Zeros(Align(16 + |body|) - 16 - |body|)
  }

  lemma HeaderIs(e: Endian, h: seq<byte>, total: nat, typ: u16, flags: u16)
    requires |h| == 16 && HasAt(h, 0, Put32(e, total)) && HasAt(h, 4, Put16(e, typ)) && HasAt(h, 6, Put16(e, flags))
    requires HasAt(h, 8, Put32(e, 1)) && HasAt(h, 12, Zeros(4))
    ensures h == MessageHeader(e, total, typ, flags, 1)
  {
    HasAtIs(h, 0, Put32(e, total));
    HasAtIs(h, 4, Put16(e, typ));
    HasAtIs(h, 6, Put16(e, flags));
    HasAtIs(h, 8, Put32(e, 1));
    HasAtIs(h, 12, Zeros(4));
    assert h == h[0..4] + h[4..6] + h[6..8] + h[8..12] + h[12..16];
  }

  method FillHeader(e: Endian, msg: array<byte>, total: nat, typ: u16, flags: u16)
    requires msg.Length >= 16 && forall k :: 0 <= k < msg.Length ==> msg[k] == 0
    modifies msg
    ensures msg[..16] == MessageHeader(e, total, typ, flags, 1) && forall k :: 16 <= k < msg.Length ==> msg[k] == 0
  {
    Copy(msg, 0, Put32(e, total));
    Copy(msg, 4, Put16(e, typ));
    Copy(msg, 6, Put16(e, flags));
    Copy(msg, 8, Put32(e, 1));
    HeaderIs(e, msg[..16], total, typ, flags);
  }

  method FillMessage(e: Endian, typ: u16, flags: u16, body: seq<byte>) returns (msg: array<byte>)
    ensures fresh(msg) && msg[..] == WgMessage(e, typ, flags, body)
  {
    var total := 16 + |body|;
    msg := new byte[Align(total)](i => 0);
    FillHeader(e, msg, total, typ, flags);
    Copy(msg, 16, body);
    assert msg[..16] == MessageHeader(e, total, typ, flags, 1);
    assert msg[16..total] == body;
    assert msg[total..] == Zeros(Align(total) - total);
    assert msg[..] == msg[..16] + msg[16..total] + msg[total..];
  }

  lemma SameMessage(e: Endian, typ: u16, flags: u16, body: seq<byte>)
    ensures WgMessage(e, typ, flags, body) == RtnlMessage(e, typ, flags, 1, body) <==> |body| % 4 == 0
  {
    var head, pad := MessageHeader(e, 16 + |body|, typ, flags, 1), Zeros(Align(16 + |body|) - 16 - |body|);
    NoPadding(|body|);
    assert WgMessage(e, typ, flags, body) == head + body + pad && RtnlMessage(e, typ, flags, 1, body) == head + body;
    assert |head + body + pad| == |head + body| <==> pad == [];
  }

  lemma NoPadding(n: nat)
    ensures Align(16 + n) == 16 + n <==> n % 4 == 0
  {}
}
