/** The BOOTP/DHCP codec (RFC 2131 section 2, RFC 2132 section 2). */
module DhcpPacket {
  import opened Common
  import opened Framing

  type Mac = a: seq<byte> | |a| == 6 witness [0, 0, 0, 0, 0, 0]

  /** A transaction id as its four octets on the wire; it is only ever copied and compared. */
  type Xid = a: seq<byte> | |a| == 4 witness [0, 0, 0, 0]

  const MSG_DISCOVER: byte := 1
  const MSG_OFFER: byte := 2
  const MSG_REQUEST: byte := 3
  const MSG_ACK: byte := 5
  const MSG_NAK: byte := 6
  const MSG_RELEASE: byte := 7

  const OPT_SUBNET_MASK: byte := 1
  const OPT_ROUTER: byte := 3
  const OPT_DNS: byte := 6
  const OPT_DOMAIN: byte := 15
  const OPT_BROADCAST: byte := 28
  const OPT_REQUESTED_IP: byte := 50
  const OPT_LEASE_TIME: byte := 51
  const OPT_MSG_TYPE: byte := 53
  const OPT_SERVER_ID: byte := 54
  const OPT_PARAM_LIST: byte := 55
  const OPT_CLIENT_ID: byte := 61
  const OPT_END: byte := 255

  const MAGIC: IPv4 := [0x63, 0x82, 0x53, 0x63]
  const ZERO_IP: IPv4 := [0, 0, 0, 0]
  const PARAMS: seq<byte> := [OPT_SUBNET_MASK, OPT_ROUTER, OPT_DNS, OPT_DOMAIN, OPT_BROADCAST, OPT_LEASE_TIME]

  // ---- the option field ------------------------------------------------------------------------

  datatype Item = Pad | Opt(code: byte, val: seq<byte>)

  predicate WellFormed(it: Item) {
    it.Opt? ==> it.code != 0 && it.code != OPT_END && |it.val| <= 255
  }

  function Encode(items: seq<Item>): seq<byte>
    requires forall it <- items :: WellFormed(it)
  {
    if items == [] then [] else EncodeItem(items[0]) + Encode(items[1..])
  }

  function EncodeItem(it: Item): seq<byte>
    requires WellFormed(it)
  {
    match it
    case Pad => [0]
    case Opt(code, val) => [code, |val|] + val
  }

  type Options = map<byte, seq<byte>>

  /** The options an item list stands for: a later value replaces an earlier one. */
  function LastWins(items: seq<Item>): Options {
    if items == [] then map[] else Apply(LastWins(items[..|items| - 1]), items[|items| - 1])
  }

  function Apply(m: Options, it: Item): Options {
    match it
    case Pad => m
    case Opt(code, val) => m[code := val]
  }

  /** What the parse loop makes of the bytes b that are left, having collected acc. */
  function ParseOptions(b: seq<byte>, acc: Options): Options
    decreases |b|
  {
    if |b| == 0 || b[0] == OPT_END then acc
    else if b[0] == 0 then ParseOptions(b[1..], acc)
    else if |b| < 2 || |b| < 2 + b[1] as int then acc
    else
      var l := b[1] as int;
      ParseOptions(b[2 + l..], acc[b[0] := b[2..2 + l]])
  }

  lemma ParsesFirst(it: Item, tail: seq<byte>, acc: Options)
    requires WellFormed(it)
    ensures ParseOptions(EncodeItem(it) + tail, acc) == ParseOptions(tail, Apply(acc, it))
  {
    var b := EncodeItem(it) + tail;
    match it {
      case Pad =>
        assert b == [0] + tail && b[1..] == tail;
      case Opt(code, val) =>
        assert b[0] == code && b[1] == |val|;
        assert b[2..2 + |val|] == val && b[2 + |val|..] == tail;
    }
  }

  lemma Regroup<T>(a: seq<T>, b: seq<T>, c: seq<T>)
    ensures a + b + c == a + (b + c)
  {}

  /**
    Reading back an encoded option list gives the last-value-wins map, whatever follows the end
    marker, and also when the field just stops or breaks off inside an option.
   */
  lemma {:induction false} ParsesEncoded(items: seq<Item>, rest: seq<byte>, acc: Options)
    requires forall it <- items :: WellFormed(it)
    requires Ends(rest)
    ensures ParseOptions(Encode(items) + rest, acc) == acc + LastWins(items)
    decreases |items|
  {
    if items == [] {
      assert Encode(items) + rest == rest;
    } else {
      Regroup(EncodeItem(items[0]), Encode(items[1..]), rest);
      ParsesFirst(items[0], Encode(items[1..]) + rest, acc);
      ParsesEncoded(items[1..], rest, Apply(acc, items[0]));
      LastWinsFront(items, acc);
    }
  }

  /** The parse loop stops at rest without reading an option from it. */
  predicate Ends(rest: seq<byte>) {
    |rest| == 0 || rest[0] == OPT_END || (rest[0] != 0 && (|rest| < 2 || |rest| < 2 + rest[1] as int))
  }

  lemma {:induction false} LastWinsFront(items: seq<Item>, acc: Options)
    requires items != []
    ensures acc + LastWins(items) == Apply(acc, items[0]) + LastWins(items[1..])
    decreases |items|
  {
    var n := |items| - 1;
    var front, last := items[..n], items[n];
    ApplyLast(acc, LastWins(front), last);
    if n > 0 {
      LastWinsFront(front, acc);
      assert items[1..][..n - 1] == front[1..] && items[1..][n - 1] == last;
      ApplyLast(Apply(acc, items[0]), LastWins(front[1..]), last);
    }
  }

  lemma ApplyLast(acc: Options, m: Options, it: Item)
    ensures acc + Apply(m, it) == Apply(acc + m, it)
  {}

  // ---- messages -----------------------------------------------------------------------------------

  /** The fixed part of a BOOTREQUEST and the magic cookie. */
  function Header(xid: Xid, flags: Field, ciaddr: IPv4, mac: Mac): (h: seq<byte>)
    ensures |h| == 240
  {
    [1, 1, 6, 0] + xid + [0, 0] + flags + ciaddr + Zeros(12) + mac + Zeros(202) + MAGIC
  }

  function MessageItems(mtype: byte, mac: Mac, reqIP: Option<IPv4>, serverID: Option<IPv4>): (items: seq<Item>)
    ensures forall it <- items :: WellFormed(it)
  {
    [Opt(OPT_MSG_TYPE, [mtype]), Opt(OPT_CLIENT_ID, [1] + mac)]
    + (if reqIP.Some? && mtype == MSG_REQUEST then [Opt(OPT_REQUESTED_IP, reqIP.value)] else [])
    + (if serverID.Some? then [Opt(OPT_SERVER_ID, serverID.value)] else [])
    + (if mtype == MSG_DISCOVER || mtype == MSG_REQUEST then [Opt(OPT_PARAM_LIST, PARAMS)] else [])
  }

  /** The BROADCAST flag on everything but a release, which carries the bound address instead. */
  function MessageHeader(mtype: byte, xid: Xid, mac: Mac, reqIP: Option<IPv4>): (h: seq<byte>)
    ensures |h| == 240
  {
    if mtype != MSG_RELEASE then Header(xid, [0x80, 0], ZERO_IP, mac)
    else Header(xid, [0, 0], if reqIP.Some? then reqIP.value else ZERO_IP, mac)
  }

  function Message(mtype: byte, xid: Xid, mac: Mac, reqIP: Option<IPv4>, serverID: Option<IPv4>): seq<byte> {
    MessageHeader(mtype, xid, mac, reqIP) + Encode(MessageItems(mtype, mac, reqIP, serverID)) + [OPT_END]
  }

  /** The options of a message as they stand on the wire. */
  function OptionBytes(mtype: byte, mac: Mac, reqIP: Option<IPv4>, serverID: Option<IPv4>): seq<byte> {
    [53, 1, mtype, 61, 7, 1] + mac
    + (if mtype == 3 && reqIP.Some? then [50, 4] + reqIP.value else [])
    + (if serverID.Some? then [54, 4] + serverID.value else [])
    + (if mtype == 1 || mtype == 3 then [55, 6, 1, 3, 6, 15, 28, 51] else [])
  }

  /**
    The bytes of a message (section 2 of RFC 2131): only a release is without the BROADCAST flag,
    and only it names the client's address.
   */
  lemma MessageBytes(mtype: byte, xid: Xid, mac: Mac, reqIP: Option<IPv4>, serverID: Option<IPv4>)
    ensures
      var m := Message(mtype, xid, mac, reqIP, serverID);
      && |m| > 240 && m[..4] == [1, 1, 6, 0] && m[4..8] == xid && m[8..10] == [0, 0]
      && m[10..12] == (if mtype == 7 then [0, 0] else [0x80, 0])
      && m[12..16] == (if mtype == 7 && reqIP.Some? then reqIP.value else [0, 0, 0, 0])
      && m[16..28] == Zeros(12) && m[28..34] == mac && m[34..236] == Zeros(202)
      && m[236..240] == [0x63, 0x82, 0x53, 0x63]
      && m[240..] == OptionBytes(mtype, mac, reqIP, serverID) + [255]
  {
    var flags: Field := if mtype == 7 then [0, 0] else [0x80, 0];
    var ciaddr: IPv4 := if mtype == 7 && reqIP.Some? then reqIP.value else [0, 0, 0, 0];
    var h, opts := MessageHeader(mtype, xid, mac, reqIP), Encode(MessageItems(mtype, mac, reqIP, serverID)) + [OPT_END];
    FieldBytes(xid, flags, ciaddr, mac);
    assert h == Header(xid, flags, ciaddr, mac);
    Regroup(h, Encode(MessageItems(mtype, mac, reqIP, serverID)), [OPT_END]);
    FieldsKept(h, opts);
    ItemBytes(mtype, mac, reqIP, serverID);
  }

  lemma FieldBytes(xid: Xid, flags: Field, ciaddr: IPv4, mac: Mac)
    ensures
      var h := Header(xid, flags, ciaddr, mac);
      && h[..4] == [1, 1, 6, 0] && h[4..8] == xid && h[8..10] == [0, 0] && h[10..12] == flags && h[12..16] == ciaddr
      && h[16..28] == Zeros(12) && h[28..34] == mac && h[34..236] == Zeros(202) && h[236..240] == MAGIC
  {}

  lemma FieldsKept(h: seq<byte>, opts: seq<byte>)
    requires |h| == 240 && opts != []
    ensures
      var m := h + opts;
      && |m| > 240 && m[..4] == h[..4] && m[4..8] == h[4..8] && m[8..10] == h[8..10] && m[10..12] == h[10..12]
      && m[12..16] == h[12..16] && m[16..28] == h[16..28] && m[28..34] == h[28..34] && m[34..236] == h[34..236]
      && m[236..240] == h[236..240] && m[240..] == opts
  {}

  lemma ItemBytes(mtype: byte, mac: Mac, reqIP: Option<IPv4>, serverID: Option<IPv4>)
    ensures Encode(MessageItems(mtype, mac, reqIP, serverID)) == OptionBytes(mtype, mac, reqIP, serverID)
  {
    var first: seq<Item> := [Opt(OPT_MSG_TYPE, [mtype]), Opt(OPT_CLIENT_ID, [1] + mac)];
    var start := [53, 1, mtype, 61, 7, 1] + mac;
    assert start == [OPT_MSG_TYPE, 1, mtype] + [OPT_CLIENT_ID, 7, 1] + mac;
    EncodeTwo(mtype, mac);
    var ip: seq<Item>, ip' := [], [];
    if mtype == 3 && reqIP.Some? { ip, ip' := [Opt(OPT_REQUESTED_IP, reqIP.value)], [50, 4] + reqIP.value; }
    Appends(first, start, ip, ip');
    var id: seq<Item>, id' := [], [];
    if serverID.Some? { id, id' := [Opt(OPT_SERVER_ID, serverID.value)], [54, 4] + serverID.value; }
    Appends(first + ip, start + ip', id, id');
    var ps: seq<Item>, ps' := [], [];
    if mtype == 1 || mtype == 3 { ps, ps' := [Opt(OPT_PARAM_LIST, PARAMS)], [55, 6] + [1, 3, 6, 15, 28, 51]; }
    Appends(first + ip + id, start + ip' + id', ps, ps');
    assert [55, 6] + [1, 3, 6, 15, 28, 51] == [55, 6, 1, 3, 6, 15, 28, 51];
    assert MessageItems(mtype, mac, reqIP, serverID) == first + ip + id + ps;
    assert OptionBytes(mtype, mac, reqIP, serverID) == start + ip' + id' + ps';
  }

  /** One more option, or none, at the end of an encoded list. */
  lemma Appends(items: seq<Item>, bytes: seq<byte>, more: seq<Item>, tail: seq<byte>)
    requires (forall it <- items + more :: WellFormed(it)) && Encode(items) == bytes
    requires if more == [] then tail == []
             else |more| == 1 && more[0].Opt? && tail == [more[0].code, |more[0].val|] + more[0].val
    ensures Encode(items + more) == bytes + tail
  {
    if more == [] {
      assert items + more == items && bytes + tail == bytes;
    } else {
      assert more[0] in items + more && forall it <- items :: it in items + more;
      assert more == [Opt(more[0].code, more[0].val)];
      EncodeMore(items, more[0].code, more[0].val);
      Regroup(bytes, [more[0].code, |more[0].val|], more[0].val);
    }
  }

  method FillHeader(buf: array<byte>, mtype: byte, xid: Xid, mac: Mac, reqIP: Option<IPv4>)
    requires buf.Length == 240 && forall k :: 0 <= k < 240 ==> buf[k] == 0
    modifies buf
    ensures buf[..] == MessageHeader(mtype, xid, mac, reqIP)
  {
    if mtype != MSG_RELEASE {
      FillFields(buf, xid, [0x80, 0], ZERO_IP, mac);
    } else {
      FillFields(buf, xid, [0, 0], if reqIP.Some? then reqIP.value else ZERO_IP, mac);
    }
  }

  /** A buffer of 240 bytes with these fields, and zeros everywhere else, is the header. */
  lemma HeaderIs(b: seq<byte>, xid: Xid, flags: Field, ciaddr: IPv4, mac: Mac)
    requires |b| == 240 && HasAt(b, 0, [1, 1, 6, 0]) && HasAt(b, 4, xid) && HasAt(b, 8, [0, 0]) && HasAt(b, 10, flags)
    requires HasAt(b, 12, ciaddr) && HasAt(b, 16, Zeros(12)) && HasAt(b, 28, mac) && HasAt(b, 34, Zeros(202))
    requires HasAt(b, 236, MAGIC)
    ensures b == Header(xid, flags, ciaddr, mac)
  {
    HasAtIs(b, 0, [1, 1, 6, 0]);
    HasAtIs(b, 4, xid);
    HasAtIs(b, 8, [0, 0]);
    HasAtIs(b, 10, flags);
    HasAtIs(b, 12, ciaddr);
    HasAtIs(b, 16, Zeros(12));
    HasAtIs(b, 28, mac);
    HasAtIs(b, 34, Zeros(202));
    HasAtIs(b, 236, MAGIC);
    assert b == b[..4] + b[4..8] + b[8..10] + b[10..12] + b[12..16] + b[16..28] + b[28..34] + b[34..236] + b[236..240];
  }

  method FillFields(buf: array<byte>, xid: Xid, flags: Field, ciaddr: IPv4, mac: Mac)
    requires buf.Length == 240 && forall k :: 0 <= k < 240 ==> buf[k] == 0
    modifies buf
    ensures buf[..] == Header(xid, flags, ciaddr, mac)
  {
    buf[0] := 1;
    buf[1] := 1;
    buf[2] := 6;
    Copy(buf, 4, xid);
    Copy(buf, 10, flags);
    Copy(buf, 12, ciaddr);
    Copy(buf, 28, mac);
    Copy(buf, 236, MAGIC);
    HeaderIs(buf[..], xid, flags, ciaddr, mac);
  }

  method BuildMsg(mtype: byte, xid: Xid, mac: Mac, reqIP: Option<IPv4>, serverID: Option<IPv4>) returns (msg: seq<byte>)
    ensures msg == Message(mtype, xid, mac, reqIP, serverID)
  {
    var buf := new byte[240](i => 0);
    FillHeader(buf, mtype, xid, mac, reqIP);
    var opts := BuildOptions(mtype, mac, reqIP, serverID);
    msg := buf[..] + opts;
    assert msg == buf[..] + Encode(MessageItems(mtype, mac, reqIP, serverID)) + [OPT_END];
  }

  method BuildOptions(mtype: byte, mac: Mac, reqIP: Option<IPv4>, serverID: Option<IPv4>) returns (opts: seq<byte>)
    ensures opts == Encode(MessageItems(mtype, mac, reqIP, serverID)) + [OPT_END]
  {
    opts := [OPT_MSG_TYPE, 1, mtype];
    opts := opts + [OPT_CLIENT_ID, 7, 1];
    opts := opts + mac;
    ghost var items := [Opt(OPT_MSG_TYPE, [mtype]), Opt(OPT_CLIENT_ID, [1] + mac)];
    EncodeTwo(mtype, mac);
    if reqIP.Some? && mtype == MSG_REQUEST {
      opts := AppendOption(opts, items, OPT_REQUESTED_IP, reqIP.value);
      items := items + [Opt(OPT_REQUESTED_IP, reqIP.value)];
    }
    if serverID.Some? {
      opts := AppendOption(opts, items, OPT_SERVER_ID, serverID.value);
      items := items + [Opt(OPT_SERVER_ID, serverID.value)];
    }
    if mtype == MSG_DISCOVER || mtype == MSG_REQUEST {
      opts := AppendOption(opts, items, OPT_PARAM_LIST, PARAMS);
      items := items + [Opt(OPT_PARAM_LIST, PARAMS)];
    }
    assert items == MessageItems(mtype, mac, reqIP, serverID);
    opts := opts + [OPT_END];
  }

  method AppendOption(opts: seq<byte>, ghost items: seq<Item>, code: byte, val: seq<byte>) returns (more: seq<byte>)
    requires (forall it <- items :: WellFormed(it)) && WellFormed(Opt(code, val)) && opts == Encode(items)
    ensures more == Encode(items + [Opt(code, val)])
  {
    more := opts + [code, |val|];
    more := more + val;
    EncodeMore(items, code, val);
  }

  lemma EncodeTwo(mtype: byte, mac: Mac)
    ensures Encode([Opt(OPT_MSG_TYPE, [mtype]), Opt(OPT_CLIENT_ID, [1] + mac)])
         == [OPT_MSG_TYPE, 1, mtype] + [OPT_CLIENT_ID, 7, 1] + mac
  {
    var one, two := Opt(OPT_MSG_TYPE, [mtype]), Opt(OPT_CLIENT_ID, [1] + mac);
    EncodeMore([], OPT_MSG_TYPE, [mtype]);
    EncodeMore([one], OPT_CLIENT_ID, [1] + mac);
    assert [one] + [two] == [one, two] && [] + [one] == [one];
    assert Encode([]) == [];
    assert [] + [OPT_MSG_TYPE, 1] + [mtype] == [OPT_MSG_TYPE, 1, mtype];
    assert [OPT_MSG_TYPE, 1, mtype] + [OPT_CLIENT_ID, 7] + ([1] + mac)
      == [OPT_MSG_TYPE, 1, mtype] + [OPT_CLIENT_ID, 7, 1] + mac;
  }

  lemma {:induction false} EncodeMore(items: seq<Item>, code: byte, val: seq<byte>)
    requires (forall it <- items :: WellFormed(it)) && WellFormed(Opt(code, val))
    ensures Encode(items + [Opt(code, val)]) == Encode(items) + [code, |val|] + val
    decreases |items|
  {
    if items == [] {
      assert items + [Opt(code, val)] == [Opt(code, val)];
      assert [Opt(code, val)][1..] == [];
    } else {
      assert (items + [Opt(code, val)])[1..] == items[1..] + [Opt(code, val)];
      EncodeMore(items[1..], code, val);
    }
  }

  // ---- replies ---------------------------------------------------------------------------------------

  datatype Reply = Reply(xid: Xid, yiaddr: IPv4, opts: Options)

  /** The message type, or 0 when option 53 is absent or not one byte long. */
  function MsgType(r: Reply): byte {
    if OPT_MSG_TYPE in r.opts && |r.opts[OPT_MSG_TYPE]| == 1 then r.opts[OPT_MSG_TYPE][0] else 0
  }

  function Opt4(r: Reply, code: byte): Option<IPv4> {
    if code in r.opts && |r.opts[code]| == 4 then Some(r.opts[code]) else None
  }

  function Parsed(b: seq<byte>): Option<Reply> {
    if |b| < 240 || b[236..240] != MAGIC then None
    else Some(Reply(b[4..8], b[16..20], ParseOptions(b[240..], map[])))
  }

  method ParseReply(b: seq<byte>) returns (r: Option<Reply>)
    ensures r == Parsed(b)
  {
    if |b| < 240 { return None; }
    if b[236..240] != MAGIC { return None; }
    var opts: Options := map[];
    var i := 240;
    while i < |b|
      invariant 240 <= i <= |b| && ParseOptions(b[i..], opts) == ParseOptions(b[240..], map[])
      decreases |b| - i
    {
      var code := b[i];
      if code == OPT_END { break; }
      if code == 0 {
        assert b[i..][1..] == b[i + 1..];
        i := i + 1;
        continue;
      }
      if i + 1 >= |b| { break; }
      var l := b[i + 1] as int;
      if i + 2 + l > |b| { break; }
      assert b[i..][2 + l..] == b[i + 2 + l..] && b[i..][2..2 + l] == b[i + 2..i + 2 + l];
      opts := opts[code := b[i + 2..i + 2 + l]];
      i := i + 2 + l;
    }
    r := Some(Reply(b[4..8], b[16..20], opts));
  }

  /** A received packet with any option list before its end marker, and anything after it. */
  lemma ParsesAnyReply(head: seq<byte>, items: seq<Item>, rest: seq<byte>)
    requires |head| == 240 && head[236..240] == MAGIC && (forall it <- items :: WellFormed(it)) && Ends(rest)
    ensures Parsed(head + Encode(items) + rest) == Some(Reply(head[4..8], head[16..20], LastWins(items)))
  {
    Regroup(head, Encode(items), rest);
    HeadKept(head, Encode(items) + rest);
    ParsesEncoded(items, rest, map[]);
    NothingFirst(LastWins(items));
  }

  lemma NothingFirst<K, V>(m: map<K, V>)
    ensures map[] + m == m
  {}

  lemma HeadKept(head: seq<byte>, tail: seq<byte>)
    requires |head| == 240
    ensures
      var b := head + tail;
      b[240..] == tail && b[236..240] == head[236..240] && b[4..8] == head[4..8] && b[16..20] == head[16..20]
  {}

  /** What parses out of a message the client built: every option exactly when the call asks for it. */
  lemma ParsesBuilt(mtype: byte, xid: Xid, mac: Mac, reqIP: Option<IPv4>, serverID: Option<IPv4>)
    ensures
      var p := Parsed(Message(mtype, xid, mac, reqIP, serverID));
      && p.Some? && p.value.xid == xid && p.value.yiaddr == ZERO_IP && MsgType(p.value) == mtype
      && p.value.opts.Keys <= {OPT_MSG_TYPE, OPT_CLIENT_ID, OPT_REQUESTED_IP, OPT_SERVER_ID, OPT_PARAM_LIST}
      && (OPT_CLIENT_ID in p.value.opts && p.value.opts[OPT_CLIENT_ID] == [1] + mac)
      && Opt4(p.value, OPT_REQUESTED_IP) == (if mtype == MSG_REQUEST then reqIP else None)
      && (OPT_REQUESTED_IP in p.value.opts <==> reqIP.Some? && mtype == MSG_REQUEST)
      && Opt4(p.value, OPT_SERVER_ID) == serverID
      && (OPT_SERVER_ID in p.value.opts <==> serverID.Some?)
      && (OPT_PARAM_LIST in p.value.opts <==> mtype == MSG_DISCOVER || mtype == MSG_REQUEST)
  {
    var h, items := MessageHeader(mtype, xid, mac, reqIP), MessageItems(mtype, mac, reqIP, serverID);
    HeaderParts(mtype, xid, mac, reqIP);
    ParsesAnyReply(h, items, [OPT_END]);
    MapAnswers(Reply(xid, ZERO_IP, LastWins(items)), mtype, mac, reqIP, serverID);
  }

  lemma MapAnswers(r: Reply, mtype: byte, mac: Mac, reqIP: Option<IPv4>, serverID: Option<IPv4>)
    requires r.opts == LastWins(MessageItems(mtype, mac, reqIP, serverID))
    ensures
      && MsgType(r) == mtype
      && r.opts.Keys <= {OPT_MSG_TYPE, OPT_CLIENT_ID, OPT_REQUESTED_IP, OPT_SERVER_ID, OPT_PARAM_LIST}
      && (OPT_CLIENT_ID in r.opts && r.opts[OPT_CLIENT_ID] == [1] + mac)
      && Opt4(r, OPT_REQUESTED_IP) == (if mtype == MSG_REQUEST then reqIP else None)
      && (OPT_REQUESTED_IP in r.opts <==> reqIP.Some? && mtype == MSG_REQUEST)
      && Opt4(r, OPT_SERVER_ID) == serverID
      && (OPT_SERVER_ID in r.opts <==> serverID.Some?)
      && (OPT_PARAM_LIST in r.opts <==> mtype == MSG_DISCOVER || mtype == MSG_REQUEST)
  {
    ItemsMap(mtype, mac, reqIP, serverID);
    var first: Options := map[OPT_MSG_TYPE := [mtype], OPT_CLIENT_ID := [1] + mac];
    LaidOver(r.opts, first, if mtype == MSG_REQUEST then reqIP else None, serverID,
             if mtype == MSG_DISCOVER || mtype == MSG_REQUEST then Some(PARAMS) else None);
  }

  function With(m: Options, code: byte, v: Option<seq<byte>>): Options { if v.Some? then m[code := v.value] else m }

  lemma LaidOver(m: Options, first: Options, a: Option<seq<byte>>, b: Option<seq<byte>>, c: Option<seq<byte>>)
    requires first.Keys == {OPT_MSG_TYPE, OPT_CLIENT_ID}
    requires m == With(With(With(first, OPT_REQUESTED_IP, a), OPT_SERVER_ID, b), OPT_PARAM_LIST, c)
    ensures m.Keys <= {OPT_MSG_TYPE, OPT_CLIENT_ID, OPT_REQUESTED_IP, OPT_SERVER_ID, OPT_PARAM_LIST}
    ensures OPT_MSG_TYPE in m && m[OPT_MSG_TYPE] == first[OPT_MSG_TYPE] && OPT_CLIENT_ID in m
      && m[OPT_CLIENT_ID] == first[OPT_CLIENT_ID]
    ensures (OPT_REQUESTED_IP in m <==> a.Some?) && (a.Some? ==> m[OPT_REQUESTED_IP] == a.value)
    ensures (OPT_SERVER_ID in m <==> b.Some?) && (b.Some? ==> m[OPT_SERVER_ID] == b.value)
    ensures OPT_PARAM_LIST in m <==> c.Some?
  {}

  lemma HeaderParts(mtype: byte, xid: Xid, mac: Mac, reqIP: Option<IPv4>)
    ensures
      var h := MessageHeader(mtype, xid, mac, reqIP);
      h[4..8] == xid && h[16..20] == ZERO_IP && h[236..240] == MAGIC
  {}

  lemma ItemsMap(mtype: byte, mac: Mac, reqIP: Option<IPv4>, serverID: Option<IPv4>)
    ensures
      var first: Options := map[OPT_MSG_TYPE := [mtype], OPT_CLIENT_ID := [1] + mac];
      LastWins(MessageItems(mtype, mac, reqIP, serverID))
      == With(With(With(first, OPT_REQUESTED_IP, if mtype == MSG_REQUEST then reqIP else None),
                   OPT_SERVER_ID, serverID),
              OPT_PARAM_LIST, if mtype == MSG_DISCOVER || mtype == MSG_REQUEST then Some(PARAMS) else None)
  {
    var one, two := Opt(OPT_MSG_TYPE, [mtype]), Opt(OPT_CLIENT_ID, [1] + mac);
    var items := [one, two];
    assert [one, two] == [one] + [two] && [one] == [] + [one];
    LastWinsMore([], one);
    LastWinsMore([one], two);
    if reqIP.Some? && mtype == MSG_REQUEST {
      LastWinsMore(items, Opt(OPT_REQUESTED_IP, reqIP.value));
      items := items + [Opt(OPT_REQUESTED_IP, reqIP.value)];
    }
    if serverID.Some? {
      LastWinsMore(items, Opt(OPT_SERVER_ID, serverID.value));
      items := items + [Opt(OPT_SERVER_ID, serverID.value)];
    }
    if mtype == MSG_DISCOVER || mtype == MSG_REQUEST {
      LastWinsMore(items, Opt(OPT_PARAM_LIST, PARAMS));
      items := items + [Opt(OPT_PARAM_LIST, PARAMS)];
    }
    assert items == MessageItems(mtype, mac, reqIP, serverID);
  }

  lemma LastWinsMore(items: seq<Item>, it: Item)
    requires it.Opt?
    ensures LastWins(items + [it]) == LastWins(items)[it.code := it.val]
  {
    assert (items + [it])[..|items|] == items;
  }

  // ---- leases ----------------------------------------------------------------------------------------

  datatype Lease = Lease(ip: IPv4, prefixLen: nat, gateway: Option<IPv4>, dns: seq<IPv4>, domains: seq<seq<byte>>,
                         serverID: Option<IPv4>, seconds: seq<byte>)

  /** The eight bits of a mask byte whose first n bits are set. */
  function MaskByte(n: int): byte {
    if n <= 0 then 0
    else if n == 1 then 0x80 else if n == 2 then 0xc0 else if n == 3 then 0xe0 else if n == 4 then 0xf0
    else if n == 5 then 0xf8 else if n == 6 then 0xfc else if n == 7 then 0xfe else 0xff
  }

  function CIDRMask(n: nat): IPv4 {
    [MaskByte(n), MaskByte(n - 8), MaskByte(n - 16), MaskByte(n - 24)]
  }

  function LeadingOnes(v: byte): Option<nat> {
    if v == 0 then Some(0) else if v == 0x80 then Some(1) else if v == 0xc0 then Some(2) else if v == 0xe0 then Some(3)
    else if v == 0xf0 then Some(4) else if v == 0xf8 then Some(5) else if v == 0xfc then Some(6)
    else if v == 0xfe then Some(7)
    else None
  }

  /** How many bits the mask m sets, when they are all at the front. */
  function MaskSize(m: seq<byte>): Option<nat> {
    if m == [] then Some(0)
    else if m[0] == 0xff then
      (var rest := MaskSize(m[1..]); if rest.Some? then Some(8 + rest.value) else None)
    else if forall k :: 1 <= k < |m| ==> m[k] == 0 then LeadingOnes(m[0])
    else None
  }

  /** The first k bytes of the mask of n bits. */
  function MaskOf(k: nat, n: int): (m: seq<byte>)
    ensures |m| == k
  {
    if k == 0 then [] else [MaskByte(n)] + MaskOf(k - 1, n - 8)
  }

  lemma {:induction false} NoMoreBits(m: seq<byte>, n: int)
    requires n <= 0
    ensures m == MaskOf(|m|, n) <==> forall k :: 0 <= k < |m| ==> m[k] == 0
    decreases |m|
  {
    if m != [] {
      NoMoreBits(m[1..], n - 8);
      assert m == [m[0]] + m[1..];
    }
  }

  lemma LeadingByte(v: byte, n: nat)
    requires n < 8
    ensures LeadingOnes(v) == Some(n) <==> v == MaskByte(n)
  {}

  lemma {:induction false} MaskSizeIs(m: seq<byte>, n: nat)
    requires n <= 8 * |m|
    ensures MaskSize(m) == Some(n) <==> m == MaskOf(|m|, n)
    decreases |m|
  {
    if m != [] {
      assert m == [m[0]] + m[1..];
      if n >= 8 {
        MaskSizeIs(m[1..], n - 8);
      } else {
        NoMoreBits(m[1..], n - 8);
        LeadingByte(m[0], n);
      }
    }
  }

  lemma MaskSizeExact(m: IPv4, n: nat)
    requires n <= 32
    ensures MaskSize(m) == Some(n) <==> m == CIDRMask(n)
  {
    MaskSizeIs(m, n);
    assert MaskOf(1, n - 24) == [MaskByte(n - 24)] && MaskOf(2, n - 16) == [MaskByte(n - 16)] + MaskOf(1, n - 24);
    assert MaskOf(4, n) == CIDRMask(n);
  }

  /** Whole addresses only; a shorter rest is dropped. */
  function Addresses(v: seq<byte>): (a: seq<IPv4>)
    ensures |a| == |v| / 4 && forall k :: 0 <= k < |a| ==> a[k] == v[4 * k..4 * k + 4]
  {
    seq(|v| / 4, k requires 0 <= k < |v| / 4 => v[4 * k..4 * k + 4])
  }

  /** An ACK with an address and, if it has a mask at all, one whose bits are contiguous. */
  predicate Leasable(r: Reply) {
    r.yiaddr != ZERO_IP
    && (OPT_SUBNET_MASK in r.opts && |r.opts[OPT_SUBNET_MASK]| == 4 ==> MaskSize(r.opts[OPT_SUBNET_MASK]).Some?)
  }

  function LeaseOf(r: Reply): Lease
    requires Leasable(r)
  {
    Lease(r.yiaddr,
          if OPT_SUBNET_MASK in r.opts && |r.opts[OPT_SUBNET_MASK]| == 4 then MaskSize(r.opts[OPT_SUBNET_MASK]).value
            else 0,
          Opt4(r, OPT_ROUTER),
          if OPT_DNS in r.opts then Addresses(r.opts[OPT_DNS]) else [],
          if OPT_DOMAIN in r.opts && |r.opts[OPT_DOMAIN]| > 0 then [r.opts[OPT_DOMAIN]] else [],
          Opt4(r, OPT_SERVER_ID),
          if OPT_LEASE_TIME in r.opts && |r.opts[OPT_LEASE_TIME]| == 4 then r.opts[OPT_LEASE_TIME] else ZERO_IP)
  }

  method ToLease(r: Reply) returns (lease: Option<Lease>)
    ensures lease == if Leasable(r) then Some(LeaseOf(r)) else None
  {
    if r.yiaddr == ZERO_IP { return None; }
    var l := Lease(r.yiaddr, 0, Opt4(r, OPT_ROUTER), [], [], Opt4(r, OPT_SERVER_ID), ZERO_IP);
    if OPT_SUBNET_MASK in r.opts && |r.opts[OPT_SUBNET_MASK]| == 4 {
      var size := MaskSize(r.opts[OPT_SUBNET_MASK]);
      if size.None? { return None; }
      l := l.(prefixLen := size.value);
    }
    if OPT_DNS in r.opts {
      var v := r.opts[OPT_DNS];
      var dns: seq<IPv4> := [];
      var i := 0;
      while i + 4 <= |v|
        invariant i == 4 * |dns| <= |v| && dns == Addresses(v)[..|dns|]
      {
        assert Addresses(v)[|dns|] == v[i..i + 4];
        dns := dns + [v[i..i + 4]];
        i := i + 4;
      }
      assert Addresses(v)[..|dns|] == Addresses(v);
      l := l.(dns := dns);
    }
    if OPT_DOMAIN in r.opts && |r.opts[OPT_DOMAIN]| > 0 { l := l.(domains := [r.opts[OPT_DOMAIN]]); }
    if OPT_LEASE_TIME in r.opts && |r.opts[OPT_LEASE_TIME]| == 4 { l := l.(seconds := r.opts[OPT_LEASE_TIME]); }
    lease := Some(l);
  }

  // ---- what a server grants is what the client records -----------------------------------------------

  function Flat(a: seq<IPv4>): (b: seq<byte>)
    ensures |b| == 4 * |a|
  {
    if a == [] then [] else Flat(a[..|a| - 1]) + a[|a| - 1]
  }

  lemma {:induction false} FlatAt(a: seq<IPv4>, k: nat)
    requires k < |a|
    ensures Flat(a)[4 * k..4 * k + 4] == a[k]
    decreases |a|
  {
    var n := |a| - 1;
    if k < n {
      FlatAt(a[..n], k);
      assert Flat(a)[4 * k..4 * k + 4] == Flat(a[..n])[4 * k..4 * k + 4];
    }
  }

  lemma AddressesOfFlat(a: seq<IPv4>)
    ensures Addresses(Flat(a)) == a
  {
    forall k | 0 <= k < |a| ensures Addresses(Flat(a))[k] == a[k] {
      FlatAt(a, k);
    }
  }

  /** A lease that fits the options a server has for it. */
  predicate Grantable(l: Lease) {
    && l.ip != ZERO_IP && l.prefixLen <= 32 && 4 * |l.dns| <= 255 && |l.seconds| == 4
    && |l.domains| <= 1 && forall d <- l.domains :: 0 < |d| <= 255
  }

  /** The option map of an ACK that grants l; absent parts are left out. */
  function GrantOptions(l: Lease): Options
    requires l.prefixLen <= 32
  {
    var o0: Options := map[OPT_MSG_TYPE := [MSG_ACK], OPT_SUBNET_MASK := CIDRMask(l.prefixLen),
      OPT_LEASE_TIME := l.seconds];
    var o1 := if l.gateway.Some? then o0[OPT_ROUTER := l.gateway.value] else o0;
    var o2 := if l.dns != [] then o1[OPT_DNS := Flat(l.dns)] else o1;
    var o3 := if l.domains != [] then o2[OPT_DOMAIN := l.domains[0]] else o2;
    if l.serverID.Some? then o3[OPT_SERVER_ID := l.serverID.value] else o3
  }

  predicate Has(opts: Options, c: byte, val: seq<byte>) { c in opts && opts[c] == val }

  /** The options that grant l hold each of its parts, and nothing in place of one it lacks. */
  lemma GrantHas(l: Lease)
    requires l.prefixLen <= 32
    ensures
      var o := GrantOptions(l);
      && Has(o, OPT_SUBNET_MASK, CIDRMask(l.prefixLen)) && Has(o, OPT_LEASE_TIME, l.seconds)
      && (if l.gateway.Some? then Has(o, OPT_ROUTER, l.gateway.value) else OPT_ROUTER !in o)
      && (if l.dns != [] then Has(o, OPT_DNS, Flat(l.dns)) else OPT_DNS !in o)
      && (if l.domains != [] then Has(o, OPT_DOMAIN, l.domains[0]) else OPT_DOMAIN !in o)
      && (if l.serverID.Some? then Has(o, OPT_SERVER_ID, l.serverID.value) else OPT_SERVER_ID !in o)
  {}

  /** Every grantable lease is read back exactly, whatever other options the ACK carries. */
  lemma GrantReadsBack(l: Lease, r: Reply)
    requires Grantable(l) && r.yiaddr == l.ip
    requires forall c <- {OPT_SUBNET_MASK, OPT_LEASE_TIME, OPT_ROUTER, OPT_DNS, OPT_DOMAIN, OPT_SERVER_ID} ::
      (c in r.opts <==> c in GrantOptions(l)) && (c in r.opts ==> r.opts[c] == GrantOptions(l)[c])
    ensures Leasable(r) && LeaseOf(r) == l
  {
    MaskSizeExact(CIDRMask(l.prefixLen), l.prefixLen);
    AddressesOfFlat(l.dns);
    GrantHas(l);
    if l.domains != [] { assert l.domains == [l.domains[0]]; }
  }

  // ---- what a reply may get wrong -------------------------------------------------------------------------

  /** A reply is of a type exactly if option 53 is that one byte. */
  lemma TypeExactly(r: Reply, t: byte)
    requires t != 0
    ensures MsgType(r) == t <==> 53 in r.opts && r.opts[53] == [t]
  {}

  /** Option c of length n can contribute to a lease. */
  predicate Counts(c: byte, n: nat) {
    if c == 1 || c == 3 || c == 51 || c == 54 then n == 4 else if c == 6 then n >= 4 else c == 15 && n > 0
  }

  /** Any other option, known but of a wrong length or unknown, is as if it were absent. */
  lemma OthersAreAbsent(r: Reply, c: byte)
    requires c in r.opts && !Counts(c, |r.opts[c]|)
    ensures
      var less := r.(opts := r.opts - {c});
      (Leasable(r) <==> Leasable(less)) && (Leasable(r) ==> LeaseOf(r) == LeaseOf(less))
  {
    if c == 6 { assert Addresses(r.opts[c]) == []; }
  }

  /** Of the resolver addresses only whole ones count. */
  lemma WholeAddresses(a: seq<IPv4>, rest: seq<byte>)
    requires |rest| < 4
    ensures Addresses(Flat(a) + rest) == a
  {
    AddressesOfFlat(a);
    var v := Flat(a) + rest;
    forall k | 0 <= k < |a| ensures Addresses(v)[k] == a[k] {
      assert v[4 * k..4 * k + 4] == Flat(a)[4 * k..4 * k + 4] == Addresses(Flat(a))[k];
    }
  }

  /** Bit k of a mask, counted from the front. */
  function MaskBit(m: IPv4, k: nat): nat
    requires k < 32
  {
    m[k / 8] / Weight(k % 8) % 2
  }

  function Weight(i: nat): (w: nat)
    ensures w > 0
    decreases 8 - i
  {
    if i >= 7 then 1 else 2 * Weight(i + 1)
  }

  /** The mask of n bits has exactly its first n bits set. */
  lemma CIDRMaskBits(n: nat, k: nat)
    requires n <= 32 && k < 32
    ensures MaskBit(CIDRMask(n), k) == if k < n then 1 else 0
  {
    var i := k % 8;
    assert Weight(0) == 128 && Weight(1) == 64 && Weight(2) == 32 && Weight(3) == 16 && Weight(4) == 8 by {
      assert Weight(7) == 1 && Weight(6) == 2 && Weight(5) == 4;
    }
    MaskByteBit(n - 8 * (k / 8), i);
  }

  lemma MaskByteBit(n: int, i: nat)
    requires i < 8
    ensures MaskByte(n) / Weight(i) % 2 == if i < n then 1 else 0
  {
    assert Weight(7) == 1 && Weight(6) == 2 && Weight(5) == 4 && Weight(4) == 8;
    assert Weight(3) == 16 && Weight(2) == 32 && Weight(1) == 64 && Weight(0) == 128;
  }

  lemma {:induction false} MaskSizeFits(m: seq<byte>)
    ensures MaskSize(m).Some? ==> MaskSize(m).value <= 8 * |m|
    decreases |m|
  {
    if m != [] && m[0] == 0xff { MaskSizeFits(m[1..]); }
  }

  /** A reply grants a lease exactly if it names an address, and a mask, if any, whose set bits are all in front. */
  lemma LeasableExactly(r: Reply)
    ensures
      Leasable(r)
      <==> r.yiaddr != [0, 0, 0, 0] && (1 in r.opts && |r.opts[1]| == 4 ==>
             exists n :: 0 <= n <= 32 && r.opts[1] == CIDRMask(n))
  {
    if 1 in r.opts && |r.opts[1]| == 4 {
      var m: IPv4 := r.opts[1];
      MaskSizeFits(m);
      if MaskSize(m).Some? { MaskSizeExact(m, MaskSize(m).value); }
      forall n | 0 <= n <= 32 && m == CIDRMask(n) ensures MaskSize(m).Some? { MaskSizeExact(m, n); }
    }
  }
}
