/** Routes of a WireGuard tunnel: the split default route and the way around it for the endpoints. */
module Vpn {
  import opened Common

  /** Addresses and destinations as bit strings: a destination covers the addresses it is a prefix of. */
  type Bits = seq<bool>

  datatype Family = IPv4 | IPv6

  function Width(f: Family): nat { if f.IPv4? then 32 else 128 }

  /** The kernel tells routes apart by destination and metric. */
  datatype Key = Key(family: Family, dst: Bits, metric: nat)

  datatype Hop = Hop(index: nat, gw: Option<Bits>)

  type Table = map<Key, Hop>

  const TUNNEL_METRIC := 50
  const ENDPOINT_METRIC := 5

  // ---- lookup -------------------------------------------------------------------------------------------

  predicate CoversAddr(k: Key, f: Family, addr: Bits) { k.family == f && k.dst <= addr }

  /** k is the route for addr: the longest prefix, then the lowest metric. */
  ghost predicate IsRoute(t: Table, f: Family, addr: Bits, k: Key) {
    && k in t && CoversAddr(k, f, addr)
    && forall o :: o in t && CoversAddr(o, f, addr) ==>
         |o.dst| < |k.dst| || (|o.dst| == |k.dst| && k.metric <= o.metric)
  }

  ghost predicate Resolves(t: Table, f: Family, addr: Bits, hop: Hop) {
    exists k :: IsRoute(t, f, addr, k) && t[k] == hop
  }

  /** An address has one route at most. */
  lemma RouteUnique(t: Table, f: Family, addr: Bits, k: Key, o: Key)
    requires IsRoute(t, f, addr, k) && IsRoute(t, f, addr, o)
    ensures k == o
  {
    assert |k.dst| == |o.dst| && k.dst == addr[..|k.dst|] && o.dst == addr[..|o.dst|];
  }

  // ---- what a tunnel asks for ------------------------------------------------------------------------------

  datatype Dest = Dest(family: Family, dst: Bits)

  /** endpoint is none when it does not parse or does not resolve. */
  datatype Peer = Peer(allowed: seq<Dest>, endpoint: Option<seq<Dest>>)

  /** A default route becomes two halves, so that it never replaces the real one. */
  function Halves(n: Dest): seq<Dest> {
    if n.dst != [] then [n] else [Dest(n.family, [false]), Dest(n.family, [true])]
  }

  lemma HalvesCover(n: Dest, addr: Bits)
    requires addr != []
    ensures forall h <- Halves(n) :: h.family == n.family && h.dst != []
    ensures n.dst <= addr <==> exists h <- Halves(n) :: h.dst <= addr
  {
    var hs := Halves(n);
    assert hs[0] in hs;
    if n.dst == [] {
      assert hs[1] in hs;
      assert if addr[0] then hs[1].dst <= addr else hs[0].dst <= addr;
    }
  }

  function HalfKeys(hs: seq<Dest>): seq<Key> {
    if hs == [] then [] else HalfKeys(hs[..|hs| - 1]) + [Key(hs[|hs| - 1].family, hs[|hs| - 1].dst, TUNNEL_METRIC)]
  }

  function AllowedKeys(ns: seq<Dest>): seq<Key> {
    if ns == [] then [] else AllowedKeys(ns[..|ns| - 1]) + HalfKeys(Halves(ns[|ns| - 1]))
  }

  function TunnelKeys(ps: seq<Peer>): seq<Key> {
    if ps == [] then [] else TunnelKeys(ps[..|ps| - 1]) + AllowedKeys(ps[|ps| - 1].allowed)
  }

  /** IPv6 endpoints get no route. */
  function HostKeys(ips: seq<Dest>): seq<Key> {
    if ips == [] then []
    else
      var ip := ips[|ips| - 1];
      HostKeys(ips[..|ips| - 1]) + (if ip.family.IPv4? then [Key(IPv4, ip.dst, ENDPOINT_METRIC)] else [])
  }

  function EndpointKeys(ps: seq<Peer>): seq<Key> {
    if ps == [] then []
    else
      var p := ps[|ps| - 1];
      EndpointKeys(ps[..|ps| - 1]) + (if p.endpoint.Some? then HostKeys(p.endpoint.value) else [])
  }

  predicate IsFull(ps: seq<Peer>) { exists p <- ps :: Dest(IPv4, []) in p.allowed }

  /** Install the routes the kernel accepts, replacing routes with the same key. */
  function Install(t: Table, accepts: Key -> bool, ks: seq<Key>, hop: Hop): Table {
    if ks == [] then t
    else
      var u, k := Install(t, accepts, ks[..|ks| - 1], hop), ks[|ks| - 1];
      if accepts(k) then u[k := hop] else u
  }

  /** The routes installed that way, as the connection notes them. */
  function Noted(accepts: Key -> bool, ks: seq<Key>, hop: Hop): seq<(Key, Hop)> {
    if ks == [] then []
    else Noted(accepts, ks[..|ks| - 1], hop) + (if accepts(ks[|ks| - 1]) then [(ks[|ks| - 1], hop)] else [])
  }

  lemma {:induction false} InstallIs(t: Table, accepts: Key -> bool, ks: seq<Key>, hop: Hop)
    ensures
      var u := Install(t, accepts, ks, hop);
      && (forall k :: k in u <==> k in t || (k in ks && accepts(k)))
      && (forall k <- u :: u[k] == if k in ks && accepts(k) then hop else t[k])
    decreases |ks|
  {
    if ks != [] {
      InstallIs(t, accepts, ks[..|ks| - 1], hop);
      assert forall k :: k in ks <==> k in ks[..|ks| - 1] || k == ks[|ks| - 1];
    }
  }

  lemma {:induction false} InstallJoin(t: Table, accepts: Key -> bool, a: seq<Key>, b: seq<Key>, hop: Hop)
    ensures Install(t, accepts, a + b, hop) == Install(Install(t, accepts, a, hop), accepts, b, hop)
    decreases |b|
  {
    if b == [] {
      assert a + b == a;
    } else {
      assert (a + b)[..|a + b| - 1] == a + b[..|b| - 1];
      InstallJoin(t, accepts, a, b[..|b| - 1], hop);
    }
  }

  lemma {:induction false} NotedJoin(accepts: Key -> bool, a: seq<Key>, b: seq<Key>, hop: Hop)
    ensures Noted(accepts, a + b, hop) == Noted(accepts, a, hop) + Noted(accepts, b, hop)
    decreases |b|
  {
    if b == [] {
      assert a + b == a;
    } else {
      assert (a + b)[..|a + b| - 1] == a + b[..|b| - 1];
      NotedJoin(accepts, a, b[..|b| - 1], hop);
    }
  }

  lemma NotedAfter(past: seq<(Key, Hop)>, accepts: Key -> bool, a: seq<Key>, b: seq<Key>, hop: Hop)
    ensures past + Noted(accepts, a + b, hop) == past + Noted(accepts, a, hop) + Noted(accepts, b, hop)
  {
    NotedJoin(accepts, a, b, hop);
  }

  lemma OneMore(t: Table, accepts: Key -> bool, ks: seq<Key>, k: Key, hop: Hop)
    ensures Install(t, accepts, ks + [k], hop)
      == if accepts(k) then Install(t, accepts, ks, hop)[k := hop] else Install(t, accepts, ks, hop)
    ensures Noted(accepts, ks + [k], hop) == Noted(accepts, ks, hop) + if accepts(k) then [(k, hop)] else []
  {
    assert (ks + [k])[..|ks|] == ks;
  }

  lemma HostKeysMore(ips: seq<Dest>, i: nat)
    requires i < |ips|
    ensures HostKeys(ips[..i + 1])
         == if ips[i].family.IPv4? then HostKeys(ips[..i]) + [Key(IPv4, ips[i].dst, ENDPOINT_METRIC)]
           else HostKeys(ips[..i])
  {
    assert ips[..i + 1][..i] == ips[..i];
    assert HostKeys(ips[..i]) + [] == HostKeys(ips[..i]);
  }

  lemma TunnelKeysMore(ps: seq<Peer>, i: nat)
    requires i < |ps|
    ensures TunnelKeys(ps[..i + 1]) == TunnelKeys(ps[..i]) + AllowedKeys(ps[i].allowed)
    ensures IsFull(ps[..i + 1]) == (IsFull(ps[..i]) || Dest(IPv4, []) in ps[i].allowed)
  {
    assert ps[..i + 1][..i] == ps[..i] && ps[..i + 1] == ps[..i] + [ps[i]];
  }

  lemma EndpointKeysMore(ps: seq<Peer>, i: nat)
    requires i < |ps|
    ensures EndpointKeys(ps[..i + 1])
         == if ps[i].endpoint.Some? then EndpointKeys(ps[..i]) + HostKeys(ps[i].endpoint.value)
           else EndpointKeys(ps[..i])
  {
    assert ps[..i + 1][..i] == ps[..i];
    assert EndpointKeys(ps[..i]) + [] == EndpointKeys(ps[..i]);
  }

  lemma TakeMore<T>(s: seq<T>, i: nat)
    requires i < |s|
    ensures s[..i + 1][..i] == s[..i] && s[..i + 1] == s[..i] + [s[i]]
  {}

  // ---- the code ------------------------------------------------------------------------------------------------

  /** The kernel's routes, and what the active connection remembers of those it installed. */
  class Routes {
    const accepts: Key -> bool
    var table: Table
    var vpnRoutes: seq<(Key, Hop)>

    constructor (accepts: Key -> bool, table: Table)
      ensures this.accepts == accepts && this.table == table && vpnRoutes == []
    {
      this.accepts, this.table, vpnRoutes := accepts, table, [];
    }

    method AddRoute(k: Key, hop: Hop) returns (ok: bool)
      modifies this`table
      ensures ok == accepts(k) && table == if ok then old(table)[k := hop] else old(table)
    {
      ok := accepts(k);
      if ok { table := table[k := hop]; }
    }

    /** Only the route with the same next hop goes. */
    method DelRoute(k: Key, hop: Hop)
      modifies this`table
      ensures table == Deleted(old(table), k, hop)
    {
      if k in table && table[k] == hop { table := table - {k}; }
    }

    method RouteAllowed(ns: seq<Dest>, tunnel: Hop) returns (full: bool)
      modifies this`table
      ensures table == Install(old(table), accepts, AllowedKeys(ns), tunnel)
      ensures full == (Dest(IPv4, []) in ns)
    {
      full := false;
      for i := 0 to |ns|
        invariant table == Install(old(table), accepts, AllowedKeys(ns[..i]), tunnel)
        invariant full == (Dest(IPv4, []) in ns[..i])
      {
        TakeMore(ns, i);
        if |ns[i].dst| == 0 && Width(ns[i].family) == 32 { full := true; }
        InstallJoin(old(table), accepts, AllowedKeys(ns[..i]), HalfKeys(Halves(ns[i])), tunnel);
        RouteHalves(Halves(ns[i]), tunnel);
      }
      assert ns[..|ns|] == ns;
    }

    method RouteHalves(hs: seq<Dest>, tunnel: Hop)
      modifies this`table
      ensures table == Install(old(table), accepts, HalfKeys(hs), tunnel)
    {
      for j := 0 to |hs|
        invariant table == Install(old(table), accepts, HalfKeys(hs[..j]), tunnel)
      {
        assert hs[..j + 1][..j] == hs[..j];
        var k := Key(hs[j].family, hs[j].dst, TUNNEL_METRIC);
        assert (HalfKeys(hs[..j]) + [k])[..|HalfKeys(hs[..j])|] == HalfKeys(hs[..j]);
        var _ := AddRoute(k, tunnel);
      }
      assert hs[..|hs|] == hs;
    }

    method RouteHosts(ips: seq<Dest>, via: Hop)
      modifies this
      ensures table == Install(old(table), accepts, HostKeys(ips), via)
      ensures vpnRoutes == old(vpnRoutes) + Noted(accepts, HostKeys(ips), via)
    {
      ghost var ks: seq<Key> := [];
      for i := 0 to |ips|
        invariant ks == HostKeys(ips[..i]) && table == Install(old(table), accepts, ks, via)
        invariant vpnRoutes == old(vpnRoutes) + Noted(accepts, ks, via)
      {
        HostKeysMore(ips, i);
        if !ips[i].family.IPv4? { continue; }
        var k := Key(IPv4, ips[i].dst, ENDPOINT_METRIC);
        OneMore(old(table), accepts, ks, k, via);
        var ok := AddRoute(k, via);
        if ok { vpnRoutes := vpnRoutes + [(k, via)]; }
        ks := ks + [k];
      }
      assert ips[..|ips|] == ips;
    }

    /** gateway is the default gateway outside the tunnel and its link, if both are found. */
    method BringUp(ps: seq<Peer>, tunnel: Hop, gateway: Option<Hop>)
      modifies this
      ensures table == Up(old(table), accepts, ps, tunnel, gateway)
      ensures vpnRoutes == old(vpnRoutes) + Remembered(accepts, ps, gateway)
    {
      var full := RouteTunnel(ps, tunnel);
      if full && gateway.Some? {
        RouteEndpoints(ps, gateway.value);
      }
    }

    /** The first loop of BringUp: all AllowedIPs into the tunnel. */
    method RouteTunnel(ps: seq<Peer>, tunnel: Hop) returns (full: bool)
      modifies this`table
      ensures table == Install(old(table), accepts, TunnelKeys(ps), tunnel) && full == IsFull(ps)
    {
      full := false;
      ghost var ks: seq<Key> := [];
      for i := 0 to |ps|
        invariant ks == TunnelKeys(ps[..i]) && table == Install(old(table), accepts, ks, tunnel)
          && full == IsFull(ps[..i])
      {
        TunnelKeysMore(ps, i);
        InstallJoin(old(table), accepts, ks, AllowedKeys(ps[i].allowed), tunnel);
        var one := RouteAllowed(ps[i].allowed, tunnel);
        if one { full := true; }
        ks := ks + AllowedKeys(ps[i].allowed);
      }
      assert ps[..|ps|] == ps;
    }

    method RouteEndpoints(ps: seq<Peer>, via: Hop)
      modifies this
      ensures table == Install(old(table), accepts, EndpointKeys(ps), via)
      ensures vpnRoutes == old(vpnRoutes) + Noted(accepts, EndpointKeys(ps), via)
    {
      ghost var ks: seq<Key> := [];
      for i := 0 to |ps|
        invariant ks == EndpointKeys(ps[..i]) && table == Install(old(table), accepts, ks, via)
        invariant vpnRoutes == old(vpnRoutes) + Noted(accepts, ks, via)
      {
        EndpointKeysMore(ps, i);
        if ps[i].endpoint.None? { continue; }
        ghost var more := HostKeys(ps[i].endpoint.value);
        InstallJoin(old(table), accepts, ks, more, via);
        NotedAfter(old(vpnRoutes), accepts, ks, more, via);
        RouteHosts(ps[i].endpoint.value, via);
        ks := ks + more;
      }
      assert ps[..|ps|] == ps;
    }

    method TearDown()
      modifies this
      ensures table == DeletedAll(old(table), old(vpnRoutes)) && vpnRoutes == []
    {
      for i := 0 to |vpnRoutes|
        invariant vpnRoutes == old(vpnRoutes) && table == DeletedAll(old(table), vpnRoutes[..i])
      {
        assert vpnRoutes[..i + 1][..i] == vpnRoutes[..i];
        DelRoute(vpnRoutes[i].0, vpnRoutes[i].1);
      }
      assert vpnRoutes[..|vpnRoutes|] == vpnRoutes;
      vpnRoutes := [];
    }
  }

  function Deleted(t: Table, k: Key, hop: Hop): Table { if k in t && t[k] == hop then t - {k} else t }

  function DeletedAll(t: Table, rs: seq<(Key, Hop)>): Table {
    if rs == [] then t else Deleted(DeletedAll(t, rs[..|rs| - 1]), rs[|rs| - 1].0, rs[|rs| - 1].1)
  }

  /** When a link goes the kernel drops its routes. */
  function WithoutLink(t: Table, index: nat): Table { map k | k in t && t[k].index != index :: t[k] }

  function Up(t: Table, accepts: Key -> bool, ps: seq<Peer>, tunnel: Hop, gateway: Option<Hop>): Table {
    var u := Install(t, accepts, TunnelKeys(ps), tunnel);
    if IsFull(ps) && gateway.Some? then Install(u, accepts, EndpointKeys(ps), gateway.value) else u
  }

  function Remembered(accepts: Key -> bool, ps: seq<Peer>, gateway: Option<Hop>): seq<(Key, Hop)> {
    if IsFull(ps) && gateway.Some? then Noted(accepts, EndpointKeys(ps), gateway.value) else []
  }

  // ---- full tunnel ----------------------------------------------------------------------------------------

  predicate IsEndpoint(ps: seq<Peer>, addr: Bits) {
    exists p <- ps :: p.endpoint.Some? && Dest(IPv4, addr) in p.endpoint.value
  }

  lemma {:induction false} HalfKeysAre(hs: seq<Dest>)
    ensures forall k :: k in HalfKeys(hs) <==> k.metric == TUNNEL_METRIC && Dest(k.family, k.dst) in hs
    decreases |hs|
  {
    if hs != [] {
      HalfKeysAre(hs[..|hs| - 1]);
      assert forall h :: h in hs <==> h in hs[..|hs| - 1] || h == hs[|hs| - 1];
    }
  }

  lemma {:induction false} AllowedKeysAre(ns: seq<Dest>)
    ensures forall k <- AllowedKeys(ns) :: k.metric == TUNNEL_METRIC && k.dst != []
    ensures forall n <- ns, h <- Halves(n) :: Key(h.family, h.dst, TUNNEL_METRIC) in AllowedKeys(ns)
    decreases |ns|
  {
    if ns != [] {
      AllowedKeysAre(ns[..|ns| - 1]);
      HalvesCover(ns[|ns| - 1], [true]);
      HalfKeysAre(Halves(ns[|ns| - 1]));
      assert forall n :: n in ns <==> n in ns[..|ns| - 1] || n == ns[|ns| - 1];
    }
  }

  lemma {:induction false} TunnelKeysAre(ps: seq<Peer>)
    ensures forall k <- TunnelKeys(ps) :: k.metric == TUNNEL_METRIC && k.dst != []
    ensures forall p <- ps, n <- p.allowed, h <- Halves(n) :: Key(h.family, h.dst, TUNNEL_METRIC) in TunnelKeys(ps)
    decreases |ps|
  {
    if ps != [] {
      TunnelKeysAre(ps[..|ps| - 1]);
      AllowedKeysAre(ps[|ps| - 1].allowed);
      assert forall p :: p in ps <==> p in ps[..|ps| - 1] || p == ps[|ps| - 1];
    }
  }

  /** h is a half of an AllowedIPs entry of a peer. */
  ghost predicate Allows(ps: seq<Peer>, h: Dest) { exists p <- ps, n <- p.allowed :: h in Halves(n) }

  lemma {:induction false} AllowedKeysExactly(ns: seq<Dest>, k: Key)
    ensures k in AllowedKeys(ns) <==> k.metric == 50 && exists n <- ns :: Dest(k.family, k.dst) in Halves(n)
    decreases |ns|
  {
    if ns != [] {
      AllowedKeysExactly(ns[..|ns| - 1], k);
      HalfKeysAre(Halves(ns[|ns| - 1]));
      assert forall n :: n in ns <==> n in ns[..|ns| - 1] || n == ns[|ns| - 1];
    }
  }

  /** The tunnel asks for exactly those routes, with metric 50. */
  lemma {:induction false} TunnelKeysExactly(ps: seq<Peer>, k: Key)
    ensures k in TunnelKeys(ps) <==> k.metric == 50 && Allows(ps, Dest(k.family, k.dst))
    decreases |ps|
  {
    if ps != [] {
      var front, p := ps[..|ps| - 1], ps[|ps| - 1];
      TunnelKeysExactly(front, k);
      AllowedKeysExactly(p.allowed, k);
      assert forall q :: q in ps <==> q in front || q == p;
    }
  }

  lemma {:induction false} HostKeysAre(ips: seq<Dest>)
    ensures forall k ::
              k in HostKeys(ips) <==> k.family == IPv4 && k.metric == ENDPOINT_METRIC && Dest(IPv4, k.dst) in ips
    decreases |ips|
  {
    if ips != [] {
      HostKeysAre(ips[..|ips| - 1]);
      assert forall d :: d in ips <==> d in ips[..|ips| - 1] || d == ips[|ips| - 1];
    }
  }

  lemma {:induction false} EndpointKeysAre(ps: seq<Peer>)
    ensures forall k ::
              k in EndpointKeys(ps) <==> k.family == IPv4 && k.metric == 5 && IsEndpoint(ps, k.dst)
    decreases |ps|
  {
    if ps != [] {
      var front, p := ps[..|ps| - 1], ps[|ps| - 1];
      EndpointKeysAre(front);
      if p.endpoint.Some? { HostKeysAre(p.endpoint.value); }
      assert forall q :: q in ps <==> q in front || q == p;
    }
  }

  /** Addresses of the right width that the peers' endpoints resolve to. */
  predicate WellFormed(ps: seq<Peer>) {
    forall p <- ps :: p.endpoint.Some? ==> forall d <- p.endpoint.value :: |d.dst| == Width(d.family)
  }

  /**
    With a full tunnel up, every IPv4 address that no narrower route covered goes into the tunnel,
    except the endpoints of its peers, which go to the gateway that was the default before.
   */
  lemma FullTunnel(t: Table, accepts: Key -> bool, ps: seq<Peer>, tunnel: Hop, gateway: Hop, addr: Bits)
    requires IsFull(ps) && WellFormed(ps) && |addr| == Width(IPv4)
    requires forall k :: k in TunnelKeys(ps) || k in EndpointKeys(ps) ==> accepts(k)
    requires forall k <- t :: CoversAddr(k, IPv4, addr) ==> k.dst == []
    ensures Resolves(Up(t, accepts, ps, tunnel, Some(gateway)), IPv4, addr,
                     if IsEndpoint(ps, addr) then gateway else tunnel)
  {
    var u := Install(t, accepts, TunnelKeys(ps), tunnel);
    var v := Up(t, accepts, ps, tunnel, Some(gateway));
    InstallIs(t, accepts, TunnelKeys(ps), tunnel);
    InstallIs(u, accepts, EndpointKeys(ps), gateway);
    TunnelKeysAre(ps);
    EndpointKeysAre(ps);
    if IsEndpoint(ps, addr) {
      var k := Key(IPv4, addr, ENDPOINT_METRIC);
      assert k in EndpointKeys(ps);
      assert IsRoute(v, IPv4, addr, k) && v[k] == gateway;
    } else {
      var half := HalfCovers(ps, addr);
      var k := LongestTunnelKey(ps, addr, half);
      NoOther(ps, addr);
      assert k !in EndpointKeys(ps);
      assert IsRoute(v, IPv4, addr, k) && v[k] == tunnel;
    }
  }

  /**
    Partial tunnels too: an address is routed into the tunnel exactly when no route that was there
    before is narrower than the longest AllowedIPs entry covering it, or as narrow and preferred.
   */
  lemma TunnelWinsExactly(t: Table, accepts: Key -> bool, ps: seq<Peer>, tunnel: Hop, gateway: Hop, addr: Bits,
      best: Key)
    requires WellFormed(ps) && |addr| == Width(IPv4) && !IsEndpoint(ps, addr) && gateway != tunnel
    requires forall k :: k in TunnelKeys(ps) || k in EndpointKeys(ps) ==> accepts(k)
    requires best in TunnelKeys(ps) && CoversAddr(best, IPv4, addr)
    requires forall o <- TunnelKeys(ps) :: CoversAddr(o, IPv4, addr) ==> |o.dst| <= |best.dst|
    requires forall k <- t :: t[k] != tunnel
    ensures
      Resolves(Up(t, accepts, ps, tunnel, Some(gateway)), IPv4, addr, tunnel)
      <==> forall k <- t :: CoversAddr(k, IPv4, addr) && k !in TunnelKeys(ps) ==>
             |k.dst| < |best.dst| || (|k.dst| == |best.dst| && best.metric <= k.metric)
  {
    var u := Install(t, accepts, TunnelKeys(ps), tunnel);
    var v := Up(t, accepts, ps, tunnel, Some(gateway));
    InstallIs(t, accepts, TunnelKeys(ps), tunnel);
    InstallIs(u, accepts, EndpointKeys(ps), gateway);
    TunnelKeysAre(ps);
    EndpointKeysAre(ps);
    NoOther(ps, addr);
    assert best in v && v[best] == tunnel;
    if forall k <- t :: CoversAddr(k, IPv4, addr) && k !in TunnelKeys(ps) ==>
         |k.dst| < |best.dst| || (|k.dst| == |best.dst| && best.metric <= k.metric)
    {
      assert IsRoute(v, IPv4, addr, best);
    }
    forall r | IsRoute(v, IPv4, addr, r) && v[r] == tunnel
      ensures r in TunnelKeys(ps) && |r.dst| == |best.dst|
    {
      assert CoversAddr(best, IPv4, addr);
    }
  }

  lemma HalfCovers(ps: seq<Peer>, addr: Bits) returns (k: Key)
    requires IsFull(ps) && addr != []
    ensures k in TunnelKeys(ps) && CoversAddr(k, IPv4, addr)
  {
    var p :| p in ps && Dest(IPv4, []) in p.allowed;
    var n := Dest(IPv4, []);
    TunnelKeysAre(ps);
    HalvesCover(n, addr);
    var h :| h in Halves(n) && h.dst <= addr;
    k := Key(h.family, h.dst, TUNNEL_METRIC);
  }

  lemma LongestTunnelKey(ps: seq<Peer>, addr: Bits, some: Key) returns (k: Key)
    requires some in TunnelKeys(ps) && CoversAddr(some, IPv4, addr)
    ensures k in TunnelKeys(ps) && CoversAddr(k, IPv4, addr)
    ensures forall o <- TunnelKeys(ps) :: CoversAddr(o, IPv4, addr) ==> |o.dst| <= |k.dst|
    decreases |addr| - |some.dst|
  {
    if o :| o in TunnelKeys(ps) && CoversAddr(o, IPv4, addr) && |o.dst| > |some.dst| {
      k := LongestTunnelKey(ps, addr, o);
    } else {
      k := some;
    }
  }

  /** An endpoint's host route covers no other address. */
  lemma NoOther(ps: seq<Peer>, addr: Bits)
    requires WellFormed(ps) && |addr| == Width(IPv4) && !IsEndpoint(ps, addr)
    ensures forall k <- EndpointKeys(ps) :: !CoversAddr(k, IPv4, addr)
  {
    EndpointKeysAre(ps);
    forall k | k in EndpointKeys(ps) ensures !CoversAddr(k, IPv4, addr) {
      var p :| p in ps && p.endpoint.Some? && Dest(IPv4, k.dst) in p.endpoint.value;
      assert |k.dst| == |addr| && (k.dst <= addr ==> k.dst == addr);
    }
  }

  // ---- restoration ----------------------------------------------------------------------------------------

  lemma {:induction false} DeletedAllIs(t: Table, accepts: Key -> bool, ks: seq<Key>, hop: Hop)
    ensures
      var u := DeletedAll(t, Noted(accepts, ks, hop));
      && (forall k :: k in u <==> k in t && !(k in ks && accepts(k) && t[k] == hop))
      && (forall k <- u :: u[k] == t[k])
    decreases |ks|
  {
    if ks != [] {
      var n := |ks| - 1;
      var front := Noted(accepts, ks[..n], hop);
      DeletedAllIs(t, accepts, ks[..n], hop);
      assert (front + [(ks[n], hop)])[..|front|] == front && front + [] == front;
      assert forall k :: k in ks <==> k in ks[..n] || k == ks[n];
    }
  }

  /** What is left of the routes after the tunnel was up, torn down, and its link removed. */
  function After(t: Table, accepts: Key -> bool, ps: seq<Peer>, tunnel: Hop, gateway: Option<Hop>): Table {
    WithoutLink(DeletedAll(Up(t, accepts, ps, tunnel, gateway), Remembered(accepts, ps, gateway)), tunnel.index)
  }

  /** The keys of the routes that bringing the tunnel up installs. */
  predicate Installs(accepts: Key -> bool, ps: seq<Peer>, gateway: Option<Hop>, k: Key) {
    accepts(k) && (k in TunnelKeys(ps) || (IsFull(ps) && gateway.Some? && k in EndpointKeys(ps)))
  }

  lemma DownIs(t: Table, accepts: Key -> bool, ps: seq<Peer>, tunnel: Hop, gateway: Option<Hop>)
    requires forall k <- t :: t[k].index != tunnel.index
    requires gateway.Some? ==> gateway.value.index != tunnel.index
    ensures
      var d := After(t, accepts, ps, tunnel, gateway);
      && (forall k :: k in d <==> k in t && !Installs(accepts, ps, gateway, k))
      && (forall k <- d :: d[k] == t[k])
  {
    InstallIs(t, accepts, TunnelKeys(ps), tunnel);
    TunnelKeysAre(ps);
    EndpointKeysAre(ps);
    if IsFull(ps) && gateway.Some? {
      InstallIs(Install(t, accepts, TunnelKeys(ps), tunnel), accepts, EndpointKeys(ps), gateway.value);
      DeletedAllIs(Up(t, accepts, ps, tunnel, gateway), accepts, EndpointKeys(ps), gateway.value);
    }
  }

  /** Teardown and link removal restore the routes exactly when none of them had a key the tunnel uses. */
  lemma TearDownRestores(t: Table, accepts: Key -> bool, ps: seq<Peer>, tunnel: Hop, gateway: Option<Hop>)
    requires forall k <- t :: t[k].index != tunnel.index
    requires gateway.Some? ==> gateway.value.index != tunnel.index
    ensures After(t, accepts, ps, tunnel, gateway) == t <==> forall k <- t :: !Installs(accepts, ps, gateway, k)
  {
    DownIs(t, accepts, ps, tunnel, gateway);
  }

  // ---- the gateway outside the tunnel ---------------------------------------------------------------------

  /** A line of the kernel's IPv4 route list; gw is none when its field is not four hexadecimal bytes. */
  datatype Row = Row(iface: string, isDefault: bool, gw: Option<Bits>, metric: int)

  predicate Usable(r: Row, skip: string) { r.iface != skip && r.isDefault && r.gw.Some? }

  /** Row i is the first usable one with the lowest metric. */
  ghost predicate IsGateway(rows: seq<Row>, skip: string, i: int) {
    && 0 <= i < |rows| && Usable(rows[i], skip)
    && (forall j :: 0 <= j < |rows| && Usable(rows[j], skip) ==> rows[i].metric <= rows[j].metric)
    && (forall j :: 0 <= j < i && Usable(rows[j], skip) ==> rows[i].metric < rows[j].metric)
  }

  method DefaultGateway4(rows: seq<Row>, skip: string) returns (found: Option<Row>)
    requires forall r <- rows :: r.metric >= 0
    ensures found.None? <==> forall r <- rows :: !Usable(r, skip)
    ensures found.Some? ==> exists i :: IsGateway(rows, skip, i) && rows[i] == found.value
    ensures found.Some? ==> found.value.isDefault && found.value.iface != skip && found.value.gw.Some?
  {
    var best := -1;
    found := None;
    ghost var at := 0;
    for i := 0 to |rows|
      invariant found.None? ==> best == -1 && forall j :: 0 <= j < i ==> !Usable(rows[j], skip)
      invariant found.Some? ==>
        && 0 <= at < i && rows[at] == found.value && best == rows[at].metric && Usable(rows[at], skip)
        && (forall j :: 0 <= j < i && Usable(rows[j], skip) ==> rows[at].metric <= rows[j].metric)
        && (forall j :: 0 <= j < at && Usable(rows[j], skip) ==> rows[at].metric < rows[j].metric)
    {
      var r := rows[i];
      if r.iface == skip || !r.isDefault { continue; }
      if r.gw.None? { continue; }
      if best >= 0 && r.metric >= best { continue; }
      best := r.metric;
      found := Some(r);
      at := i;
    }
  }

  function HopOf(links: map<string, nat>, r: Row): Hop
    requires r.iface in links
  {
    Hop(links[r.iface], r.gw)
  }

  /** rows is the kernel's list of t: it has a row for each default route, with its link and gateway. */
  ghost predicate Lists(rows: seq<Row>, links: map<string, nat>, t: Table) {
    && (forall r <- rows :: r.iface in links && r.metric >= 0)
    && (forall r <- rows :: r.isDefault ==>
          r.gw.Some? && Key(IPv4, [], r.metric) in t && t[Key(IPv4, [], r.metric)] == HopOf(links, r))
    && (forall m: nat :: Key(IPv4, [], m) in t ==> exists r <- rows :: r.isDefault && r.metric == m)
  }

  /** The tunnel adds no default route, so the list that is read after routing it shows those from before. */
  lemma DefaultsStay(t: Table, accepts: Key -> bool, ps: seq<Peer>, tunnel: Hop, m: nat)
    ensures
      var u, k := Install(t, accepts, TunnelKeys(ps), tunnel), Key(IPv4, [], m);
      (k in u <==> k in t) && (k in t ==> u[k] == t[k])
  {
    InstallIs(t, accepts, TunnelKeys(ps), tunnel);
    TunnelKeysAre(ps);
  }

  /** What DefaultGateway4 finds is the way that an address took which only a default route covered. */
  lemma GatewayWasTheWay(
      t: Table, accepts: Key -> bool, ps: seq<Peer>, tunnel: Hop, rows: seq<Row>, links: map<string, nat>, skip: string,
      i: int, addr: Bits)
    requires Lists(rows, links, Install(t, accepts, TunnelKeys(ps), tunnel))
    requires (forall r <- rows :: r.isDefault ==> r.iface != skip) && IsGateway(rows, skip, i)
    requires forall k <- t :: CoversAddr(k, IPv4, addr) ==> k.dst == []
    ensures Resolves(t, IPv4, addr, HopOf(links, rows[i]))
  {
    var r := rows[i];
    var k := Key(IPv4, [], r.metric);
    assert r in rows;
    DefaultsStay(t, accepts, ps, tunnel, r.metric);
    forall o | o in t && CoversAddr(o, IPv4, addr) ensures o.dst == [] && k.metric <= o.metric {
      DefaultsStay(t, accepts, ps, tunnel, o.metric);
      assert o == Key(IPv4, [], o.metric);
      var j :| 0 <= j < |rows| && rows[j].isDefault && rows[j].metric == o.metric;
      assert Usable(rows[j], skip);
    }
    assert IsRoute(t, IPv4, addr, k);
  }

  /** So a full tunnel leaves the way to its own endpoints as it was. */
  lemma EndpointsStay(
      t: Table, accepts: Key -> bool, ps: seq<Peer>, tunnel: Hop, rows: seq<Row>, links: map<string, nat>, skip: string,
      i: int, addr: Bits, hop: Hop)
    requires IsFull(ps) && WellFormed(ps) && |addr| == Width(IPv4) && IsEndpoint(ps, addr)
    requires forall k :: k in TunnelKeys(ps) || k in EndpointKeys(ps) ==> accepts(k)
    requires forall k <- t :: CoversAddr(k, IPv4, addr) ==> k.dst == []
    requires Lists(rows, links, Install(t, accepts, TunnelKeys(ps), tunnel))
    requires (forall r <- rows :: r.isDefault ==> r.iface != skip) && IsGateway(rows, skip, i)
    ensures
      Resolves(Up(t, accepts, ps, tunnel, Some(HopOf(links, rows[i]))), IPv4, addr, hop)
      <==> Resolves(t, IPv4, addr, hop)
  {
    var gateway := HopOf(links, rows[i]);
    FullTunnel(t, accepts, ps, tunnel, gateway, addr);
    GatewayWasTheWay(t, accepts, ps, tunnel, rows, links, skip, i, addr);
    OneWay(t, IPv4, addr, gateway, hop);
    OneWay(Up(t, accepts, ps, tunnel, Some(gateway)), IPv4, addr, gateway, hop);
  }

  lemma OneWay(t: Table, f: Family, addr: Bits, hop: Hop, other: Hop)
    requires Resolves(t, f, addr, hop)
    ensures Resolves(t, f, addr, other) <==> other == hop
  {
    var k :| IsRoute(t, f, addr, k) && t[k] == hop;
    forall o | IsRoute(t, f, addr, o) ensures o == k {
      RouteUnique(t, f, addr, k, o);
    }
  }
}
