/**
  The manager in service: from its construction on, whatever calls and events arrive in whatever
  order, the objects are as the state machine says, and so in bijection.
 */
module ActivationDriver {
  import opened Common
  import opened Activation
  import S = ActivationSpec
  import I = ActivationInvariant

  // ---- the states that a list of events leads through ------------------------------------------------------

  /** Where an event leads, if it can occur. */
  ghost function Next(s: S.State, e: S.Event): S.State
    requires S.Linked(s)
  {
    if S.Enabled(s, e) then S.Step(s, e) else s
  }

  lemma NextInv(s: S.State, e: S.Event)
    requires S.Inv(s)
    ensures S.Inv(Next(s, e))
  {
    if S.Enabled(s, e) { I.StepInv(s, e); }
  }

  /** Where the events lead; those that cannot occur when their turn comes are dropped. */
  ghost function After(es: seq<S.Event>): (s: S.State)
    ensures S.Inv(s)
  {
    if es == [] then
      I.InitInv();
      S.INIT
    else
      var s, e := After(es[..|es| - 1]), es[|es| - 1];
      NextInv(s, e);
      Next(s, e)
  }

  lemma AfterMore(es: seq<S.Event>, i: nat)
    requires i < |es|
    ensures After(es[..i + 1]) == Next(After(es[..i]), es[i])
  {
    assert es[..i + 1][..i] == es[..i];
  }

  /** They are states of a run of the state machine. */
  lemma {:induction false} AfterIsReached(es: seq<S.Event>) returns (run: seq<S.Event>)
    ensures S.Reaches(S.INIT, run, After(es))
    decreases |es|
  {
    run := [];
    if es != [] {
      var n := |es| - 1;
      run := AfterIsReached(es[..n]);
      if S.Enabled(After(es[..n]), es[n]) {
        OneMore(S.INIT, run, After(es[..n]), es[n]);
        run := run + [es[n]];
      }
    }
  }

  lemma {:induction false} OneMore(s: S.State, run: seq<S.Event>, t: S.State, e: S.Event)
    requires S.Reaches(s, run, t) && S.Linked(t) && S.Enabled(t, e)
    ensures S.Reaches(s, run + [e], S.Step(t, e))
    decreases |run|
  {
    if run == [] {
      assert [e][1..] == [] && run + [e] == [e];
    } else {
      assert (run + [e])[1..] == run[1..] + [e];
      OneMore(S.Step(s, run[0]), run[1..], t, e);
    }
  }

  // ---- the paths that an event adds -----------------------------------------------------------------------

  /** New connections are registered when they appear; no device is new. */
  predicate AddsConns(s: S.State, t: S.State) {
    t.conns.Keys == s.conns.Keys + t.registry && t.devs.Keys == s.devs.Keys
  }

  lemma ActivatePaths(s: S.State, q: Path, d: Path, exported: bool)
    requires S.Inv(s) && d in s.devs
    ensures AddsConns(s, S.Activate(s, q, d, exported)) && d in S.Activate(s, q, d, exported).devs
  {
    ReleasePaths(s, d);
    EnterPaths(S.Release(s, d), q, d, exported);
  }

  lemma ReleasePaths(s: S.State, d: Path)
    requires S.Inv(s) && d in s.devs
    ensures var r := S.Release(s, d); S.Linked(r) && d in r.devs && r.registry <= s.registry
    ensures var r := S.Release(s, d); r.conns.Keys == s.conns.Keys && r.devs.Keys == s.devs.Keys
  {
    I.ReleaseInv(s, d);
  }

  lemma EnterPaths(r: S.State, q: Path, d: Path, exported: bool)
    requires S.Linked(r) && d in r.devs
    ensures
      var t := S.Register(r, q, d, false, exported);
      AddsConns(r, if exported then S.Prepare(t, d, t.acGen) else t)
  {}

  lemma AutoConnectPaths(s: S.State, d: Path, q: Path, added: bool, exported: bool)
    requires S.Inv(s) && d in s.devs
    ensures AddsConns(s, S.AutoConnect(s, d, q, added, exported))
  {
    var t := S.WithDev(s, d, s.devs[d].(autoWired := true));
    I.TouchInv(s, d, t.devs[d]);
    I.AddProfileInv(t);
    var u := if q == NULL_PATH then S.AddProfile(t) else t;
    assert u.devs.Keys == s.devs.Keys && AddsConns(s, s);
    ActivatePaths(u, if q == NULL_PATH then u.profGen else q, d, exported);
  }

  lemma SettlePaths(s: S.State, p: Path, failed: bool, ctxDone: bool)
    requires S.Inv(s) && p in s.conns
    ensures AddsConns(s, S.Settle(s, p, failed, ctxDone))
  {}

  lemma AdoptPaths(s: S.State, d: Path, emptySSID: bool, q: Path, exported: bool)
    requires S.Linked(s) && d in s.devs
    ensures AddsConns(s, S.Adopt(s, d, emptySSID, q, exported))
  {}

  lemma WifiPaths(s: S.State, d: Path, w: S.WifiChange)
    requires S.Inv(s) && d in s.devs
    ensures AddsConns(s, S.WifiEvent(s, d, w))
  {
    if w.Connected? {
      AdoptPaths(S.Associated(s, d, w.emptySSID, w.ap), d, w.emptySSID, w.profile, w.exported);
    } else if w.Disconnected? {
      assert AddsConns(s, S.DropAdopted(s, d));
    }
  }

  lemma EffectPaths(s: S.State, p: Path, e: S.Effect)
    requires S.Inv(s) && p in s.conns
    ensures AddsConns(s, S.BringUpEffect(s, p, e))
  {}

  lemma DeletePaths(s: S.State, q: Path)
    requires S.Inv(s)
    ensures AddsConns(s, S.DeleteProfile(s, q))
  {}

  lemma NewPaths(s: S.State, e: S.Event)
    requires S.Inv(s) && S.Enabled(s, e) && !e.EvLink?
    ensures AddsConns(s, S.Step(s, e))
  {
    match e
    case EvAddProfile =>
    case EvReread(_, _) =>
    case EvActivate(q, d, exported) => ActivatePaths(s, q, d, exported);
    case EvAutoConnect(d, q, added, exported) => AutoConnectPaths(s, d, q, added, exported);
    case EvEffect(p, effect) => EffectPaths(s, p, effect);
    case EvSettle(p, failed, ctxDone) => SettlePaths(s, p, failed, ctxDone);
    case EvDeactivate(p) =>
    case EvWifi(iface, w) => WifiPaths(s, s.listed[iface], w);
    case EvDelete(q) => DeletePaths(s, q);
  }

  /** A new device is listed when it appears. */
  lemma LinkPaths(s: S.State, iface: string, kind: S.Kind, carrier: bool, up: bool)
    requires S.Inv(s)
    ensures
      var t := S.LinkChange(s, iface, kind, carrier, up);
      && t.conns == s.conns
      && t.devs.Keys == s.devs.Keys + if iface in t.listed then {t.listed[iface]} else {}
  {
    if up && iface in s.listed {
      assert s.devs.Keys + {s.listed[iface]} == s.devs.Keys;
    } else if up {
      assert S.AddDevice(s, kind, carrier).devs.Keys == s.devs.Keys + {s.devGen + 1};
    } else {
      assert s.devs.Keys + {} == s.devs.Keys;
    }
  }

  // ---- the objects ---------------------------------------------------------------------------------------------

  /** seen and made hold every device and every connection ever created, under its path. */
  ghost predicate Known(m: Manager, seen: map<Path, Device>, made: map<Path, ActiveConnection>)
    reads m
  {
    KnownDevices(m, seen) && KnownConns(m, made)
  }

  ghost predicate KnownDevices(m: Manager, seen: map<Path, Device>)
    reads m
  {
    seen.Keys == m.view.devs.Keys && forall d <- seen :: seen[d] in m.devs && seen[d].path == d
  }

  ghost predicate KnownConns(m: Manager, made: map<Path, ActiveConnection>)
    reads m
  {
    made.Keys == m.view.conns.Keys && forall p <- made :: made[p] in m.acs && made[p].path == p
  }

  method CanHappen(m: Manager, e: S.Event, seen: map<Path, Device>, made: map<Path, ActiveConnection>) returns (b: bool)
    requires m.Valid() && Known(m, seen, made)
    ensures b == S.Enabled(m.view, e)
  {
    match e {
      case EvAddProfile => b := true;
      case EvLink(_, _, _, _) => b := true;
      case EvReread(d, _) => b := d in seen;
      case EvActivate(q, d, _) => b := q in m.profiles && d in seen;
      case EvAutoConnect(d, q, _, _) => b := d in seen && (q == NULL_PATH || q in m.profiles);
      case EvEffect(p, _) => b := p in made && made[p].pending;
      case EvSettle(p, _, _) => b := p in made && made[p].pending;
      case EvDeactivate(p) => b := p in m.activeConns;
      case EvWifi(iface, w) => b := WifiCanHappen(m, iface, w);
      case EvDelete(q) => b := q in m.profiles;
    }
  }

  method WifiCanHappen(m: Manager, iface: string, w: S.WifiChange) returns (b: bool)
    requires m.Valid()
    ensures b == S.Enabled(m.view, S.EvWifi(iface, w))
  {
    b := iface in m.devByIface;
    if w.Connected? && w.profile != NULL_PATH && w.profile !in m.profiles { b := false; }
  }

  /** The events that may activate a connection. */
  method Bring(m: Manager, e: S.Event, seen: map<Path, Device>) returns (ghost acs: set<ActiveConnection>)
    requires m.Valid() && S.Linked(m.view) && KnownDevices(m, seen) && S.Enabled(m.view, e)
    requires e.EvActivate? || e.EvAutoConnect?
    modifies m, m.acs, m.devs
    ensures m.Valid() && m.view == S.Step(old(m.view), e) && m.devs == old(m.devs)
    ensures fresh(acs) && m.acs == old(m.acs) + acs
  {
    match e {
      case EvActivate(q, d, exported) =>
        var ac := m.Activate(q, seen[d], exported);
        acs := if ac != null then {ac} else {};
      case EvAutoConnect(d, q, added, exported) => acs := m.AutoConnectWired(seen[d], q, added, exported);
    }
  }

  /** The other events but those of links and radio. */
  method Change(m: Manager, e: S.Event, seen: map<Path, Device>, made: map<Path, ActiveConnection>)
    requires m.Valid() && S.Linked(m.view) && Known(m, seen, made) && S.Enabled(m.view, e)
    requires e.EvReread? || e.EvAddProfile? || e.EvEffect? || e.EvSettle? || e.EvDeactivate? || e.EvDelete?
    modifies m, m.acs, m.devs
    ensures m.Valid() && m.view == S.Step(old(m.view), e) && m.acs == old(m.acs) && m.devs == old(m.devs)
  {
    match e {
      case EvAddProfile => var _ := m.AddProfile();
      case EvReread(d, carrier) => m.RereadCarrier(seen[d], carrier);
      case EvEffect(p, effect) => m.BringUpEffect(made[p], effect);
      case EvSettle(p, failed, ctxDone) => m.Settle(made[p], failed, ctxDone);
      case EvDeactivate(p) => m.Deactivate(m.activeConns[p]);
      case EvDelete(q) => m.DeleteProfile(q);
    }
  }

  /** Registered objects and devices point at each other, and primary is null or registered. */
  ghost predicate InBijection(m: Manager)
    requires m.Valid()
    reads m, m.acs, m.devs
  {
    && (forall p <- m.activeConns :: !m.activeConns[p].gone && m.activeConns[p].device.activeConn == p)
    && (forall d <- m.devs :: d.activeConn != NULL_PATH ==>
          d.activeConn in m.activeConns && m.activeConns[d.activeConn].device == d)
    && (m.primary == NULL_PATH || m.primary in m.activeConns)
  }

  /** After a link event the device under its interface is known too. */
  lemma SeenMore(m: Manager, was: set<Device>, seen: map<Path, Device>, i: string)
    requires m.Valid() && was <= m.devs && forall d <- seen :: seen[d] in was && seen[d].path == d
    requires m.view.devs.Keys == seen.Keys + if i in m.view.listed then {m.view.listed[i]} else {}
    ensures KnownDevices(m, if i in m.devByIface then seen[m.devByIface[i].path := m.devByIface[i]] else seen)
  {
  }

  /** A link event, and the device it may have created. */
  method ServeLink(m: Manager, e: S.Event, seen0: map<Path, Device>)
    returns (seen: map<Path, Device>, ghost devs: set<Device>)
    requires m.Valid() && S.Inv(m.view) && KnownDevices(m, seen0) && e.EvLink?
    modifies m, m.devs
    ensures m.Valid() && KnownDevices(m, seen) && m.acs == old(m.acs) && m.view.conns == old(m.view.conns)
    ensures m.view == S.LinkChange(old(m.view), e.iface, e.kind, e.carrier, e.up)
    ensures fresh(devs) && m.devs == old(m.devs) + devs
  {
    seen := seen0;
    LinkPaths(m.view, e.iface, e.kind, e.carrier, e.up);
    devs := m.OnLinkEvent(e.iface, e.kind, e.carrier, e.up);
    SeenMore(m, old(m.devs), seen, e.iface);
    if e.iface in m.devByIface {
      seen := seen[m.devByIface[e.iface].path := m.devByIface[e.iface]];
    }
  }

  lemma MadeMore(m: Manager, was: set<ActiveConnection>, made: map<Path, ActiveConnection>)
    requires m.Valid() && was <= m.acs && forall p <- made :: made[p] in was && made[p].path == p
    requires m.view.conns.Keys == made.Keys + m.view.registry
    ensures KnownConns(m, made + m.activeConns)
  {
  }

  /** Any other event, and the connection it may have created. */
  method ServeOther(m: Manager, e: S.Event, seen: map<Path, Device>, made0: map<Path, ActiveConnection>)
    returns (made: map<Path, ActiveConnection>, ghost acs: set<ActiveConnection>)
    requires m.Valid() && S.Inv(m.view) && Known(m, seen, made0) && S.Enabled(m.view, e) && !e.EvLink?
    modifies m, m.acs, m.devs
    ensures m.Valid() && Known(m, seen, made) && m.devs == old(m.devs)
    ensures m.view == S.Step(old(m.view), e)
    ensures fresh(acs) && m.acs == old(m.acs) + acs
  {
    NewPaths(m.view, e);
    acs := {};
    if e.EvWifi? {
      acs := m.OnWifiEvent(e.iface, e.change);
    } else if e.EvActivate? || e.EvAutoConnect? {
      acs := Bring(m, e, seen);
    } else {
      Change(m, e, seen, made0);
    }
    MadeMore(m, old(m.acs), made0);
    made := made0 + m.activeConns;
  }

  method Serve(m: Manager, e: S.Event, seen0: map<Path, Device>, made0: map<Path, ActiveConnection>)
    returns (seen: map<Path, Device>, made: map<Path, ActiveConnection>,
             ghost acs: set<ActiveConnection>, ghost devs: set<Device>)
    requires m.Valid() && S.Inv(m.view) && Known(m, seen0, made0) && S.Enabled(m.view, e)
    modifies m, m.acs, m.devs
    ensures m.Valid() && Known(m, seen, made) && m.view == S.Step(old(m.view), e)
    ensures fresh(acs) && m.acs == old(m.acs) + acs && fresh(devs) && m.devs == old(m.devs) + devs
  {
    seen, made, acs, devs := seen0, made0, {}, {};
    if e.EvLink? {
      seen, devs := ServeLink(m, e, seen);
    } else {
      made, acs := ServeOther(m, e, seen, made);
    }
  }

  /** After any list of events, so after each of them, the objects are in bijection. */
  method Run(es: seq<S.Event>) returns (m: Manager)
    ensures m.Valid() && m.view == After(es) && InBijection(m)
  {
    m := new Manager();
    I.InitInv();
    var seen: map<Path, Device> := map[];
    var made: map<Path, ActiveConnection> := map[];
    for i := 0 to |es|
      invariant fresh(m) && fresh(m.acs) && fresh(m.devs)
      invariant m.Valid() && Known(m, seen, made) && m.view == After(es[..i])
    {
      AfterMore(es, i);
      var can := CanHappen(m, es[i], seen, made);
      if can {
        ghost var acs, devs;
        seen, made, acs, devs := Serve(m, es[i], seen, made);
      }
    }
    assert es[..|es|] == es;
    ObjectsInBijection(m);
  }
}
