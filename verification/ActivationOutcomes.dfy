/** What the steps of the activation state machine achieve, and what they leave alone. */
module ActivationOutcomes {
  import opened Common
  import opened ActivationInvariant
  import opened ActivationSpec

  /** Device dev is free, and otherwise as it was. */
  predicate FreedFrom(was: Dev, dev: Dev) {
    && dev.state == DEV_DISCONNECTED && dev.activeConn == dev.activeAP == dev.ip4 == dev.ip4obj == NULL_PATH
    && dev.kind == was.kind && dev.managed == was.managed && dev.carrier == was.carrier
    && dev.autoWired == was.autoWired
  }

  /** Connection c was torn down: it went through Deactivating to Deactivated. */
  predicate TornFrom(was: Conn, c: Conn) {
    && c.gone && c.History() == was.History() + [AC_DEACTIVATING, AC_DEACTIVATED]
    && c.profile == was.profile && c.device == was.device && c.adopted == was.adopted && c.pending == was.pending
    && c.ip4 == was.ip4
  }

  ghost predicate TornConns(was: map<Path, Conn>, now: map<Path, Conn>, ps: set<Path>) {
    && now.Keys == was.Keys
    && forall p <- was :: if p in ps then TornFrom(was[p], now[p]) else now[p] == was[p]
  }

  ghost predicate FreedDevs(was: map<Path, Dev>, now: map<Path, Dev>, ps: set<Path>) {
    && now.Keys == was.Keys
    && forall d <- was :: if was[d].activeConn in ps then FreedFrom(was[d], now[d]) else now[d] == was[d]
  }

  /** From s to r exactly the registered connections ps were torn down and their devices freed; nothing else changed. */
  ghost predicate TornDown(s: State, r: State, ps: set<Path>) {
    && ps <= s.registry && r.registry == s.registry - ps
    && TornConns(s.conns, r.conns, ps) && FreedDevs(s.devs, r.devs, ps)
    && r.primary == (if s.primary in ps then NULL_PATH else s.primary)
    && r.listed == s.listed && r.profiles == s.profiles
    && r.acGen == s.acGen && r.devGen == s.devGen && r.ipGen == s.ipGen && r.profGen == s.profGen
  }

  /** A new connection of profile q on device d, whose bring-up is running. */
  predicate IsStarting(c: Conn, q: Path, d: Path) {
    && c.profile == q && c.device == d && c.History() == [AC_ACTIVATING]
    && !c.adopted && !c.gone && c.pending && c.ip4 == NULL_PATH
  }

  /** From r to t, one new activating connection of profile q was bound to device d; nothing else changed. */
  ghost predicate Started(r: State, t: State, q: Path, d: Path) {
    && d in r.devs && t.acGen == r.acGen + 1 && t.acGen !in r.conns && t.acGen in t.conns
    && IsStarting(t.conns[t.acGen], q, d)
    && t == r.(acGen := t.acGen, conns := r.conns[t.acGen := t.conns[t.acGen]], registry := r.registry + {t.acGen},
               devs := r.devs[d := r.devs[d].(activeConn := t.acGen, state := DEV_PREPARE)])
  }

  lemma DeactivateTears(s: State, p: Path)
    requires Inv(s) && p in s.registry
    ensures TornDown(s, Deactivate(s, p), {p})
  {
    assert Torn(s.conns[p]).History() == s.conns[p].History() + [AC_DEACTIVATING, AC_DEACTIVATED];
  }

  lemma ReleaseTears(s: State, d: Path)
    requires Inv(s) && d in s.devs
    ensures TornDown(s, Release(s, d), {s.devs[d].activeConn} - {NULL_PATH}) && Linked(Release(s, d))
  {
    ReleaseInv(s, d);
    var p := s.devs[d].activeConn;
    if p != NULL_PATH {
      DeactivateTears(s, p);
      assert {p} - {NULL_PATH} == {p};
    }
  }

  lemma PrepareOutcome(r: State, q: Path, d: Path)
    requires Linked(r) && d in r.devs
    ensures Started(r, Prepare(Register(r, q, d, false, true), d, r.acGen + 1), q, d)
  {}

  /** A successful activation tears down what the device carried, then starts the new connection on it. */
  lemma ActivateReplaces(s: State, q: Path, d: Path) returns (r: State)
    requires Inv(s) && d in s.devs && q in s.profiles
    ensures TornDown(s, r, {s.devs[d].activeConn} - {NULL_PATH}) && Started(r, Activate(s, q, d, true), q, d)
  {
    r := Release(s, d);
    ReleaseTears(s, d);
    PrepareOutcome(r, q, d);
  }

  /** A bring-up that was not superseded ends with everything published, or with everything taken back. */
  lemma SettleOutcome(s: State, p: Path, failed: bool)
    requires Inv(s) && p in s.registry && s.conns[p].pending
    ensures
      var t, d, c := Settle(s, p, failed, false), s.conns[p].device, s.conns[p].(pending := false);
      if !failed && s.devs[d].kind in {Wifi, Ethernet, WireGuard} then
        t == s.(conns := s.conns[p := c.(past := [AC_ACTIVATING], state := AC_ACTIVATED)],
                devs := s.devs[d := s.devs[d].(state := DEV_ACTIVATED)], primary := p)
      else TornDown(s.(conns := s.conns[p := c]), t, {p})
  {
    var d, c := s.conns[p].device, s.conns[p].(pending := false);
    OnlyActivating(s.conns[p]);
    if failed || !(s.devs[d].kind in {Wifi, Ethernet, WireGuard}) {
      TouchConnInv(s, p, c);
      var u := s.(conns := s.conns[p := c]);
      DeactivateTears(u, p);
      FailureLeavesNoTrace(u, p);
    }
  }

  lemma OnlyActivating(c: Conn)
    requires Life(c, true) && c.pending && !c.adopted
    ensures c.past == [] && c.state == AC_ACTIVATING
  {
    assert c.History() == [AC_ACTIVATING];
    assert c.History()[|c.past|] == c.state;
  }

  /** The Failed state that the device shows for a moment leaves no trace. */
  lemma FailureLeavesNoTrace(s: State, p: Path)
    requires Resolves(s, p) && !s.conns[p].gone
    ensures
      var d := s.conns[p].device;
      var u := WithDev(s, d, s.devs[d].(state := DEV_FAILED));
      Resolves(u, p) && Deactivate(u, p) == Deactivate(s, p)
  {
    var d := s.conns[p].device;
    var dev := s.devs[d].(state := DEV_FAILED);
    assert Idle(dev) == Idle(s.devs[d]) && s.devs[d := dev][d := Idle(dev)] == s.devs[d := Idle(dev)];
  }

  // ---- leases that outlive their connection -----------------------------------------------------------------

  predicate NoLease(dev: Dev) { dev.ip4 == NULL_PATH && dev.ip4obj == NULL_PATH }

  /** dev carries no connection that this daemon brought up. */
  predicate Vacant(s: State, dev: Dev) {
    dev.activeConn == NULL_PATH || (dev.activeConn in s.conns && s.conns[dev.activeConn].adopted)
  }

  /** A device shows an IP4Config only while a connection that was brought up is bound to it. */
  ghost predicate NoStaleLease(s: State) {
    forall d <- s.devs :: Vacant(s, s.devs[d]) ==> NoLease(s.devs[d])
  }

  /** A bring-up publishes the lease it got on a device that carries no such connection any more. */
  ghost predicate LeavesLease(s: State, e: Event)
    requires Inv(s) && Enabled(s, e)
  {
    e.EvEffect? && e.effect == ApplyLease(true) &&
      var dev := s.devs[s.conns[e.conn].device];
      (dev.kind.Wifi? || dev.kind.Ethernet?) && Vacant(s, dev)
  }

  lemma DeactivateClean(s: State, p: Path)
    requires Inv(s) && NoStaleLease(s) && p in s.registry
    ensures NoStaleLease(Deactivate(s, p))
  {}

  lemma ActivateClean(s: State, q: Path, d: Path, exported: bool)
    requires Inv(s) && NoStaleLease(s) && d in s.devs
    ensures NoStaleLease(Activate(s, q, d, exported)) && d in Activate(s, q, d, exported).devs
  {
    ReleaseInv(s, d);
    if ActiveOn(s, d) != NULL_PATH { DeactivateClean(s, ActiveOn(s, d)); }
    EnterClean(Release(s, d), q, d, exported);
  }

  lemma EnterClean(r: State, q: Path, d: Path, exported: bool)
    requires Inv(r) && NoStaleLease(r) && d in r.devs
    ensures
      var t := Register(r, q, d, false, exported);
      NoStaleLease(if exported then Prepare(t, d, t.acGen) else t)
  {}

  /** Touching a device without binding or leasing it changes nothing about that. */
  lemma TouchClean(s: State, d: Path, dev: Dev)
    requires NoStaleLease(s) && d in s.devs
    requires dev.activeConn == s.devs[d].activeConn && dev.ip4 == s.devs[d].ip4 && dev.ip4obj == s.devs[d].ip4obj
    ensures NoStaleLease(WithDev(s, d, dev))
  {}

  lemma AutoConnectClean(s: State, d: Path, q: Path, added: bool, exported: bool)
    requires Inv(s) && NoStaleLease(s) && d in s.devs && (q == NULL_PATH || q in s.profiles)
    ensures NoStaleLease(AutoConnect(s, d, q, added, exported))
  {
    var t := WithDev(s, d, s.devs[d].(autoWired := true));
    TouchInv(s, d, t.devs[d]);
    TouchClean(s, d, t.devs[d]);
    AddProfileInv(t);
    var u := if q == NULL_PATH then AddProfile(t) else t;
    ActivateClean(u, if q == NULL_PATH then u.profGen else q, d, exported);
    var v := Activate(u, if q == NULL_PATH then u.profGen else q, d, exported);
    TouchClean(v, d, v.devs[d].(autoWired := false));
  }

  lemma SettleClean(s: State, p: Path, failed: bool, ctxDone: bool)
    requires Inv(s) && NoStaleLease(s) && p in s.conns && s.conns[p].pending
    ensures NoStaleLease(Settle(s, p, failed, ctxDone))
  {}

  lemma WifiClean(s: State, d: Path, w: WifiChange)
    requires Inv(s) && NoStaleLease(s) && d in s.devs
    ensures NoStaleLease(WifiEvent(s, d, w))
  {
    if s.devs[d].kind.Wifi? && w.Connected? {
      var t := Associated(s, d, w.emptySSID, w.ap);
      TouchClean(s, d, t.devs[d]);
      TouchInv(s, d, t.devs[d]);
      AdoptClean(t, d, w.emptySSID, w.profile, w.exported);
    } else if w.Disconnected? {
      DropClean(s, d);
    }
  }

  lemma AdoptClean(s: State, d: Path, emptySSID: bool, q: Path, exported: bool)
    requires Inv(s) && NoStaleLease(s) && d in s.devs
    ensures NoStaleLease(Adopt(s, d, emptySSID, q, exported))
  {}

  lemma DropClean(s: State, d: Path)
    requires Inv(s) && NoStaleLease(s) && d in s.devs
    ensures NoStaleLease(DropAdopted(s, d))
  {}

  lemma TearAllClean(s: State, ps: set<Path>)
    requires Inv(s) && NoStaleLease(s) && ps <= s.registry
    ensures NoStaleLease(TearAll(s, ps))
  {}

  lemma EffectClean(s: State, p: Path, e: Effect)
    requires Inv(s) && NoStaleLease(s) && p in s.conns && s.conns[p].pending
    ensures NoStaleLease(BringUpEffect(s, p, e)) <==> !LeavesLease(s, EvEffect(p, e))
  {
    var d, t := s.conns[p].device, BringUpEffect(s, p, e);
    if LeavesLease(s, EvEffect(p, e)) {
      assert Vacant(t, t.devs[d]) && !NoLease(t.devs[d]);
    }
  }

  /** Of all events exactly that leaves an IP4Config behind, on an idle device or under an adopted connection. */
  lemma StaleLeaseExactly(s: State, e: Event)
    requires Inv(s) && Enabled(s, e) && NoStaleLease(s)
    ensures NoStaleLease(Step(s, e)) <==> !LeavesLease(s, e)
  {
    match e
    case EvAddProfile =>
    case EvLink(_, _, _, _) =>
    case EvReread(_, _) =>
    case EvActivate(q, d, exported) => ActivateClean(s, q, d, exported);
    case EvAutoConnect(d, q, added, exported) => AutoConnectClean(s, d, q, added, exported);
    case EvEffect(p, effect) => EffectClean(s, p, effect);
    case EvSettle(p, failed, ctxDone) => SettleClean(s, p, failed, ctxDone);
    case EvDeactivate(p) => DeactivateClean(s, p);
    case EvWifi(iface, w) => WifiClean(s, s.listed[iface], w);
    case EvDelete(q) => TearAllClean(s, Users(s, q));
  }

  /** No lease of a vacant device is published anywhere in the run. */
  ghost predicate NeverLeaves(s: State, es: seq<Event>)
    requires Inv(s)
    decreases |es|
  {
    es != [] && Enabled(s, es[0]) ==>
      !LeavesLease(s, es[0]) && (StepInv(s, es[0]); NeverLeaves(Step(s, es[0]), es[1..]))
  }

  /** So over a run without such an event no device ever shows a lease it should not. */
  lemma {:induction false} CleanRun(s: State, es: seq<Event>, s': State)
    requires Inv(s) && NoStaleLease(s) && NeverLeaves(s, es) && Reaches(s, es, s')
    ensures NoStaleLease(s')
    decreases |es|
  {
    if es != [] {
      StaleLeaseExactly(s, es[0]);
      StepInv(s, es[0]);
      CleanRun(Step(s, es[0]), es[1..], s');
    }
  }

  /** It can happen to every bring-up: one that is deactivated just before its lease arrives leases an idle device. */
  lemma LateLease(s: State, p: Path)
    requires Inv(s) && p in s.registry && s.conns[p].pending
    requires s.devs[s.conns[p].device].kind.Wifi? || s.devs[s.conns[p].device].kind.Ethernet?
    ensures
      var d, t := s.conns[p].device, BringUpEffect(Deactivate(s, p), p, ApplyLease(true));
      && Reaches(s, [EvDeactivate(p), EvEffect(p, ApplyLease(true))], t) && p !in t.registry
      && d in t.devs && t.devs[d] == Idle(s.devs[d]).(ip4 := s.ipGen + 1, ip4obj := s.ipGen + 1)
  {
    DeactivateInv(s, p);
    DeactivatedShows(s, p);
    EffectShows(Deactivate(s, p), p);
    TwoEvents(s, EvDeactivate(p), EvEffect(p, ApplyLease(true)));
  }

  lemma DeactivatedShows(s: State, p: Path)
    requires Resolves(s, p) && !s.conns[p].gone
    ensures
      var u, d := Deactivate(s, p), s.conns[p].device;
      && Resolves(u, p) && u.conns[p] == Torn(s.conns[p]) && u.conns[p].pending == s.conns[p].pending
      && u.conns[p].device == d && u.devs[d] == Idle(s.devs[d]) && u.ipGen == s.ipGen && p !in u.registry
  {}

  lemma EffectShows(u: State, p: Path)
    requires Resolves(u, p)
    requires u.devs[u.conns[p].device].kind.Wifi? || u.devs[u.conns[p].device].kind.Ethernet?
    ensures
      var d, t := u.conns[p].device, BringUpEffect(u, p, ApplyLease(true));
      t.registry == u.registry && d in t.devs && t.devs[d] == u.devs[d].(ip4 := u.ipGen + 1, ip4obj := u.ipGen + 1)
  {}

  lemma TwoEvents(s: State, a: Event, b: Event)
    requires Linked(s) && Enabled(s, a) && Linked(Step(s, a)) && Enabled(Step(s, a), b)
    ensures Reaches(s, [a, b], Step(Step(s, a), b))
  {
    var u := Step(s, a);
    assert [a, b][1..] == [b] && [b][1..] == [];
    assert Reaches(Step(u, b), [], Step(u, b)) && Reaches(u, [b], Step(u, b));
  }
}
