/** What holds over every run of the activation state machine. */
module ActivationRuns {
  import opened Common
  import opened ActivationInvariant
  import opened ActivationSpec

  /** Every state that a run can reach satisfies the whole invariant. */
  lemma {:induction false} ReachableInv(s: State, es: seq<Event>, s': State)
    requires Inv(s) && Reaches(s, es, s')
    ensures Inv(s')
    decreases |es|
  {
    if es != [] {
      StepInv(s, es[0]);
      ReachableInv(Step(s, es[0]), es[1..], s');
    }
  }

  /** In every reachable state no device carries two connections. */
  lemma OneConnectionPerDevice(es: seq<Event>, s: State, p: Path, q: Path)
    requires Reaches(INIT, es, s) && p in s.registry && q in s.registry
    requires p in s.conns && q in s.conns && s.conns[p].device == s.conns[q].device
    ensures p == q
  {
    ReachableInv(INIT, es, s);
  }

  /** From s to s' every connection kept its identity, and its history was only extended. */
  ghost predicate Evolves(s: State, s': State) {
    && s.acGen <= s'.acGen && s.profGen <= s'.profGen && s.conns.Keys <= s'.conns.Keys
    && (forall p <- s.conns :: Successor(s.conns[p], s'.conns[p]))
    && (forall p <- s'.registry :: p in s.registry || p !in s.conns)
    && (forall p <- s'.conns :: p in s.conns || p > s.acGen)
    && (forall q <- s'.profiles :: q in s.profiles || q > s.profGen)
  }

  predicate Successor(c: Conn, c': Conn) {
    && c'.profile == c.profile && c'.device == c.device && c'.adopted == c.adopted && (c.gone ==> c'.gone)
    && c.History() <= c'.History() && c.state <= c'.state && (c'.pending ==> c.pending)
  }

  lemma EvolvesTransitive(a: State, b: State, c: State)
    requires Evolves(a, b) && Evolves(b, c)
    ensures Evolves(a, c)
  {
    forall p <- a.conns ensures Successor(a.conns[p], c.conns[p]) {
      assert Successor(a.conns[p], b.conns[p]) && Successor(b.conns[p], c.conns[p]);
    }
    forall p <- c.registry ensures p in a.registry || p !in a.conns {
      assert p in b.registry || p !in b.conns;
    }
  }

  lemma SuccessorOfSet(c: Conn, v: nat)
    requires c.state <= v
    ensures Successor(c, c.SetState(v)) && Successor(c.(gone := true), c.(gone := true).SetState(v))
  {
    assert c.SetState(v).History() == c.History() + [v];
    assert c.(gone := true).SetState(v).History() == c.(gone := true).History() + [v];
  }

  lemma LiveState(c: Conn)
    requires Life(c, true)
    ensures c.state <= AC_ACTIVATED && (c.pending && !c.adopted ==> c.state == AC_ACTIVATING)
  {
    var h := c.History();
    assert h[|h| - 1] == c.state;
  }

  lemma SuccessorOfTorn(c: Conn)
    requires c.state <= AC_DEACTIVATING
    ensures Successor(c, Torn(c))
  {
    var g := c.(gone := true);
    assert g.SetState(AC_DEACTIVATING).History() == c.History() + [AC_DEACTIVATING];
    assert Torn(c).History() == c.History() + [AC_DEACTIVATING] + [AC_DEACTIVATED];
  }

  lemma DeactivateEvolves(s: State, p: Path)
    requires Inv(s) && p in s.registry
    ensures Inv(Deactivate(s, p)) && Evolves(s, Deactivate(s, p))
  {
    DeactivateInv(s, p);
    assert Life(s.conns[p], true);
    LiveState(s.conns[p]);
    SuccessorOfTorn(s.conns[p]);
  }

  lemma ReleaseEvolves(s: State, d: Path)
    requires Inv(s) && d in s.devs
    ensures Inv(Release(s, d)) && d in Release(s, d).devs && Evolves(s, Release(s, d))
  {
    var cur := ActiveOn(s, d);
    if cur != NULL_PATH {
      DeactivateEvolves(s, cur);
    }
  }

  lemma RegisterEvolves(s: State, q: Path, d: Path, exported: bool)
    requires Linked(s) && d in s.devs
    ensures
      var t := Register(s, q, d, false, exported);
      Evolves(s, if exported then Prepare(t, d, t.acGen) else t)
  {}

  lemma ActivateEvolves(s: State, q: Path, d: Path, exported: bool)
    requires Inv(s) && d in s.devs
    ensures Evolves(s, Activate(s, q, d, exported))
  {
    ReleaseEvolves(s, d);
    RegisterEvolves(Release(s, d), q, d, exported);
    EvolvesTransitive(s, Release(s, d), Activate(s, q, d, exported));
  }

  lemma SettleEvolves(s: State, p: Path, failed: bool, ctxDone: bool)
    requires Inv(s) && p in s.conns && s.conns[p].pending
    ensures Evolves(s, Settle(s, p, failed, ctxDone))
  {
    var c := s.conns[p].(pending := false);
    assert Life(s.conns[p], p in s.registry);
    if !ctxDone && !c.gone {
      LiveState(s.conns[p]);
    }
    SettledSuccessor(s.conns[p], failed || !Supported(s.devs[c.device].kind), ctxDone);
    SettledConns(s, p, failed, ctxDone);
    OneConnEvolves(s, Settle(s, p, failed, ctxDone), p);
  }

  lemma SettledConns(s: State, p: Path, failed: bool, ctxDone: bool)
    requires Resolves(s, p)
    ensures
      var c, t := s.conns[p].(pending := false), Settle(s, p, failed, ctxDone);
      && t.conns == s.conns[p := if ctxDone || c.gone then c
                                 else if failed || !Supported(s.devs[c.device].kind) then Torn(c)
                                 else c.SetState(AC_ACTIVATED)]
      && t.registry <= s.registry && t.profiles == s.profiles && t.acGen == s.acGen && t.profGen == s.profGen
  {}

  lemma OneConnEvolves(s: State, t: State, p: Path)
    requires p in s.conns && p in t.conns && t.conns == s.conns[p := t.conns[p]] && Successor(s.conns[p], t.conns[p])
    requires t.registry <= s.registry && t.profiles == s.profiles && t.acGen == s.acGen && t.profGen == s.profGen
    ensures Evolves(s, t)
  {}

  /** What a settle can make of its own connection. */
  lemma SettledSuccessor(was: Conn, failed: bool, ctxDone: bool)
    requires !ctxDone && !was.gone ==> was.state <= AC_ACTIVATED
    ensures
      var c := was.(pending := false);
      Successor(was, if ctxDone || c.gone then c else if failed then Torn(c) else c.SetState(AC_ACTIVATED))
  {
    var c := was.(pending := false);
    assert c.History() == was.History();
    if !ctxDone && !c.gone {
      SuccessorOfTorn(c);
      SuccessorOfSet(c, AC_ACTIVATED);
    }
  }

  lemma DropEvolves(s: State, d: Path)
    requires Inv(s) && d in s.devs
    ensures Evolves(s, DropAdopted(s, d))
  {
    var p := s.devs[d].activeConn;
    if p in s.registry && s.conns[p].adopted {
      LiveState(s.conns[p]);
      SuccessorOfSet(s.conns[p], AC_DEACTIVATED);
    }
  }

  lemma TearAllEvolves(s: State, ps: set<Path>)
    requires Inv(s) && ps <= s.registry
    ensures Evolves(s, TearAll(s, ps))
  {
    forall p <- s.conns ensures Successor(s.conns[p], TearAll(s, ps).conns[p]) {
      if p in ps {
        LiveState(s.conns[p]);
        SuccessorOfTorn(s.conns[p]);
      }
    }
  }

  lemma AutoConnectEvolves(s: State, d: Path, q: Path, added: bool, exported: bool)
    requires Inv(s) && d in s.devs && (q == NULL_PATH || q in s.profiles)
    ensures Evolves(s, AutoConnect(s, d, q, added, exported))
  {
    var t := s.(devs := s.devs[d := s.devs[d].(autoWired := true)]);
    TouchInv(s, d, t.devs[d]);
    var u := if q == NULL_PATH then AddProfile(t) else t;
    ActivateEvolves(u, if q == NULL_PATH then u.profGen else q, d, exported);
  }

  lemma WifiEvolves(s: State, d: Path, w: WifiChange)
    requires Inv(s) && d in s.devs
    ensures Evolves(s, WifiEvent(s, d, w))
  {
    var dev := s.devs[d];
    if dev.kind.Wifi? && w.Connected? {
      var dev' := dev.(state := DEV_ACTIVATED, activeAP := if w.emptySSID then dev.activeAP else w.ap);
      AdoptEvolves(s.(devs := s.devs[d := dev']), d, w.emptySSID, w.profile, w.exported);
    } else if w.Disconnected? {
      DropEvolves(s, d);
    }
  }

  lemma AdoptEvolves(s: State, d: Path, emptySSID: bool, q: Path, exported: bool)
    requires Linked(s) && d in s.devs
    ensures Evolves(s, Adopt(s, d, emptySSID, q, exported))
  {}

  lemma EffectEvolves(s: State, p: Path, e: Effect)
    requires Inv(s) && p in s.conns
    ensures Evolves(s, BringUpEffect(s, p, e))
  {
    EffectConns(s, p, e);
    OneConnEvolves(s, BringUpEffect(s, p, e), p);
  }

  lemma EffectConns(s: State, p: Path, e: Effect)
    requires Resolves(s, p)
    ensures
      var t := BringUpEffect(s, p, e);
      && p in t.conns && t.conns == s.conns[p := t.conns[p]] && Successor(s.conns[p], t.conns[p])
      && t.registry == s.registry && t.profiles == s.profiles && t.acGen == s.acGen && t.profGen == s.profGen
  {
    var c := s.conns[p].(ip4 := s.ipGen + 1);
    assert c.History() == s.conns[p].History();
    var t := BringUpEffect(s, p, e);
    assert t.conns == s.conns || t.conns == s.conns[p := c];
  }

  lemma StepEvolves(s: State, e: Event)
    requires Inv(s) && Enabled(s, e)
    ensures Evolves(s, Step(s, e))
  {
    match e
    case EvAddProfile =>
    case EvLink(_, _, _, _) =>
    case EvReread(_, _) =>
    case EvActivate(q, d, exported) => ActivateEvolves(s, q, d, exported);
    case EvAutoConnect(d, q, added, exported) => AutoConnectEvolves(s, d, q, added, exported);
    case EvEffect(p, effect) => EffectEvolves(s, p, effect);
    case EvSettle(p, failed, ctxDone) => SettleEvolves(s, p, failed, ctxDone);
    case EvDeactivate(p) => DeactivateEvolves(s, p);
    case EvWifi(iface, w) => WifiEvolves(s, s.listed[iface], w);
    case EvDelete(q) => TearAllEvolves(s, Users(s, q));
  }

  lemma {:induction false} RunEvolves(s: State, es: seq<Event>, s': State)
    requires Inv(s) && Reaches(s, es, s')
    ensures Inv(s') && Evolves(s, s')
    decreases |es|
  {
    if es != [] {
      StepInv(s, es[0]);
      StepEvolves(s, es[0]);
      RunEvolves(Step(s, es[0]), es[1..], s');
      EvolvesTransitive(s, Step(s, es[0]), s');
    }
  }

  ghost predicate StrictlyAscending(h: seq<nat>) { forall i, j | 0 <= i < j < |h| :: h[i] < h[j] }

  lemma LifeAscends(c: Conn, registered: bool)
    requires Life(c, registered)
    ensures StrictlyAscending(c.History()) && 1 <= |c.History()| <= 4
  {}

  /**
    Over every run a connection's State never decreases: what it showed before stays the front of
    what it has shown since, and the whole record is strictly ascending.
   */
  lemma StateNeverDecreases(es: seq<Event>, s: State, fs: seq<Event>, s': State, p: Path)
    requires Reaches(INIT, es, s) && Reaches(s, fs, s') && p in s.conns
    ensures p in s'.conns && s.conns[p].state <= s'.conns[p].state
    ensures s.conns[p].History() <= s'.conns[p].History() && StrictlyAscending(s'.conns[p].History())
  {
    ReachableInv(INIT, es, s);
    RunEvolves(s, fs, s');
    LifeAscends(s'.conns[p], p in s'.registry);
    assert Successor(s.conns[p], s'.conns[p]);
  }

  lemma DeadHistory(c: Conn, c': Conn)
    requires Life(c, false) && Life(c', false) && c.History() <= c'.History()
    ensures c'.History() == c.History() && c'.state == AC_DEACTIVATED
  {
    var h, h' := c.History(), c'.History();
    assert h[|h| - 1] == c.state == AC_DEACTIVATED && h'[|h'| - 1] == c'.state == AC_DEACTIVATED;
    assert h'[|h| - 1] == AC_DEACTIVATED;
    LifeAscends(c', false);
    assert |h'| == |h|;
  }

  /**
    A connection that left the registry, by deactivate or by the loss of an adopted association,
    shows Deactivated and stays that way: no bring-up, settle or event revives it.
   */
  lemma NeverRevived(es: seq<Event>, s: State, fs: seq<Event>, s': State, p: Path)
    requires Reaches(INIT, es, s) && p in s.conns && p !in s.registry && Reaches(s, fs, s')
    ensures p in s'.conns && p !in s'.registry && s'.primary != p
    ensures s'.conns[p].History() == s.conns[p].History() && s'.conns[p].state == AC_DEACTIVATED
    ensures forall d <- s'.devs :: s'.devs[d].activeConn != p
  {
    ReachableInv(INIT, es, s);
    RunEvolves(s, fs, s');
    assert Successor(s.conns[p], s'.conns[p]);
    DeadHistory(s.conns[p], s'.conns[p]);
  }

  /** A bring-up that was superseded settles without touching anything but its own bookkeeping. */
  lemma SupersededSettleIsInert(s: State, p: Path, failed: bool, ctxDone: bool)
    requires Inv(s) && p in s.conns && s.conns[p].pending && (ctxDone || p !in s.registry)
    ensures Settle(s, p, failed, ctxDone) == s.(conns := s.conns[p := s.conns[p].(pending := false)])
  {
    assert Life(s.conns[p], p in s.registry);
  }

  /** Deleting a profile leaves no connection using it, then or ever after. */
  lemma DeleteLeavesNone(es: seq<Event>, s: State, q: Path, fs: seq<Event>, s': State)
    requires Reaches(INIT, es, s) && q in s.profiles
    requires Linked(s) && Reaches(DeleteProfile(s, q), fs, s')
    ensures q !in s'.profiles && s'.registry <= s'.conns.Keys
    ensures forall p <- s'.registry :: s'.conns[p].profile != q
  {
    ReachableInv(INIT, es, s);
    DeleteInv(s, q);
    RunEvolves(DeleteProfile(s, q), fs, s');
  }
}
