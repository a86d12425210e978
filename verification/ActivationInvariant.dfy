/** Every step of the activation state machine keeps its invariant. */
module ActivationInvariant {
  import opened Common
  import opened ActivationSpec

  lemma InitInv()
    ensures Inv(INIT)
  {}

  lemma DeactivateInv(s: State, p: Path)
    requires Inv(s) && p in s.registry
    ensures Inv(Deactivate(s, p))
    ensures p !in Deactivate(s, p).registry
  {}

  lemma ReleaseInv(s: State, d: Path)
    requires Inv(s) && d in s.devs
    ensures Inv(Release(s, d)) && d in Release(s, d).devs
    ensures Release(s, d).devs[d].activeConn == NULL_PATH
    ensures Release(s, d).profiles == s.profiles
  {
    var cur := ActiveOn(s, d);
    if cur != NULL_PATH {
      DeactivateInv(s, cur);
    }
  }

  lemma ActivateInv(s: State, q: Path, d: Path, exported: bool)
    requires Inv(s) && d in s.devs && q in s.profiles
    ensures Inv(Activate(s, q, d, exported))
  {
    ReleaseInv(s, d);
    var r := Release(s, d);
    if exported {
      BindInv(r, q, d);
    } else {
      AcGenInv(r);
    }
  }

  lemma AcGenInv(s: State)
    requires Inv(s)
    ensures Inv(s.(acGen := s.acGen + 1))
  {}

  /** A new connection on a free device. */
  lemma BindInv(s: State, q: Path, d: Path)
    requires Inv(s) && d in s.devs && s.devs[d].activeConn == NULL_PATH && q in s.profiles
    ensures Inv(Prepare(Register(s, q, d, false, true), d, s.acGen + 1))
  {
    var t := Prepare(Register(s, q, d, false, true), d, s.acGen + 1);
    NewConnectionInv(s, q, d, false, t);
  }

  /** Whatever else it sets, a state with one more connection, bound to a device that was free. */
  lemma NewConnectionInv(s: State, q: Path, d: Path, adopted: bool, t: State)
    requires Inv(s) && d in s.devs && s.devs[d].activeConn == NULL_PATH && (q == NULL_PATH || q in s.profiles)
    requires t.acGen == s.acGen + 1 && t.conns == s.conns[t.acGen := NewConn(q, d, adopted)]
      && t.registry == s.registry + {t.acGen}
    requires t.devs.Keys == s.devs.Keys && t.devs[d].activeConn == t.acGen && t.devs[d].kind == s.devs[d].kind
    requires t.devs[d].kind.Wifi? || t.devs[d].state != DEV_ACTIVATED
    requires forall x <- s.devs :: x != d ==> t.devs[x] == s.devs[x]
    requires t.listed == s.listed && t.devGen == s.devGen && t.profiles == s.profiles && t.profGen == s.profGen
    requires t.primary == NULL_PATH || t.primary in t.registry
    ensures Inv(t)
  {
    NewConnectionLinked(s, q, d, adopted, t);
    NewConnectionLives(s, q, d, adopted, t);
  }

  lemma NewConnectionLinked(s: State, q: Path, d: Path, adopted: bool, t: State)
    requires Linked(s) && Bijection(s) && d in s.devs && s.devs[d].activeConn == NULL_PATH
    requires t.acGen == s.acGen + 1 && t.conns == s.conns[t.acGen := NewConn(q, d, adopted)]
      && t.registry == s.registry + {t.acGen}
    requires t.devs.Keys == s.devs.Keys && t.devs[d].activeConn == t.acGen
    requires forall x <- s.devs :: x != d ==> t.devs[x] == s.devs[x]
    requires t.listed == s.listed && t.devGen == s.devGen && t.profiles == s.profiles && t.profGen == s.profGen
    ensures Linked(t) && Bijection(t)
  {}

  lemma NewConnectionLives(s: State, q: Path, d: Path, adopted: bool, t: State)
    requires Linked(s) && Lives(s) && ActivatedIsBound(s) && d in s.devs
    requires t.acGen == s.acGen + 1 && t.conns == s.conns[t.acGen := NewConn(q, d, adopted)]
      && t.registry == s.registry + {t.acGen}
    requires t.devs.Keys == s.devs.Keys && (t.devs[d].kind.Wifi? || t.devs[d].state != DEV_ACTIVATED)
    requires forall x <- s.devs :: x != d ==> t.devs[x] == s.devs[x]
    ensures Lives(t) && ActivatedIsBound(t)
  {
    forall p | p in t.conns ensures Life(t.conns[p], p in t.registry) && (t.conns[p].adopted ==> !t.conns[p].pending) {
      if p != t.acGen {
        assert p in s.conns && (p in t.registry <==> p in s.registry);
      }
    }
  }

  /** Writes to a device that keep its kind and binding, and do not claim Activated, are harmless. */
  lemma TouchInv(s: State, d: Path, dev: Dev)
    requires Inv(s) && d in s.devs
    requires dev.kind == s.devs[d].kind && dev.activeConn == s.devs[d].activeConn
    requires dev.kind.Wifi? || dev.state == s.devs[d].state || dev.state != DEV_ACTIVATED
    ensures Inv(s.(devs := s.devs[d := dev]))
  {}

  /** So are writes to a connection that keep its life and its links, once its bring-up is over. */
  lemma TouchConnInv(s: State, p: Path, c: Conn)
    requires Inv(s) && p in s.conns && c.adopted == s.conns[p].adopted && c.gone == s.conns[p].gone
    requires c.device == s.conns[p].device && c.profile == s.conns[p].profile && c.History() == s.conns[p].History()
    requires c.state == s.conns[p].state && (c.pending ==> s.conns[p].pending)
    ensures Inv(s.(conns := s.conns[p := c]))
  {}

  lemma SettleInv(s: State, p: Path, failed: bool, ctxDone: bool)
    requires Inv(s) && p in s.conns && s.conns[p].pending
    ensures Inv(Settle(s, p, failed, ctxDone))
  {
    var c := s.conns[p].(pending := false);
    var t := s.(conns := s.conns[p := c]);
    TouchConnInv(s, p, c);
    if !ctxDone && !c.gone {
      assert p in s.registry;
      var dev := t.devs[c.device];
      if failed || !Supported(dev.kind) {
        var u := t.(devs := t.devs[c.device := dev.(state := DEV_FAILED)]);
        TouchInv(t, c.device, dev.(state := DEV_FAILED));
        DeactivateInv(u, p);
      } else {
        SuccessInv(s, p);
      }
    }
  }

  lemma SuccessInv(s: State, p: Path)
    requires Inv(s) && p in s.registry && s.conns[p].pending
    ensures
      var c := s.conns[p].(pending := false);
      Inv(s.(conns := s.conns[p := c.SetState(AC_ACTIVATED)],
             devs := s.devs[c.device := s.devs[c.device].(state := DEV_ACTIVATED)],
             primary := p))
  {}

  lemma AdoptInv(s: State, d: Path, emptySSID: bool, q: Path, exported: bool)
    requires Inv(s) && d in s.devs && s.devs[d].kind.Wifi? && (q == NULL_PATH || q in s.profiles)
    ensures Inv(Adopt(s, d, emptySSID, q, exported))
  {
    if !emptySSID && s.devs[d].activeConn == NULL_PATH {
      if exported { AdoptBindInv(s, d, q); } else { AcGenInv(s); }
    }
  }

  /** An adopted connection on a free wifi device. */
  lemma AdoptBindInv(s: State, d: Path, q: Path)
    requires Inv(s) && d in s.devs && s.devs[d].kind.Wifi? && s.devs[d].activeConn == NULL_PATH
    requires q == NULL_PATH || q in s.profiles
    ensures Inv(Adopted(s, d, q))
  {
    NewConnectionInv(s, q, d, true, Adopted(s, d, q));
  }

  lemma DropInv(s: State, d: Path)
    requires Inv(s) && d in s.devs && s.devs[d].kind.Wifi?
    ensures Inv(DropAdopted(s, d))
    ensures d in DropAdopted(s, d).devs && DropAdopted(s, d).devs[d].kind.Wifi?
  {}

  lemma WifiInv(s: State, d: Path, w: WifiChange)
    requires Inv(s) && d in s.devs
    requires w.Connected? ==> w.profile == NULL_PATH || w.profile in s.profiles
    ensures Inv(WifiEvent(s, d, w))
  {
    var dev := s.devs[d];
    if dev.kind.Wifi? {
      match w
      case Connected(empty, ap, q, exported) =>
        var dev' := dev.(state := DEV_ACTIVATED, activeAP := if empty then dev.activeAP else ap);
        TouchInv(s, d, dev');
        AdoptInv(s.(devs := s.devs[d := dev']), d, empty, q, exported);
      case Connecting => TouchInv(s, d, dev.(state := DEV_CONFIG));
      case Disconnecting => TouchInv(s, d, dev.(state := DEV_DEACTIVATING));
      case Disconnected =>
        DropInv(s, d);
        var t := DropAdopted(s, d);
        TouchInv(t, d, t.devs[d].(state := DEV_DISCONNECTED, activeAP := NULL_PATH));
    }
  }

  lemma EffectInv(s: State, p: Path, e: Effect)
    requires Inv(s) && p in s.conns
    ensures Inv(BringUpEffect(s, p, e))
  {
    var d := s.conns[p].device;
    if !e.ApplyLease? {
      TouchInv(s, d, Touched(s.devs[d], e));
    } else {
      LeaseInv(s, p, e.exported);
    }
  }

  lemma LeaseInv(s: State, p: Path, exported: bool)
    requires Inv(s) && p in s.conns
    ensures Inv(Leased(s, p, exported))
  {
    var i := s.ipGen + 1;
    if exported {
      LeaseBoundInv(s, p, i);
      assert Leased(s, p, exported) == WithLease(s, p, i);
    } else {
      IpGenInv(s, i);
      assert Leased(s, p, exported) == s.(ipGen := i);
    }
  }

  lemma LeaseBoundInv(s: State, p: Path, i: nat)
    requires Inv(s) && p in s.conns
    ensures Inv(WithLease(s, p, i))
  {
    var d := s.conns[p].device;
    IpGenInv(s, i);
    TouchInv(s.(ipGen := i), d, s.devs[d].(ip4obj := i, ip4 := i));
    var c := s.conns[p].(ip4 := i);
    assert c.History() == s.conns[p].History();
    TouchConnInv(BindDevIP4(s.(ipGen := i), d, i), p, c);
  }

  lemma IpGenInv(s: State, i: nat)
    requires Inv(s)
    ensures Inv(s.(ipGen := i))
  {}

  lemma LinkInv(s: State, iface: string, kind: Kind, carrier: bool, up: bool)
    requires Inv(s)
    ensures Inv(LinkChange(s, iface, kind, carrier, up))
  {
    if up && iface in s.listed {
      var d := s.listed[iface];
      var dev := s.devs[d];
      TouchInv(s, d, Relinked(dev, carrier));
    }
  }

  lemma RereadInv(s: State, d: Path, carrier: bool)
    requires Inv(s) && d in s.devs
    ensures Inv(Reread(s, d, carrier))
  {
    TouchInv(s, d, s.devs[d].(carrier := carrier));
  }

  lemma AutoConnectInv(s: State, d: Path, q: Path, added: bool, exported: bool)
    requires Inv(s) && d in s.devs && (q == NULL_PATH || q in s.profiles)
    ensures Inv(AutoConnect(s, d, q, added, exported))
  {
    var t := WithDev(s, d, s.devs[d].(autoWired := true));
    TouchInv(s, d, t.devs[d]);
    AddProfileInv(s);
    AddProfileInv(t);
    var u := if q == NULL_PATH then AddProfile(t) else t;
    AttemptInv(u, if q == NULL_PATH then u.profGen else q, d, exported);
  }

  lemma AttemptInv(u: State, q: Path, d: Path, exported: bool)
    requires Inv(u) && d in u.devs && q in u.profiles
    ensures
      var v := Activate(u, q, d, exported);
      d in v.devs && Inv(v) && Inv(WithDev(v, d, v.devs[d].(autoWired := false)))
  {
    ActivateInv(u, q, d, exported);
    var v := Activate(u, q, d, exported);
    TouchInv(v, d, v.devs[d].(autoWired := false));
  }

  lemma AddProfileInv(s: State)
    requires Inv(s)
    ensures Inv(AddProfile(s))
  {}

  lemma TearAllInv(s: State, ps: set<Path>)
    requires Inv(s) && ps <= s.registry
    ensures Inv(TearAll(s, ps)) && TearAll(s, ps).registry == s.registry - ps
    ensures TearAll(s, ps).profiles == s.profiles
    decreases ps
  {
    if ps == {} {
      TearNone(s);
    } else {
      var p :| p in ps;
      var rest := ps - {p};
      TearAllInv(s, rest);
      assert rest + {p} == ps;
      TearOneInv(s, rest, p);
    }
  }

  lemma TearOneInv(s: State, rest: set<Path>, p: Path)
    requires Inv(s) && rest <= s.registry && p in s.registry && p !in rest
    requires Inv(TearAll(s, rest)) && TearAll(s, rest).registry == s.registry - rest
    ensures Inv(TearAll(s, rest + {p})) && TearAll(s, rest + {p}).registry == s.registry - (rest + {p})
  {
    TearOneMore(s, rest, p);
    var t := TearAll(s, rest);
    DeactivateInv(t, p);
    assert !t.conns[p].gone && Deactivate(t, p).registry == t.registry - {p};
  }

  lemma DeleteInv(s: State, q: Path)
    requires Inv(s) && q in s.profiles
    ensures Inv(DeleteProfile(s, q))
  {
    TearAllInv(s, Users(s, q));
  }

  lemma StepInv(s: State, e: Event)
    requires Inv(s) && Enabled(s, e)
    ensures Inv(Step(s, e))
  {
    match e
    case EvAddProfile =>
    case EvLink(iface, kind, carrier, up) => LinkInv(s, iface, kind, carrier, up);
    case EvReread(d, carrier) => RereadInv(s, d, carrier);
    case EvActivate(q, d, exported) => ActivateInv(s, q, d, exported);
    case EvAutoConnect(d, q, added, exported) => AutoConnectInv(s, d, q, added, exported);
    case EvEffect(p, effect) => EffectInv(s, p, effect);
    case EvSettle(p, failed, ctxDone) => SettleInv(s, p, failed, ctxDone);
    case EvDeactivate(p) => DeactivateInv(s, p);
    case EvWifi(iface, w) => WifiInv(s, s.listed[iface], w);
    case EvDelete(q) => DeleteInv(s, q);
  }
}
